/** Dropping repeats while keeping first-occurrence order: config.go's dedupe and register.go's registeredQueues. */
module Dedup {

  /** The elements of `s`, each once, where it first occurs. */
  function Firsts(s: seq<string>): seq<string> {
    if s == [] then []
    else
      var init, last := s[..|s| - 1], s[|s| - 1];
      if last in init then Firsts(init) else Firsts(init) + [last]
  }

  /** dedupe: compacts into the very array it is reading. */
  method DedupeInPlace(a: array<string>) returns (n: nat)
    modifies a
    ensures n <= a.Length
    ensures a[..n] == Firsts(old(a[..]))
    ensures a[n..] == old(a[n..])
  {
    var seen: set<string> := {};
    n := 0;
    ghost var input := a[..];
    for i := 0 to a.Length
      invariant n <= i
      invariant a[..n] == Firsts(input[..i])
      invariant forall x :: x in seen <==> x in input[..i]
      invariant forall k :: n <= k < a.Length ==> a[k] == input[k]
    {
      var s := a[i];
      assert input[..i + 1][..i] == input[..i];
      if s !in seen {
        seen := seen + {s};
        a[n] := s;
        n := n + 1;
      }
    }
    assert input[..a.Length] == input;
  }

  /** registeredQueues: the same pass into a fresh list. */
  method DedupeFresh(list: seq<string>) returns (out: seq<string>)
    ensures out == Firsts(list)
  {
    var seen: set<string> := {};
    out := [];
    for i := 0 to |list|
      invariant out == Firsts(list[..i])
      invariant forall x :: x in seen <==> x in list[..i]
    {
      assert list[..i + 1][..i] == list[..i];
      if list[i] !in seen {
        seen := seen + {list[i]};
        out := out + [list[i]];
      }
    }
    assert list[..|list|] == list;
  }

  // ----- what it computes -----

  predicate NoRepeats(s: seq<string>) {
    forall i, j :: 0 <= i < j < |s| ==> s[i] != s[j]
  }

  /** `x` first occurs in `s` at `k`. */
  predicate FirstAt(s: seq<string>, x: string, k: nat) {
    k < |s| && s[k] == x && x !in s[..k]
  }

  /** The elements of `r` come in the order in which they first occur in `s`. */
  ghost predicate InFirstOrder(r: seq<string>, s: seq<string>) {
    forall i, j, k, l :: 0 <= i < j < |r| && FirstAt(s, r[i], k) && FirstAt(s, r[j], l) ==> k < l
  }

  ghost predicate IsFirsts(r: seq<string>, s: seq<string>) {
    NoRepeats(r) && (forall x :: x in r <==> x in s) && InFirstOrder(r, s)
  }

  lemma {:induction false} FirstsIsFirsts(s: seq<string>)
    ensures IsFirsts(Firsts(s), s)
  {
    if s != [] {
      var init, last := s[..|s| - 1], s[|s| - 1];
      FirstsIsFirsts(init);
      assert s == init + [last];
      var r := Firsts(s);
      forall i, j, k, l | 0 <= i < j < |r| && FirstAt(s, r[i], k) && FirstAt(s, r[j], l)
        ensures k < l
      {
        FirstAtInit(s, r[i], k);
        FirstAtInit(s, r[j], l);
      }
    }
  }

  /** A first occurrence in `s` is one in its initial part, or is the last element. */
  lemma FirstAtInit(s: seq<string>, x: string, k: nat)
    requires FirstAt(s, x, k)
    ensures k == |s| - 1 || FirstAt(s[..|s| - 1], x, k)
    ensures k == |s| - 1 ==> x !in s[..|s| - 1]
  {
    assert k < |s| - 1 ==> s[..|s| - 1][..k] == s[..k];
  }

  lemma {:induction false} FirstAtExists(s: seq<string>, x: string) returns (k: nat)
    requires x in s
    ensures FirstAt(s, x, k)
  {
    var init := s[..|s| - 1];
    if x in init {
      k := FirstAtExists(init, x);
      assert s[..k] == init[..k];
    } else {
      assert s == init + [s[|s| - 1]];
      k := |s| - 1;
    }
  }

  /** No repeats, the same elements and first-occurrence order leave only one possible list. */
  lemma {:induction false} FirstsUnique(r: seq<string>, q: seq<string>, s: seq<string>)
    requires IsFirsts(r, s) && IsFirsts(q, s)
    ensures r == q
  {
    AtMostAsLong(r, q);
    AtMostAsLong(q, r);
    forall i | 0 <= i < |r|
      ensures r[i] == q[i]
    {
      SameAt(r, q, s, i);
    }
  }

  lemma {:induction false} SameAt(r: seq<string>, q: seq<string>, s: seq<string>, i: nat)
    requires IsFirsts(r, s) && IsFirsts(q, s) && |r| == |q| && i < |r|
    ensures r[i] == q[i]
  {
    forall m: nat | m < i
      ensures r[m] == q[m]
    {
      SameAt(r, q, s, m);
    }
    assert r[i] in s && q[i] in s;
    var a :| 0 <= a < |q| && q[a] == r[i];
    var b :| 0 <= b < |r| && r[b] == q[i];
    var k := FirstAtExists(s, r[i]);
    var l := FirstAtExists(s, q[i]);
    assert a >= i && b >= i;
    assert FirstAt(s, q[a], k) && FirstAt(s, r[b], l);
  }

  lemma AtMostAsLong(r: seq<string>, q: seq<string>)
    requires NoRepeats(r) && forall x :: x in r ==> x in q
    ensures |r| <= |q|
  {
    var xs, ys := set x | x in r, set x | x in q;
    SetSize(r, xs);
    SizeBound(q, ys);
    Subset(xs, ys);
  }

  lemma {:induction false} SetSize(r: seq<string>, xs: set<string>)
    requires NoRepeats(r) && xs == set x | x in r
    ensures |xs| == |r|
  {
    if r != [] {
      var init, last := r[..|r| - 1], r[|r| - 1];
      assert r == init + [last];
      SetSize(init, xs - {last});
    }
  }

  lemma {:induction false} SizeBound(q: seq<string>, ys: set<string>)
    requires ys == set x | x in q
    ensures |ys| <= |q|
  {
    if q != [] {
      var init, last := q[..|q| - 1], q[|q| - 1];
      assert q == init + [last];
      var rest := set x | x in init;
      SizeBound(init, rest);
      assert ys == rest + {last};
    }
  }

  lemma {:induction false} Subset(xs: set<string>, ys: set<string>)
    requires xs <= ys
    ensures |xs| <= |ys|
    decreases |xs|
  {
    if x :| x in xs {
      Subset(xs - {x}, ys - {x});
    }
  }

  /** Appending never moves what was there: the earlier result is a prefix of the later one. */
  lemma {:induction false} FirstsGrows(a: seq<string>, b: seq<string>)
    ensures Firsts(a) <= Firsts(a + b)
    decreases |b|
  {
    if b == [] {
      assert a + b == a;
    } else {
      var init := b[..|b| - 1];
      assert (a + b)[..|a + b| - 1] == a + init;
      FirstsGrows(a, init);
    }
  }

  /** A list that already holds every element of `b` is not changed by appending `b`. */
  lemma {:induction false} FirstsAbsorbs(a: seq<string>, b: seq<string>)
    requires forall x :: x in b ==> x in a
    ensures Firsts(a + b) == Firsts(a)
    decreases |b|
  {
    if b == [] {
      assert a + b == a;
    } else {
      var init := b[..|b| - 1];
      assert (a + b)[..|a + b| - 1] == a + init;
      FirstsAbsorbs(a, init);
    }
  }

  lemma {:induction false} FirstsOfDistinct(s: seq<string>)
    requires NoRepeats(s)
    ensures Firsts(s) == s
  {
    if s != [] {
      FirstsOfDistinct(s[..|s| - 1]);
    }
  }
}
