/** The string operations of the Go library that the model relies on, for ASCII. */
module Text {
  const SPACE: string := " "

  predicate IsSpace(c: char) {
    c == ' ' || 9 <= c as int <= 13
  }

  /** The ASCII white space of unicode.IsSpace. */
  lemma Spaces(c: char)
    ensures IsSpace(c) <==> c == ' ' || c == '\t' || c == '\n' || c as int == 11 || c as int == 12 || c == '\r'
  {
  }

  function Lower(c: char): char {
    if 'A' <= c <= 'Z' then (c as int + 32) as char else c
  }

  /** strings.ToLower. */
  function ToLower(s: string): (r: string)
    ensures |r| == |s| && forall i :: 0 <= i < |s| ==> r[i] == Lower(s[i])
  {
    seq(|s|, i requires 0 <= i < |s| => Lower(s[i]))
  }

  predicate Free(s: string, c: char) {
    forall i :: 0 <= i < |s| ==> s[i] != c
  }

  predicate SpaceFree(s: string) {
    forall i :: 0 <= i < |s| ==> !IsSpace(s[i])
  }

  function TrimLeft(s: string, p: char -> bool): string {
    if s != "" && p(s[0]) then TrimLeft(s[1..], p) else s
  }

  function TrimRight(s: string, p: char -> bool): string {
    if s != "" && p(s[|s| - 1]) then TrimRight(s[..|s| - 1], p) else s
  }

  function Trim(s: string, p: char -> bool): string {
    TrimRight(TrimLeft(s, p), p)
  }

  /** strings.TrimSpace. */
  function TrimSpace(s: string): string {
    Trim(s, IsSpace)
  }

  predicate AllOf(s: string, p: char -> bool) {
    forall i :: 0 <= i < |s| ==> p(s[i])
  }

  /** `s` neither begins nor ends with a character of `p`. */
  predicate Bare(s: string, p: char -> bool) {
    s == "" || (!p(s[0]) && !p(s[|s| - 1]))
  }

  lemma {:induction false} TrimLeftOf(a: string, rest: string, p: char -> bool)
    requires AllOf(a, p) && (rest == "" || !p(rest[0]))
    ensures TrimLeft(a + rest, p) == rest
  {
    if a == "" {
      assert a + rest == rest;
    } else {
      assert (a + rest)[1..] == a[1..] + rest;
      TrimLeftOf(a[1..], rest, p);
    }
  }

  lemma {:induction false} TrimRightOf(rest: string, b: string, p: char -> bool)
    requires AllOf(b, p) && (rest == "" || !p(rest[|rest| - 1]))
    ensures TrimRight(rest + b, p) == rest
    decreases |b|
  {
    if b == "" {
      assert rest + b == rest;
    } else {
      assert (rest + b)[..|rest + b| - 1] == rest + b[..|b| - 1];
      TrimRightOf(rest, b[..|b| - 1], p);
    }
  }

  /** Trimming takes off exactly what surrounds the bare core. */
  lemma TrimOf(a: string, core: string, b: string, p: char -> bool)
    requires AllOf(a, p) && AllOf(b, p) && Bare(core, p)
    ensures Trim(a + core + b, p) == core
  {
    if core == "" {
      assert a + core + b == a + b && (a + b) + "" == a + b;
      TrimLeftOf(a + b, "", p);
    } else {
      assert a + core + b == a + (core + b);
      TrimLeftOf(a, core + b, p);
      TrimRightOf(core, b, p);
    }
  }

  /** The index of the first `c`, or the length of `s` when there is none. */
  function IndexOf(s: string, c: char): (n: nat)
    ensures n <= |s| && Free(s[..n], c) && (n < |s| ==> s[n] == c)
  {
    if s == "" || s[0] == c then 0 else 1 + IndexOf(s[1..], c)
  }

  lemma {:induction false} IndexOfAfter(a: string, c: char, b: string)
    requires Free(a, c)
    ensures IndexOf(a + [c] + b, c) == |a|
  {
    if a != "" {
      assert (a + [c] + b)[1..] == a[1..] + [c] + b;
      IndexOfAfter(a[1..], c, b);
    }
  }

  function Join(parts: seq<string>, sep: string): string {
    if parts == [] then ""
    else if |parts| == 1 then parts[0]
    else parts[0] + sep + Join(parts[1..], sep)
  }

  /** strings.Fields: the maximal space-free runs. */
  function Fields(s: string): seq<string> {
    FieldsFrom(s, "")
  }

  function FieldsFrom(s: string, cur: string): seq<string> {
    if s == "" then Flush(cur)
    else if IsSpace(s[0]) then Flush(cur) + FieldsFrom(s[1..], "")
    else FieldsFrom(s[1..], cur + [s[0]])
  }

  function Flush(cur: string): seq<string> {
    if cur == "" then [] else [cur]
  }

  lemma {:induction false} FieldsAreSpaceFree(s: string, cur: string)
    requires SpaceFree(cur)
    ensures forall f :: f in FieldsFrom(s, cur) ==> f != "" && SpaceFree(f)
    decreases s
  {
    if s != "" {
      if IsSpace(s[0]) {
        FieldsAreSpaceFree(s[1..], "");
      } else {
        FieldsAreSpaceFree(s[1..], cur + [s[0]]);
      }
    }
  }

  lemma {:induction false} FieldsAbsorb(name: string, rest: string, cur: string)
    requires SpaceFree(name)
    ensures FieldsFrom(name + rest, cur) == FieldsFrom(rest, cur + name)
    decreases name
  {
    if name == "" {
      assert name + rest == rest && cur + name == cur;
    } else {
      assert (name + rest)[1..] == name[1..] + rest;
      FieldsAbsorb(name[1..], rest, cur + [name[0]]);
      assert cur + [name[0]] + name[1..] == cur + name;
    }
  }

  /** Splitting a space-joined list of names gives the names back. */
  lemma {:induction false} FieldsOfJoin(names: seq<string>)
    requires forall n :: n in names ==> n != "" && SpaceFree(n)
    ensures Fields(Join(names, SPACE)) == names
  {
    if names != [] {
      var rest := if |names| == 1 then "" else SPACE + Join(names[1..], SPACE);
      assert Join(names, SPACE) == names[0] + rest;
      FieldsAbsorb(names[0], rest, "");
      assert "" + names[0] == names[0];
      if |names| > 1 {
        assert rest[1..] == Join(names[1..], SPACE);
        assert forall n :: n in names[1..] ==> n in names;
        FieldsOfJoin(names[1..]);
      }
    }
  }
}
