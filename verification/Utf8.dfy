/** Truncation that keeps UTF-8 whole, and header values made safe to send. */
module Utf8 {
  import opened Prelude

  type Bytes = seq<byte>

  /** utf8.RuneStart: not a continuation byte. */
  predicate RuneStart(b: byte) {
    !(0x80 <= b < 0xC0)
  }

  predicate Tail(b: byte) {
    0x80 <= b <= 0xBF
  }

  predicate Between(s: Bytes, i: nat, lo: byte, hi: byte) {
    i < |s| && lo <= s[i] <= hi
  }

  /** The length of the well-formed character at the front of `s` (section 4 of RFC 3629), or 0. */
  function RuneLen(s: Bytes): (n: nat)
    ensures n <= |s|
    ensures n > 0 ==> RuneStart(s[0]) && forall i :: 1 <= i < n ==> Tail(s[i])
  {
    if s == [] then 0
    else if s[0] <= 0x7F then 1
    else if 0xC2 <= s[0] <= 0xDF then (if Between(s, 1, 0x80, 0xBF) then 2 else 0)
    else if 0xE0 <= s[0] <= 0xEF then
      var lo: byte := if s[0] == 0xE0 then 0xA0 else 0x80;
      var hi: byte := if s[0] == 0xED then 0x9F else 0xBF;
      (if Between(s, 1, lo, hi) && Between(s, 2, 0x80, 0xBF) then 3 else 0)
    else if 0xF0 <= s[0] <= 0xF4 then
      var lo: byte := if s[0] == 0xF0 then 0x90 else 0x80;
      var hi: byte := if s[0] == 0xF4 then 0x8F else 0xBF;
      (if Between(s, 1, lo, hi) && Between(s, 2, 0x80, 0xBF) && Between(s, 3, 0x80, 0xBF) then 4 else 0)
    else 0
  }

  predicate Valid(s: Bytes)
    decreases |s|
  {
    s == [] || (RuneLen(s) > 0 && Valid(s[RuneLen(s)..]))
  }

  // ----- what valid means -----

  /** A Unicode scalar value. */
  predicate Scalar(cp: nat) {
    cp < 0xD800 || 0xE000 <= cp <= 0x10FFFF
  }

  /** The encoding of section 3 of RFC 3629: six bits to a continuation byte. */
  function EncodeRune(cp: nat): Bytes
    requires Scalar(cp)
  {
    var a := cp / 64;
    var b := a / 64;
    if cp < 0x80 then [cp as byte]
    else if cp < 0x800 then [(0xC0 + a) as byte, More(cp)]
    else if cp < 0x10000 then [(0xE0 + b) as byte, More(a), More(cp)]
    else [(0xF0 + b / 64) as byte, More(b), More(a), More(cp)]
  }

  function More(x: nat): byte {
    (0x80 + x % 64) as byte
  }

  lemma EncodedTwo(cp: nat, rest: Bytes)
    requires 0x80 <= cp < 0x800
    ensures RuneLen(EncodeRune(cp) + rest) == 2 == |EncodeRune(cp)|
  {
    var s := EncodeRune(cp) + rest;
    assert s[0] == (0xC0 + cp / 64) as byte && s[1] == More(cp);
  }

  lemma EncodedThree(cp: nat, rest: Bytes)
    requires 0x800 <= cp < 0x10000 && Scalar(cp)
    ensures RuneLen(EncodeRune(cp) + rest) == 3 == |EncodeRune(cp)|
  {
    var s, a := EncodeRune(cp) + rest, cp / 64;
    assert a == 64 * (a / 64) + a % 64;
    assert s[0] == (0xE0 + a / 64) as byte && s[1] == More(a) && s[2] == More(cp);
  }

  lemma EncodedFour(cp: nat, rest: Bytes)
    requires 0x10000 <= cp && Scalar(cp)
    ensures RuneLen(EncodeRune(cp) + rest) == 4 == |EncodeRune(cp)|
  {
    var s, a := EncodeRune(cp) + rest, cp / 64;
    var b := a / 64;
    assert b == 64 * (b / 64) + b % 64;
    assert s[0] == (0xF0 + b / 64) as byte && s[1] == More(b) && s[2] == More(a) && s[3] == More(cp);
  }

  lemma EncodedRune(cp: nat, rest: Bytes)
    requires Scalar(cp)
    ensures RuneLen(EncodeRune(cp) + rest) == |EncodeRune(cp)|
  {
    if cp >= 0x10000 {
      EncodedFour(cp, rest);
    } else if cp >= 0x800 {
      EncodedThree(cp, rest);
    } else if cp >= 0x80 {
      EncodedTwo(cp, rest);
    }
  }

  /** The value and the six bits that `x * 64 + y` is made of. */
  lemma Digits(x: nat, y: byte)
    requires Tail(y)
    ensures var v := x * 64 + (y as int - 0x80); v / 64 == x && More(v) == y
  {
  }

  lemma DecodedRune(s: Bytes) returns (cp: nat)
    requires RuneLen(s) > 0
    ensures Scalar(cp) && EncodeRune(cp) == s[..RuneLen(s)]
  {
    var n := RuneLen(s);
    if n == 1 {
      cp := s[0] as int;
    } else if n == 2 {
      cp := DecodedTwo(s);
    } else if n == 3 {
      cp := DecodedThree(s);
    } else {
      cp := DecodedFour(s);
    }
  }

  lemma DecodedTwo(s: Bytes) returns (cp: nat)
    requires RuneLen(s) == 2
    ensures Scalar(cp) && EncodeRune(cp) == s[..2]
  {
    var x := s[0] as int - 0xC0;
    cp := x * 64 + (s[1] as int - 0x80);
    Digits(x, s[1]);
  }

  lemma DecodedThree(s: Bytes) returns (cp: nat)
    requires RuneLen(s) == 3
    ensures Scalar(cp) && EncodeRune(cp) == s[..3]
  {
    var x := s[0] as int - 0xE0;
    var a := x * 64 + (s[1] as int - 0x80);
    cp := a * 64 + (s[2] as int - 0x80);
    Digits(x, s[1]);
    Digits(a, s[2]);
  }

  lemma DecodedFour(s: Bytes) returns (cp: nat)
    requires RuneLen(s) == 4
    ensures Scalar(cp) && EncodeRune(cp) == s[..4]
  {
    var x := s[0] as int - 0xF0;
    var b := x * 64 + (s[1] as int - 0x80);
    var a := b * 64 + (s[2] as int - 0x80);
    cp := a * 64 + (s[3] as int - 0x80);
    Digits(x, s[1]);
    Digits(b, s[2]);
    Digits(a, s[3]);
  }

  function EncodeAll(cps: seq<nat>): Bytes
    requires forall i :: 0 <= i < |cps| ==> Scalar(cps[i])
  {
    if cps == [] then [] else EncodeRune(cps[0]) + EncodeAll(cps[1..])
  }

  /** Valid text is exactly the encodings of sequences of scalar values. */
  lemma {:induction false} EncodedIsValid(cps: seq<nat>)
    requires forall i :: 0 <= i < |cps| ==> Scalar(cps[i])
    ensures Valid(EncodeAll(cps))
  {
    if cps != [] {
      EncodedIsValid(cps[1..]);
      EncodedRune(cps[0], EncodeAll(cps[1..]));
      assert EncodeAll(cps)[|EncodeRune(cps[0])|..] == EncodeAll(cps[1..]);
    }
  }

  lemma {:induction false} ValidIsEncoded(s: Bytes) returns (cps: seq<nat>)
    requires Valid(s)
    ensures (forall i :: 0 <= i < |cps| ==> Scalar(cps[i])) && EncodeAll(cps) == s
    decreases |s|
  {
    if s == [] {
      cps := [];
    } else {
      var cp := DecodedRune(s);
      var rest := ValidIsEncoded(s[RuneLen(s)..]);
      cps := [cp] + rest;
      EncodeCons(cp, rest);
      assert s == s[..RuneLen(s)] + s[RuneLen(s)..];
    }
  }

  lemma EncodeCons(cp: nat, rest: seq<nat>)
    requires Scalar(cp) && forall i :: 0 <= i < |rest| ==> Scalar(rest[i])
    ensures EncodeAll([cp] + rest) == EncodeRune(cp) + EncodeAll(rest)
  {
    assert ([cp] + rest)[1..] == rest;
  }

  /** The ASCII bytes of "... (truncated)". */
  const MARKER: Bytes := [46, 46, 46, 32, 40, 116, 114, 117, 110, 99, 97, 116, 101, 100, 41]

  /** Where Truncate cuts: the last rune start at or before `limit`, or 0. */
  function CutFrom(s: Bytes, cut: nat): (r: nat)
    requires cut < |s|
    ensures r <= cut && (r == 0 || RuneStart(s[r]))
    ensures forall k :: r < k <= cut ==> !RuneStart(s[k])
  {
    if cut > 0 && !RuneStart(s[cut]) then CutFrom(s, cut - 1) else cut
  }

  function Truncated(s: Bytes, limit: nat): Bytes {
    if |s| <= limit then s else s[..CutFrom(s, limit)] + MARKER
  }

  method Truncate(s: Bytes, limit: nat) returns (r: Bytes)
    ensures r == Truncated(s, limit)
  {
    if |s| <= limit {
      return s;
    }
    var cut := limit;
    while cut > 0 && !RuneStart(s[cut])
      invariant 0 <= cut <= limit && CutFrom(s, cut) == CutFrom(s, limit)
    {
      cut := cut - 1;
    }
    return s[..cut] + MARKER;
  }

  // ----- truncation keeps characters whole -----

  lemma RuneLenOfPrefix(s: Bytes, k: nat)
    requires RuneLen(s) <= k <= |s|
    ensures RuneLen(s) > 0 ==> RuneLen(s[..k]) == RuneLen(s)
  {
  }

  lemma RuneLenExtends(a: Bytes, b: Bytes)
    requires RuneLen(a) > 0
    ensures RuneLen(a + b) == RuneLen(a)
  {
  }

  lemma {:induction false} ValidConcat(a: Bytes, b: Bytes)
    requires Valid(a) && Valid(b)
    ensures Valid(a + b)
    decreases |a|
  {
    if a == [] {
      assert a + b == b;
    } else {
      var n := RuneLen(a);
      RuneLenExtends(a, b);
      assert (a + b)[n..] == a[n..] + b;
      ValidConcat(a[n..], b);
    }
  }

  /** In valid text the character boundaries are exactly the rune starts. */
  lemma {:induction false} PrefixValidIffRuneStart(s: Bytes, k: nat)
    requires Valid(s) && k < |s|
    ensures Valid(s[..k]) <==> RuneStart(s[k])
    decreases |s|
  {
    var n := RuneLen(s);
    if k == 0 {
      assert s[..0] == [];
    } else if k < n {
      assert Tail(s[k]);
      CutRuneIsInvalid(s, k);
    } else {
      RuneLenOfPrefix(s, k);
      assert s[..k][n..] == s[n..][..k - n];
      if n == k {
        assert s[n..][..0] == [];
        assert RuneLen(s[n..]) > 0;
      } else {
        PrefixValidIffRuneStart(s[n..], k - n);
      }
    }
  }

  lemma CutRuneIsInvalid(s: Bytes, k: nat)
    requires 0 < k < RuneLen(s)
    ensures !Valid(s[..k])
  {
    assert RuneLen(s[..k]) == 0;
  }

  /** On valid text Truncate keeps the longest prefix of whole characters that fits, and stays valid. */
  lemma TruncateKeepsWholeRunes(s: Bytes, limit: nat)
    requires Valid(s)
    ensures Valid(Truncated(s, limit))
    ensures |s| > limit ==>
      var cut := CutFrom(s, limit);
      && Truncated(s, limit) == s[..cut] + MARKER
      && Valid(s[..cut]) && cut <= limit
      && forall k :: cut < k <= limit ==> !Valid(s[..k])
  {
    if |s| > limit {
      var cut := CutFrom(s, limit);
      PrefixValidIffRuneStart(s, cut);
      assert RuneLen(s) > 0;
      assert RuneStart(s[cut]);
      forall k | cut < k <= limit
        ensures !Valid(s[..k])
      {
        PrefixValidIffRuneStart(s, k);
      }
      AsciiIsValid(MARKER);
      ValidConcat(s[..cut], MARKER);
    }
  }

  lemma {:induction false} AsciiIsValid(s: Bytes)
    requires forall i :: 0 <= i < |s| ==> s[i] <= 0x7F
    ensures Valid(s)
    decreases |s|
  {
    if s != [] {
      AsciiIsValid(s[1..]);
    }
  }

  // ----- header values -----

  const HEADER_VALUE_LIMIT: nat := 256

  predicate ValidHeaderValueByte(b: byte) {
    (b >= 0x20 || b == 9) && b != 0x7F
  }

  predicate LegalFieldValue(s: Bytes) {
    forall i :: 0 <= i < |s| ==> ValidHeaderValueByte(s[i])
  }

  function Cleaned(s: Bytes): Bytes {
    seq(|s|, i requires 0 <= i < |s| => if ValidHeaderValueByte(s[i]) then s[i] else 95)
  }

  function Sanitized(v: Bytes): Bytes {
    Cleaned(Truncated(v, HEADER_VALUE_LIMIT))
  }

  method SanitizeHeaderValue(v: Bytes) returns (r: Bytes)
    ensures r == Sanitized(v)
  {
    var s := v;
    if |s| > HEADER_VALUE_LIMIT {
      s := Truncate(s, HEADER_VALUE_LIMIT);
    }
    r := [];
    for i := 0 to |s|
      invariant r == Cleaned(s)[..i]
    {
      if ValidHeaderValueByte(s[i]) {
        r := r + [s[i]];
      } else {
        r := r + [95];
      }
    }
  }

  lemma {:induction false} CleaningKeepsRunes(s: Bytes)
    requires Valid(s)
    ensures Valid(Cleaned(s))
    decreases |s|
  {
    if s != [] {
      var n := RuneLen(s);
      CleaningKeepsRunes(s[n..]);
      CleanRune(s);
      assert Cleaned(s)[n..] == Cleaned(s[n..]);
    }
  }

  lemma CleanRune(s: Bytes)
    requires RuneLen(s) > 0
    ensures RuneLen(Cleaned(s)) == RuneLen(s)
  {
  }

  /** What section 5.5 of RFC 9110 lets into a field value: tab, and anything but the controls. */
  predicate Legal(b: byte) {
    b == '\t' as byte || 32 <= b < 127 || 128 <= b
  }

  /** A sanitised value is a legal field value of bounded length, for any input at all. */
  lemma SanitizedIsLegal(v: Bytes)
    ensures (forall i :: 0 <= i < |Sanitized(v)| ==> Legal(Sanitized(v)[i])) && |Sanitized(v)| <= 256 + |MARKER|
    ensures Valid(v) ==> Valid(Sanitized(v))
    ensures (forall i :: 0 <= i < |v| ==> Legal(v[i])) && |v| <= 256 ==> Sanitized(v) == v
  {
    if Valid(v) {
      TruncateKeepsWholeRunes(v, HEADER_VALUE_LIMIT);
      CleaningKeepsRunes(Truncated(v, HEADER_VALUE_LIMIT));
    }
  }

  /** Only the bytes a field value may not hold are replaced, by underscores; all others stay where they are. */
  lemma SanitizedReplacesOnlyIllegal(v: Bytes, i: nat)
    requires i < |Truncated(v, 256)|
    ensures |Sanitized(v)| == |Truncated(v, 256)|
    ensures Sanitized(v)[i] == if Legal(Truncated(v, 256)[i]) then Truncated(v, 256)[i] else '_' as byte
  {
  }
}
