/** The standard base64 encoding of section 4 of RFC 4648, decoded as leniently as Go's StdEncoding does. */
module Base64 {
  import opened Prelude
  import opened Text

  const PAD: char := '='

  type sextet = x: int | 0 <= x < 64

  /** A-Z, a-z, 0-9, '+', '/'. */
  function CharOf(i: sextet): char {
    if i < 26 then (65 + i) as char
    else if i < 52 then (71 + i) as char
    else if i < 62 then (i - 4) as char
    else if i == 62 then '+'
    else '/'
  }

  function SextetOf(c: char): Option<sextet> {
    var n := c as int;
    if 65 <= n <= 90 then Some(n - 65)
    else if 97 <= n <= 122 then Some(n - 71)
    else if 48 <= n <= 57 then Some(n + 4)
    else if c == '+' then Some(62)
    else if c == '/' then Some(63)
    else None
  }

  lemma SextetInverts(i: sextet)
    ensures SextetOf(CharOf(i)) == Some(i) && CharOf(i) != PAD
  {
  }

  // The four sextets of three octets, and the three octets of four sextets.

  function S0(x: byte): sextet { x as int / 4 }
  function S1(x: byte, y: byte): sextet { x as int % 4 * 16 + y as int / 16 }
  function S2(y: byte, z: byte): sextet { y as int % 16 * 4 + z as int / 64 }
  function S3(z: byte): sextet { z as int % 64 }

  function B0(i: sextet, j: sextet): byte { (i * 4 + j / 16) as byte }
  function B1(j: sextet, k: sextet): byte { (j % 16 * 16 + k / 4) as byte }
  function B2(k: sextet, l: sextet): byte { (k % 4 * 64 + l) as byte }

  lemma OctetsInvert(x: byte, y: byte, z: byte)
    ensures B0(S0(x), S1(x, y)) == x && B1(S1(x, y), S2(y, z)) == y && B2(S2(y, z), S3(z)) == z
  {
  }

  function Encode(b: seq<byte>): string {
    if b == [] then ""
    else if |b| == 1 then [CharOf(S0(b[0])), CharOf(S1(b[0], 0)), PAD, PAD]
    else if |b| == 2 then [CharOf(S0(b[0])), CharOf(S1(b[0], b[1])), CharOf(S2(b[1], 0)), PAD]
    else [CharOf(S0(b[0])), CharOf(S1(b[0], b[1])), CharOf(S2(b[1], b[2])), CharOf(S3(b[2]))] + Encode(b[3..])
  }

  /** Carriage returns and newlines are skipped wherever they stand. */
  function StripNewlines(s: string): string {
    if s == "" then ""
    else if s[0] == '\n' || s[0] == '\r' then StripNewlines(s[1..])
    else [s[0]] + StripNewlines(s[1..])
  }

  function Decode(s: string): Option<seq<byte>> {
    DecodeQuads(StripNewlines(s))
  }

  /** Unused low bits before the padding are ignored; anything after it is refused. */
  function DecodeQuads(s: string): Option<seq<byte>> {
    if s == "" then Some([])
    else if |s| < 4 then None
    else
      var i, j, k, l := SextetOf(s[0]), SextetOf(s[1]), SextetOf(s[2]), SextetOf(s[3]);
      if i.None? || j.None? then None
      else if s[2] == PAD then (if s[3] == PAD && |s| == 4 then Some([B0(i.value, j.value)]) else None)
      else if k.None? then None
      else if s[3] == PAD then
        (if |s| == 4 then Some([B0(i.value, j.value), B1(j.value, k.value)]) else None)
      else if l.None? then None
      else
        var rest := DecodeQuads(s[4..]);
        if rest.None? then None
        else Some([B0(i.value, j.value), B1(j.value, k.value), B2(k.value, l.value)] + rest.value)
  }

  predicate IsCodeChar(c: char) {
    c == PAD || SextetOf(c).Some?
  }

  lemma {:induction false} EncodeUsesAlphabet(b: seq<byte>)
    ensures forall i :: 0 <= i < |Encode(b)| ==> IsCodeChar(Encode(b)[i])
    ensures b != [] ==> Encode(b) != ""
  {
    if |b| > 2 {
      EncodeUsesAlphabet(b[3..]);
    }
  }

  lemma {:induction false} StripNothing(s: string)
    requires forall i :: 0 <= i < |s| ==> s[i] != '\n' && s[i] != '\r'
    ensures StripNewlines(s) == s
  {
    if s != "" {
      StripNothing(s[1..]);
    }
  }

  lemma PadTwo(i: sextet, j: sextet)
    ensures DecodeQuads([CharOf(i), CharOf(j), PAD, PAD]) == Some([B0(i, j)])
  {
    SextetInverts(i);
    SextetInverts(j);
  }

  lemma PadOne(i: sextet, j: sextet, k: sextet)
    ensures DecodeQuads([CharOf(i), CharOf(j), CharOf(k), PAD]) == Some([B0(i, j), B1(j, k)])
  {
    SextetInverts(i);
    SextetInverts(j);
    SextetInverts(k);
  }

  lemma PadNone(i: sextet, j: sextet, k: sextet, l: sextet, rest: string)
    requires DecodeQuads(rest).Some?
    ensures DecodeQuads([CharOf(i), CharOf(j), CharOf(k), CharOf(l)] + rest)
         == Some([B0(i, j), B1(j, k), B2(k, l)] + DecodeQuads(rest).value)
  {
    SextetInverts(i);
    SextetInverts(j);
    SextetInverts(k);
    SextetInverts(l);
    assert ([CharOf(i), CharOf(j), CharOf(k), CharOf(l)] + rest)[4..] == rest;
  }

  lemma OneOctet(x: byte)
    ensures DecodeQuads(Encode([x])) == Some([x])
  {
    var zero: byte := 0;
    var i, j := S0(x), S1(x, zero);
    assert B0(i, j) == x by { OctetsInvert(x, zero, zero); }
    PadTwo(i, j);
    assert Encode([x]) == [CharOf(i), CharOf(j), PAD, PAD];
  }

  lemma TwoOctets(x: byte, y: byte)
    ensures DecodeQuads(Encode([x, y])) == Some([x, y])
  {
    var zero: byte := 0;
    var i, j, k := S0(x), S1(x, y), S2(y, zero);
    assert B0(i, j) == x && B1(j, k) == y by { OctetsInvert(x, y, zero); }
    PadOne(i, j, k);
    assert Encode([x, y]) == [CharOf(i), CharOf(j), CharOf(k), PAD];
  }

  lemma ThreeOctets(x: byte, y: byte, z: byte, rest: seq<byte>)
    requires DecodeQuads(Encode(rest)) == Some(rest)
    ensures DecodeQuads(Encode([x, y, z] + rest)) == Some([x, y, z] + rest)
  {
    var i, j, k, l := S0(x), S1(x, y), S2(y, z), S3(z);
    assert B0(i, j) == x && B1(j, k) == y && B2(k, l) == z by { OctetsInvert(x, y, z); }
    PadNone(i, j, k, l, Encode(rest));
    assert ([x, y, z] + rest)[3..] == rest;
    assert Encode([x, y, z] + rest) == [CharOf(i), CharOf(j), CharOf(k), CharOf(l)] + Encode(rest);
  }

  lemma {:induction false} QuadsInvert(b: seq<byte>)
    ensures DecodeQuads(Encode(b)) == Some(b)
  {
    if |b| == 1 {
      assert b == [b[0]];
      OneOctet(b[0]);
    } else if |b| == 2 {
      assert b == [b[0], b[1]];
      TwoOctets(b[0], b[1]);
    } else if |b| > 2 {
      assert b == [b[0], b[1], b[2]] + b[3..];
      QuadsInvert(b[3..]);
      ThreeOctets(b[0], b[1], b[2], b[3..]);
    }
  }

  /** Decoding inverts encoding. */
  lemma DecodeEncode(b: seq<byte>)
    ensures Decode(Encode(b)) == Some(b)
  {
    EncodeUsesAlphabet(b);
    StripNothing(Encode(b));
    QuadsInvert(b);
  }

  lemma EncodeInjective(a: seq<byte>, b: seq<byte>)
    requires Encode(a) == Encode(b)
    ensures a == b
  {
    DecodeEncode(a);
    DecodeEncode(b);
  }

  // ----- what decoding refuses and ignores -----

  lemma {:induction false} StripConcat(a: string, b: string)
    ensures StripNewlines(a + b) == StripNewlines(a) + StripNewlines(b)
  {
    if a == "" {
      assert a + b == b;
    } else {
      assert (a + b)[1..] == a[1..] + b;
      StripConcat(a[1..], b);
    }
  }

  /** A line break anywhere makes no difference. */
  lemma DecodeIgnoresNewlines(a: string, c: char, b: string)
    requires c == '\n' || c == '\r'
    ensures Decode(a + [c] + b) == Decode(a + b)
  {
    StripConcat(a + [c], b);
    StripConcat(a, [c]);
    StripConcat(a, b);
    assert [c][1..] == "" && StripNewlines([c]) == "";
    assert StripNewlines(a) + "" == StripNewlines(a);
  }

  /** The alphabet of table 1 of RFC 4648. */
  predicate Letter(c: char) {
    'A' <= c <= 'Z' || 'a' <= c <= 'z' || '0' <= c <= '9' || c == '+' || c == '/'
  }

  lemma SextetIff(c: char)
    ensures SextetOf(c).Some? <==> Letter(c)
  {
  }

  lemma FrontShape(s: string)
    requires s != "" && DecodeQuads(s).Some?
    ensures |s| >= 4 && Letter(s[0]) && Letter(s[1])
    ensures if s[2] != PAD && s[3] != PAD then Letter(s[2]) && Letter(s[3]) && DecodeQuads(s[4..]).Some?
      else |s| == 4 && s[3] == PAD && (s[2] == PAD || Letter(s[2]))
  {
    SextetIff(s[0]);
    SextetIff(s[1]);
    SextetIff(s[2]);
    SextetIff(s[3]);
  }

  /** What decodes is whole groups of four, of alphabet characters and at most two padding characters at the end. */
  lemma {:induction false} DecodedShape(s: string)
    requires DecodeQuads(s).Some?
    ensures |s| % 4 == 0
    ensures forall i :: 0 <= i < |s| ==> Letter(s[i]) || (s[i] == PAD && i >= |s| - 2)
  {
    if s != "" {
      FrontShape(s);
      if s[2] != PAD && s[3] != PAD {
        DecodedShape(s[4..]);
        assert forall i :: 4 <= i < |s| ==> s[i] == s[4..][i - 4];
      }
    }
  }
}
