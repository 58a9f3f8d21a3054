/** The Signature header of draft-cavage-http-signatures: printing, splitting and parsing. */
module SignatureHeader {
  import opened Prelude
  import opened Text
  import Base64

  const QUOTE: char := '\"'
  const COMMA: string := ","

  /** The covered headers mkqd signs. */
  const DEFAULT_HEADERS: seq<string> := ["(request-target)", "host", "date", "digest", "content-type"]

  const KEY_ID_LIMIT: nat := 512

  datatype ParsedSignature = ParsedSignature(keyId: string, algorithm: string, headers: seq<string>, signature: string)

  predicate BadKeyIdByte(c: char) {
    (c as int) < 0x20 || c as int == 0x7f || c == QUOTE || c == '\\'
  }

  /** The key ids that may go into a Signature header. */
  predicate ValidKeyId(id: string) {
    id != "" && |id| <= KEY_ID_LIMIT && forall i :: 0 <= i < |id| ==> !BadKeyIdByte(id[i])
  }

  /** They are of 1 to 512 characters, none of them a control, a quote or a backslash. */
  lemma ValidKeyIdIff(id: string)
    ensures ValidKeyId(id) <==>
      1 <= |id| <= 512 && forall i :: 0 <= i < |id| ==> ' ' <= id[i] && id[i] as int != 127 && id[i] != '\"' && id[i] != '\\'
  {
  }

  method ValidateKeyId(id: string) returns (ok: bool)
    ensures ok == ValidKeyId(id)
  {
    if id == "" || |id| > KEY_ID_LIMIT {
      return false;
    }
    for i := 0 to |id|
      invariant forall j :: 0 <= j < i ==> !BadKeyIdByte(id[j])
    {
      if BadKeyIdByte(id[i]) {
        return false;
      }
    }
    return true;
  }

  // ----- splitting -----

  /** The parameters of `v` from here on, with `cur` read so far and quotes open or not. */
  function SplitFrom(v: string, cur: string, inQuotes: bool): seq<string> {
    if v == "" then Flush(cur)
    else if v[0] == QUOTE then SplitFrom(v[1..], cur + [v[0]], !inQuotes)
    else if v[0] == ',' && !inQuotes then [cur] + SplitFrom(v[1..], "", inQuotes)
    else SplitFrom(v[1..], cur + [v[0]], inQuotes)
  }

  function SplitParams(v: string): seq<string> {
    SplitFrom(v, "", false)
  }

  /** splitParams: one pass with a builder and a flag. */
  method SplitParamsLoop(v: string) returns (parts: seq<string>)
    ensures parts == SplitParams(v)
  {
    parts := [];
    var cur, inQuotes := "", false;
    for i := 0 to |v|
      invariant parts + SplitFrom(v[i..], cur, inQuotes) == SplitParams(v)
    {
      var c := v[i];
      assert v[i..][1..] == v[i + 1..];
      if c == QUOTE {
        inQuotes := !inQuotes;
        cur := cur + [c];
      } else if c == ',' && !inQuotes {
        parts := parts + [cur];
        cur := "";
      } else {
        cur := cur + [c];
      }
    }
    if |cur| > 0 {
      parts := parts + [cur];
    }
  }

  /** Whether `s` leaves a quote open: it holds an odd number of them. */
  function OddQuotes(s: string): bool {
    if s == "" then false else (s[0] == QUOTE) != OddQuotes(s[1..])
  }

  lemma {:induction false} OddQuotesConcat(a: string, b: string)
    ensures OddQuotes(a + b) == (OddQuotes(a) != OddQuotes(b))
  {
    if a == "" {
      assert a + b == b;
    } else {
      assert (a + b)[1..] == a[1..] + b;
      OddQuotesConcat(a[1..], b);
    }
  }

  /** Every comma of `s` lies inside quotes, reading on from an open or closed quote. */
  predicate CommasQuoted(s: string, inQuotes: bool) {
    forall i :: 0 <= i < |s| && s[i] == ',' ==> inQuotes != OddQuotes(s[..i])
  }

  predicate WellQuoted(parts: seq<string>) {
    && (forall i :: 0 <= i < |parts| ==> CommasQuoted(parts[i], false))
    && (forall i :: 0 <= i < |parts| - 1 ==> !OddQuotes(parts[i]))
  }

  lemma CommasQuotedTail(s: string, inQuotes: bool)
    requires s != "" && CommasQuoted(s, inQuotes)
    ensures CommasQuoted(s[1..], inQuotes != (s[0] == QUOTE))
    ensures s[0] == ',' ==> inQuotes
  {
    forall i | 0 <= i < |s| - 1 && s[1..][i] == ','
      ensures (inQuotes != (s[0] == QUOTE)) != OddQuotes(s[1..][..i])
    {
      assert s[..i + 1][1..] == s[1..][..i];
      assert OddQuotes(s[..i + 1]) == ((s[0] == QUOTE) != OddQuotes(s[1..][..i]));
    }
    assert s[..0] == "";
  }

  lemma {:induction false} Absorb(p: string, rest: string, cur: string, inQuotes: bool)
    requires CommasQuoted(p, inQuotes)
    ensures SplitFrom(p + rest, cur, inQuotes) == SplitFrom(rest, cur + p, inQuotes != OddQuotes(p))
    decreases p
  {
    if p == "" {
      assert p + rest == rest && cur + p == cur;
    } else {
      CommasQuotedTail(p, inQuotes);
      assert (p + rest)[1..] == p[1..] + rest;
      assert cur + [p[0]] + p[1..] == cur + p;
      Absorb(p[1..], rest, cur + [p[0]], inQuotes != (p[0] == QUOTE));
    }
  }

  /**
   * Splitting inverts joining: whatever parts with balanced quotes and no bare comma
   * were joined come back, except that an empty last one is dropped. So the parts of
   * a header are unique.
   */
  lemma {:induction false} SplitJoin(parts: seq<string>)
    requires parts != [] && WellQuoted(parts)
    ensures SplitParams(Join(parts, COMMA)) ==
      (if parts[|parts| - 1] == "" then parts[..|parts| - 1] else parts)
  {
    var head := parts[0];
    if |parts| == 1 {
      Absorb(head, "", "", false);
      assert head + "" == head && "" + head == head;
    } else {
      var tail := Join(parts[1..], COMMA);
      assert Join(parts, COMMA) == head + (COMMA + tail);
      Absorb(head, COMMA + tail, "", false);
      assert "" + head == head && (COMMA + tail)[1..] == tail;
      SplitJoin(parts[1..]);
      assert parts == [head] + parts[1..];
    }
  }

  predicate EndsInBareComma(v: string) {
    v != "" && v[|v| - 1] == ',' && !OddQuotes(v[..|v| - 1])
  }

  function BareComma(v: string): string {
    if EndsInBareComma(v) then COMMA else ""
  }

  /** Every header splits into well-quoted parts that rejoin to it, up to one bare comma at the end. */
  lemma JoinSplit(v: string)
    ensures WellQuoted(SplitParams(v))
    ensures v == Join(SplitParams(v), COMMA) + BareComma(v)
  {
    PartsAreWellQuoted(v, "", false);
    PartsRejoin(v, "", false);
    assert "" + v == v;
  }

  lemma CommasQuotedSnoc(cur: string, c: char, inQuotes: bool)
    requires CommasQuoted(cur, false) && OddQuotes(cur) == inQuotes
    requires c == ',' ==> inQuotes
    ensures CommasQuoted(cur + [c], false) && OddQuotes(cur + [c]) == (inQuotes != (c == QUOTE))
  {
    var cur' := cur + [c];
    OddQuotesConcat(cur, [c]);
    assert [c][1..] == "";
    forall i | 0 <= i < |cur'| && cur'[i] == ','
      ensures OddQuotes(cur'[..i])
    {
      assert cur'[..i] == cur[..i];
      assert i == |cur| ==> cur[..i] == cur;
    }
  }

  lemma {:induction false} PartsAreWellQuoted(v: string, cur: string, inQuotes: bool)
    requires CommasQuoted(cur, false) && OddQuotes(cur) == inQuotes
    ensures WellQuoted(SplitFrom(v, cur, inQuotes))
    decreases v
  {
    if v != "" {
      if v[0] == ',' && !inQuotes {
        PartsAreWellQuoted(v[1..], "", false);
      } else {
        CommasQuotedSnoc(cur, v[0], inQuotes);
        PartsAreWellQuoted(v[1..], cur + [v[0]], inQuotes != (v[0] == QUOTE));
      }
    }
  }

  lemma {:induction false} SomeParts(v: string, cur: string, inQuotes: bool)
    requires v != "" || cur != ""
    ensures SplitFrom(v, cur, inQuotes) != []
    decreases v
  {
    if v != "" && !(v[0] == ',' && !inQuotes) {
      SomeParts(v[1..], cur + [v[0]], inQuotes != (v[0] == QUOTE));
    }
  }

  lemma RejoinAfterComma(cur: string, rest: string)
    requires !OddQuotes(cur) && rest == Join(SplitParams(rest), COMMA) + BareComma(rest)
    ensures cur + (COMMA + rest) == Join([cur] + SplitParams(rest), COMMA) + BareComma(cur + (COMMA + rest))
  {
    var parts := SplitParams(rest);
    assert cur + (COMMA + rest) == cur + COMMA + rest;
    BareCommaTail(cur, rest);
    if rest == "" {
      assert [cur] + parts == [cur];
    } else {
      SomeParts(rest, "", false);
      assert ([cur] + parts)[1..] == parts;
      assert Join([cur] + parts, COMMA) == cur + COMMA + Join(parts, COMMA);
    }
  }

  lemma {:induction false} PartsRejoin(v: string, cur: string, inQuotes: bool)
    requires CommasQuoted(cur, false) && OddQuotes(cur) == inQuotes
    ensures cur + v == Join(SplitFrom(v, cur, inQuotes), COMMA) + BareComma(cur + v)
    decreases v
  {
    if v == "" {
      assert cur + v == cur && !EndsInBareComma(cur);
    } else if v[0] == ',' && !inQuotes {
      var rest := v[1..];
      PartsRejoin(rest, "", false);
      assert "" + rest == rest && v == COMMA + rest;
      RejoinAfterComma(cur, rest);
    } else {
      CommasQuotedSnoc(cur, v[0], inQuotes);
      assert cur + [v[0]] + v[1..] == cur + v;
      PartsRejoin(v[1..], cur + [v[0]], inQuotes != (v[0] == QUOTE));
    }
  }

  lemma BareCommaTail(cur: string, rest: string)
    requires !OddQuotes(cur)
    ensures EndsInBareComma(cur + COMMA + rest) == (rest == "" || EndsInBareComma(rest))
  {
    var v := cur + COMMA + rest;
    if rest == "" {
      assert v[..|v| - 1] == cur;
    } else {
      var init := rest[..|rest| - 1];
      assert v[..|v| - 1] == cur + (COMMA + init);
      OddQuotesConcat(cur, COMMA + init);
      assert (COMMA + init)[1..] == init;
    }
  }

  // ----- parsing -----

  predicate IsQuote(c: char) {
    c == QUOTE
  }

  /** What one part assigns; a part without "=" and an unknown key assign nothing. */
  datatype Assignment = Nothing | KeyId(v: string) | Algorithm(v: string) | Headers(v: string) | Signature(v: string)

  function Assign(part: string): Assignment {
    var n := IndexOf(part, '=');
    if n == |part| then Nothing
    else
      Named(TrimSpace(part[..n]), Trim(TrimSpace(part[n + 1..]), IsQuote))
  }

  function Named(key: string, value: string): Assignment {
    if key == "keyId" then KeyId(value)
    else if key == "algorithm" then Algorithm(value)
    else if key == "headers" then Headers(value)
    else if key == "signature" then Signature(value)
    else Nothing
  }

  function ApplyAssignment(out: ParsedSignature, a: Assignment): ParsedSignature {
    match a
    case Nothing => out
    case KeyId(v) => out.(keyId := v)
    case Algorithm(v) => out.(algorithm := v)
    case Headers(v) => out.(headers := Fields(v))
    case Signature(v) => out.(signature := v)
  }

  /** Later parts win. */
  function ApplyAll(out: ParsedSignature, assignments: seq<Assignment>): ParsedSignature
    decreases |assignments|
  {
    if assignments == [] then out else ApplyAll(ApplyAssignment(out, assignments[0]), assignments[1..])
  }

  function Assignments(parts: seq<string>): seq<Assignment> {
    seq(|parts|, i requires 0 <= i < |parts| => Assign(parts[i]))
  }

  const NOTHING: ParsedSignature := ParsedSignature("", "", [], "")

  /** The parsed header, or None when it is empty or names no key or signature. */
  function ParseSignatureHeader(v: string): Option<ParsedSignature> {
    if v == "" then None
    else
      var out := ApplyAll(NOTHING, Assignments(SplitParams(v)));
      if out.keyId == "" || out.signature == "" then None
      else if out.headers == [] then Some(out.(headers := ["date"]))
      else Some(out)
  }

  method ParseSignatureHeaderLoop(v: string) returns (r: Option<ParsedSignature>)
    ensures r == ParseSignatureHeader(v)
  {
    if v == "" {
      return None;
    }
    var parts := SplitParamsLoop(v);
    var out := NOTHING;
    for i := 0 to |parts|
      invariant ApplyAll(out, Assignments(parts)[i..]) == ApplyAll(NOTHING, Assignments(parts))
    {
      assert Assignments(parts)[i..][1..] == Assignments(parts)[i + 1..];
      out := ApplyAssignment(out, Assign(parts[i]));
    }
    if out.keyId == "" || out.signature == "" {
      return None;
    }
    if |out.headers| == 0 {
      out := out.(headers := ["date"]);
    }
    return Some(out);
  }

  // ----- printing -----

  function Param(name: string, value: string): string {
    name + "=\"" + value + "\""
  }

  function Params(keyId: string, algorithm: string, headers: string, signature: string): seq<string> {
    [Param("keyId", keyId), Param("algorithm", algorithm), Param("headers", headers), Param("signature", signature)]
  }

  /** The header value SignRequest sets. */
  function PrintSignature(keyId: string, algorithm: string, sig: seq<byte>): string {
    Join(Params(keyId, algorithm, Join(DEFAULT_HEADERS, SPACE), Base64.Encode(sig)), COMMA)
  }

  lemma {:induction false} FreeHasNoQuotes(s: string)
    requires Free(s, QUOTE)
    ensures !OddQuotes(s)
  {
    if s != "" {
      FreeHasNoQuotes(s[1..]);
    }
  }

  lemma OneQuote(a: string, b: string)
    requires Free(a, QUOTE) && Free(b, QUOTE)
    ensures OddQuotes(a + [QUOTE] + b)
  {
    OddQuotesConcat(a + [QUOTE], b);
    OddQuotesConcat(a, [QUOTE]);
    FreeHasNoQuotes(a);
    FreeHasNoQuotes(b);
    assert [QUOTE][1..] == "";
  }

  lemma ParamIsWellQuoted(name: string, value: string)
    requires Free(name, QUOTE) && Free(name, ',') && Free(value, QUOTE)
    ensures CommasQuoted(Param(name, value), false) && !OddQuotes(Param(name, value))
  {
    var p := Param(name, value);
    var lead := name + "=";
    assert p == (lead + [QUOTE] + value) + [QUOTE];
    OneQuote(lead, value);
    OddQuotesConcat(lead + [QUOTE] + value, [QUOTE]);
    assert [QUOTE][1..] == "";
    forall i | 0 <= i < |p| && p[i] == ','
      ensures OddQuotes(p[..i])
    {
      assert |lead| < i < |p| - 1;
      assert p[..i] == lead + [QUOTE] + value[..i - |lead| - 1];
      OneQuote(lead, value[..i - |lead| - 1]);
    }
  }

  lemma TrimQuoted(value: string)
    requires Free(value, QUOTE)
    ensures Trim(TrimSpace([QUOTE] + value + [QUOTE]), IsQuote) == value
  {
    var quoted := [QUOTE] + value + [QUOTE];
    assert TrimSpace(quoted) == quoted;
    assert quoted[1..] == value + [QUOTE];
    if value == "" {
      assert quoted[1..] == [QUOTE] && [QUOTE][1..] == "";
      assert TrimLeft([QUOTE], IsQuote) == "";
    } else {
      assert TrimLeft(quoted, IsQuote) == value + [QUOTE];
      assert (value + [QUOTE])[..|value|] == value;
      assert TrimRight(value + [QUOTE], IsQuote) == TrimRight(value, IsQuote) == value;
    }
  }

  lemma {:induction false} TrimSpaceFree(s: string)
    requires SpaceFree(s)
    ensures TrimSpace(s) == s
  {
  }

  /** A printed parameter is read back whole, whatever its value holds besides quotes. */
  lemma AssignParam(name: string, value: string)
    requires SpaceFree(name) && Free(name, '=') && Free(value, QUOTE)
    ensures Assign(Param(name, value)) == Named(name, value)
  {
    var p := Param(name, value);
    var quoted := [QUOTE] + value + [QUOTE];
    assert p == name + ['='] + quoted;
    IndexOfAfter(name, '=', quoted);
    assert p[..|name|] == name && p[|name| + 1..] == quoted;
    TrimSpaceFree(name);
    TrimQuoted(value);
  }

  lemma ApplyFour(k: string, a: string, h: string, s: string)
    ensures ApplyAll(NOTHING, [KeyId(k), Algorithm(a), Headers(h), Signature(s)]) == ParsedSignature(k, a, Fields(h), s)
  {
    var p1, p2, p3 := NOTHING.(keyId := k), ParsedSignature(k, a, [], ""), ParsedSignature(k, a, Fields(h), "");
    assert [Signature(s)][1..] == [];
    assert ApplyAll(p3, [Signature(s)]) == p3.(signature := s);
    assert [Headers(h), Signature(s)][1..] == [Signature(s)];
    assert ApplyAll(p2, [Headers(h), Signature(s)]) == ApplyAll(p3, [Signature(s)]);
    assert [Algorithm(a), Headers(h), Signature(s)][1..] == [Headers(h), Signature(s)];
    assert ApplyAll(p1, [Algorithm(a), Headers(h), Signature(s)]) == ApplyAll(p2, [Headers(h), Signature(s)]);
    assert [KeyId(k), Algorithm(a), Headers(h), Signature(s)][1..] == [Algorithm(a), Headers(h), Signature(s)];
  }

  lemma AssignParams(names: seq<string>, values: seq<string>, parts: seq<string>)
    requires |names| == |values| == |parts|
    requires forall i :: 0 <= i < |names| ==>
      SpaceFree(names[i]) && Free(names[i], '=') && Free(values[i], QUOTE) && parts[i] == Param(names[i], values[i])
    ensures forall i :: 0 <= i < |names| ==> Assignments(parts)[i] == Named(names[i], values[i])
  {
    forall i | 0 <= i < |names|
      ensures Assignments(parts)[i] == Named(names[i], values[i])
    {
      AssignParam(names[i], values[i]);
    }
  }

  lemma AssignPrinted(k: string, a: string, h: string, s: string)
    requires Free(k, QUOTE) && Free(a, QUOTE) && Free(h, QUOTE) && Free(s, QUOTE)
    ensures Assignments(Params(k, a, h, s)) == [KeyId(k), Algorithm(a), Headers(h), Signature(s)]
  {
    AssignParams(["keyId", "algorithm", "headers", "signature"], [k, a, h, s], Params(k, a, h, s));
  }

  lemma SplitPrinted(k: string, a: string, h: string, s: string)
    requires Free(k, QUOTE) && Free(a, QUOTE) && Free(h, QUOTE) && Free(s, QUOTE)
    ensures SplitParams(Join(Params(k, a, h, s), COMMA)) == Params(k, a, h, s)
  {
    ParamIsWellQuoted("keyId", k);
    ParamIsWellQuoted("algorithm", a);
    ParamIsWellQuoted("headers", h);
    ParamIsWellQuoted("signature", s);
    SplitJoin(Params(k, a, h, s));
  }

  lemma EncodedIsQuoteFree(sig: seq<byte>)
    ensures Free(Base64.Encode(sig), QUOTE)
    ensures sig != [] ==> Base64.Encode(sig) != ""
  {
    Base64.EncodeUsesAlphabet(sig);
  }

  /**
   * Parsing inverts printing, for every key id SignRequest lets through (with commas,
   * equals signs and spaces), every algorithm without a quote and every signature.
   */
  lemma ParsePrint(keyId: string, algorithm: string, sig: seq<byte>)
    requires ValidKeyId(keyId) && Free(algorithm, QUOTE) && sig != []
    ensures ParseSignatureHeader(PrintSignature(keyId, algorithm, sig))
         == Some(ParsedSignature(keyId, algorithm, DEFAULT_HEADERS, Base64.Encode(sig)))
  {
    EncodedIsQuoteFree(sig);
    PrintedHeadersParse();
    var h, s := Join(DEFAULT_HEADERS, SPACE), Base64.Encode(sig);
    SplitPrinted(keyId, algorithm, h, s);
    AssignPrinted(keyId, algorithm, h, s);
    ApplyFour(keyId, algorithm, h, s);
    assert PrintSignature(keyId, algorithm, sig) != "";
  }

  lemma PrintedHeadersParse()
    ensures Free(Join(DEFAULT_HEADERS, SPACE), QUOTE)
    ensures Fields(Join(DEFAULT_HEADERS, SPACE)) == DEFAULT_HEADERS
  {
    FieldsOfJoin(DEFAULT_HEADERS);
    JoinIsFree(DEFAULT_HEADERS, QUOTE);
  }

  lemma {:induction false} JoinIsFree(parts: seq<string>, c: char)
    requires c != ' ' && forall i :: 0 <= i < |parts| ==> Free(parts[i], c)
    ensures Free(Join(parts, SPACE), c)
  {
    if |parts| > 1 {
      JoinIsFree(parts[1..], c);
    }
  }
}
