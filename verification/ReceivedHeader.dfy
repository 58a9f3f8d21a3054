/** Signature headers as other implementations write them: spaces, any order, repeats, unknown and missing parameters. */
module ReceivedHeader {
  import opened Prelude
  import opened Text
  import opened SignatureHeader

  /** One quoted parameter, with the white space around its parts. */
  datatype Received = Received(before: string, name: string, around: string, gap: string, value: string, after: string)

  function Lead(r: Received): string {
    r.before + r.name + r.around
  }

  function Right(r: Received): string {
    r.gap + ([QUOTE] + r.value + [QUOTE]) + r.after
  }

  function Written(r: Received): string {
    Lead(r) + ['='] + Right(r)
  }

  predicate Blank(s: string) {
    AllOf(s, IsSpace)
  }

  predicate WellFormed(r: Received) {
    && Blank(r.before) && Blank(r.around) && Blank(r.gap) && Blank(r.after)
    && r.name != "" && SpaceFree(r.name) && Free(r.name, '=') && Free(r.name, QUOTE) && Free(r.name, ',')
    && Free(r.value, QUOTE)
  }

  lemma QuotedIsWellQuoted(lead: string, value: string, tail: string)
    requires Free(lead, QUOTE) && Free(lead, ',') && Free(value, QUOTE) && Free(tail, QUOTE) && Free(tail, ',')
    ensures var p := lead + [QUOTE] + value + [QUOTE] + tail; CommasQuoted(p, false) && !OddQuotes(p)
  {
    var open := lead + [QUOTE] + value;
    var p := open + [QUOTE] + tail;
    OneQuote(lead, value);
    OneQuote("", tail);
    assert p == open + ("" + [QUOTE] + tail);
    OddQuotesConcat(open, "" + [QUOTE] + tail);
    forall i | 0 <= i < |p| && p[i] == ','
      ensures OddQuotes(p[..i])
    {
      assert |lead| < i < |open|;
      assert p[..i] == lead + [QUOTE] + value[..i - |lead| - 1];
      OneQuote(lead, value[..i - |lead| - 1]);
    }
  }

  lemma WrittenIsWellQuoted(r: Received)
    requires WellFormed(r)
    ensures Written(r) != "" && CommasQuoted(Written(r), false) && !OddQuotes(Written(r))
  {
    var lead := Lead(r) + ['='] + r.gap;
    assert Written(r) == lead + [QUOTE] + r.value + [QUOTE] + r.after;
    QuotedIsWellQuoted(lead, r.value, r.after);
  }

  /** A written parameter assigns its value to its name, whatever white space is around either. */
  lemma AssignWritten(r: Received)
    requires WellFormed(r)
    ensures Assign(Written(r)) == Named(r.name, r.value)
  {
    var p, lead, quoted := Written(r), Lead(r), [QUOTE] + r.value + [QUOTE];
    assert Free(lead, '=');
    IndexOfAfter(lead, '=', Right(r));
    assert p[..|lead|] == lead && p[|lead| + 1..] == Right(r);
    TrimOf(r.before, r.name, r.around, IsSpace);
    TrimOf(r.gap, quoted, r.after, IsSpace);
    TrimOf([QUOTE], r.value, [QUOTE], IsQuote);
  }

  function WrittenAll(rs: seq<Received>): (parts: seq<string>)
    ensures |parts| == |rs| && forall i :: 0 <= i < |rs| ==> parts[i] == Written(rs[i])
  {
    seq(|rs|, i requires 0 <= i < |rs| => Written(rs[i]))
  }

  function NamedAll(rs: seq<Received>): (r: seq<Assignment>)
    ensures |r| == |rs| && forall i :: 0 <= i < |rs| ==> r[i] == Named(rs[i].name, rs[i].value)
  {
    seq(|rs|, i requires 0 <= i < |rs| => Named(rs[i].name, rs[i].value))
  }

  lemma PartsOf(rs: seq<Received>)
    requires rs != [] && forall i :: 0 <= i < |rs| ==> WellFormed(rs[i])
    ensures SplitParams(Join(WrittenAll(rs), COMMA)) == WrittenAll(rs)
    ensures Assignments(WrittenAll(rs)) == NamedAll(rs)
  {
    var parts := WrittenAll(rs);
    forall i | 0 <= i < |parts|
      ensures parts[i] != "" && CommasQuoted(parts[i], false) && !OddQuotes(parts[i]) && Assign(parts[i]) == Named(rs[i].name, rs[i].value)
    {
      WrittenIsWellQuoted(rs[i]);
      AssignWritten(rs[i]);
    }
    SplitJoin(parts);
  }

  /** The value of the last parameter of that name. */
  function LastValue(rs: seq<Received>, name: string): Option<string> {
    if rs == [] then None
    else if rs[|rs| - 1].name == name then Some(rs[|rs| - 1].value)
    else LastValue(rs[..|rs| - 1], name)
  }

  function OrElse(o: Option<string>, d: string): string {
    if o.Some? then o.value else d
  }

  lemma {:induction false} ApplySnoc(out: ParsedSignature, a: seq<Assignment>, last: Assignment)
    ensures ApplyAll(out, a + [last]) == ApplyAssignment(ApplyAll(out, a), last)
    decreases |a|
  {
    if a == [] {
      assert a + [last] == [last] && [last][1..] == [];
    } else {
      assert (a + [last])[1..] == a[1..] + [last];
      ApplySnoc(ApplyAssignment(out, a[0]), a[1..], last);
    }
  }

  lemma {:induction false} LastOnesWin(rs: seq<Received>)
    ensures ApplyAll(NOTHING, NamedAll(rs)) == ParsedSignature(
      OrElse(LastValue(rs, "keyId"), ""), OrElse(LastValue(rs, "algorithm"), ""),
      Fields(OrElse(LastValue(rs, "headers"), "")), OrElse(LastValue(rs, "signature"), ""))
  {
    if rs != [] {
      var init, last := rs[..|rs| - 1], rs[|rs| - 1];
      LastOnesWin(init);
      assert NamedAll(rs) == NamedAll(init) + [Named(last.name, last.value)];
      ApplySnoc(NOTHING, NamedAll(init), Named(last.name, last.value));
    }
  }

  /**
   * Every header of quoted parameters, in any order, with any white space around names
   * and values, repeated or unknown names among them, parses to the last value of each;
   * without a `headers` list it covers the date alone; and without a key id or a
   * signature it is refused.
   */
  lemma ParseReceived(rs: seq<Received>)
    requires rs != [] && forall i :: 0 <= i < |rs| ==> WellFormed(rs[i])
    ensures var keyId, signature := OrElse(LastValue(rs, "keyId"), ""), OrElse(LastValue(rs, "signature"), "");
      var headers := Fields(OrElse(LastValue(rs, "headers"), ""));
      ParseSignatureHeader(Join(WrittenAll(rs), COMMA)) ==
        if keyId == "" || signature == "" then None
        else Some(ParsedSignature(keyId, OrElse(LastValue(rs, "algorithm"), ""), if headers == [] then ["date"] else headers, signature))
  {
    PartsOf(rs);
    LastOnesWin(rs);
    JoinIsNotEmpty(rs);
  }

  lemma JoinIsNotEmpty(rs: seq<Received>)
    requires rs != []
    ensures Join(WrittenAll(rs), COMMA) != ""
  {
    assert WrittenAll(rs)[0] == Written(rs[0]);
  }
}
