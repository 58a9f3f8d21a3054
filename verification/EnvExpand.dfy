/** Substituting ${NAME} and ${NAME:-default} in the scalars of a parsed configuration document. */
module EnvExpand {
  import opened Prelude
  import opened Text
  import Dedup
  import opened Document

  type Env = map<string, string>

  predicate NameStart(c: char) {
    'A' <= c <= 'Z' || 'a' <= c <= 'z' || c == '_'
  }

  predicate NameChar(c: char) {
    NameStart(c) || '0' <= c <= '9'
  }

  /** How many name characters `s` begins with. */
  function NameRun(s: string): (n: nat)
    ensures n <= |s| && (forall i :: 0 <= i < n ==> NameChar(s[i])) && (n < |s| ==> !NameChar(s[n]))
  {
    if s == "" || !NameChar(s[0]) then 0 else 1 + NameRun(s[1..])
  }

  /** One match of envPattern: its length and its two groups. */
  datatype Match = Match(len: nat, name: string, default: Option<string>)

  /** envPattern at the front of `s`. */
  function MatchAt(s: string): (m: Option<Match>)
    ensures m.Some? ==> 0 < m.value.len <= |s|
  {
    if |s| < 3 || s[0] != '$' || s[1] != '{' || !NameStart(s[2]) then None
    else
      var n := 2 + NameRun(s[2..]);
      if n < |s| && s[n] == '}' then Some(Match(n + 1, s[2..n], None))
      else if n + 1 < |s| && s[n] == ':' && s[n + 1] == '-' then
        var k := IndexOf(s[n + 2..], '}');
        if n + 2 + k == |s| then None else Some(Match(n + 3 + k, s[2..n], Some(s[n + 2..n + 2 + k])))
      else None
  }

  /** strings.Contains(s, ":-"). */
  predicate HasDefaultMark(s: string) {
    exists i :: 0 <= i < |s| - 1 && s[i] == ':' && s[i + 1] == '-'
  }

  datatype Expansion = Expansion(text: string, missing: seq<string>)

  /** The replacement of one matched text, which the code matches a second time for its groups. */
  function Replace(env: Env, matched: string): Expansion {
    match MatchAt(matched)
    case None => Expansion("", [])
    case Some(g) =>
      if g.name in env then Expansion(env[g.name], [])
      else if HasDefaultMark(matched) then Expansion(if g.default.Some? then g.default.value else "", [])
      else Expansion("", [g.name])
  }

  /** ReplaceAllStringFunc: left to right, never looking at replaced text again. */
  function Expand(env: Env, s: string): Expansion {
    if s == "" then Expansion("", [])
    else
      match MatchAt(s)
      case None =>
        var rest := Expand(env, s[1..]);
        Expansion([s[0]] + rest.text, rest.missing)
      case Some(m) =>
        var here, rest := Replace(env, s[..m.len]), Expand(env, s[m.len..]);
        Expansion(here.text + rest.text, here.missing + rest.missing)
  }

  predicate Matches(s: string)
    decreases s
  {
    s != "" && (MatchAt(s).Some? || Matches(s[1..]))
  }

  // ----- the pattern -----

  /** The ":-" test on the matched text is true exactly for the default form. */
  lemma DefaultMarkIsDefaultForm(s: string)
    requires MatchAt(s).Some?
    ensures HasDefaultMark(s[..MatchAt(s).value.len]) <==> MatchAt(s).value.default.Some?
  {
    var m := MatchAt(s).value;
    var t := s[..m.len];
    var n := 2 + NameRun(s[2..]);
    if m.default.Some? {
      assert t[n] == ':' && t[n + 1] == '-';
    } else {
      forall i | 0 <= i < |t| - 1
        ensures t[i] != ':'
      {
        if i >= 2 {
          assert NameChar(s[2..][i - 2]);
        }
      }
    }
  }

  // ----- expanding a rendering -----

  datatype Token = Lit(text: string) | Ref(name: string) | RefDefault(name: string, default: string)

  /** Letters, digits and underscores, not beginning with a digit. */
  predicate ValidName(s: string) {
    && s != "" && !('0' <= s[0] <= '9')
    && forall i :: 0 <= i < |s| ==> 'A' <= s[i] <= 'Z' || 'a' <= s[i] <= 'z' || '0' <= s[i] <= '9' || s[i] == '_'
  }

  predicate ValidToken(t: Token) {
    match t
    case Lit(text) => Free(text, '$')
    case Ref(name) => ValidName(name)
    case RefDefault(name, default) => ValidName(name) && Free(default, '}')
  }

  function Render(t: Token): string {
    match t
    case Lit(text) => text
    case Ref(name) => "${" + name + "}"
    case RefDefault(name, default) => "${" + name + ":-" + default + "}"
  }

  function RenderAll(ts: seq<Token>): string {
    if ts == [] then "" else Render(ts[0]) + RenderAll(ts[1..])
  }

  /** What a token stands for, and the name it misses. */
  function Meaning(env: Env, t: Token): Expansion {
    match t
    case Lit(text) => Expansion(text, [])
    case Ref(name) => if name in env then Expansion(env[name], []) else Expansion("", [name])
    case RefDefault(name, default) => Expansion(if name in env then env[name] else default, [])
  }

  function MeaningAll(env: Env, ts: seq<Token>): Expansion {
    if ts == [] then Expansion("", [])
    else
      var here, rest := Meaning(env, ts[0]), MeaningAll(env, ts[1..]);
      Expansion(here.text + rest.text, here.missing + rest.missing)
  }

  lemma {:induction false} NameRunOf(name: string, c: char, rest: string)
    requires (forall i :: 0 <= i < |name| ==> NameChar(name[i])) && !NameChar(c)
    ensures NameRun(name + [c] + rest) == |name|
  {
    if name != "" {
      assert (name + [c] + rest)[1..] == name[1..] + [c] + rest;
      NameRunOf(name[1..], c, rest);
    }
  }

  lemma MatchRef(name: string, rest: string)
    requires ValidName(name)
    ensures MatchAt(Render(Ref(name)) + rest) == Some(Match(|name| + 3, name, None))
  {
    var s := Render(Ref(name)) + rest;
    assert s[2..] == name + ['}'] + rest;
    NameRunOf(name, '}', rest);
    assert s[2..2 + |name|] == name;
  }

  lemma NamePart(s: string, name: string, tail: string)
    requires ValidName(name) && s == "${" + name + [':'] + tail
    ensures |s| > |name| + 2 && s[0] == '$' && s[1] == '{' && s[2..2 + |name|] == name && NameStart(s[2])
    ensures NameRun(s[2..]) == |name| && s[2 + |name|] == ':'
  {
    assert s[2..] == name + [':'] + tail;
    NameRunOf(name, ':', tail);
  }

  lemma DefaultPart(s: string, front: string, default: string, rest: string)
    requires Free(default, '}') && s == front + default + ['}'] + rest
    ensures |s| > |front| + |default| && s[|front|..|front| + |default|] == default
    ensures IndexOf(s[|front|..], '}') == |default|
  {
    assert s[|front|..] == default + ['}'] + rest;
    IndexOfAfter(default, '}', rest);
  }

  /** The default form from its parts: where the name ends and where the default does. */
  lemma MatchDefaultAt(s: string, n: nat, k: nat)
    requires 2 < n && n + 2 + k < |s| && s[0] == '$' && s[1] == '{' && NameStart(s[2])
    requires NameRun(s[2..]) == n - 2 && s[n] == ':' && s[n + 1] == '-' && IndexOf(s[n + 2..], '}') == k
    ensures MatchAt(s) == Some(Match(n + 3 + k, s[2..n], Some(s[n + 2..n + 2 + k])))
  {
  }

  lemma MatchRefDefault(name: string, default: string, rest: string)
    requires ValidName(name) && Free(default, '}')
    ensures MatchAt(Render(RefDefault(name, default)) + rest) == Some(Match(|name| + |default| + 5, name, Some(default)))
  {
    var s, n := Render(RefDefault(name, default)) + rest, 2 + |name|;
    RenderedDefault(name, default, rest);
    NamePart(s, name, "-" + default + "}" + rest);
    DefaultPart(s, "${" + name + ":-", default, rest);
    MatchDefaultAt(s, n, |default|);
  }

  lemma RenderedDefault(name: string, default: string, rest: string)
    ensures var s := Render(RefDefault(name, default)) + rest;
      && s == "${" + name + [':'] + ("-" + default + "}" + rest)
      && s == "${" + name + ":-" + default + ['}'] + rest
      && s[|name| + 3] == '-'
  {
  }

  function TokenOf(m: Match): Token {
    if m.default.Some? then RefDefault(m.name, m.default.value) else Ref(m.name)
  }

  lemma RefText(s: string, n: nat)
    requires 2 <= n < |s| && s[0] == '$' && s[1] == '{' && s[n] == '}'
    ensures s[..n + 1] == "${" + s[2..n] + "}"
  {
  }

  lemma RefDefaultText(s: string, n: nat, k: nat)
    requires 2 <= n && n + 2 + k < |s| && s[0] == '$' && s[1] == '{' && s[n] == ':' && s[n + 1] == '-' && s[n + 2 + k] == '}'
    ensures s[..n + 3 + k] == "${" + s[2..n] + ":-" + s[n + 2..n + 2 + k] + "}"
  {
    assert s[..n + 3 + k] == s[..2] + s[2..n] + s[n..n + 2] + s[n + 2..n + 2 + k] + s[n + 2 + k..n + 3 + k];
    assert s[..2] == "${" && s[n..n + 2] == ":-" && s[n + 2 + k..n + 3 + k] == "}";
  }

  lemma NameRunIsName(s: string)
    requires s != "" && NameStart(s[0])
    ensures ValidName(s[..NameRun(s)])
  {
  }

  /** A match is always the rendering of one reference. */
  lemma MatchedIsRendering(s: string)
    requires MatchAt(s).Some?
    ensures var m := MatchAt(s).value; ValidToken(TokenOf(m)) && s[..m.len] == Render(TokenOf(m))
  {
    var m := MatchAt(s).value;
    var n := 2 + NameRun(s[2..]);
    NameRunIsName(s[2..]);
    assert s[2..][..n - 2] == s[2..n];
    if m.default.Some? {
      var k := IndexOf(s[n + 2..], '}');
      assert s[n + 2..][..k] == s[n + 2..n + 2 + k];
      RefDefaultText(s, n, k);
    } else {
      RefText(s, n);
    }
  }

  /** Matching the matched text again gives the whole of it and the same groups. */
  lemma MatchAgain(s: string)
    requires MatchAt(s).Some?
    ensures MatchAt(s[..MatchAt(s).value.len]) == MatchAt(s)
  {
    var m := MatchAt(s).value;
    MatchedIsRendering(s);
    assert s[..m.len] + "" == s[..m.len];
    if m.default.Some? {
      MatchRefDefault(m.name, m.default.value, "");
    } else {
      MatchRef(m.name, "");
    }
  }

  function Prepend(text: string, e: Expansion): Expansion {
    Expansion(text + e.text, e.missing)
  }

  lemma PrependConcat(a: string, b: string, e: Expansion)
    ensures Prepend(a, Prepend(b, e)) == Prepend(a + b, e)
  {
    assert a + (b + e.text) == a + b + e.text;
  }

  lemma ExpandPlainChar(env: Env, c: char, rest: string)
    requires c != '$'
    ensures Expand(env, [c] + rest) == Prepend([c], Expand(env, rest))
  {
    var s := [c] + rest;
    assert MatchAt(s).None? && s[1..] == rest;
  }

  lemma LiteralStep(env: Env, c: char, others: string, rest: string)
    requires c != '$' && Expand(env, others + rest) == Prepend(others, Expand(env, rest))
    ensures Expand(env, [c] + others + rest) == Prepend([c] + others, Expand(env, rest))
  {
    assert [c] + others + rest == [c] + (others + rest);
    ExpandPlainChar(env, c, others + rest);
    PrependConcat([c], others, Expand(env, rest));
  }

  lemma {:induction false} ExpandLiteral(env: Env, text: string, rest: string)
    requires Free(text, '$')
    ensures Expand(env, text + rest) == Prepend(text, Expand(env, rest))
  {
    if text == "" {
      assert text + rest == rest;
    } else {
      ExpandLiteral(env, text[1..], rest);
      LiteralStep(env, text[0], text[1..], rest);
      assert [text[0]] + text[1..] == text;
    }
  }

  lemma ExpandReference(env: Env, t: Token, rest: string)
    requires ValidToken(t) && !t.Lit?
    ensures Expand(env, Render(t) + rest) ==
      Expansion(Meaning(env, t).text + Expand(env, rest).text, Meaning(env, t).missing + Expand(env, rest).missing)
  {
    var s := Render(t) + rest;
    if t.Ref? {
      MatchRef(t.name, rest);
    } else {
      MatchRefDefault(t.name, t.default, rest);
    }
    var m := MatchAt(s).value;
    assert s[..m.len] == Render(t) && s[m.len..] == rest;
    MatchAgain(s);
    DefaultMarkIsDefaultForm(s);
  }

  /**
   * Expanding the rendering of any literals and references gives the literals and
   * looked-up values in turn, whatever those values look like, and misses exactly
   * the unset names without a default.
   */
  lemma {:induction false} ExpandRender(env: Env, ts: seq<Token>)
    requires forall i :: 0 <= i < |ts| ==> ValidToken(ts[i])
    ensures Expand(env, RenderAll(ts)) == MeaningAll(env, ts)
  {
    if ts != [] {
      ExpandRender(env, ts[1..]);
      var rest := RenderAll(ts[1..]);
      if ts[0].Lit? {
        ExpandLiteral(env, ts[0].text, rest);
      } else {
        ExpandReference(env, ts[0], rest);
      }
    }
  }

  // ----- every string -----

  /** The references of any string, and the characters around them. */
  function Scan(s: string): seq<Token> {
    if s == "" then []
    else
      match MatchAt(s)
      case None => [Lit([s[0]])] + Scan(s[1..])
      case Some(m) => [TokenOf(m)] + Scan(s[m.len..])
  }

  /** envPattern matches at the front of a string exactly when it begins with a rendered reference. */
  lemma MatchIff(s: string)
    ensures MatchAt(s).Some? <==> exists t, rest :: ValidToken(t) && !t.Lit? && s == Render(t) + rest
  {
    if MatchAt(s).Some? {
      var m := MatchAt(s).value;
      MatchedIsRendering(s);
      assert s == Render(TokenOf(m)) + s[m.len..];
    }
    if t, rest :| ValidToken(t) && !t.Lit? && s == Render(t) + rest {
      if t.Ref? {
        MatchRef(t.name, rest);
      } else {
        MatchRefDefault(t.name, t.default, rest);
      }
    }
  }

  predicate HasReference(s: string) {
    exists i :: 0 <= i < |Scan(s)| && !Scan(s)[i].Lit?
  }

  /** envPattern.MatchString is true exactly of the strings that hold a reference. */
  lemma {:induction false} MatchesIff(s: string)
    ensures Matches(s) <==> HasReference(s)
  {
    if s != "" {
      if MatchAt(s).Some? {
        assert !Scan(s)[0].Lit?;
      } else {
        var rest := Scan(s[1..]);
        MatchesIff(s[1..]);
        assert Scan(s) == [Lit([s[0]])] + rest;
        assert forall i :: 0 <= i < |rest| ==> Scan(s)[i + 1] == rest[i];
        assert forall i :: 1 <= i < |Scan(s)| ==> Scan(s)[i] == rest[i - 1];
      }
    }
  }

  lemma ReplaceIsMeaning(env: Env, s: string)
    requires MatchAt(s).Some?
    ensures Replace(env, s[..MatchAt(s).value.len]) == Meaning(env, TokenOf(MatchAt(s).value))
  {
    MatchAgain(s);
    DefaultMarkIsDefaultForm(s);
  }

  /** The token at the front of a string, and how much of the string it renders. */
  lemma FrontToken(s: string) returns (t: Token, n: nat)
    requires s != ""
    ensures 0 < n <= |s| && Scan(s) == [t] + Scan(s[n..]) && Render(t) == s[..n]
  {
    if MatchAt(s).Some? {
      MatchedIsRendering(s);
      t, n := TokenOf(MatchAt(s).value), MatchAt(s).value.len;
    } else {
      t, n := Lit([s[0]]), 1;
    }
  }

  lemma RenderCons(t: Token, ts: seq<Token>)
    ensures RenderAll([t] + ts) == Render(t) + RenderAll(ts)
  {
    assert ([t] + ts)[1..] == ts;
  }

  lemma {:induction false} RenderScan(s: string)
    ensures RenderAll(Scan(s)) == s
  {
    if s != "" {
      var t, n := FrontToken(s);
      RenderScan(s[n..]);
      RenderCons(t, Scan(s[n..]));
      assert s == s[..n] + s[n..];
    }
  }

  /** Expansion is the meaning of the scanned references, for every string. */
  lemma {:induction false} ExpandIsMeaning(env: Env, s: string)
    ensures Expand(env, s) == MeaningAll(env, Scan(s))
  {
    if s != "" {
      var n := if MatchAt(s).Some? then MatchAt(s).value.len else 1;
      if MatchAt(s).Some? {
        ReplaceIsMeaning(env, s);
      }
      ExpandIsMeaning(env, s[n..]);
      assert Scan(s)[1..] == Scan(s[n..]);
    }
  }

  /** A value without a reference is left as it is. */
  lemma {:induction false} NoMatchNoChange(env: Env, s: string)
    requires !Matches(s)
    ensures Expand(env, s) == Expansion(s, [])
  {
    if s != "" {
      NoMatchNoChange(env, s[1..]);
    }
  }

  /** A name is reported missing exactly when a default-less reference names it and it is unset. */
  lemma {:induction false} MissingIff(env: Env, ts: seq<Token>, name: string)
    ensures name in MeaningAll(env, ts).missing <==> Ref(name) in ts && name !in env
  {
    if ts != [] {
      MissingIff(env, ts[1..], name);
      assert ts == [ts[0]] + ts[1..];
    }
  }

  // ----- the document -----

  /** expandEnvNode's visit of one scalar: substitute, and drop the tag if anything matched, so that the type is resolved again. */
  function ExpandHeld(env: Env, h: Held): Visited {
    if !Matches(h.value) then Visited(h, [])
    else
      var e := Expand(env, h.value);
      Visited(Held(e.text, ""), e.missing)
  }

  /** What a visit leaves: the meaning of the references, and no tag where there was one; elsewhere nothing changes. */
  lemma ExpandedScalar(env: Env, h: Held)
    ensures var after := ExpandHeld(env, h).held;
      && after.value == MeaningAll(env, Scan(h.value)).text
      && after.tag == (if HasReference(h.value) then "" else h.tag)
      && (!HasReference(h.value) ==> after == h)
  {
    ExpandIsMeaning(env, h.value);
    MatchesIff(h.value);
    if !Matches(h.value) {
      NoMatchNoChange(env, h.value);
    }
  }

  function Expander(env: Env): Visitor {
    h => ExpandHeld(env, h)
  }

  /** The names the scalars miss, in document order, repeats included. */
  function MissingIn(env: Env, hs: seq<Held>): seq<string> {
    Reports(Expander(env), hs)
  }

  /** Every scalar holds the meaning of what it held, untagged where that held a reference and untouched elsewhere. */
  ghost predicate Expanded(env: Env, before: seq<Held>, after: seq<Held>) {
    && |after| == |before|
    && forall i :: 0 <= i < |after| ==>
      && after[i].value == MeaningAll(env, Scan(before[i].value)).text
      && after[i].tag == (if HasReference(before[i].value) then "" else before[i].tag)
      && (!HasReference(before[i].value) ==> after[i] == before[i])
  }

  lemma VisitsExpand(env: Env, before: seq<Held>)
    ensures Expanded(env, before, VisitAll(Expander(env), before))
  {
    forall i | 0 <= i < |before|
      ensures var after := VisitAll(Expander(env), before)[i];
        && after.value == MeaningAll(env, Scan(before[i].value)).text
        && after.tag == (if HasReference(before[i].value) then "" else before[i].tag)
        && (!HasReference(before[i].value) ==> after == before[i])
    {
      ExpandedScalar(env, before[i]);
    }
  }

  lemma AfterExpansion(env: Env, cells: seq<ScalarCell>, was: map<ScalarCell, Held>, held: seq<Held>, all: seq<string>)
    requires Recorded(cells, was, held)
    requires Moment(Contents(cells), all) == VisitInTurn(Expander(env), Moment(was, []), cells)
    ensures Distinct(cells) ==> Expanded(env, held, Snapshot(cells)) && Report(env, held) == Named(all)
  {
    if Distinct(cells) {
      AfterDistinctWalk(Expander(env), cells, was, held, all);
      VisitsExpand(env, held);
    }
  }

  /**
   * expandEnvNode: the document expanded in place, and the missing names, once each,
   * or None. In a document without sharing every scalar is expanded once.
   */
  method ExpandEnvNode(n: Node, env: Env) returns (missing: Option<seq<string>>)
    modifies Leaves(n)
    ensures var m := VisitInTurn(Expander(env), Moment(old(Contents(Leaves(n))), []), Leaves(n));
      Contents(Leaves(n)) == m.store && missing == Named(m.reports)
    ensures Distinct(Leaves(n)) ==>
      && Expanded(env, old(Snapshot(Leaves(n))), Snapshot(Leaves(n)))
      && missing == Report(env, old(Snapshot(Leaves(n))))
  {
    ghost var cells := Leaves(n);
    ghost var was, held := Contents(cells), Snapshot(cells);
    HeldIsSnapshot(cells);
    var all := WalkScalars(n, Expander(env));
    AfterExpansion(env, cells, was, held, all);
    missing := NameMissing(all);
  }

  /** The error: the collected names, compacted in place by dedupe. */
  method NameMissing(all: seq<string>) returns (missing: Option<seq<string>>)
    ensures missing == Named(all)
  {
    if |all| == 0 {
      return None;
    }
    var a := new string[|all|](i requires 0 <= i < |all| => all[i]);
    assert a[..] == all;
    var k := Dedup.DedupeInPlace(a);
    return Some(a[..k]);
  }

  /** The error for the names collected, if there are any. */
  function Named(all: seq<string>): Option<seq<string>> {
    if all == [] then None else Some(Dedup.Firsts(all))
  }

  /** What expandEnvNode reports for scalars that hold `hs`. */
  function Report(env: Env, hs: seq<Held>): Option<seq<string>> {
    Named(MissingIn(env, hs))
  }

  /** A name is missing from a scalar exactly when an unset, default-less reference in it names it. */
  lemma MissingFromIff(env: Env, h: Held, name: string)
    ensures name in ExpandHeld(env, h).reports <==> name !in env && Ref(name) in Scan(h.value)
  {
    ExpandIsMeaning(env, h.value);
    MissingIff(env, Scan(h.value), name);
    if !Matches(h.value) {
      NoMatchNoChange(env, h.value);
    }
  }

  lemma {:induction false} ReportsIff(fn: Visitor, hs: seq<Held>, name: string)
    ensures name in Reports(fn, hs) <==> exists i :: 0 <= i < |hs| && name in fn(hs[i]).reports
  {
    if hs != [] {
      ReportsIff(fn, hs[1..], name);
      if i :| 0 <= i < |hs| && name in fn(hs[i]).reports {
        assert i > 0 ==> hs[1..][i - 1] == hs[i];
      }
    }
  }

  lemma MissingInIff(env: Env, hs: seq<Held>, name: string)
    ensures name in MissingIn(env, hs) <==>
      name !in env && exists i :: 0 <= i < |hs| && Ref(name) in Scan(hs[i].value)
  {
    ReportsIff(Expander(env), hs, name);
    forall i | 0 <= i < |hs|
      ensures name in ExpandHeld(env, hs[i]).reports <==> name !in env && Ref(name) in Scan(hs[i].value)
    {
      MissingFromIff(env, hs[i], name);
    }
  }

  /**
   * Over the whole document the error names exactly the unset variables referenced
   * without a default, each once, in the order of their first occurrence.
   */
  lemma ReportIsExact(env: Env, hs: seq<Held>)
    ensures Report(env, hs).None? <==>
      forall i, name :: 0 <= i < |hs| && Ref(name) in Scan(hs[i].value) ==> name in env
    ensures Report(env, hs).Some? ==>
      var r := Report(env, hs).value;
      && (forall name :: name in r <==> name !in env && exists i :: 0 <= i < |hs| && Ref(name) in Scan(hs[i].value))
      && Dedup.NoRepeats(r) && Dedup.InFirstOrder(r, MissingIn(env, hs))
  {
    var all := MissingIn(env, hs);
    forall name
      ensures name in all <==> name !in env && exists i :: 0 <= i < |hs| && Ref(name) in Scan(hs[i].value)
    {
      MissingInIff(env, hs, name);
    }
    Dedup.FirstsIsFirsts(all);
    if all != [] {
      assert all[0] in all;
    }
  }
}
