/** The canonical string a signature covers, and its unambiguous decoding. */
module Canonical {
  import opened Prelude
  import opened Text

  const REQUEST_TARGET: string := "(request-target)"
  const HOST: string := "host"
  const NEWLINE: string := "\n"

  /** A header map. Names are case-insensitive, so the model keys it by lower-case name. */
  type Header = map<string, string>

  /** The value under a lower-case name; a missing one reads as the empty string. */
  function Get(h: Header, name: string): string {
    if name in h then h[name] else ""
  }

  /** requestUri is what URL.RequestURI() renders. */
  datatype Url = Url(host: string, requestUri: string)

  datatype Request = Request(verb: string, url: Url, host: string, header: Header)

  function RequestTarget(req: Request): string {
    ToLower(req.verb) + SPACE + req.url.requestUri
  }

  function EffectiveHost(req: Request): string {
    if req.host == "" then req.url.host else req.host
  }

  /** The value signed under a lower-case name; an empty ordinary header cannot be signed. */
  function Covered(req: Request, name: string): Option<string> {
    if name == REQUEST_TARGET then Some(RequestTarget(req))
    else if name == HOST then Some(EffectiveHost(req))
    else if Get(req.header, name) == "" then None
    else Some(Get(req.header, name))
  }

  datatype Entry = Entry(name: string, value: string)

  function Line(e: Entry): string {
    e.name + ": " + e.value
  }

  predicate Signable(req: Request, headers: seq<string>) {
    headers != [] && forall i :: 0 <= i < |headers| ==> Covered(req, ToLower(headers[i])).Some?
  }

  function Entries(req: Request, headers: seq<string>): seq<Entry>
    requires Signable(req, headers)
  {
    seq(|headers|, i requires 0 <= i < |headers| =>
      Entry(ToLower(headers[i]), Covered(req, ToLower(headers[i])).value))
  }

  function Lines(entries: seq<Entry>): seq<string> {
    seq(|entries|, i requires 0 <= i < |entries| => Line(entries[i]))
  }

  /** One "name: value" line per covered header; None when a header is empty or none is listed. */
  function SigningString(req: Request, headers: seq<string>): Option<string> {
    if Signable(req, headers) then Some(Join(Lines(Entries(req, headers)), NEWLINE)) else None
  }

  lemma {:induction false} JoinSnoc(parts: seq<string>, last: string, sep: string)
    ensures Join(parts + [last], sep) == (if parts == [] then last else Join(parts, sep) + sep + last)
  {
    if |parts| == 1 {
      assert (parts + [last])[1..] == [last];
    } else if |parts| > 1 {
      assert (parts + [last])[1..] == parts[1..] + [last];
      JoinSnoc(parts[1..], last, sep);
    }
  }

  method CoveredValue(req: Request, name: string) returns (v: Option<string>)
    ensures v == Covered(req, name)
  {
    if name == REQUEST_TARGET {
      return Some(RequestTarget(req));
    }
    if name == HOST {
      var host := req.host;
      if host == "" {
        host := req.url.host;
      }
      return Some(host);
    }
    var value := Get(req.header, name);
    if value == "" {
      return None;
    }
    return Some(value);
  }

  /** `line` is what the header contributes to the signing string. */
  predicate IsLineFor(req: Request, header: string, line: string) {
    Covered(req, ToLower(header)).Some? && line == Line(Entry(ToLower(header), Covered(req, ToLower(header)).value))
  }

  lemma AllLines(req: Request, headers: seq<string>, lines: seq<string>)
    requires headers != [] && |lines| == |headers|
    requires forall j :: 0 <= j < |lines| ==> IsLineFor(req, headers[j], lines[j])
    ensures SigningString(req, headers) == Some(Join(lines, NEWLINE))
  {
    forall j | 0 <= j < |headers|
      ensures Covered(req, ToLower(headers[j])).Some?
    {
      assert IsLineFor(req, headers[j], lines[j]);
    }
    var entries := Entries(req, headers);
    forall j | 0 <= j < |lines|
      ensures lines[j] == Line(entries[j])
    {
      assert IsLineFor(req, headers[j], lines[j]);
    }
    SameLines(entries, lines);
  }

  lemma SameLines(entries: seq<Entry>, lines: seq<string>)
    requires |lines| == |entries| && forall j :: 0 <= j < |lines| ==> lines[j] == Line(entries[j])
    ensures Lines(entries) == lines
  {
  }

  lemma MissingLine(req: Request, headers: seq<string>, i: nat)
    requires i < |headers| && Covered(req, ToLower(headers[i])).None?
    ensures SigningString(req, headers) == None
  {
  }

  /** SigningString as a loop over a string builder. */
  method BuildSigningString(req: Request, headers: seq<string>) returns (r: Option<string>)
    ensures r == SigningString(req, headers)
  {
    if |headers| == 0 {
      return None;
    }
    var b := "";
    ghost var lines: seq<string> := [];
    for i := 0 to |headers|
      invariant |lines| == i
      invariant forall j :: 0 <= j < i ==> IsLineFor(req, headers[j], lines[j])
      invariant b == Join(lines, NEWLINE)
    {
      if i > 0 {
        b := b + NEWLINE;
      }
      var name := ToLower(headers[i]);
      var v := CoveredValue(req, name);
      if v.None? {
        MissingLine(req, headers, i);
        return None;
      }
      var line := name + ": " + v.value;
      b := b + line;
      JoinSnoc(lines, line, NEWLINE);
      assert IsLineFor(req, headers[i], line);
      lines := lines + [line];
    }
    AllLines(req, headers, lines);
    return Some(b);
  }

  // ----- decoding -----

  function SplitOn(s: string, c: char): seq<string>
    decreases |s|
  {
    var n := IndexOf(s, c);
    if n == |s| then [s] else [s[..n]] + SplitOn(s[n + 1..], c)
  }

  lemma {:induction false} SplitOnJoin(parts: seq<string>, c: char)
    requires parts != [] && forall i :: 0 <= i < |parts| ==> Free(parts[i], c)
    ensures SplitOn(Join(parts, [c]), c) == parts
  {
    if |parts| > 1 {
      var rest := Join(parts[1..], [c]);
      var s := parts[0] + [c] + rest;
      assert Join(parts, [c]) == s;
      IndexOfAfter(parts[0], c, rest);
      assert s[..|parts[0]|] == parts[0] && s[|parts[0]| + 1..] == rest;
      SplitOnJoin(parts[1..], c);
    }
  }

  /** Splits a line at its first space, dropping the colon before it. */
  function DecodeLine(line: string): Entry {
    var n := IndexOf(line, ' ');
    if n == 0 || n == |line| then Entry("", line) else Entry(line[..n - 1], line[n + 1..])
  }

  function DecodeSigningString(s: string): seq<Entry> {
    var lines := SplitOn(s, '\n');
    seq(|lines|, i requires 0 <= i < |lines| => DecodeLine(lines[i]))
  }

  lemma DecodeLineInverts(e: Entry)
    requires Free(e.name, ' ')
    ensures DecodeLine(Line(e)) == e
  {
    var lead := e.name + ":";
    assert Line(e) == lead + [' '] + e.value;
    IndexOfAfter(lead, ' ', e.value);
    assert Line(e)[..|lead| - 1] == e.name && Line(e)[|lead| + 1..] == e.value;
  }

  /** Nothing in the request breaks a line, as net/http enforces. */
  predicate LineSafe(req: Request) {
    && Free(req.verb, '\n') && Free(req.url.requestUri, '\n') && Free(req.url.host, '\n') && Free(req.host, '\n')
    && forall k :: k in req.header ==> Free(req.header[k], '\n')
  }

  predicate NamesSpaceFree(headers: seq<string>) {
    forall i :: 0 <= i < |headers| ==> SpaceFree(headers[i])
  }

  lemma LowerSpaceFree(s: string)
    requires SpaceFree(s)
    ensures Free(ToLower(s), ' ') && Free(ToLower(s), '\n')
  {
    forall i | 0 <= i < |s|
      ensures !IsSpace(ToLower(s)[i])
    {
      assert !IsSpace(s[i]);
    }
  }

  lemma CoveredIsLineSafe(req: Request, name: string)
    requires LineSafe(req) && Covered(req, name).Some?
    ensures Free(Covered(req, name).value, '\n')
  {
  }

  /** The signing string decodes to exactly the covered names and values, in order. */
  lemma DecodeInvertsSigning(req: Request, headers: seq<string>)
    requires Signable(req, headers) && LineSafe(req) && NamesSpaceFree(headers)
    ensures DecodeSigningString(SigningString(req, headers).value) == Entries(req, headers)
  {
    var entries := Entries(req, headers);
    var lines := Lines(entries);
    forall i | 0 <= i < |lines|
      ensures Free(lines[i], '\n') && DecodeLine(lines[i]) == entries[i]
    {
      LowerSpaceFree(headers[i]);
      CoveredIsLineSafe(req, ToLower(headers[i]));
      DecodeLineInverts(entries[i]);
    }
    SplitOnJoin(lines, '\n');
  }

  /** Two requests that sign to the same string cover the same names with the same values. */
  lemma SigningStringUnambiguous(a: Request, b: Request, ha: seq<string>, hb: seq<string>)
    requires Signable(a, ha) && LineSafe(a) && NamesSpaceFree(ha)
    requires Signable(b, hb) && LineSafe(b) && NamesSpaceFree(hb)
    requires SigningString(a, ha) == SigningString(b, hb)
    ensures |ha| == |hb|
    ensures forall i :: 0 <= i < |ha| ==>
      ToLower(ha[i]) == ToLower(hb[i]) && Covered(a, ToLower(ha[i])) == Covered(b, ToLower(ha[i]))
  {
    DecodeInvertsSigning(a, ha);
    DecodeInvertsSigning(b, hb);
    assert |Entries(a, ha)| == |ha| && |Entries(b, hb)| == |hb|;
    forall i | 0 <= i < |ha|
      ensures ToLower(ha[i]) == ToLower(hb[i]) && Covered(a, ToLower(ha[i])) == Covered(b, ToLower(ha[i]))
    {
      assert Entries(a, ha)[i] == Entries(b, hb)[i];
    }
  }

  /** The request target is read back, at its first space, as the lower-case method and the request URI. */
  lemma TargetDecodes(req: Request)
    requires Free(req.verb, ' ')
    ensures var t, n := RequestTarget(req), IndexOf(RequestTarget(req), ' ');
      && n < |t| && t[n + 1..] == req.url.requestUri && n == |req.verb|
      && forall i :: 0 <= i < n ==> t[i] == (if 'A' <= req.verb[i] <= 'Z' then req.verb[i] - 'A' + 'a' else req.verb[i])
  {
    var x := ToLower(req.verb);
    assert Free(x, ' ');
    assert RequestTarget(req) == x + [' '] + req.url.requestUri;
    IndexOfAfter(x, ' ', req.url.requestUri);
    assert RequestTarget(req)[..|x|] == x;
  }

  /** Request targets are equal exactly when the methods are, up to letter case, and the request URIs are. */
  lemma TargetUnambiguous(a: Request, b: Request)
    requires Free(a.verb, ' ') && Free(b.verb, ' ')
    ensures RequestTarget(a) == RequestTarget(b) <==> ToLower(a.verb) == ToLower(b.verb) && a.url.requestUri == b.url.requestUri
  {
    TargetDecodes(a);
    TargetDecodes(b);
    if RequestTarget(a) == RequestTarget(b) {
      var t := RequestTarget(a);
      assert ToLower(a.verb) == t[..|a.verb|] && ToLower(b.verb) == t[..|b.verb|];
    }
  }

  /** The lines of section 2.3 of draft-cavage-http-signatures for any list of names, written out. */
  lemma SignedLines(req: Request, headers: seq<string>, lines: seq<string>)
    requires headers != [] && |lines| == |headers|
    requires forall i :: 0 <= i < |headers| ==>
      var name := ToLower(headers[i]);
      var value :=
        if name == "(request-target)" then ToLower(req.verb) + " " + req.url.requestUri
        else if name == "host" then if req.host != "" then req.host else req.url.host
        else Get(req.header, name);
      && (name != "(request-target)" && name != "host" ==> value != "")
      && lines[i] == name + ": " + value
    ensures SigningString(req, headers) == Some(Join(lines, "\n"))
  {
    AllLines(req, headers, lines);
  }

  /** There is no signing string for an empty list or one that names an ordinary header without a value. */
  lemma UnsignableIff(req: Request, headers: seq<string>)
    ensures SigningString(req, headers).None? <==>
      headers == [] || exists i :: 0 <= i < |headers| && ToLower(headers[i]) !in {"(request-target)", "host"} && Get(req.header, ToLower(headers[i])) == ""
  {
    if i :| 0 <= i < |headers| && ToLower(headers[i]) !in {"(request-target)", "host"} && Get(req.header, ToLower(headers[i])) == "" {
      assert Covered(req, ToLower(headers[i])).None?;
    }
  }
}
