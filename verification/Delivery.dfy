/** The ActivityPub delivery executor: what it sends, and what its outcome means. */
module Delivery {
  import opened Prelude
  import opened Text
  import opened Errors
  import opened SignatureHeader
  import opened Canonical
  import opened HttpSig
  import Base64
  import Retry
  import Signers

  const DEFAULT_CONTENT_TYPE: string := "application/activity+json"
  const ACCEPT: string := "application/activity+json, application/ld+json"
  const CONTENT_TYPE: string := "content-type"

  /** Lower-case names a payload may not set. */
  const RESERVED: seq<string> :=
    [HOST, DATE, DIGEST, SIGNATURE, CONTENT_TYPE, "content-length", "user-agent", "accept"]

  datatype Field = Field(name: string, value: string)

  /** `headers` lists the payload's header map in the order the loop happens to visit it. */
  datatype Payload = Payload(
    inbox: string, keyId: string, activity: string, body: string, contentType: string, headers: seq<Field>)

  datatype ParsedUrl = ParsedUrl(scheme: string, host: string, requestUri: string)

  datatype Response = Response(status: int, retryAfter: string)

  /** What became of the POST. */
  datatype Sent = TransportError(error: GoError) | ReadError(error: GoError) | Answered(response: Response)

  /** Everything the executor takes from outside. */
  datatype World = World(
    parseUrl: string -> Option<ParsedUrl>,
    userAgent: string,
    signer: Signer,
    sha: Sha,
    dateNow: string,
    now: int,
    parseTime: Retry.ParseTime,
    send: (Request, string) -> Sent)

  /** The executor's error, and the request and body it put on the wire if it got that far. */
  datatype Outcome = Outcome(error: Option<GoError>, wire: Option<(Request, string)>)

  predicate IsReserved(name: string) {
    ToLower(name) in RESERVED
  }

  predicate IsTokenByte(c: char) {
    'a' <= c <= 'z' || 'A' <= c <= 'Z' || '0' <= c <= '9' || c in "!#$%&'*+-.^_`|~"
  }

  predicate ValidHeaderName(s: string) {
    s != "" && forall i :: 0 <= i < |s| ==> IsTokenByte(s[i])
  }

  predicate ValidHeaderValue(s: string) {
    forall i :: 0 <= i < |s| ==> (s[i] as int >= 0x20 || s[i] == '\t') && s[i] as int != 0x7f
  }

  /** The bytes to send and their content type; None for a payload that has none, or two. */
  function ResolveBody(p: Payload): Option<Field> {
    var contentType := if p.contentType == "" then DEFAULT_CONTENT_TYPE else p.contentType;
    var activity := TrimSpace(p.activity);
    if activity != "" && p.body != "" then None
    else if activity != "" && activity[0] != '{' then None
    else if activity != "" then Some(Field(contentType, activity))
    else if p.body != "" then Some(Field(contentType, p.body))
    else None
  }

  function CheckInbox(w: World, raw: string): Option<Url> {
    if raw == "" then None
    else
      match w.parseUrl(raw)
      case None => None
      case Some(u) =>
        if u.scheme != "http" && u.scheme != "https" then None
        else if u.host == "" then None
        else Some(Url(u.host, u.requestUri))
  }

  /** The header map after the payload's headers, or None when one of them cannot be sent. */
  function FillHeaders(h: Header, fields: seq<Field>): Option<Header>
    decreases |fields|
  {
    if fields == [] then Some(h)
    else if IsReserved(fields[0].name) then FillHeaders(h, fields[1..])
    else if !ValidHeaderName(fields[0].name) || !ValidHeaderValue(fields[0].value) then None
    else FillHeaders(h[ToLower(fields[0].name) := fields[0].value], fields[1..])
  }

  method FillHeadersLoop(req: HttpRequest, fields: seq<Field>) returns (ok: bool)
    modifies req
    ensures ok == FillHeaders(old(req.header), fields).Some?
    ensures ok ==> Some(req.header) == FillHeaders(old(req.header), fields)
  {
    for i := 0 to |fields|
      invariant FillHeaders(req.header, fields[i..]) == FillHeaders(old(req.header), fields)
    {
      assert fields[i..][1..] == fields[i + 1..];
      if !IsReserved(fields[i].name) {
        if !ValidHeaderName(fields[i].name) || !ValidHeaderValue(fields[i].value) {
          return false;
        }
        req.header := req.header[ToLower(fields[i].name) := fields[i].value];
      }
    }
    return true;
  }

  /** The unsigned request, once the payload's own headers are in. */
  function Unsigned(w: World, url: Url, h: Header, contentType: string): Request {
    Request("POST", url, url.host, h[CONTENT_TYPE := contentType]["user-agent" := w.userAgent]["accept" := ACCEPT])
  }

  datatype Verdict = Success | Retry | Permanent

  function Classify(status: int): Verdict {
    if 200 <= status < 300 then Success
    else if status == 401 || status == 408 || status == 429 then Verdict.Retry
    else if 300 <= status < 500 then Permanent
    else Verdict.Retry
  }

  function SignFailure(e: GoError): GoError {
    if Is(e, UnknownKey) then PERMANENT else Wrap(e)
  }

  function AfterSend(w: World, sent: Sent): Option<GoError> {
    match sent
    case TransportError(e) => if Is(e, Blocked) then Some(PERMANENT) else Some(Wrap(e))
    case ReadError(e) => Some(Wrap(e))
    case Answered(r) =>
      match Classify(r.status)
      case Success => None
      case Permanent => Some(PERMANENT)
      case Retry => Some(Retry.RetryableFailure(r.retryAfter, w.now, w.parseTime, PLAIN))
  }

  /** The request ready to be signed and its body, or None when the payload can never be delivered. */
  function Compose(w: World, p: Payload): Option<(Request, string)> {
    match ResolveBody(p)
    case None => None
    case Some(Field(contentType, body)) =>
      if !ValidHeaderValue(contentType) then None
      else
        match CheckInbox(w, p.inbox)
        case None => None
        case Some(url) =>
          match FillHeaders(map[], p.headers)
          case None => None
          case Some(h) => Some((Unsigned(w, url, h, contentType), body))
  }

  /** Execute; `decoded` is None when the job data is not a delivery payload. */
  function Execute(w: World, decoded: Option<Payload>): Outcome {
    match decoded
    case None => Outcome(Some(PERMANENT), None)
    case Some(p) =>
      match Compose(w, p)
      case None => Outcome(Some(PERMANENT), None)
      case Some((req, body)) =>
        var (signed, err) := SignRequest(req, body, p.keyId, w.signer, w.dateNow, w.sha);
        if err.Some? then Outcome(Some(SignFailure(err.value)), None)
        else Outcome(AfterSend(w, w.send(signed, body)), Some((signed, body)))
  }

  // ----- what is sent, in terms of the payload -----

  /** Exactly one of the two ways to give the bytes is used, and an activity is a JSON object. */
  predicate HasBody(p: Payload) {
    var a := TrimSpace(p.activity);
    if a == "" then p.body != "" else p.body == "" && a[0] == '{'
  }

  function ContentTypeOf(p: Payload): string {
    if p.contentType != "" then p.contentType else "application/activity+json"
  }

  lemma ResolveBodyIs(p: Payload)
    ensures ResolveBody(p).Some? <==> HasBody(p)
    ensures HasBody(p) ==> ResolveBody(p).value.name == ContentTypeOf(p) && ContentTypeOf(p) != ""
    ensures HasBody(p) ==> ResolveBody(p).value.value == if p.body != "" then p.body else TrimSpace(p.activity)
  {
  }

  /** The names a payload cannot set: those the executor or net/http sets, and those it signs. */
  predicate Controlled(name: string) {
    ToLower(name) in {"host", "date", "digest", "signature", "content-type", "content-length", "user-agent", "accept"}
  }

  /** A token character of section 5.6.2 of RFC 9110: visible ASCII that is no delimiter. */
  predicate Token(c: char) {
    && 0x21 <= c as int <= 0x7e
    && c != '\"' && c != '(' && c != ')' && c != ',' && c != '/' && !(':' <= c <= '@') && !('[' <= c <= ']') && c != '{' && c != '}'
  }

  lemma TokenBytes(c: char)
    ensures IsTokenByte(c) <==> Token(c)
  {
    var specials := "!#$%&'*+-.^_`|~";
    assert specials[0] == '!' && specials[1] == '#' && specials[2] == '$' && specials[3] == '%' && specials[4] == '&';
    assert specials[5] == '\'' && specials[6] == '*' && specials[7] == '+' && specials[8] == '-' && specials[9] == '.';
    assert specials[10] == '^' && specials[11] == '_' && specials[12] == '`' && specials[13] == '|' && specials[14] == '~';
  }

  /** A payload header that can be sent: a token, and a value without control bytes other than tab. */
  predicate Sendable(f: Field) {
    && f.name != "" && (forall i :: 0 <= i < |f.name| ==> Token(f.name[i]))
    && SendableValue(f.value)
  }

  predicate SendableValue(v: string) {
    forall i :: 0 <= i < |v| ==> v[i] == '\t' || 0x20 <= v[i] as int < 0x7f || 0x7f < v[i] as int
  }

  lemma SendableIs(f: Field)
    ensures Sendable(f) <==> ValidHeaderName(f.name) && ValidHeaderValue(f.value)
  {
    forall i | 0 <= i < |f.name|
      ensures IsTokenByte(f.name[i]) <==> Token(f.name[i])
    {
      TokenBytes(f.name[i]);
    }
  }

  lemma ControlledIs(name: string)
    ensures Controlled(name) <==> IsReserved(name)
  {
    var r := RESERVED;
    assert r[0] == "host" && r[1] == "date" && r[2] == "digest" && r[3] == "signature";
    assert r[4] == "content-type" && r[5] == "content-length" && r[6] == "user-agent" && r[7] == "accept";
    assert |r| == 8;
  }

  /** The loop gets through exactly when every header that is not controlled can be sent. */
  lemma {:induction false} FillSucceedsIff(h: Header, fields: seq<Field>)
    ensures FillHeaders(h, fields).Some? <==> forall i :: 0 <= i < |fields| ==> Controlled(fields[i].name) || Sendable(fields[i])
    decreases |fields|
  {
    if fields != [] {
      ControlledIs(fields[0].name);
      SendableIs(fields[0]);
      assert forall i :: 1 <= i < |fields| ==> fields[i] == fields[1..][i - 1];
      assert forall i :: 0 <= i < |fields| - 1 ==> fields[1..][i] == fields[i + 1];
      var rest := fields[1..];
      FillSucceedsIff(h, rest);
      FillSucceedsIff(h[ToLower(fields[0].name) := fields[0].value], rest);
    }
  }

  /** Field `i` is the last one that sets the lower-case name `k`. */
  predicate LastSetting(fields: seq<Field>, k: string, i: nat) {
    && i < |fields| && ToLower(fields[i].name) == k && !Controlled(fields[i].name)
    && forall j :: i < j < |fields| ==> ToLower(fields[j].name) != k
  }

  lemma {:induction false} FillSets(h: Header, fields: seq<Field>, k: string, i: nat)
    requires FillHeaders(h, fields).Some? && LastSetting(fields, k, i)
    ensures Get(FillHeaders(h, fields).value, k) == fields[i].value
    decreases |fields|
  {
    ControlledIs(fields[0].name);
    var rest := fields[1..];
    var next := if IsReserved(fields[0].name) then h else h[ToLower(fields[0].name) := fields[0].value];
    if i == 0 {
      assert forall j :: 0 <= j < |rest| ==> ToLower(rest[j].name) != k;
      FillLeaves(next, rest, k);
    } else {
      assert forall j :: 0 <= j < |rest| ==> rest[j] == fields[j + 1];
      FillSets(next, rest, k, i - 1);
    }
  }

  lemma {:induction false} FillLeaves(h: Header, fields: seq<Field>, k: string)
    requires FillHeaders(h, fields).Some? && forall j :: 0 <= j < |fields| ==> ToLower(fields[j].name) != k || Controlled(fields[j].name)
    ensures Get(FillHeaders(h, fields).value, k) == Get(h, k)
    decreases |fields|
  {
    if fields != [] {
      ControlledIs(fields[0].name);
      var rest := fields[1..];
      assert forall j :: 0 <= j < |rest| ==> rest[j] == fields[j + 1];
      FillLeaves(if IsReserved(fields[0].name) then h else h[ToLower(fields[0].name) := fields[0].value], rest, k);
    }
  }

  /** A destination that can work: an http or https URL with a host. */
  predicate GoodInbox(w: World, inbox: string) {
    inbox != "" && w.parseUrl(inbox).Some? && w.parseUrl(inbox).value.host != "" && w.parseUrl(inbox).value.scheme in {"http", "https"}
  }

  predicate Deliverable(w: World, p: Payload) {
    && HasBody(p) && SendableValue(ContentTypeOf(p)) && GoodInbox(w, p.inbox)
    && forall i :: 0 <= i < |p.headers| ==> Controlled(p.headers[i].name) || Sendable(p.headers[i])
  }

  lemma ComposesIff(w: World, p: Payload)
    ensures Compose(w, p).Some? <==> Deliverable(w, p)
  {
    ResolveBodyIs(p);
    FillSucceedsIff(map[], p.headers);
  }

  /** What is signed, header by header, once a payload composes. */
  lemma ComposedRequest(w: World, p: Payload)
    requires Compose(w, p).Some?
    ensures var (req, body), u := Compose(w, p).value, w.parseUrl(p.inbox).value;
      && w.parseUrl(p.inbox).Some? && body == (if p.body != "" then p.body else TrimSpace(p.activity))
      && req.verb == "POST" && req.url == Url(u.host, u.requestUri) && req.host == u.host
      && Get(req.header, "content-type") == ContentTypeOf(p) && Get(req.header, "user-agent") == w.userAgent
      && Get(req.header, "accept") == "application/activity+json, application/ld+json"
      && Get(req.header, "date") == "" && Get(req.header, "signature") == "" && Get(req.header, "content-length") == ""
  {
    ResolveBodyIs(p);
    FillLeaves(map[], p.headers, "date");
    FillLeaves(map[], p.headers, "signature");
    FillLeaves(map[], p.headers, "content-length");
  }

  lemma ComposedHeader(w: World, p: Payload, k: string)
    requires Compose(w, p).Some? && k !in {"content-type", "user-agent", "accept"}
    ensures Get(Compose(w, p).value.0.header, k) == Get(FillHeaders(map[], p.headers).value, k)
  {
  }

  /**
   * What Execute puts on the wire, in the payload's own terms: the trimmed activity or
   * the body, whichever there is, POSTed to the inbox under the payload's content type
   * or the default, dated now, with the executor's own headers.
   */
  lemma DeliveryCarries(w: World, p: Payload, signed: Request, body: string)
    requires Execute(w, Some(p)).wire == Some((signed, body))
    ensures Deliverable(w, p)
    ensures body == if p.body != "" then p.body else TrimSpace(p.activity)
    ensures var u := w.parseUrl(p.inbox).value; signed.verb == "POST" && signed.url == Url(u.host, u.requestUri) && signed.host == u.host
    ensures Get(signed.header, "content-type") == if p.contentType != "" then p.contentType else "application/activity+json"
    ensures Get(signed.header, "date") == w.dateNow && Get(signed.header, "digest") == "SHA-256=" + Base64.Encode(w.sha(body))
    ensures Get(signed.header, "user-agent") == w.userAgent
    ensures Get(signed.header, "accept") == "application/activity+json, application/ld+json"
  {
    ComposesIff(w, p);
    ComposedRequest(w, p);
    SignedCarries(Compose(w, p).value.0, body, p.keyId, w.signer, w.dateNow, w.sha, signed);
  }

  /** The payload's own headers: each name the executor does not control carries the last value given for it. */
  lemma DeliveryCarriesHeader(w: World, p: Payload, signed: Request, body: string, k: string, i: nat)
    requires Execute(w, Some(p)).wire == Some((signed, body)) && LastSetting(p.headers, k, i)
    ensures Get(signed.header, k) == p.headers[i].value
  {
    FillSets(map[], p.headers, k, i);
    ComposedHeader(w, p, k);
    SignedCarries(Compose(w, p).value.0, body, p.keyId, w.signer, w.dateNow, w.sha, signed);
  }

  /** A payload that is not deliverable sends nothing and fails for good. */
  lemma UndeliverableSendsNothing(w: World, p: Payload)
    requires !Deliverable(w, p)
    ensures Execute(w, Some(p)).wire.None? && Execute(w, Some(p)).error.Some? && Is(Execute(w, Some(p)).error.value, Unrecoverable)
  {
    ComposesIff(w, p);
  }

  // ----- the payload cannot reach what is signed -----

  lemma {:induction false} FillNeverReserves(h: Header, fields: seq<Field>, k: string)
    requires k in RESERVED && k !in h && FillHeaders(h, fields).Some?
    ensures k !in FillHeaders(h, fields).value
    decreases |fields|
  {
    if fields != [] {
      if IsReserved(fields[0].name) {
        FillNeverReserves(h, fields[1..], k);
      } else {
        FillNeverReserves(h[ToLower(fields[0].name) := fields[0].value], fields[1..], k);
      }
    }
  }

  lemma HeaderNamesDiffer()
    ensures DATE != CONTENT_TYPE && DATE != "user-agent" && DATE != "accept" && DATE != DIGEST
    ensures CONTENT_TYPE != DIGEST && CONTENT_TYPE != "user-agent" && CONTENT_TYPE != "accept"
    ensures DATE in RESERVED
    ensures forall n :: n in DEFAULT_HEADERS ==>
      n == REQUEST_TARGET || n == HOST || n == DATE || n == DIGEST || n == CONTENT_TYPE
  {
    assert |DATE| == 4 && |DIGEST| == 6 && |CONTENT_TYPE| == 12 && |"user-agent"| == 10;
    assert "accept"[0] == 'a' && CONTENT_TYPE[0] == 'c';
    assert RESERVED[1] == DATE;
  }

  /** The covered headers of a prepared request, spelled out. */
  lemma PreparedCovers(w: World, url: Url, h: Header, contentType: string, body: string)
    requires DATE !in h
    ensures var r := Prepared(Unsigned(w, url, h, contentType), body, w.dateNow, w.sha);
      && Get(r.header, DATE) == w.dateNow
      && Get(r.header, DIGEST) == Digest(body, w.sha)
      && Get(r.header, CONTENT_TYPE) == contentType
  {
    HeaderNamesDiffer();
  }

  /** The same delivery signs to the same text whatever headers the payload adds, in whatever order. */
  lemma PayloadHeadersAreNotSigned(w: World, url: Url, contentType: string, body: string, f: seq<Field>, g: seq<Field>)
    requires FillHeaders(map[], f).Some? && FillHeaders(map[], g).Some?
    ensures SigningString(Prepared(Unsigned(w, url, FillHeaders(map[], f).value, contentType), body, w.dateNow, w.sha), DEFAULT_HEADERS)
         == SigningString(Prepared(Unsigned(w, url, FillHeaders(map[], g).value, contentType), body, w.dateNow, w.sha), DEFAULT_HEADERS)
  {
    HeaderNamesDiffer();
    var x, y := FillHeaders(map[], f).value, FillHeaders(map[], g).value;
    FillNeverReserves(map[], f, DATE);
    FillNeverReserves(map[], g, DATE);
    PreparedCovers(w, url, x, contentType, body);
    PreparedCovers(w, url, y, contentType, body);
    SameCoveredSameText(Prepared(Unsigned(w, url, x, contentType), body, w.dateNow, w.sha),
                        Prepared(Unsigned(w, url, y, contentType), body, w.dateNow, w.sha));
  }

  lemma SameCoveredSameText(a: Request, b: Request)
    requires a.verb == b.verb && a.url == b.url && a.host == b.host
    requires Get(a.header, DATE) == Get(b.header, DATE) && Get(a.header, DIGEST) == Get(b.header, DIGEST)
    requires Get(a.header, CONTENT_TYPE) == Get(b.header, CONTENT_TYPE)
    ensures SigningString(a, DEFAULT_HEADERS) == SigningString(b, DEFAULT_HEADERS)
  {
    DefaultHeadersFacts();
    forall i | 0 <= i < |DEFAULT_HEADERS|
      ensures Covered(a, ToLower(DEFAULT_HEADERS[i])) == Covered(b, ToLower(DEFAULT_HEADERS[i]))
    {
      HeaderNamesDiffer();
      assert DEFAULT_HEADERS[i] in DEFAULT_HEADERS;
    }
    SameEntries(a, b, DEFAULT_HEADERS);
  }

  lemma SameEntries(a: Request, b: Request, headers: seq<string>)
    requires forall i :: 0 <= i < |headers| ==> Covered(a, ToLower(headers[i])) == Covered(b, ToLower(headers[i]))
    ensures SigningString(a, headers) == SigningString(b, headers)
  {
    if Signable(a, headers) {
      assert Entries(a, headers) == Entries(b, headers);
    }
  }

  /** There is always a string to sign: every covered header of a delivery is set. */
  lemma DeliveriesAreSignable(w: World, url: Url, contentType: string, body: string, f: seq<Field>)
    requires FillHeaders(map[], f).Some? && contentType != "" && w.dateNow != ""
    ensures SigningString(Prepared(Unsigned(w, url, FillHeaders(map[], f).value, contentType), body, w.dateNow, w.sha), DEFAULT_HEADERS).Some?
  {
    HeaderNamesDiffer();
    var h := FillHeaders(map[], f).value;
    FillNeverReserves(map[], f, DATE);
    PreparedCovers(w, url, h, contentType, body);
    var r := Prepared(Unsigned(w, url, h, contentType), body, w.dateNow, w.sha);
    DefaultHeadersFacts();
    forall i | 0 <= i < |DEFAULT_HEADERS|
      ensures Covered(r, ToLower(DEFAULT_HEADERS[i])).Some?
    {
      assert DEFAULT_HEADERS[i] in DEFAULT_HEADERS;
    }
  }

  /** Whatever Execute puts on the wire verifies with exactly the bytes it sends. */
  lemma DeliveredRequestsVerify(w: World, p: Payload, check: Check, signed: Request, body: string)
    requires Execute(w, Some(p)).wire == Some((signed, body)) && GoodSigner(w.signer, p.keyId, w.sha, check)
    ensures Verify(signed, body, w.sha, check)
    ensures body == if p.body != "" then p.body else TrimSpace(p.activity)
  {
    ComposedRequest(w, p);
    SignThenVerify(Compose(w, p).value.0, body, p.keyId, w.signer, w.dateNow, w.sha, check, signed);
  }

  // ----- what the outcome means -----

  /** Neither the signer nor the transport makes up a retry delay. */
  ghost predicate NoForeignDelays(w: World) {
    && (forall k, text :: w.signer(k, text).Err? ==> !HasRetryAfter(w.signer(k, text).error))
    && (forall r, b :: !w.send(r, b).Answered? ==> !HasRetryAfter(w.send(r, b).error))
  }

  lemma SigningNeverDelays(w: World, req: Request, body: string, keyId: string)
    requires NoForeignDelays(w)
    ensures var err := SignRequest(req, body, keyId, w.signer, w.dateNow, w.sha).1;
      err.Some? ==> !HasRetryAfter(SignFailure(err.value))
  {
  }

  lemma SendDelaysOnlyWhenRetryable(w: World, sent: Sent)
    requires !sent.Answered? ==> !HasRetryAfter(sent.error)
    ensures var e := AfterSend(w, sent); e.Some? && HasRetryAfter(e.value) ==> !Is(e.value, Unrecoverable)
  {
  }

  /** A retry delay is attached only to errors that will be retried. */
  lemma DelaysOnlyWhenRetryable(w: World, decoded: Option<Payload>)
    requires NoForeignDelays(w)
    ensures var e := Execute(w, decoded).error;
      e.Some? && HasRetryAfter(e.value) ==> !Is(e.value, Unrecoverable)
  {
    if decoded.Some? && Compose(w, decoded.value).Some? {
      var (req, body) := Compose(w, decoded.value).value;
      SigningNeverDelays(w, req, body, decoded.value.keyId);
      var (signed, err) := SignRequest(req, body, decoded.value.keyId, w.signer, w.dateNow, w.sha);
      SendDelaysOnlyWhenRetryable(w, w.send(signed, body));
    }
  }

  /** With a configured signer, and a transport whose errors carry no delay, that needs no further hypothesis. */
  lemma ConfiguredSignersDelayOnlyWhenRetryable(w: World, c: Signers.Configured, decoded: Option<Payload>)
    requires forall k, text :: w.signer(k, text) == Signers.Ask(c, k, text)
    requires c.Remote? && c.answer.Transport? ==> !HasRetryAfter(c.answer.error)
    requires forall r, b :: !w.send(r, b).Answered? ==> !HasRetryAfter(w.send(r, b).error)
    ensures var e := Execute(w, decoded).error;
      e.Some? && HasRetryAfter(e.value) ==> !Is(e.value, Unrecoverable)
  {
    forall k, text
      ensures w.signer(k, text).Err? ==> !HasRetryAfter(w.signer(k, text).error)
    {
      Signers.SignersNeverDelay(c, k, text);
    }
    DelaysOnlyWhenRetryable(w, decoded);
  }

  /** The 3xx and 4xx statuses, without those worth another try. */
  predicate Rejection(status: int) {
    300 <= status <= 499 && status !in {401, 408, 429}
  }

  /** A delivery that was sent succeeds on a 2xx alone, and fails for good on a rejection or a blocked address alone. */
  lemma SentDeliveryOutcome(w: World, p: Payload, signed: Request, body: string)
    requires Execute(w, Some(p)).wire == Some((signed, body))
    requires !w.send(signed, body).Answered? ==> !Is(w.send(signed, body).error, Unrecoverable)
    ensures var sent, e := w.send(signed, body), Execute(w, Some(p)).error;
      && (e.None? <==> sent.Answered? && 200 <= sent.response.status <= 299)
      && (e.Some? && Is(e.value, Unrecoverable) <==>
            || (sent.TransportError? && Is(sent.error, Blocked))
            || (sent.Answered? && Rejection(sent.response.status)))
  {
    SentError(w, p, signed, body);
    AfterSendOutcome(w, w.send(signed, body));
  }

  lemma SentError(w: World, p: Payload, signed: Request, body: string)
    requires Execute(w, Some(p)).wire == Some((signed, body))
    ensures Execute(w, Some(p)).error == AfterSend(w, w.send(signed, body))
  {
  }

  lemma AfterSendOutcome(w: World, sent: Sent)
    requires !sent.Answered? ==> !Is(sent.error, Unrecoverable)
    ensures var e := AfterSend(w, sent);
      && (e.None? <==> sent.Answered? && 200 <= sent.response.status <= 299)
      && (e.Some? && Is(e.value, Unrecoverable) <==>
            || (sent.TransportError? && Is(sent.error, Blocked))
            || (sent.Answered? && Rejection(sent.response.status)))
  {
    if sent.Answered? {
      RetryableIsNotPermanent(sent.response.retryAfter, w.now, w.parseTime);
    }
  }

  lemma RetryableIsNotPermanent(header: string, now: int, parseTime: Retry.ParseTime)
    ensures !Is(Retry.RetryableFailure(header, now, parseTime, PLAIN), Unrecoverable)
  {
  }

  /** A delivery whose signing failed sends nothing, and is given up exactly when the key is unknown or the signer gave up. */
  lemma SigningFailureOutcome(w: World, p: Payload, e: GoError)
    requires Compose(w, p).Some?
    requires SignRequest(Compose(w, p).value.0, Compose(w, p).value.1, p.keyId, w.signer, w.dateNow, w.sha).1 == Some(e)
    ensures var out := Execute(w, Some(p));
      && out.wire.None? && out.error.Some?
      && (Is(out.error.value, Unrecoverable) <==> Is(e, UnknownKey) || Is(e, Unrecoverable))
  {
  }

  /** Every deliverable payload gets as far as the signer, whose error is the signing's error. */
  lemma DeliverableIsSigned(w: World, p: Payload)
    requires Deliverable(w, p) && w.dateNow != ""
    ensures Compose(w, p).Some?
    ensures var (req, body) := Compose(w, p).value;
      var text := SigningString(Prepared(req, body, w.dateNow, w.sha), DEFAULT_HEADERS);
      && text.Some?
      && (w.signer(p.keyId, text.value).Err? ==>
            SignRequest(req, body, p.keyId, w.signer, w.dateNow, w.sha).1 == Some(w.signer(p.keyId, text.value).error))
  {
    ComposesIff(w, p);
    ResolveBodyIs(p);
    var (req, body) := Compose(w, p).value;
    var Field(contentType, _) := ResolveBody(p).value;
    DeliveriesAreSignable(w, req.url, contentType, body, p.headers);
    SignsIff(req, body, p.keyId, w.signer, w.dateNow, w.sha);
  }

  /** With a signer that does not know the key, every payload fails for good before anything is sent. */
  lemma UnknownKeyIsPermanent(w: World, p: Payload)
    requires w.dateNow != "" && forall text :: w.signer(p.keyId, text).Err? && Is(w.signer(p.keyId, text).error, UnknownKey)
    ensures var out := Execute(w, Some(p)); out.wire.None? && out.error.Some? && Is(out.error.value, Unrecoverable)
  {
    if Deliverable(w, p) {
      DeliverableIsSigned(w, p);
      var (req, body) := Compose(w, p).value;
      var text := SigningString(Prepared(req, body, w.dateNow, w.sha), DEFAULT_HEADERS).value;
      SigningFailureOutcome(w, p, w.signer(p.keyId, text).error);
    } else {
      UndeliverableSendsNothing(w, p);
    }
  }

  /** A payload that can never be delivered, and an unknown key, fail for good before anything is sent. */
  lemma UndeliverableIsPermanent(w: World, decoded: Option<Payload>)
    requires decoded.None? || Compose(w, decoded.value).None?
          || (var (req, body) := Compose(w, decoded.value).value;
              var err := SignRequest(req, body, decoded.value.keyId, w.signer, w.dateNow, w.sha).1;
              err.Some? && Is(err.value, UnknownKey))
    ensures var out := Execute(w, decoded);
      out.wire.None? && out.error.Some? && Is(out.error.value, Unrecoverable) && Retry.RetryDelay(out.error.value) == None
  {
  }

  /** End to end: a retryable answer with n seconds of Retry-After delays the job by min(n, 3600) seconds. */
  lemma DeliveryHonoursRetryAfter(w: World, p: Payload, signed: Request, body: string, r: Response)
    requires Execute(w, Some(p)).wire == Some((signed, body)) && w.send(signed, body) == Answered(r)
    requires Classify(r.status) == Verdict.Retry && r.retryAfter != "" && Retry.IsDigits(r.retryAfter)
    ensures Execute(w, Some(p)).error.Some?
    ensures Retry.RetryDelay(Execute(w, Some(p)).error.value) ==
      (var n := Retry.Value(r.retryAfter); if n == 0 then None else Some(Min(n, 3600) * SECOND))
  {
    Retry.DeltaSecondsEndToEnd(r.retryAfter, w.now, w.parseTime, PLAIN);
  }
}
