/**
 * Signing and verifying requests. The hash and the public-key check are
 * parameters; what a result needs of them is a hypothesis of its lemma.
 */
module HttpSig {
  import opened Prelude
  import opened Text
  import opened Errors
  import opened SignatureHeader
  import opened Canonical
  import Base64

  const DATE: string := "date"
  const DIGEST: string := "digest"
  const SIGNATURE: string := "signature"
  const RSA_SHA256: string := "rsa-sha256"

  /** The covered headers a signature must list to be accepted. */
  const REQUIRED_HEADERS: seq<string> := [REQUEST_TARGET, HOST, DATE, DIGEST]

  type Sha = string -> seq<byte>
  type Check = (seq<byte>, seq<byte>) -> bool

  datatype SignatureOut = SignatureOut(keyId: string, algorithm: string, bytes: seq<byte>)

  type Signer = (string, string) -> Result<SignatureOut, GoError>

  function Digest(body: string, sha: Sha): string {
    "SHA-256=" + Base64.Encode(sha(body))
  }

  /** Date is filled in when absent; Digest always commits to the body. */
  function Prepared(req: Request, body: string, now: string, sha: Sha): Request {
    var h := if Get(req.header, DATE) == "" then req.header[DATE := now] else req.header;
    req.(header := h[DIGEST := Digest(body, sha)])
  }

  function EffectiveAlgorithm(algorithm: string): string {
    if algorithm == "" then RSA_SHA256 else algorithm
  }

  /** What the signer answers for a request, if there is a string to sign at all. */
  function Signing(req: Request, body: string, keyId: string, signer: Signer, now: string, sha: Sha)
    : Result<SignatureOut, GoError>
  {
    var text := SigningString(Prepared(req, body, now, sha), DEFAULT_HEADERS);
    if text.None? then Err(PLAIN) else signer(keyId, text.value)
  }

  /** The request as SignRequest leaves it, and its error. */
  function SignRequest(req: Request, body: string, keyId: string, signer: Signer, now: string, sha: Sha)
    : (Request, Option<GoError>)
  {
    var prepared := Prepared(req, body, now, sha);
    match Signing(req, body, keyId, signer, now, sha)
    case Err(e) => (prepared, Some(e))
    case Ok(sig) =>
      if !ValidKeyId(sig.keyId) then (prepared, Some(PLAIN))
      else
        var value := PrintSignature(sig.keyId, EffectiveAlgorithm(sig.algorithm), sig.bytes);
        (prepared.(header := prepared.header[SIGNATURE := value]), None)
  }

  /** An outgoing *http.Request, whose header map is written in place. */
  class HttpRequest {
    const verb: string
    const url: Option<Url>
    const host: string
    var header: Header

    constructor (verb: string, url: Option<Url>, host: string, header: Header)
      ensures this.verb == verb && this.url == url && this.host == host && this.header == header
    {
      this.verb, this.url, this.host, this.header := verb, url, host, header;
    }

    function View(): Request
      requires url.Some?
      reads this
    {
      Request(verb, url.value, host, header)
    }

    method Sign(body: string, keyId: string, signer: Option<Signer>, now: string, sha: Sha)
      returns (err: Option<GoError>)
      modifies this
      ensures signer.None? || url.None? ==> err == Some(PLAIN) && header == old(header)
      ensures signer.Some? && url.Some? ==>
        (View(), err) == SignRequest(old(View()), body, keyId, signer.value, now, sha)
    {
      if signer.None? || url.None? {
        return Some(PLAIN);
      }
      if Get(header, DATE) == "" {
        header := header[DATE := now];
      }
      header := header[DIGEST := Digest(body, sha)];
      var text := BuildSigningString(View(), DEFAULT_HEADERS);
      if text.None? {
        return Some(PLAIN);
      }
      var f := signer.value;
      var sig := f(keyId, text.value);
      if sig.Err? {
        return Some(sig.error);
      }
      var valid := ValidateKeyId(sig.value.keyId);
      if !valid {
        return Some(PLAIN);
      }
      header := header[SIGNATURE :=
        PrintSignature(sig.value.keyId, EffectiveAlgorithm(sig.value.algorithm), sig.value.bytes)];
      return None;
    }
  }

  // ----- verifying -----

  predicate CoversRequired(covered: seq<string>) {
    forall w :: w in REQUIRED_HEADERS ==> exists i :: 0 <= i < |covered| && ToLower(covered[i]) == w
  }

  method RequireCoverage(covered: seq<string>) returns (ok: bool)
    ensures ok == CoversRequired(covered)
  {
    var have: set<string> := {};
    for i := 0 to |covered|
      invariant forall w :: w in have <==> exists j :: 0 <= j < i && ToLower(covered[j]) == w
    {
      have := have + {ToLower(covered[i])};
    }
    for i := 0 to |REQUIRED_HEADERS|
      invariant forall j :: 0 <= j < i ==> REQUIRED_HEADERS[j] in have
    {
      if REQUIRED_HEADERS[i] !in have {
        assert REQUIRED_HEADERS[i] in REQUIRED_HEADERS;
        return false;
      }
    }
    return true;
  }

  predicate Verify(req: Request, body: string, sha: Sha, check: Check) {
    var parsed := ParseSignatureHeader(Get(req.header, SIGNATURE));
    parsed.Some?
    && CoversRequired(parsed.value.headers)
    && Get(req.header, DIGEST) == Digest(body, sha)
    && var text := SigningString(req, parsed.value.headers);
       var sig := Base64.Decode(parsed.value.signature);
       text.Some? && sig.Some? && check(sha(text.value), sig.value)
  }

  /**
   * A request is accepted exactly when its Signature header parses, the headers it
   * lists cover the four required ones, its Digest is that of the body, and the key
   * check accepts the hash of the string those headers sign with the decoded signature.
   */
  lemma AcceptedIff(req: Request, body: string, sha: Sha, check: Check)
    ensures Verify(req, body, sha, check) <==>
      exists keyId, algorithm, headers, encoded, text, sig ::
        && ParseSignatureHeader(Get(req.header, "signature")) == Some(ParsedSignature(keyId, algorithm, headers, encoded))
        && (forall name :: name in ["(request-target)", "host", "date", "digest"] ==> exists i :: 0 <= i < |headers| && ToLower(headers[i]) == name)
        && Get(req.header, "digest") == "SHA-256=" + Base64.Encode(sha(body))
        && SigningString(req, headers) == Some(text) && Base64.Decode(encoded) == Some(sig)
        && check(sha(text), sig)
  {
    if Verify(req, body, sha, check) {
      var p := ParseSignatureHeader(Get(req.header, SIGNATURE)).value;
      assert ParseSignatureHeader(Get(req.header, "signature")) == Some(ParsedSignature(p.keyId, p.algorithm, p.headers, p.signature));
    }
  }

  /** A key that accepts nothing makes Verify accept nothing. */
  lemma NoForgery(req: Request, body: string, sha: Sha, check: Check)
    requires forall digest, sig :: !check(digest, sig)
    ensures !Verify(req, body, sha, check)
  {
    AcceptedIff(req, body, sha, check);
  }

  // ----- sign, then verify -----

  lemma DefaultHeadersFacts()
    ensures forall i :: 0 <= i < |DEFAULT_HEADERS| ==>
      ToLower(DEFAULT_HEADERS[i]) == DEFAULT_HEADERS[i] && DEFAULT_HEADERS[i] != SIGNATURE
    ensures CoversRequired(DEFAULT_HEADERS)
  {
    var d := DEFAULT_HEADERS;
    assert d[0] == REQUEST_TARGET && d[1] == HOST && d[2] == DATE && d[3] == DIGEST && d[4] == "content-type";
    forall i | 0 <= i < |d|
      ensures ToLower(d[i]) == d[i]
    {
      assert forall j :: 0 <= j < |d[i]| ==> Lower(d[i][j]) == d[i][j];
    }
    forall w | w in REQUIRED_HEADERS
      ensures exists i :: 0 <= i < |d| && ToLower(d[i]) == w
    {
      var k :| 0 <= k < |REQUIRED_HEADERS| && REQUIRED_HEADERS[k] == w;
      assert ToLower(d[k]) == w;
    }
  }

  /** Setting an uncovered header leaves the signing string alone. */
  lemma UncoveredHeaderIsIrrelevant(req: Request, headers: seq<string>, name: string, value: string)
    requires name != REQUEST_TARGET && name != HOST
    requires forall i :: 0 <= i < |headers| ==> ToLower(headers[i]) != name
    ensures SigningString(req.(header := req.header[name := value]), headers) == SigningString(req, headers)
  {
    var req' := req.(header := req.header[name := value]);
    assert forall i :: 0 <= i < |headers| ==> Covered(req', ToLower(headers[i])) == Covered(req, ToLower(headers[i]));
    if Signable(req, headers) {
      assert Entries(req', headers) == Entries(req, headers);
    }
  }

  function WithSignature(req: Request, value: string): Request {
    req.(header := req.header[SIGNATURE := value])
  }

  lemma PrintedVerifies(prepared: Request, sig: SignatureOut, text: string, body: string, sha: Sha, check: Check)
    requires ValidKeyId(sig.keyId) && Free(sig.algorithm, QUOTE) && sig.bytes != []
    requires Get(prepared.header, DIGEST) == Digest(body, sha)
    requires SigningString(prepared, DEFAULT_HEADERS) == Some(text) && check(sha(text), sig.bytes)
    ensures var signed := WithSignature(prepared, PrintSignature(sig.keyId, sig.algorithm, sig.bytes));
      && Verify(signed, body, sha, check)
      && ParseSignatureHeader(Get(signed.header, SIGNATURE)).value.keyId == sig.keyId
  {
    var value := PrintSignature(sig.keyId, sig.algorithm, sig.bytes);
    var signed := WithSignature(prepared, value);
    ParsePrint(sig.keyId, sig.algorithm, sig.bytes);
    assert Get(signed.header, SIGNATURE) == value;
    DefaultHeadersFacts();
    UncoveredHeaderIsIrrelevant(prepared, DEFAULT_HEADERS, SIGNATURE, value);
    Base64.DecodeEncode(sig.bytes);
  }

  /** What a successful SignRequest asked for, got, and wrote. */
  lemma SignedShape(req: Request, body: string, keyId: string, signer: Signer, now: string, sha: Sha, signed: Request)
    returns (prepared: Request, text: string, sig: SignatureOut)
    requires SignRequest(req, body, keyId, signer, now, sha) == (signed, None)
    ensures prepared == Prepared(req, body, now, sha) && SigningString(prepared, DEFAULT_HEADERS) == Some(text)
    ensures Get(prepared.header, DIGEST) == Digest(body, sha)
    ensures signer(keyId, text) == Ok(sig) && ValidKeyId(sig.keyId)
    ensures signed == WithSignature(prepared, PrintSignature(sig.keyId, EffectiveAlgorithm(sig.algorithm), sig.bytes))
  {
    prepared := Prepared(req, body, now, sha);
    text := SigningString(prepared, DEFAULT_HEADERS).value;
    sig := signer(keyId, text).value;
  }

  /** SignRequest succeeds exactly when there is a string to sign, the signer signs it, and its key id can be sent. */
  lemma SignsIff(req: Request, body: string, keyId: string, signer: Signer, now: string, sha: Sha)
    ensures var (out, err) := SignRequest(req, body, keyId, signer, now, sha);
      var text := SigningString(Prepared(req, body, now, sha), DEFAULT_HEADERS);
      && (err.None? <==> text.Some? && signer(keyId, text.value).Ok? && ValidKeyId(signer(keyId, text.value).value.keyId))
      && (text.Some? && signer(keyId, text.value).Err? ==> err == Some(signer(keyId, text.value).error))
      && (err.Some? ==> Get(out.header, "signature") == Get(req.header, "signature"))
  {
    HeaderNamesApart();
  }

  lemma HeaderNamesApart()
    ensures DATE != DIGEST && DATE != SIGNATURE && DIGEST != SIGNATURE
  {
  }

  /** What a signed request carries: its own date or the present one, the digest of the body, the signature, and otherwise what it had. */
  lemma SignedCarries(req: Request, body: string, keyId: string, signer: Signer, now: string, sha: Sha, signed: Request)
    requires SignRequest(req, body, keyId, signer, now, sha) == (signed, None)
    ensures signed.verb == req.verb && signed.url == req.url && signed.host == req.host
    ensures Get(signed.header, "date") == if Get(req.header, "date") == "" then now else Get(req.header, "date")
    ensures Get(signed.header, "digest") == "SHA-256=" + Base64.Encode(sha(body))
    ensures forall name :: name !in {"date", "digest", "signature"} ==> Get(signed.header, name) == Get(req.header, name)
  {
    HeaderNamesApart();
  }

  /** And its Signature header reads back as the signer's key id, algorithm and signature over the default headers. */
  lemma SignedHeaderParses(req: Request, body: string, keyId: string, signer: Signer, now: string, sha: Sha, signed: Request)
    returns (text: string, sig: SignatureOut)
    requires SignRequest(req, body, keyId, signer, now, sha) == (signed, None)
    ensures signer(keyId, text) == Ok(sig) && SigningString(Prepared(req, body, now, sha), DEFAULT_HEADERS) == Some(text)
    ensures Free(sig.algorithm, QUOTE) && sig.bytes != [] ==>
      ParseSignatureHeader(Get(signed.header, "signature")) == Some(ParsedSignature(
        sig.keyId, if sig.algorithm == "" then "rsa-sha256" else sig.algorithm,
        ["(request-target)", "host", "date", "digest", "content-type"], Base64.Encode(sig.bytes)))
  {
    var prepared;
    prepared, text, sig := SignedShape(req, body, keyId, signer, now, sha, signed);
    if Free(sig.algorithm, QUOTE) && sig.bytes != [] {
      EffectiveAlgorithmQuoteFree(sig.algorithm);
      ParsePrint(sig.keyId, EffectiveAlgorithm(sig.algorithm), sig.bytes);
    }
  }

  /** Under this key id the signer answers with what `check` accepts, never empty, and a quote-free algorithm. */
  ghost predicate GoodSigner(signer: Signer, keyId: string, sha: Sha, check: Check) {
    forall text, sig :: signer(keyId, text) == Ok(sig) ==>
      Free(sig.algorithm, QUOTE) && sig.bytes != [] && check(sha(text), sig.bytes)
  }

  /** Whatever SignRequest signs with such a signer, Verify accepts with the same body. */
  lemma SignThenVerify(req: Request, body: string, keyId: string, signer: Signer, now: string, sha: Sha, check: Check,
                       signed: Request)
    requires SignRequest(req, body, keyId, signer, now, sha) == (signed, None)
    requires GoodSigner(signer, keyId, sha, check)
    ensures Verify(signed, body, sha, check)
  {
    var prepared, text, sig := SignedShape(req, body, keyId, signer, now, sha, signed);
    assert Free(sig.algorithm, QUOTE) && sig.bytes != [] && check(sha(text), sig.bytes);
    var printed := SignatureOut(sig.keyId, EffectiveAlgorithm(sig.algorithm), sig.bytes);
    EffectiveAlgorithmQuoteFree(sig.algorithm);
    PrintedVerifies(prepared, printed, text, body, sha, check);
  }

  lemma EffectiveAlgorithmQuoteFree(algorithm: string)
    requires Free(algorithm, QUOTE)
    ensures Free(EffectiveAlgorithm(algorithm), QUOTE)
  {
  }

  // ----- what acceptance pins down -----

  lemma {:induction false} AppliedHeadersSpaceFree(out: ParsedSignature, assignments: seq<Assignment>)
    requires NamesSpaceFree(out.headers)
    ensures NamesSpaceFree(ApplyAll(out, assignments).headers)
    decreases |assignments|
  {
    if assignments != [] {
      var a := assignments[0];
      if a.Headers? {
        FieldsAreSpaceFree(a.v, "");
      }
      AppliedHeadersSpaceFree(ApplyAssignment(out, a), assignments[1..]);
    }
  }

  lemma ParsedHeadersSpaceFree(v: string)
    requires ParseSignatureHeader(v).Some?
    ensures NamesSpaceFree(ParseSignatureHeader(v).value.headers)
  {
    AppliedHeadersSpaceFree(NOTHING, Assignments(SplitParams(v)));
  }

  /** The covered header list a request's own Signature header names. */
  function SignedHeaders(req: Request): seq<string>
    requires ParseSignatureHeader(Get(req.header, SIGNATURE)).Some?
  {
    ParseSignatureHeader(Get(req.header, SIGNATURE)).value.headers
  }

  /**
   * Two accepted requests over the same signed string agree on method, target, host,
   * date and digest, and on the body when the hash is injective.
   */
  lemma AcceptedRequestsAgree(a: Request, b: Request, bodyA: string, bodyB: string, sha: Sha, check: Check)
    requires Verify(a, bodyA, sha, check) && Verify(b, bodyB, sha, check)
    requires LineSafe(a) && LineSafe(b) && Free(a.verb, ' ') && Free(b.verb, ' ')
    requires SigningString(a, SignedHeaders(a)) == SigningString(b, SignedHeaders(b))
    ensures ToLower(a.verb) == ToLower(b.verb) && a.url.requestUri == b.url.requestUri
    ensures EffectiveHost(a) == EffectiveHost(b)
    ensures Get(a.header, DATE) == Get(b.header, DATE) && Get(a.header, DIGEST) == Get(b.header, DIGEST)
    ensures sha(bodyA) == sha(bodyB)
    ensures (forall x, y :: sha(x) == sha(y) ==> x == y) ==> bodyA == bodyB
  {
    var ha, hb := SignedHeaders(a), SignedHeaders(b);
    ParsedHeadersSpaceFree(Get(a.header, SIGNATURE));
    ParsedHeadersSpaceFree(Get(b.header, SIGNATURE));
    SigningStringUnambiguous(a, b, ha, hb);
    RequiredNames();
    assert forall w :: w in REQUIRED_HEADERS ==> Covered(a, w) == Covered(b, w);
    assert REQUEST_TARGET in REQUIRED_HEADERS && HOST in REQUIRED_HEADERS && DATE in REQUIRED_HEADERS && DIGEST in REQUIRED_HEADERS;
    TargetUnambiguous(a, b);
    DigestInjective(bodyA, bodyB, sha);
  }

  lemma RequiredNames()
    ensures REQUIRED_HEADERS == [REQUEST_TARGET, HOST, DATE, DIGEST]
    ensures DATE != REQUEST_TARGET && DATE != HOST && DIGEST != REQUEST_TARGET && DIGEST != HOST && HOST != REQUEST_TARGET
  {
    assert DATE[0] != HOST[0] && |DATE| != |REQUEST_TARGET| && |DIGEST| != |HOST| && |DIGEST| != |REQUEST_TARGET|;
  }

  lemma DigestInjective(a: string, b: string, sha: Sha)
    ensures Digest(a, sha) == Digest(b, sha) ==> sha(a) == sha(b)
  {
    if Digest(a, sha) == Digest(b, sha) {
      assert Digest(a, sha)[8..] == Base64.Encode(sha(a)) && Digest(b, sha)[8..] == Base64.Encode(sha(b));
      Base64.EncodeInjective(sha(a), sha(b));
    }
  }
}
