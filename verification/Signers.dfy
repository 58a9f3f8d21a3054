/** The three configured signers: an in-process key, a key directory, and a remote endpoint. */
module Signers {
  import opened Prelude
  import opened Errors
  import opened HttpSig
  import opened SignatureHeader
  import opened Canonical
  import opened Text
  import Base64
  import KeyCache

  const UNKNOWN_KEY: GoError := Wrap(Leaf(UnknownKey))

  /** RSA over the hash of the text under a key; None when it fails. */
  type RsaSign = (KeyCache.PrivateKey, string) -> Option<seq<byte>>

  /** LocalSigner.Sign: a key id that is not its own is unknown, never substituted. */
  function LocalSign(ownKeyId: string, key: KeyCache.PrivateKey, rsa: RsaSign, keyId: string, text: string)
    : Result<SignatureOut, GoError>
  {
    if keyId != "" && keyId != ownKeyId then Err(UNKNOWN_KEY)
    else
      var sig := rsa(key, text);
      if sig.None? then Err(PLAIN) else Ok(SignatureOut(ownKeyId, RSA_SHA256, sig.value))
  }

  /** dirSigner.Sign, given what its load answered. */
  function DirSign(loaded: KeyCache.LoadResult, rsa: RsaSign, keyId: string, text: string)
    : Result<SignatureOut, GoError>
  {
    if keyId == "" then Err(UNKNOWN_KEY)
    else
      match loaded
      case Err(UnknownKey) => Err(UNKNOWN_KEY)
      case Err(Failed) => Err(PLAIN)
      case Ok(key) => LocalSign(keyId, key, rsa, keyId, text)
  }

  datatype RemoteResponse = RemoteResponse(keyId: string, algorithm: string, signature: string)

  /** What the signing endpoint did: `body` is None unreadable, `Some(None)` not JSON. */
  datatype RemoteAnswer =
    | Transport(error: GoError)
    | Http(status: int, jsonContent: bool, body: Option<Option<RemoteResponse>>)

  /** A 410, or a 404 the application itself answered in JSON. */
  predicate IsNoSuchKey(status: int, jsonContent: bool) {
    status == 410 || (status == 404 && jsonContent)
  }

  /** remoteSigner.Sign, given the endpoint's answer. */
  function RemoteSign(answer: RemoteAnswer, keyId: string): Result<SignatureOut, GoError> {
    match answer
    case Transport(e) => if Is(e, Blocked) then Err(PERMANENT) else Err(Wrap(e))
    case Http(status, jsonContent, body) =>
      if IsNoSuchKey(status, jsonContent) then Err(UNKNOWN_KEY)
      else if body.None? then Err(PLAIN)
      else if status < 200 || status >= 300 then Err(PLAIN)
      else if body.value.None? then Err(PLAIN)
      else
        var out := body.value.value;
        var sig := Base64.Decode(out.signature);
        if sig.None? || sig.value == [] then Err(PLAIN)
        else if keyId != "" && out.keyId != "" && out.keyId != keyId then Err(PLAIN)
        else
          var resolved := if out.keyId == "" then keyId else out.keyId;
          if resolved == "" then Err(PLAIN)
          else Ok(SignatureOut(resolved, EffectiveAlgorithm(out.algorithm), sig.value))
  }

  /** One signing call of a configured signer, with everything outside it fixed. */
  datatype Configured =
    | File(ownKeyId: string, key: KeyCache.PrivateKey, rsa: RsaSign)
    | Dir(loaded: KeyCache.LoadResult, dirRsa: RsaSign)
    | Remote(answer: RemoteAnswer)

  function Ask(c: Configured, keyId: string, text: string): Result<SignatureOut, GoError> {
    match c
    case File(own, key, rsa) => LocalSign(own, key, rsa, keyId, text)
    case Dir(loaded, rsa) => DirSign(loaded, rsa, keyId, text)
    case Remote(answer) => RemoteSign(answer, keyId)
  }

  function SignerOf(c: Configured): Signer {
    (keyId, text) => Ask(c, keyId, text)
  }

  /** An in-process key signs for its own id and for none; any other id is unknown, and a failing RSA is retried. */
  lemma LocalSignIff(own: string, key: KeyCache.PrivateKey, rsa: RsaSign, keyId: string, text: string)
    ensures var r := LocalSign(own, key, rsa, keyId, text);
      && (r.Ok? <==> (keyId == "" || keyId == own) && rsa(key, text).Some?)
      && (r.Ok? ==> r.value == SignatureOut(own, "rsa-sha256", rsa(key, text).value))
      && (r.Err? ==> (Is(r.error, UnknownKey) <==> keyId != "" && keyId != own) && !Is(r.error, Unrecoverable))
  {
  }

  /** A dir signer signs exactly for a named key it loaded; no id and an absent file are unknown keys, other failures are retried. */
  lemma DirSignIff(loaded: KeyCache.LoadResult, rsa: RsaSign, keyId: string, text: string)
    ensures var r := DirSign(loaded, rsa, keyId, text);
      && (r.Ok? <==> keyId != "" && loaded.Ok? && rsa(loaded.value, text).Some?)
      && (r.Ok? ==> r.value == SignatureOut(keyId, "rsa-sha256", rsa(loaded.value, text).value))
      && (r.Err? ==> (Is(r.error, UnknownKey) <==> keyId == "" || loaded == Err(KeyCache.UnknownKey)) && !Is(r.error, Unrecoverable))
  {
  }

  /** A 2xx whose JSON body names the key asked for, or the signer's own, and carries a non-empty base64 signature. */
  predicate GoodAnswer(answer: RemoteAnswer, keyId: string) {
    && answer.Http? && 200 <= answer.status <= 299 && answer.body.Some? && answer.body.value.Some?
    && var out := answer.body.value.value;
       && Base64.Decode(out.signature).Some? && Base64.Decode(out.signature).value != []
       && (if keyId == "" then out.keyId != "" else out.keyId == "" || out.keyId == keyId)
  }

  /**
   * A remote signer signs exactly on a good answer; the key is unknown exactly on a 410
   * or a 404 answered in JSON, so that a plain 404 is retried; and only a blocked address
   * is given up, unless the transport's own error says so.
   */
  lemma RemoteSignIff(answer: RemoteAnswer, keyId: string)
    ensures var r := RemoteSign(answer, keyId);
      && (r.Ok? <==> GoodAnswer(answer, keyId))
      && (r.Ok? ==>
            var out := answer.body.value.value;
            r.value == SignatureOut(
              if keyId != "" then keyId else out.keyId,
              if out.algorithm == "" then "rsa-sha256" else out.algorithm, Base64.Decode(out.signature).value))
      && (answer.Http? ==>
            && (r.Err? && Is(r.error, UnknownKey) <==> answer.status == 410 || (answer.status == 404 && answer.jsonContent))
            && (r.Err? ==> !Is(r.error, Unrecoverable)))
      && (answer.Transport? ==> (Is(r.error, Unrecoverable) <==> Is(answer.error, Blocked) || Is(answer.error, Unrecoverable)))
  {
  }

  /** A requested key id is the one that signs, with every signer. */
  lemma RequestedKeySigns(c: Configured, keyId: string, text: string)
    requires keyId != ""
    ensures Ask(c, keyId, text).Ok? ==> Ask(c, keyId, text).value.keyId == keyId
  {
  }

  /**
   * A requested key id is the one read back from the Signature header, whenever
   * signing succeeds with an algorithm without a quote and a non-empty signature.
   */
  lemma RequestedKeyIsAdvertised(c: Configured, req: Request, body: string, keyId: string, now: string, sha: Sha,
                                 signed: Request)
    requires keyId != "" && SignRequest(req, body, keyId, SignerOf(c), now, sha) == (signed, None)
    requires forall text, sig :: Ask(c, keyId, text) == Ok(sig) ==> Free(sig.algorithm, QUOTE) && sig.bytes != []
    ensures ParseSignatureHeader(Get(signed.header, SIGNATURE)).Some?
    ensures ParseSignatureHeader(Get(signed.header, SIGNATURE)).value.keyId == keyId
  {
    var prepared, text, sig := SignedShape(req, body, keyId, SignerOf(c), now, sha, signed);
    assert Ask(c, keyId, text) == Ok(sig);
    RequestedKeySigns(c, keyId, text);
    EffectiveAlgorithmQuoteFree(sig.algorithm);
    assert Get(signed.header, SIGNATURE) == PrintSignature(sig.keyId, EffectiveAlgorithm(sig.algorithm), sig.bytes);
    ParsePrint(sig.keyId, EffectiveAlgorithm(sig.algorithm), sig.bytes);
  }

  /** A signer's own error never carries a retry delay. */
  lemma SignersNeverDelay(c: Configured, keyId: string, text: string)
    requires c.Remote? && c.answer.Transport? ==> !HasRetryAfter(c.answer.error)
    ensures Ask(c, keyId, text).Err? ==> !HasRetryAfter(Ask(c, keyId, text).error)
  {
  }
}
