/** The directory signer end to end: what it signs while its key files change, and which key that verifies under. */
module DirSigning {
  import opened Prelude
  import opened Errors
  import opened Text
  import opened Canonical
  import opened SignatureHeader
  import opened HttpSig
  import opened Signers
  import K = KeyCache
  import Delivery

  /** The public-key check that goes with a private key. */
  type PublicOf = K.PrivateKey -> Check

  /** What RSA signs under a key is not empty and passes that key's check. */
  ghost predicate RsaSound(rsa: RsaSign, sha: Sha, pub: PublicOf) {
    forall key, text :: rsa(key, text).Some? ==>
      rsa(key, text).value != [] && pub(key)(sha(text), rsa(key, text).value)
  }

  lemma DirSignerIsGood(key: K.PrivateKey, rsa: RsaSign, sha: Sha, pub: PublicOf, keyId: string)
    requires RsaSound(rsa, sha, pub)
    ensures GoodSigner(SignerOf(Dir(Ok(key), rsa)), keyId, sha, pub(key))
  {
    forall text, sig | SignerOf(Dir(Ok(key), rsa))(keyId, text) == Ok(sig)
      ensures Free(sig.algorithm, QUOTE) && sig.bytes != [] && pub(key)(sha(text), sig.bytes)
    {
      assert DirSign(Ok(key), rsa, keyId, text) == Ok(sig);
    }
  }

  /** A dir signer that signed had loaded a key. */
  lemma SignedMeansLoaded(loaded: K.LoadResult, rsa: RsaSign, req: Request, body: string, keyId: string, now: string, sha: Sha, signed: Request)
    requires SignRequest(req, body, keyId, SignerOf(Dir(loaded, rsa)), now, sha) == (signed, None)
    ensures loaded.Ok? && keyId != ""
  {
    var prepared, text, sig := SignedShape(req, body, keyId, SignerOf(Dir(loaded, rsa)), now, sha, signed);
    assert DirSign(loaded, rsa, keyId, text) == Ok(sig);
  }

  lemma LoadedKeyVerifies(loaded: K.LoadResult, rsa: RsaSign, pub: PublicOf, req: Request, body: string, keyId: string, now: string, sha: Sha, signed: Request)
    requires RsaSound(rsa, sha, pub) && SignRequest(req, body, keyId, SignerOf(Dir(loaded, rsa)), now, sha) == (signed, None)
    ensures loaded.Ok? && Verify(signed, body, sha, pub(loaded.value))
    ensures var parsed := ParseSignatureHeader(Get(signed.header, SIGNATURE)); parsed.Some? && parsed.value.keyId == keyId
  {
    SignedMeansLoaded(loaded, rsa, req, body, keyId, now, sha, signed);
    DirSignerIsGood(loaded.value, rsa, sha, pub, keyId);
    SignThenVerify(req, body, keyId, SignerOf(Dir(loaded, rsa)), now, sha, pub(loaded.value), signed);
    GoodSignerAnswers(loaded, rsa, keyId, sha, pub(loaded.value));
    RequestedKeyIsAdvertised(Dir(loaded, rsa), req, body, keyId, now, sha, signed);
  }

  lemma GoodSignerAnswers(loaded: K.LoadResult, rsa: RsaSign, keyId: string, sha: Sha, check: Check)
    requires GoodSigner(SignerOf(Dir(loaded, rsa)), keyId, sha, check)
    ensures forall text, sig :: Ask(Dir(loaded, rsa), keyId, text) == Ok(sig) ==> Free(sig.algorithm, QUOTE) && sig.bytes != []
  {
    forall text, sig | Ask(Dir(loaded, rsa), keyId, text) == Ok(sig)
      ensures Free(sig.algorithm, QUOTE) && sig.bytes != []
    {
      assert SignerOf(Dir(loaded, rsa))(keyId, text) == Ok(sig);
    }
  }

  /**
   * In every interleaving of loads and key changes in which stamps identify keys,
   * what a load's key signs verifies under a key that the file held at a moment
   * between that call and its return, and the header advertises the requested id.
   */
  lemma DirSignedRequestsVerify(s: K.System, t: K.System, c: K.CallId, rsa: RsaSign, pub: PublicOf,
                                req: Request, body: string, now: string, sha: Sha, signed: Request)
    returns (m: nat)
    requires K.Init(s) && K.Leads(s, t) && c in t.calls && t.calls[c].progress.Returned?
    requires K.StampsIdentifyKeys(K.History(t, t.calls[c].keyID)) && RsaSound(rsa, sha, pub)
    requires SignRequest(req, body, t.calls[c].keyID, SignerOf(Dir(t.calls[c].progress.result, rsa)), now, sha) == (signed, None)
    ensures var call := t.calls[c];
      var h := K.History(t, call.keyID);
      && call.since <= m <= call.progress.until && m < |h| && h[m].Present? && h[m].key.Some?
      && Verify(signed, body, sha, pub(h[m].key.value))
    ensures ParseSignatureHeader(Get(signed.header, SIGNATURE)).Some?
    ensures ParseSignatureHeader(Get(signed.header, SIGNATURE)).value.keyId == t.calls[c].keyID
  {
    var loaded := t.calls[c].progress.result;
    LoadedKeyVerifies(loaded, rsa, pub, req, body, t.calls[c].keyID, now, sha, signed);
    m := MomentOf(s, t, c);
  }

  /** The moment of the call at which the file held the key that was loaded. */
  lemma MomentOf(s: K.System, t: K.System, c: K.CallId) returns (m: nat)
    requires K.Init(s) && K.Leads(s, t) && c in t.calls && t.calls[c].progress.Returned? && t.calls[c].progress.result.Ok?
    requires K.StampsIdentifyKeys(K.History(t, t.calls[c].keyID))
    ensures t.calls[c].since <= m <= t.calls[c].progress.until && K.Holds(K.History(t, t.calls[c].keyID), m, t.calls[c].progress.result.value)
  {
    var call := t.calls[c];
    var h := K.History(t, call.keyID);
    K.LoadsAreFaithful(s, t, call.keyID);
    assert K.Faithful(h, call);
    m :| call.since <= m <= call.progress.until && K.Holds(h, m, call.progress.result.value);
  }

  /** A delivery is given up for want of a key only if none was named or the key file was absent at a moment of the call. */
  lemma UnknownKeyWasAbsent(s: K.System, t: K.System, c: K.CallId, rsa: RsaSign, req: Request, body: string, now: string, sha: Sha)
    requires K.Init(s) && K.Leads(s, t) && c in t.calls && t.calls[c].progress.Returned?
    requires K.StampsIdentifyKeys(K.History(t, t.calls[c].keyID))
    ensures var call := t.calls[c];
      var h, err := K.History(t, call.keyID), SignRequest(req, body, call.keyID, SignerOf(Dir(call.progress.result, rsa)), now, sha).1;
      err.Some? && Is(err.value, UnknownKey) ==>
        call.keyID == "" || exists m :: call.since <= m <= call.progress.until < |h| && h[m].Absent?
  {
    var call := t.calls[c];
    K.LoadsAreFaithful(s, t, call.keyID);
    assert K.Faithful(K.History(t, call.keyID), call);
    UnknownOnlyFromLoad(call.progress.result, rsa, req, body, call.keyID, now, sha);
  }

  lemma UnknownOnlyFromLoad(loaded: K.LoadResult, rsa: RsaSign, req: Request, body: string, keyId: string, now: string, sha: Sha)
    ensures var err := SignRequest(req, body, keyId, SignerOf(Dir(loaded, rsa)), now, sha).1;
      err.Some? && Is(err.value, UnknownKey) ==> keyId == "" || loaded == Err(K.UnknownKey)
  {
    var text := SigningString(Prepared(req, body, now, sha), DEFAULT_HEADERS);
    assert text.Some? ==> Signing(req, body, keyId, SignerOf(Dir(loaded, rsa)), now, sha) == DirSign(loaded, rsa, keyId, text.value);
  }

  /**
   * A delivery under a key id whose file is absent throughout the load, with no fault of
   * the file system, sends nothing and fails for good.
   */
  lemma AbsentKeyIsPermanent(s: K.System, t: K.System, c: K.CallId, rsa: RsaSign, w: Delivery.World, p: Delivery.Payload)
    requires K.Init(s) && K.Leads(s, t) && c in t.calls && t.calls[c].progress.Returned? && !t.calls[c].broken
    requires forall m :: t.calls[c].since <= m <= t.calls[c].progress.until ==> !K.Exists(K.History(t, t.calls[c].keyID), m)
    requires p.keyId == t.calls[c].keyID && w.dateNow != ""
    requires forall text :: w.signer(p.keyId, text) == Ask(Dir(t.calls[c].progress.result, rsa), p.keyId, text)
    ensures var out := Delivery.Execute(w, Some(p));
      out.wire.None? && out.error.Some? && Is(out.error.value, Unrecoverable)
  {
    K.AbsentThroughoutIsUnknown(s, t, c);
    forall text
      ensures w.signer(p.keyId, text).Err? && Is(w.signer(p.keyId, text).error, UnknownKey)
    {
      assert w.signer(p.keyId, text) == Ask(Dir(Err(K.UnknownKey), rsa), p.keyId, text);
      assert Is(UNKNOWN_KEY, UnknownKey);
    }
    Delivery.UnknownKeyIsPermanent(w, p);
  }
}
