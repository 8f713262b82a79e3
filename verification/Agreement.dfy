// The validator, which warns, and the verifier, which decides, apply the same rules to
// a signature; where they differ is stated exactly.

module Agreement {
  import opened Basics
  import opened JsonValue
  import opened Catalog
  import opened Trust
  import opened Identity
  import opened Validation
  import opened Verification

  // ---------------------------------------------------------------- silent reports

  predicate NoErrors(r: Report) { r.errors == [] }

  predicate NoWarnings(r: Report) { r.warnings == [] }

  /** A report made of parts is silent exactly when every part is. */
  lemma SilentParts()
    ensures NoErrors(QUIET) && NoWarnings(QUIET)
    ensures forall code {:trigger Fault(code)} :: !NoErrors(Fault(code)) && NoWarnings(Fault(code))
    ensures forall code {:trigger Concern(code)} :: NoErrors(Concern(code)) && !NoWarnings(Concern(code))
    ensures forall a: Report, b {:trigger a.And(b)} :: NoErrors(a.And(b)) <==> NoErrors(a) && NoErrors(b)
    ensures forall a: Report, b {:trigger a.And(b)} :: NoWarnings(a.And(b)) <==> NoWarnings(a) && NoWarnings(b)
    ensures forall path, r {:trigger At(path, r)} :: NoErrors(At(path, r)) <==> NoErrors(r)
    ensures forall path, r {:trigger At(path, r)} :: NoWarnings(At(path, r)) <==> NoWarnings(r)
    ensures forall c, r {:trigger When(c, r)} :: NoErrors(When(c, r)) <==> !c || NoErrors(r)
    ensures forall c, r {:trigger When(c, r)} :: NoWarnings(When(c, r)) <==> !c || NoWarnings(r)
  {
    forall a: Report, b {:trigger a.And(b)}
      ensures NoErrors(a.And(b)) <==> NoErrors(a) && NoErrors(b)
      ensures NoWarnings(a.And(b)) <==> NoWarnings(a) && NoWarnings(b)
    {
      assert |a.And(b).errors| == |a.errors| + |b.errors| && |a.And(b).warnings| == |a.warnings| + |b.warnings|;
    }
    forall path, r {:trigger At(path, r)}
      ensures NoErrors(At(path, r)) <==> NoErrors(r)
      ensures NoWarnings(At(path, r)) <==> NoWarnings(r)
    {
      assert |At(path, r).errors| == |r.errors| && |At(path, r).warnings| == |r.warnings|;
    }
  }

  /** A timestamp that the validator accepts; it does not look at empty ones. */
  predicate IsTimestamp(env: Env, value: string) { value == "" || env.instant(value).Some? }

  predicate IsWindow(env: Env, signature: Signature) {
    signature.expiresAt.Some? ==>
      && IsTimestamp(env, signature.expiresAt.value)
      && var issued, expires := env.instant(signature.issuedAt), env.instant(signature.expiresAt.value);
         issued.Some? && expires.Some? ==> issued.value < expires.value
  }

  /** The `typ` of a header is that of its kind of signature. */
  predicate IsTyped(header: Header, kind: Kind) {
    header.typ == if kind == OfCatalog then "ai-catalog+jws" else "ai-catalog-trust-manifest+jws"
  }

  predicate IsProtected(env: Env, jws: string, kind: Kind) {
    && IsDetached(jws)
    && ParseHeader(env.crypto, jws).Some?
    && var header := ParseHeader(env.crypto, jws).value;
       Lower(header.algorithm) != "none" && "b64" !in header.members && IsTyped(header, kind)
  }

  /** A signature in which the validator finds no error. */
  predicate IsSound(env: Env, signature: Signature, kind: Kind) {
    && signature.signer != "" && signature.profile != "" && signature.issuedAt != "" && signature.jws != ""
    && IsAbsoluteUri(signature.signer)
    && IsTimestamp(env, signature.issuedAt)
    && IsWindow(env, signature)
    && IsProtected(env, signature.jws, kind)
  }

  lemma WindowSilent(env: Env, signature: Signature)
    ensures NoErrors(WindowReport(env, signature)) <==> IsWindow(env, signature)
  {
    SilentParts();
    hide NoErrors, Report.And, At, When, Fault, Concern;
  }

  lemma JwsSilent(env: Env, jws: string, kind: Kind)
    ensures NoErrors(JwsReport(env, jws, kind)) <==> jws == "" || IsProtected(env, jws, kind)
  {
    SilentParts();
    hide NoErrors, Report.And, At, When, Fault, Concern, IsDetached, ParseHeader;
    assert jws == "" ==> NoErrors(JwsReport(env, jws, kind));
  }

  lemma SignatureSilent(env: Env, signature: Signature, kind: Kind)
    ensures NoErrors(SignatureReport(env, signature, kind)) <==> IsSound(env, signature, kind)
  {
    SilentParts();
    WindowSilent(env, signature);
    JwsSilent(env, signature.jws, kind);
    hide NoErrors, Report.And, At, When, Fault, Concern, WindowReport, JwsReport, IsAbsoluteUri, IsWindow, IsProtected;
  }

  /** A header that follows the did:web profile. */
  predicate FollowsProfile(signature: Signature, header: Header) {
    && IsRootDidWeb(signature.signer)
    && (header.algorithm == "ES256" || Lower(header.algorithm) == "none")
    && IsKeyOf(signature.signer, header.keyId)
    && "jku" !in header.members && "jwk" !in header.members && "x5u" !in header.members && "x5c" !in header.members
  }

  lemma {:induction false} KeySourceSilent(header: Header, names: seq<string>)
    ensures NoWarnings(KeySourceReport(header, names)) <==> forall i :: 0 <= i < |names| ==> !header.Has(names[i])
  {
    SilentParts();
    hide NoWarnings, Report.And, At, When, Fault, Concern;
    if names != [] {
      KeySourceSilent(header, names[..|names| - 1]);
      assert names == names[..|names| - 1] + [names[|names| - 1]];
    }
  }

  lemma KeySourcesAre(header: Header)
    ensures HasKeySource(header) <==>
            "jku" in header.members || "jwk" in header.members || "x5u" in header.members || "x5c" in header.members
    ensures HasKeySource(header) <==> !forall i :: 0 <= i < |KEY_SOURCES| ==> !header.Has(KEY_SOURCES[i])
  {
    assert KEY_SOURCES[0] == "jku" && KEY_SOURCES[1] == "jwk" && KEY_SOURCES[2] == "x5u" && KEY_SOURCES[3] == "x5c";
    if "jku" in header.members {
      assert header.Has(KEY_SOURCES[0]);
    } else if "jwk" in header.members {
      assert header.Has(KEY_SOURCES[1]);
    } else if "x5u" in header.members {
      assert header.Has(KEY_SOURCES[2]);
    } else if "x5c" in header.members {
      assert header.Has(KEY_SOURCES[3]);
    }
  }

  lemma SignerProfileSilent(signature: Signature, header: Header)
    ensures NoWarnings(SignerProfileReport(signature, header)) <==> FollowsProfile(signature, header)
  {
    SilentParts();
    KeySourceSilent(header, KEY_SOURCES);
    KeySourcesAre(header);
    hide NoWarnings, Report.And, At, When, Fault, Concern, KeySourceReport, IsRootDidWeb, IsKeyOf, HasKeySource;
  }

  /** The clock is not before the issue of the signature, and before its expiry, where these can be read. */
  predicate IsCurrent(env: Env, signature: Signature) {
    && (env.instant(signature.issuedAt).Some? ==> env.instant(signature.issuedAt).value <= env.now)
    && (signature.expiresAt.Some? && env.instant(signature.expiresAt.value).Some? ==>
          env.now < env.instant(signature.expiresAt.value).value)
  }

  lemma ProfileSilent(env: Env, manifest: ManifestFields)
    requires manifest.signature.Some? && SelectsProfile(env, manifest.signature.value)
    ensures var signature := manifest.signature.value;
            NoWarnings(ProfileReport(env, manifest)) <==>
            FollowsProfile(signature, ParseHeader(env.crypto, signature.jws).value) && IsCurrent(env, signature)
  {
    var signature := manifest.signature.value;
    SilentParts();
    SignerProfileSilent(signature, ParseHeader(env.crypto, signature.jws).value);
    hide NoWarnings, Report.And, At, When, Fault, Concern, SignerProfileReport, FollowsProfile, SelectsProfile;
  }

  /** The validator has nothing to say about the signature of a manifest. */
  predicate IsSilent(env: Env, manifest: ManifestFields)
    requires manifest.signature.Some?
  {
    NoErrors(SignatureReport(env, manifest.signature.value, OfManifest)) && NoWarnings(ProfileReport(env, manifest))
  }

  // ---------------------------------------------------------------- agreement

  lemma AlgorithmAllowed()
    ensures Lower(ALGORITHM) != "none"
  {
    assert Lower(ALGORITHM)[0] == 'e' && "none"[0] == 'n';
  }

  /** What the verifier checks before it resolves the key. */
  predicate PassesOffline(env: Env, signature: Signature, kind: Kind) {
    CheckHeader(env, signature, kind).Ok? && CheckTime(env, signature).Ok?
  }

  /** A signature that is in order before its key is known: detached and readable, ES256 and of its kind, following the
      profile, with dates that can be read and are current. */
  predicate IsInOrder(env: Env, signature: Signature, kind: Kind) {
    && IsDetached(signature.jws) && ParseHeader(env.crypto, signature.jws).Some?
    && (var header := ParseHeader(env.crypto, signature.jws).value;
        header.algorithm == "ES256" && IsTyped(header, kind) && FollowsProfile(signature, header))
    && IsDated(env, signature) && IsCurrent(env, signature)
  }

  lemma OfflineMeans(env: Env, signature: Signature, kind: Kind)
    ensures PassesOffline(env, signature, kind) <==> IsInOrder(env, signature, kind)
  {
    AlgorithmAllowed();
    if ParseHeader(env.crypto, signature.jws).Some? {
      KeySourcesAre(ParseHeader(env.crypto, signature.jws).value);
    }
    hide IsDetached, ParseHeader, IsRootDidWeb, IsKeyOf, HasKeySource;
  }

  /** A signature that is sound, current and follows the profile. */
  predicate IsExemplary(env: Env, signature: Signature, kind: Kind) {
    && IsSound(env, signature, kind) && IsCurrent(env, signature)
    && FollowsProfile(signature, ParseHeader(env.crypto, signature.jws).value)
  }

  /** A did-web-v1 signature of either kind passes the offline checks, and has no `b64`, exactly when the validator
      finds no error in it, it is current and follows the profile, and its `expiresAt` is not empty. */
  lemma OfflineSound(env: Env, signature: Signature, kind: Kind)
    requires env.instant("") == None && signature.profile == DID_WEB_PROFILE
    ensures IsExemplary(env, signature, kind) && signature.expiresAt != Some("") <==>
            PassesOffline(env, signature, kind) && !ParseHeader(env.crypto, signature.jws).value.Has("b64")
  {
    AlgorithmAllowed();
    OfflineMeans(env, signature, kind);
    if IsRootDidWeb(signature.signer) {
      RootDidIsUri(signature.signer);
      RootIsNotEmpty(signature.signer);
    }
    if IsDetached(signature.jws) {
      DetachedIsNotEmpty(signature.jws);
    }
    WindowsAgree(env, signature);
    hide PassesOffline, IsDetached, ParseHeader, IsRootDidWeb, IsAbsoluteUri, IsKeyOf, IsCurrent, IsWindow, IsDated, IsTyped;
  }

  /** A did-web-v1 signature about which the validator is silent passes the verifier's offline checks,
      and the other way round, with two exceptions: the verifier refuses an empty `expiresAt`, which the
      validator does not look at, and leaves `b64` to the check of the JWS itself. */
  lemma {:induction false} OfflineExact(env: Env, manifest: ManifestFields)
    requires env.instant("") == None
    requires manifest.signature.Some? && manifest.signature.value.profile == DID_WEB_PROFILE
    ensures var signature := manifest.signature.value;
            IsSilent(env, manifest) && signature.expiresAt != Some("") <==>
            && PassesOffline(env, signature, OfManifest)
            && !ParseHeader(env.crypto, signature.jws).value.Has("b64")
  {
    var signature := manifest.signature.value;
    OfflineSound(env, signature, OfManifest);
    SilentIsExemplary(env, manifest);
    hide *;
  }

  lemma SilentIsExemplary(env: Env, manifest: ManifestFields)
    requires manifest.signature.Some? && manifest.signature.value.profile == DID_WEB_PROFILE
    ensures IsSilent(env, manifest) <==> IsExemplary(env, manifest.signature.value, OfManifest)
  {
    var signature := manifest.signature.value;
    SignatureSilent(env, signature, OfManifest);
    if IsDetached(signature.jws) && ParseHeader(env.crypto, signature.jws).Some? {
      ProfileSilent(env, manifest);
    }
    hide IsDetached, ParseHeader, IsAbsoluteUri, IsForbidden, SignatureReport, ProfileReport, NoErrors, NoWarnings, FollowsProfile,
         IsCurrent, IsWindow, IsTimestamp;
  }

  /** The verifier accepts a signature, of a catalog or of a manifest, exactly when it selects the profile, the validator
      finds no error in it, it is current and follows the profile, its `expiresAt` is not empty, and the key verifies it. */
  lemma {:induction false} AcceptanceExact(env: Env, outside: Outside, signature: Signature, kind: Kind, payload: Json)
    requires env.instant("") == None
    ensures CheckSignature(env, outside, signature, kind, payload).Ok? <==>
            && signature.profile == DID_WEB_PROFILE && NoErrors(SignatureReport(env, signature, kind))
            && ParseHeader(env.crypto, signature.jws).Some?
            && (var header := ParseHeader(env.crypto, signature.jws).value;
                FollowsProfile(signature, header) && CheckKey(env, outside, signature, header, payload).Ok?)
            && IsCurrent(env, signature) && signature.expiresAt != Some("")
  {
    StepsOf(env, outside, signature, kind, payload);
    SignatureSilent(env, signature, kind);
    if signature.profile == DID_WEB_PROFILE {
      OfflineSound(env, signature, kind);
      if ParseHeader(env.crypto, signature.jws).Some? {
        var header := ParseHeader(env.crypto, signature.jws).value;
        if CheckKey(env, outside, signature, header, payload).Ok? {
          KeyForbidsB64(env, outside, signature, header, payload);
        }
      }
    }
    hide CheckSignature, PassesOffline, CheckKey, ParseHeader, NoErrors, SignatureReport, FollowsProfile, IsCurrent, IsWindow, IsTimestamp,
         IsDetached, IsAbsoluteUri, IsForbidden, IsProtected;
  }

  lemma RootIsNotEmpty(did: string)
    requires IsRootDidWeb(did)
    ensures did != ""
  {
    hide IsValidPublisher;
  }

  lemma DetachedIsNotEmpty(jws: string)
    requires IsDetached(jws)
    ensures jws != ""
  {
    assert |Split("", '.')| == 1;
  }

  /** Both ends of the validity window can be read. */
  predicate IsDated(env: Env, signature: Signature) {
    && env.instant(signature.issuedAt).Some?
    && (signature.expiresAt.Some? ==> env.instant(signature.expiresAt.value).Some?)
  }

  /** A current signature is not expired before it is issued. */
  lemma WindowsAgree(env: Env, signature: Signature)
    requires env.instant("") == None
    ensures IsDated(env, signature) && IsCurrent(env, signature) ==> IsWindow(env, signature)
    ensures IsWindow(env, signature) && signature.expiresAt.Some? && signature.expiresAt.value != "" ==>
              env.instant(signature.expiresAt.value).Some?
    ensures signature.issuedAt != "" && IsTimestamp(env, signature.issuedAt) <==> env.instant(signature.issuedAt).Some?
  {
  }

  lemma JwsForbidsB64(env: Env, jws: string, payload: Bytes, key: P256Key)
    requires VerifyEs256(env.crypto, jws, payload, key).Ok? && ParseHeader(env.crypto, jws).Some?
    ensures !ParseHeader(env.crypto, jws).value.Has("b64")
  {
    hide Split;
  }

  lemma KeyForbidsB64(env: Env, outside: Outside, signature: Signature, header: Header, payload: Json)
    requires CheckKey(env, outside, signature, header, payload).Ok? && ParseHeader(env.crypto, signature.jws).Some?
    ensures !ParseHeader(env.crypto, signature.jws).value.Has("b64")
  {
    hide VerifyEs256, ParseHeader, SelectKey, KeyFromJwk, Strip, IsRootDidWeb;
    var url := DocumentUrl(signature.signer).value;
    var document := env.crypto.parseJson(outside.fetch(url).value).value;
    var key := KeyFromJwk(env.crypto, SelectKey(document, signature.signer, header.keyId).value).value;
    JwsForbidsB64(env, signature.jws, Payload(env.crypto, payload).value, key);
  }

  /** The verifier accepts the signature of a manifest exactly when the signature selects the profile, the
      validator is silent about it, `expiresAt` is not empty, and the key of the signer verifies it. */
  lemma {:induction false} VerifierExact(env: Env, outside: Outside, manifest: ManifestFields, payload: Json)
    requires env.instant("") == None && manifest.signature.Some?
    ensures var signature := manifest.signature.value;
            CheckSignature(env, outside, signature, OfManifest, payload).Ok? <==>
            && signature.profile == DID_WEB_PROFILE && IsSilent(env, manifest) && signature.expiresAt != Some("")
            && ParseHeader(env.crypto, signature.jws).Some?
            && CheckKey(env, outside, signature, ParseHeader(env.crypto, signature.jws).value, payload).Ok?
  {
    var signature := manifest.signature.value;
    StepsOf(env, outside, signature, OfManifest, payload);
    if signature.profile == DID_WEB_PROFILE {
      OfflineExact(env, manifest);
      if ParseHeader(env.crypto, signature.jws).Some? {
        var header := ParseHeader(env.crypto, signature.jws).value;
        if CheckKey(env, outside, signature, header, payload).Ok? {
          KeyForbidsB64(env, outside, signature, header, payload);
        }
      }
    }
    hide CheckSignature, PassesOffline, CheckKey, ParseHeader, IsSilent;
  }

  /** The steps of checking a signature. */
  lemma StepsOf(env: Env, outside: Outside, signature: Signature, kind: Kind, payload: Json)
    ensures CheckSignature(env, outside, signature, kind, payload).Ok? <==>
            && signature.profile == DID_WEB_PROFILE && PassesOffline(env, signature, kind)
            && ParseHeader(env.crypto, signature.jws).Some?
            && CheckKey(env, outside, signature, ParseHeader(env.crypto, signature.jws).value, payload).Ok?
  {
    if CheckHeader(env, signature, kind).Ok? {
      HeaderIsParsed(env, signature, kind);
    }
    hide CheckHeader, CheckTime, CheckKey, ParseHeader;
  }

  lemma HeaderIsParsed(env: Env, signature: Signature, kind: Kind)
    requires CheckHeader(env, signature, kind).Ok?
    ensures ParseHeader(env.crypto, signature.jws) == Some(CheckHeader(env, signature, kind).value)
  {
    hide ParseHeader, IsDetached, IsRootDidWeb, IsKeyOf, HasKeySource;
  }

  /** An accepted signature draws no error and no warning from the validator at the same clock. */
  lemma {:induction false} VerifiedIsSilent(env: Env, outside: Outside, manifest: ManifestFields, payload: Json)
    requires env.instant("") == None && manifest.signature.Some?
    requires SignatureOutcome(env, outside, manifest.signature.value, OfManifest, payload) == Verified
    ensures IsSilent(env, manifest)
  {
    VerifierExact(env, outside, manifest, payload);
    hide CheckSignature, IsSilent, ParseHeader, CheckKey;
    var result := CheckSignature(env, outside, manifest.signature.value, OfManifest, payload);
    assert result.Ok? by { NeverErrVerified(env, outside, manifest.signature.value, OfManifest, payload); }
  }

  lemma NeverErrVerified(env: Env, outside: Outside, signature: Signature, kind: Kind, payload: Json)
    ensures CheckSignature(env, outside, signature, kind, payload).Err? ==>
              CheckSignature(env, outside, signature, kind, payload).error != Verified
  {
    hide IsDetached, ParseHeader, IsRootDidWeb, IsKeyOf, HasKeySource, SelectKey, KeyFromJwk, Strip, VerifyEs256;
  }

  /** Where the two part: give any signature without an expiry an empty one, and the validator says the
      same as before, while the verifier no longer accepts it. */
  lemma EmptyExpiryParts(env: Env, outside: Outside, manifest: ManifestFields, payload: Json)
    requires env.instant("") == None
    requires manifest.signature.Some? && manifest.signature.value.expiresAt == None
    ensures var emptied := manifest.(signature := Some(manifest.signature.value.(expiresAt := Some(""))));
            && (IsSilent(env, emptied) <==> IsSilent(env, manifest))
            && CheckSignature(env, outside, emptied.signature.value, OfManifest, payload).Err?
  {
    var emptied := manifest.(signature := Some(manifest.signature.value.(expiresAt := Some(""))));
    SignatureSilent(env, manifest.signature.value, OfManifest);
    SignatureSilent(env, emptied.signature.value, OfManifest);
    if SelectsProfile(env, manifest.signature.value) {
      ProfileSilent(env, manifest);
      ProfileSilent(env, emptied);
    }
    VerifierExact(env, outside, emptied, payload);
    hide SignatureReport, SignerProfileReport, CurrentReport, CheckSignature, CheckKey, ParseHeader, IsDetached, IsRootDidWeb, IsAbsoluteUri,
         HasKeySource, IsKeyOf, IsForbidden;
  }
}
