// The validator: a collector of diagnostics that walks a catalog with absolute paths
// and depths. Every method appends, after what was reported before, exactly the
// relative report of `Validation`, placed at its path and with the limit reduced by
// its depth.

module Validator {
  import opened Basics
  import opened JsonValue
  import opened Catalog
  import opened Trust
  import opened Identity
  import opened Validation
  import opened SortedKeys

  // ---------------------------------------------------------------- combining reports

  lemma AndAssociates(a: Report, b: Report, c: Report)
    ensures a.And(b).And(c) == a.And(b.And(c))
  {
    Associate(a.errors, b.errors, c.errors);
    Associate(a.warnings, b.warnings, c.warnings);
  }

  lemma AndQuiet(a: Report)
    ensures a.And(QUIET) == a && QUIET.And(a) == a
  {
    Append(a.errors, []);
    Append(a.warnings, []);
    Append([], a.errors);
    Append([], a.warnings);
  }

  lemma PrefixedAppend(path: string, a: seq<Diagnostic>, b: seq<Diagnostic>)
    ensures Prefixed(path, a + b) == Prefixed(path, a) + Prefixed(path, b)
  {
  }

  lemma PrefixedTwice(p: string, q: string, ds: seq<Diagnostic>)
    ensures Prefixed(p + q, ds) == Prefixed(p, Prefixed(q, ds))
  {
    forall i | 0 <= i < |ds| ensures (p + q) + ds[i].path == p + (q + ds[i].path) {
      Associate(p, q, ds[i].path);
    }
  }

  lemma AtAnd(path: string, a: Report, b: Report)
    ensures At(path, a.And(b)) == At(path, a).And(At(path, b))
  {
    PrefixedAppend(path, a.errors, b.errors);
    PrefixedAppend(path, a.warnings, b.warnings);
  }

  lemma AtAt(p: string, q: string, r: Report)
    ensures At(p + q, r) == At(p, At(q, r))
  {
    PrefixedTwice(p, q, r.errors);
    PrefixedTwice(p, q, r.warnings);
  }

  lemma AtQuiet(path: string)
    ensures At(path, QUIET) == QUIET
  {
  }

  /** Reporting `r` about the member `q` of the object at `path`, after `done` about that object. */
  lemma Step(before: Report, path: string, done: Report, q: string, r: Report)
    ensures before.And(At(path, done)).And(At(path + q, r)) == before.And(At(path, done.And(At(q, r))))
    ensures done.And(QUIET) == done
  {
    AtAt(path, q, r);
    AtAnd(path, done, At(q, r));
    AndAssociates(before, At(path, done), At(path, At(q, r)));
    AndQuiet(done);
  }

  lemma Begin(before: Report, path: string)
    ensures before.And(At(path, QUIET)) == before
  {
    AtQuiet(path);
    AndQuiet(before);
  }

  /** Like `Step`, for a report about the object itself. */
  lemma Whole(before: Report, path: string, done: Report, r: Report)
    ensures before.And(At(path, done)).And(At(path, r)) == before.And(At(path, done.And(r)))
    ensures At("", r) == r && QUIET.And(r) == r && done.And(QUIET) == done
  {
    AtAnd(path, done, r);
    AndAssociates(before, At(path, done), At(path, r));
    AndQuiet(r);
    AndQuiet(done);
    PrefixedBare(r.errors);
    PrefixedBare(r.warnings);
  }

  lemma PrefixedBare(ds: seq<Diagnostic>)
    ensures Prefixed("", ds) == ds
  {
    forall i | 0 <= i < |ds| ensures "" + ds[i].path == ds[i].path {
      Append("", ds[i].path);
    }
  }

  // ---------------------------------------------------------------- the validator

  class Validator {
    const env: Env
    const maxDepth: nat
    var errors: seq<Diagnostic>
    var warnings: seq<Diagnostic>

    constructor (env: Env, maxDepth: nat)
      ensures this.env == env && this.maxDepth == maxDepth
      ensures Reported() == QUIET
    {
      this.env, this.maxDepth := env, maxDepth;
      errors, warnings := [], [];
    }

    function Reported(): Report
      reads this
    {
      Report(errors, warnings)
    }

    method Error(code: Code, path: string)
      modifies this`errors
      ensures Reported() == old(Reported()).And(At(path, Fault(code)))
    {
      Append(path, "");
      Append(warnings, []);
      assert Prefixed(path, [Diagnostic(code, "")]) == [Diagnostic(code, path)];
      errors := errors + [Diagnostic(code, path)];
    }

    method Warning(code: Code, path: string)
      modifies this`warnings
      ensures Reported() == old(Reported()).And(At(path, Concern(code)))
    {
      Append(path, "");
      Append(errors, []);
      assert Prefixed(path, [Diagnostic(code, "")]) == [Diagnostic(code, path)];
      warnings := warnings + [Diagnostic(code, path)];
    }

    // ---- small values

    method ValidateTimestamp(value: string, path: string)
      modifies this`errors, this`warnings
      ensures Reported() == old(Reported()).And(At(path, TimestampReport(env, value)))
    {
      AtQuiet(path);
      AndQuiet(Reported());
      if value == "" || env.instant(value).Some? {
        return;
      }
      Error(Timestamp, path);
    }

    method ValidateDigest(value: string, path: string)
      modifies this`errors, this`warnings
      ensures Reported() == old(Reported()).And(At(path, DigestReport(value)))
    {
      AtQuiet(path);
      AndQuiet(Reported());
      if value == "" {
        return;
      }
      if ParseDigest(value).Err? {
        Error(DigestInvalid, path);
      }
    }

    method ValidateExtensionKeys(extensions: Option<Extras>, path: string)
      modifies this`errors, this`warnings
      ensures Reported() == old(Reported()).And(At(path, ExtensionKeysReport(extensions)))
    {
      hide At, Report.And, IsExtensionKey;
      ghost var before, done := Reported(), QUIET;
      Begin(before, path);
      if extensions.None? {
        assert BadKeys(extensions) == {};
        return;
      }
      hide ExtensionKeysReport;
      var keys := Keys(extensions.value.Keys);
      assert keys[..0] == [];
      for i := 0 to |keys|
        invariant Reported() == before.And(At(path, Faults(|BadIn(keys[..i])|, ExtensionKey)))
      {
        ghost var n := |BadIn(keys[..i])|;
        BadStep(keys, i);
        Whole(before, path, Faults(n, ExtensionKey), Fault(ExtensionKey));
        if !IsExtensionKey(keys[i]) {
          Error(ExtensionKey, path);
        }
      }
      assert keys[..|keys|] == keys;
      AllBadKeys(extensions, keys);
    }

    method ValidateSpecVersion(value: string, path: string)
      modifies this`errors, this`warnings
      ensures Reported() == old(Reported()).And(At(path, When(!IsSpecVersion(value), Fault(SpecVersion))))
    {
      hide ParseUnsigned;
      AtQuiet(path);
      AndQuiet(Reported());
      if value == "" {
        EmptyParts();
        Error(SpecVersion, path);
        return;
      }
      var parts := Split(value, '.');
      if |parts| != 2 {
        Error(SpecVersion, path);
        return;
      }
      var major, minor := ParseUnsigned(parts[0]), ParseUnsigned(parts[1]);
      if major.None? || minor.None? {
        Error(SpecVersion, path);
        return;
      }
      if major.value > MAX_SUPPORTED_MAJOR {
        Error(SpecVersion, path);
      }
    }

    method ValidatePolicyUrls(extensions: Option<Extras>, path: string)
      modifies this`errors, this`warnings
      ensures Reported() == old(Reported()).And(At(path, When(AreBadPolicyUrls(extensions), Fault(PolicyUrls))))
    {
      AtQuiet(path);
      AndQuiet(Reported());
      if extensions.None? || POLICY_URLS_KEY !in extensions.value {
        return;
      }
      var value := extensions.value[POLICY_URLS_KEY];
      var valid := value.Object? && IsOptionalText(value.Get("privacyPolicyUrl")) && IsOptionalText(value.Get("termsOfServiceUrl"));
      if !valid {
        Error(PolicyUrls, path);
      }
    }

    method ValidateHost(host: Option<HostInfo>, path: string)
      modifies this`errors, this`warnings
      ensures Reported() == old(Reported()).And(At(path, HostReport(host)))
    {
      hide At, Report.And;
      ghost var before, done := Reported(), QUIET;
      Begin(before, path);
      Step(before, path, done, ".displayName", Fault(HostMember));
      if host.Some? && host.value.displayName == "" {
        Error(HostMember, path + ".displayName");
      }
      done := done.And(When(host.Some? && host.value.displayName == "", At(".displayName", Fault(HostMember))));
      AndQuiet(When(host.Some? && host.value.displayName == "", At(".displayName", Fault(HostMember))));
    }

    method ValidatePublisher(publisher: Option<Publisher>, path: string)
      modifies this`errors, this`warnings
      ensures Reported() == old(Reported()).And(At(path, PublisherReport(publisher)))
    {
      hide At, Report.And;
      ghost var before, done := Reported(), QUIET;
      Begin(before, path);
      match publisher {
        case None =>
        case Some(p) =>
          Step(before, path, done, ".identifier", Fault(PublisherMember));
          if p.identifier == "" {
            Error(PublisherMember, path + ".identifier");
          }
          done := done.And(When(p.identifier == "", At(".identifier", Fault(PublisherMember))));
          Step(before, path, done, ".displayName", Fault(PublisherMember));
          if p.displayName == "" {
            Error(PublisherMember, path + ".displayName");
          }
          done := done.And(When(p.displayName == "", At(".displayName", Fault(PublisherMember))));
      }
    }

    // ---- signatures

    /** Checks a signature, and returns its protected header when the JWS is well formed. */
    method ValidateSignature(signature: Signature, kind: Kind, path: string) returns (header: Option<Header>)
      modifies this`errors, this`warnings
      ensures Reported() == old(Reported()).And(At(path, SignatureReport(env, signature, kind)))
      ensures header == ReadHeader(env, signature.jws)
    {
      hide At, Report.And, TimestampReport, WindowReport, JwsReport, IsAbsoluteUri, ReadHeader;
      ghost var before, done := Reported(), QUIET;
      Begin(before, path);
      Step(before, path, done, ".signer", Fault(SignatureMember));
      if signature.signer == "" {
        Error(SignatureMember, path + ".signer");
      }
      done := done.And(When(signature.signer == "", At(".signer", Fault(SignatureMember))));
      Step(before, path, done, ".profile", Fault(SignatureMember));
      if signature.profile == "" {
        Error(SignatureMember, path + ".profile");
      }
      done := done.And(When(signature.profile == "", At(".profile", Fault(SignatureMember))));
      Step(before, path, done, ".issuedAt", Fault(SignatureMember));
      if signature.issuedAt == "" {
        Error(SignatureMember, path + ".issuedAt");
      }
      done := done.And(When(signature.issuedAt == "", At(".issuedAt", Fault(SignatureMember))));
      Step(before, path, done, ".jws", Fault(SignatureMember));
      if signature.jws == "" {
        Error(SignatureMember, path + ".jws");
      }
      done := done.And(When(signature.jws == "", At(".jws", Fault(SignatureMember))));
      Step(before, path, done, ".signer", Fault(SignatureSigner));
      if signature.signer != "" && !IsAbsoluteUri(signature.signer) {
        Error(SignatureSigner, path + ".signer");
      }
      done := done.And(When(signature.signer != "" && !IsAbsoluteUri(signature.signer), At(".signer", Fault(SignatureSigner))));
      Step(before, path, done, ".issuedAt", TimestampReport(env, signature.issuedAt));
      ValidateTimestamp(signature.issuedAt, path + ".issuedAt");
      done := done.And(At(".issuedAt", TimestampReport(env, signature.issuedAt)));
      Whole(before, path, done, WindowReport(env, signature));
      ValidateValidityWindow(signature, path);
      done := done.And(WindowReport(env, signature));
      Step(before, path, done, ".jws", JwsReport(env, signature.jws, kind));
      header := ValidateJws(signature.jws, kind, path + ".jws");
      done := done.And(At(".jws", JwsReport(env, signature.jws, kind)));
    }

    method ValidateValidityWindow(signature: Signature, path: string)
      modifies this`errors, this`warnings
      ensures Reported() == old(Reported()).And(At(path, WindowReport(env, signature)))
    {
      hide At, Report.And, TimestampReport;
      ghost var before, done := Reported(), QUIET;
      Begin(before, path);
      if signature.expiresAt.None? {
        return;
      }
      var expiresAt := signature.expiresAt.value;
      Step(before, path, done, ".expiresAt", TimestampReport(env, expiresAt));
      ValidateTimestamp(expiresAt, path + ".expiresAt");
      done := done.And(At(".expiresAt", TimestampReport(env, expiresAt)));
      Step(before, path, done, ".expiresAt", Fault(SignatureExpiry));
      if ExpiresBeforeIssued(env, signature) {
        Error(SignatureExpiry, path + ".expiresAt");
      }
      done := done.And(When(ExpiresBeforeIssued(env, signature), At(".expiresAt", Fault(SignatureExpiry))));
    }

    method ValidateJws(jws: string, kind: Kind, path: string) returns (header: Option<Header>)
      modifies this`errors, this`warnings
      ensures Reported() == old(Reported()).And(At(path, JwsReport(env, jws, kind)))
      ensures header == ReadHeader(env, jws)
    {
      hide IsDetached, ParseHeader, IsForbidden, At, Report.And;
      ghost var before, done := Reported(), QUIET;
      Begin(before, path);
      if jws == "" {
        return None;
      }
      if !IsDetached(jws) {
        Error(SignatureForm, path);
        return None;
      }
      header := ParseHeader(env.crypto, jws);
      if header.None? {
        Error(SignatureMalformed, path);
        return None;
      }
      Whole(before, path, done, Fault(SignatureAlgorithm));
      if IsForbidden(header.value.algorithm) {
        Error(SignatureAlgorithm, path);
      }
      done := done.And(When(IsForbidden(header.value.algorithm), Fault(SignatureAlgorithm)));
      Whole(before, path, done, Fault(SignatureB64));
      if header.value.Has("b64") {
        Error(SignatureB64, path);
      }
      done := done.And(When(header.value.Has("b64"), Fault(SignatureB64)));
      Whole(before, path, done, Fault(SignatureType));
      if header.value.typ != Typ(kind) {
        Error(SignatureType, path);
      }
      done := done.And(When(header.value.typ != Typ(kind), Fault(SignatureType)));
    }

    /** Whether the signature may be accepted at the clock time: issued, and not expired. */
    method SignatureCurrent(signature: Signature, path: string) returns (current: bool)
      modifies this`errors, this`warnings
      ensures Reported() == old(Reported()).And(At(path, CurrentReport(env, signature)))
      ensures current <==> !IsNotYetValid(env, signature) && !IsExpired(env, signature)
    {
      hide At, Report.And;
      ghost var before, done := Reported(), QUIET;
      Begin(before, path);
      current := true;
      Step(before, path, done, ".issuedAt", Concern(SignatureNotYetValid));
      if IsNotYetValid(env, signature) {
        current := false;
        Warning(SignatureNotYetValid, path + ".issuedAt");
      }
      done := done.And(When(IsNotYetValid(env, signature), At(".issuedAt", Concern(SignatureNotYetValid))));
      Step(before, path, done, ".expiresAt", Concern(SignatureExpired));
      if IsExpired(env, signature) {
        current := false;
        Warning(SignatureExpired, path + ".expiresAt");
      }
      done := done.And(When(IsExpired(env, signature), At(".expiresAt", Concern(SignatureExpired))));
    }

    /** Applies the did:web Signer Profile, and reports whether there were no violations. */
    method CheckSignerProfile(signature: Signature, header: Header, path: string) returns (clean: bool)
      modifies this`errors, this`warnings
      ensures Reported() == old(Reported()).And(At(path, SignerProfileReport(signature, header)))
      ensures clean <==> |warnings| == |old(warnings)|
    {
      hide At, Report.And, IsRootDidWeb, IsForbidden, IsKeyOf;
      ghost var before, done := Reported(), QUIET;
      Begin(before, path);
      var count := |warnings|;
      Step(before, path, done, ".signer", Concern(ProfileSigner));
      if !IsRootDidWeb(signature.signer) {
        Warning(ProfileSigner, path + ".signer");
      }
      done := done.And(When(!IsRootDidWeb(signature.signer), At(".signer", Concern(ProfileSigner))));
      Step(before, path, done, ".jws", Concern(ProfileAlgorithm));
      if header.algorithm != ALGORITHM && !IsForbidden(header.algorithm) {
        Warning(ProfileAlgorithm, path + ".jws");
      }
      done := done.And(When(header.algorithm != ALGORITHM && !IsForbidden(header.algorithm), At(".jws", Concern(ProfileAlgorithm))));
      Step(before, path, done, ".jws", Concern(ProfileKeyId));
      if !IsKeyOf(signature.signer, header.keyId) {
        Warning(ProfileKeyId, path + ".jws");
      }
      done := done.And(When(!IsKeyOf(signature.signer, header.keyId), At(".jws", Concern(ProfileKeyId))));
      AndQuiet(done);
      assert KEY_SOURCES[..0] == [];
      for i := 0 to |KEY_SOURCES|
        invariant Reported() == before.And(At(path, done.And(KeySourceReport(header, KEY_SOURCES[..i]))))
      {
        ghost var so := KeySourceReport(header, KEY_SOURCES[..i]);
        Step(before, path, done.And(so), ".jws", Concern(ProfileHeader));
        if header.Has(KEY_SOURCES[i]) {
          Warning(ProfileHeader, path + ".jws");
        }
        assert KEY_SOURCES[..i + 1][..i] == KEY_SOURCES[..i] && KEY_SOURCES[..i + 1][i] == KEY_SOURCES[i];
        AndAssociates(done, so, When(header.Has(KEY_SOURCES[i]), At(".jws", Concern(ProfileHeader))));
      }
      assert KEY_SOURCES[..|KEY_SOURCES|] == KEY_SOURCES;
      clean := |warnings| == count;
    }

    // ---- trust manifests

    /** Warns about profile violations and a signature outside its validity window. */
    method CheckManifestProfile(manifest: ManifestFields, path: string)
      modifies this`errors, this`warnings
      ensures Reported() == old(Reported()).And(At(path, ProfileReport(env, manifest)))
    {
      hide At, Report.And, IsDetached, ParseHeader, SignerProfileReport, CurrentReport;
      ghost var before, done := Reported(), QUIET;
      Begin(before, path);
      if manifest.signature.None? {
        return;
      }
      var signature := manifest.signature.value;
      var header := ParseHeader(env.crypto, signature.jws);
      if header.None? {
        return;
      }
      if signature.profile != DID_WEB_PROFILE || !IsDetached(signature.jws) {
        return;
      }
      Step(before, path, done, ".signature", SignerProfileReport(signature, header.value));
      var _ := CheckSignerProfile(signature, header.value, path + ".signature");
      done := done.And(At(".signature", SignerProfileReport(signature, header.value)));
      Step(before, path, done, ".signature", CurrentReport(env, signature));
      var _ := SignatureCurrent(signature, path + ".signature");
      done := done.And(At(".signature", CurrentReport(env, signature)));
    }

    method ValidateSubject(subject: Subject, path: string)
      modifies this`errors, this`warnings
      ensures Reported() == old(Reported()).And(At(path, SubjectReport(subject)))
    {
      hide At, Report.And, DigestReport;
      ghost var before, done := Reported(), QUIET;
      Begin(before, path);
      Step(before, path, done, ".identifier", Fault(SubjectMember));
      if subject.identifier == "" {
        Error(SubjectMember, path + ".identifier");
      }
      done := done.And(When(subject.identifier == "", At(".identifier", Fault(SubjectMember))));
      Step(before, path, done, ".type", Fault(SubjectMember));
      if subject.subjectType == "" {
        Error(SubjectMember, path + ".type");
      }
      done := done.And(When(subject.subjectType == "", At(".type", Fault(SubjectMember))));
      Step(before, path, done, ".digest", Fault(SubjectMember));
      if subject.digest == "" {
        Error(SubjectMember, path + ".digest");
      }
      done := done.And(When(subject.digest == "", At(".digest", Fault(SubjectMember))));
      Step(before, path, done, ".digest", DigestReport(subject.digest));
      ValidateDigest(subject.digest, path + ".digest");
      done := done.And(At(".digest", DigestReport(subject.digest)));
    }

    method ValidateSubjectBinding(entry: CatalogEntry, manifest: ManifestFields, path: string)
      modifies this`errors, this`warnings
      ensures Reported() == old(Reported()).And(At(path, BindingReport(entry, manifest)))
    {
      hide At, Report.And, Mismatches;
      ghost var before, done := Reported(), QUIET;
      Begin(before, path);
      if manifest.subject.None? {
        return;
      }
      var members := Mismatches(entry, manifest.subject.value);
      assert members[..0] == [];
      for i := 0 to |members|
        invariant Reported() == before.And(At(path, MismatchReport(members[..i])))
      {
        Step(before, path, MismatchReport(members[..i]), ".subject." + members[i], Fault(SubjectMismatch));
        Error(SubjectMismatch, path + (".subject." + members[i]));
        assert members[..i + 1][..i] == members[..i] && members[..i + 1][i] == members[i];
      }
      assert members[..|members|] == members;
    }

    method ValidateTrustSchema(schema: TrustSchema, path: string)
      modifies this`errors, this`warnings
      ensures Reported() == old(Reported()).And(At(path, TrustSchemaReport(schema)))
    {
      hide At, Report.And;
      ghost var before, done := Reported(), QUIET;
      Begin(before, path);
      Step(before, path, done, ".identifier", Fault(TrustSchemaMember));
      if schema.identifier == "" {
        Error(TrustSchemaMember, path + ".identifier");
      }
      done := done.And(When(schema.identifier == "", At(".identifier", Fault(TrustSchemaMember))));
      Step(before, path, done, ".version", Fault(TrustSchemaMember));
      if schema.version == "" {
        Error(TrustSchemaMember, path + ".version");
      }
      done := done.And(When(schema.version == "", At(".version", Fault(TrustSchemaMember))));
    }

    method ValidateAttestation(attestation: Attestation, path: string)
      modifies this`errors, this`warnings
      ensures Reported() == old(Reported()).And(At(path, AttestationReport(attestation)))
    {
      hide At, Report.And, DigestReport;
      ghost var before, done := Reported(), QUIET;
      Begin(before, path);
      Step(before, path, done, ".type", Fault(AttestationMember));
      if attestation.attestationType == "" {
        Error(AttestationMember, path + ".type");
      }
      done := done.And(When(attestation.attestationType == "", At(".type", Fault(AttestationMember))));
      Step(before, path, done, ".uri", Fault(AttestationMember));
      if attestation.uri == "" {
        Error(AttestationMember, path + ".uri");
      }
      done := done.And(When(attestation.uri == "", At(".uri", Fault(AttestationMember))));
      Step(before, path, done, ".digest", DigestReport(Text(attestation.digest)));
      ValidateDigest(Text(attestation.digest), path + ".digest");
      done := done.And(At(".digest", DigestReport(Text(attestation.digest))));
    }

    method ValidateProvenance(link: ProvenanceLink, path: string)
      modifies this`errors, this`warnings
      ensures Reported() == old(Reported()).And(At(path, ProvenanceReport(link)))
    {
      hide At, Report.And, DigestReport;
      ghost var before, done := Reported(), QUIET;
      Begin(before, path);
      Step(before, path, done, ".relation", Fault(ProvenanceMember));
      if link.relation == "" {
        Error(ProvenanceMember, path + ".relation");
      }
      done := done.And(When(link.relation == "", At(".relation", Fault(ProvenanceMember))));
      Step(before, path, done, ".sourceId", Fault(ProvenanceMember));
      if link.sourceId == "" {
        Error(ProvenanceMember, path + ".sourceId");
      }
      done := done.And(When(link.sourceId == "", At(".sourceId", Fault(ProvenanceMember))));
      Step(before, path, done, ".sourceDigest", DigestReport(Text(link.sourceDigest)));
      ValidateDigest(Text(link.sourceDigest), path + ".sourceDigest");
      done := done.And(At(".sourceDigest", DigestReport(Text(link.sourceDigest))));
    }

    method ValidateAttestations(attestations: seq<Attestation>, path: string)
      modifies this`errors, this`warnings
      ensures Reported() == old(Reported()).And(At(path, AttestationsReport(attestations)))
    {
      hide At, Report.And, AttestationReport, Decimal, Item;
      ghost var before, done := Reported(), QUIET;
      Begin(before, path);
      assert attestations[..0] == [];
      for i := 0 to |attestations|
        invariant Reported() == before.And(At(path, AttestationsReport(attestations[..i])))
      {
        Step(before, path, AttestationsReport(attestations[..i]), Item(".attestations", i), AttestationReport(attestations[i]));
        ValidateAttestation(attestations[i], path + Item(".attestations", i));
        assert attestations[..i + 1][..i] == attestations[..i] && attestations[..i + 1][i] == attestations[i];
      }
      assert attestations[..|attestations|] == attestations;
    }

    method ValidateProvenances(links: seq<ProvenanceLink>, path: string)
      modifies this`errors, this`warnings
      ensures Reported() == old(Reported()).And(At(path, ProvenancesReport(links)))
    {
      hide At, Report.And, ProvenanceReport, Decimal, Item;
      ghost var before, done := Reported(), QUIET;
      Begin(before, path);
      assert links[..0] == [];
      for i := 0 to |links|
        invariant Reported() == before.And(At(path, ProvenancesReport(links[..i])))
      {
        Step(before, path, ProvenancesReport(links[..i]), Item(".provenance", i), ProvenanceReport(links[i]));
        ValidateProvenance(links[i], path + Item(".provenance", i));
        assert links[..i + 1][..i] == links[..i] && links[..i + 1][i] == links[i];
      }
      assert links[..|links|] == links;
    }

    method ValidateContributor(contributor: string, path: string)
      modifies this`errors, this`warnings
      ensures Reported() == old(Reported()).And(At(path, ContributorReport(contributor)))
    {
      hide IsAbsoluteUri;
      AtQuiet(path);
      AndQuiet(Reported());
      if contributor == "" {
        Error(ManifestContributor, path);
      } else if !IsAbsoluteUri(contributor) {
        Error(ManifestContributorUri, path);
      }
    }

    /** The part of a trust manifest's validation that concerns its signature. */
    method ValidateManifestSignature(manifest: ManifestFields, path: string)
      modifies this`errors, this`warnings
      ensures Reported() == old(Reported()).And(At(path, ManifestSignatureReport(env, manifest)))
    {
      hide At, Report.And, SignatureReport;
      ghost var before, done := Reported(), QUIET;
      Begin(before, path);
      if manifest.signature.None? {
        return;
      }
      var signature := manifest.signature.value;
      Step(before, path, done, ".subject", Fault(ManifestSignedMember));
      if manifest.subject.None? {
        Error(ManifestSignedMember, path + ".subject");
      }
      done := done.And(When(manifest.subject.None?, At(".subject", Fault(ManifestSignedMember))));
      Step(before, path, done, ".signature", SignatureReport(env, signature, OfManifest));
      var _ := ValidateSignature(signature, OfManifest, path + ".signature");
      done := done.And(At(".signature", SignatureReport(env, signature, OfManifest)));
      Step(before, path, done, ".signature.signer", Fault(ManifestSigner));
      if signature.signer != "" && signature.signer != manifest.contributor {
        Error(ManifestSigner, path + ".signature.signer");
      }
      done := done.And(When(signature.signer != "" && signature.signer != manifest.contributor, At(".signature.signer", Fault(ManifestSigner))));
    }

    method ValidateTrustManifest(manifest: ManifestFields, path: string)
      modifies this`errors, this`warnings
      ensures Reported() == old(Reported()).And(At(path, ManifestReport(env, manifest)))
    {
      hide At, Report.And, ExtensionKeysReport, ContributorReport, ManifestSignatureReport, SubjectReport, TrustSchemaReport, AttestationsReport,
           ProvenancesReport, IsSubstantive;
      ghost var before, done := Reported(), QUIET;
      Begin(before, path);
      Step(before, path, done, ".extensions", ExtensionKeysReport(manifest.extensions));
      ValidateExtensionKeys(manifest.extensions, path + ".extensions");
      done := done.And(At(".extensions", ExtensionKeysReport(manifest.extensions)));
      Step(before, path, done, ".contributor", ContributorReport(manifest.contributor));
      ValidateContributor(manifest.contributor, path + ".contributor");
      done := done.And(At(".contributor", ContributorReport(manifest.contributor)));
      Whole(before, path, done, Fault(ManifestEmpty));
      if !IsSubstantive(manifest) {
        Error(ManifestEmpty, path);
      }
      done := done.And(When(!IsSubstantive(manifest), At("", Fault(ManifestEmpty))));
      Whole(before, path, done, ManifestSignatureReport(env, manifest));
      ValidateManifestSignature(manifest, path);
      done := done.And(ManifestSignatureReport(env, manifest));
      AndQuiet(done);
      if manifest.subject.Some? {
        Step(before, path, done, ".subject", SubjectReport(manifest.subject.value));
        ValidateSubject(manifest.subject.value, path + ".subject");
        done := done.And(At(".subject", SubjectReport(manifest.subject.value)));
      }
      AndQuiet(done);
      if manifest.trustSchema.Some? {
        Step(before, path, done, ".trustSchema", TrustSchemaReport(manifest.trustSchema.value));
        ValidateTrustSchema(manifest.trustSchema.value, path + ".trustSchema");
        done := done.And(At(".trustSchema", TrustSchemaReport(manifest.trustSchema.value)));
      }
      Whole(before, path, done, AttestationsReport(manifest.attestations));
      ValidateAttestations(manifest.attestations, path);
      done := done.And(AttestationsReport(manifest.attestations));
      Whole(before, path, done, ProvenancesReport(manifest.provenance));
      ValidateProvenances(manifest.provenance, path);
    }

    /** The body of the loop over the trust manifests of an entry. */
    method ValidateEntryManifest(entry: CatalogEntry, manifest: ManifestFields, path: string)
      modifies this`errors, this`warnings
      ensures Reported() == old(Reported()).And(At(path, EntryManifestReport(env, entry, manifest)))
    {
      hide At, Report.And, ManifestReport, BindingReport, ProfileReport;
      ghost var before, done := Reported(), QUIET;
      Begin(before, path);
      Whole(before, path, done, ManifestReport(env, manifest));
      ValidateTrustManifest(manifest, path);
      done := done.And(ManifestReport(env, manifest));
      Whole(before, path, done, BindingReport(entry, manifest));
      ValidateSubjectBinding(entry, manifest, path);
      done := done.And(BindingReport(entry, manifest));
      Whole(before, path, done, ProfileReport(env, manifest));
      CheckManifestProfile(manifest, path);
      done := done.And(ProfileReport(env, manifest));
    }

    method ValidateEntryTrust(entry: CatalogEntry, path: string)
      modifies this`errors, this`warnings
      ensures Reported() == old(Reported()).And(At(path, EntryTrustReport(env, entry)))
    {
      hide At, Report.And, DigestReport, EntryManifestReport, Item, Decimal;
      ghost var before, done := Reported(), QUIET;
      Begin(before, path);
      Step(before, path, done, ".digest", DigestReport(Text(entry.digest)));
      ValidateDigest(Text(entry.digest), path + ".digest");
      done := done.And(At(".digest", DigestReport(Text(entry.digest))));
      var manifests := entry.trustManifests;
      var hasSigned := false;
      assert manifests[..0] == [];
      AndQuiet(done);
      for i := 0 to |manifests|
        invariant Reported() == before.And(At(path, done.And(ManifestsReport(env, entry, manifests[..i]))))
        invariant hasSigned <==> HasSigned(manifests[..i])
      {
        ghost var so := ManifestsReport(env, entry, manifests[..i]);
        ghost var r := EntryManifestReport(env, entry, manifests[i].fields);
        Step(before, path, done.And(so), Item(".trustManifests", i), r);
        ValidateEntryManifest(entry, manifests[i].fields, path + Item(".trustManifests", i));
        AndAssociates(done, so, At(Item(".trustManifests", i), r));
        hasSigned := hasSigned || manifests[i].fields.signature.Some?;
        SignedStep(manifests, i);
        assert manifests[..i + 1][..i] == manifests[..i] && manifests[..i + 1][i] == manifests[i];
      }
      assert manifests[..|manifests|] == manifests;
      done := done.And(ManifestsReport(env, entry, manifests));
      Step(before, path, done, ".digest", Fault(EntryDigest));
      if hasSigned && Text(entry.digest) == "" {
        Error(EntryDigest, path + ".digest");
      }
      done := done.And(When(hasSigned && Text(entry.digest) == "", At(".digest", Fault(EntryDigest))));
    }

    // ---- entries and catalogs

    /** Reports entries that cannot be told apart, in one pass with three sets. */
    method ValidateEntryUniqueness(entries: seq<CatalogEntry>, path: string)
      modifies this`errors, this`warnings
      ensures Reported() == old(Reported()).And(At(path, UniquenessReport(entries)))
    {
      hide At, Report.And, Item, Decimal, HasEarlier, HasEarlierUnversioned, HasEarlierVersion;
      ghost var before := Reported();
      Begin(before, path);
      var seenVersioned: set<(string, string)> := {};
      var seenUnversioned: set<string> := {};
      var versionedIds: set<string> := {};
      for i := 0 to |entries|
        invariant Reported() == before.And(At(path, UniquenessUpTo(entries, i)))
        invariant Tracks(entries, i, seenVersioned, seenUnversioned, versionedIds)
      {
        ghost var done := UniquenessUpTo(entries, i);
        TracksMeans(entries, i, seenVersioned, seenUnversioned, versionedIds);
        TracksStep(entries, i, seenVersioned, seenUnversioned, versionedIds);
        var identifier, version := entries[i].identifier, Text(entries[i].version);
        hide Tracks;
        if version == "" {
          Step(before, path, done, Item(".entries", i), Fault(EntryDuplicate));
          if identifier in seenUnversioned || identifier in versionedIds {
            Error(EntryDuplicate, path + Item(".entries", i));
          }
          seenUnversioned := seenUnversioned + {identifier};
          continue;
        }
        Step(before, path, done, Item(".entries", i) + ".identifier", Fault(EntryVersion));
        if identifier in seenUnversioned {
          Error(EntryVersion, path + (Item(".entries", i) + ".identifier"));
        }
        ghost var mixed := When(identifier in seenUnversioned, At(Item(".entries", i) + ".identifier", Fault(EntryVersion)));
        Step(before, path, done.And(mixed), Item(".entries", i), Fault(EntryDuplicate));
        if (identifier, version) in seenVersioned {
          Error(EntryDuplicate, path + Item(".entries", i));
        }
        AndAssociates(done, mixed, When((identifier, version) in seenVersioned, At(Item(".entries", i), Fault(EntryDuplicate))));
        seenVersioned := seenVersioned + {(identifier, version)};
        versionedIds := versionedIds + {identifier};
      }
    }

    method ValidateEntry(e: CatalogEntry, path: string, depth: nat)
      modifies this`errors, this`warnings
      ensures Reported() == old(Reported()).And(At(path, EntryReport(env, e, Limit(depth))))
      decreases Limit(depth), 1
    {
      hide At, Report.And, TimestampReport, ExtensionKeysReport, PublisherReport, EntryTrustReport, NestedReport, AreBadPolicyUrls;
      ghost var before, done := Reported(), QUIET;
      Begin(before, path);
      Step(before, path, done, ".identifier", Fault(EntryMember));
      if e.identifier == "" {
        Error(EntryMember, path + ".identifier");
      }
      done := done.And(When(e.identifier == "", At(".identifier", Fault(EntryMember))));
      Step(before, path, done, ".type", Fault(EntryMember));
      if e.entryType == "" {
        Error(EntryMember, path + ".type");
      }
      done := done.And(When(e.entryType == "", At(".type", Fault(EntryMember))));
      Whole(before, path, done, Fault(EntryArtifact));
      match (Text(e.url) != "", e.data.Some?) {
        case (true, true) => Error(EntryArtifact, path);
        case (false, false) => Error(EntryArtifact, path);
        case _ =>
      }
      done := done.And(When(!HasOneSource(e), At("", Fault(EntryArtifact))));
      Step(before, path, done, ".updatedAt", TimestampReport(env, Text(e.updatedAt)));
      ValidateTimestamp(Text(e.updatedAt), path + ".updatedAt");
      done := done.And(At(".updatedAt", TimestampReport(env, Text(e.updatedAt))));
      Step(before, path, done, ".extensions", ExtensionKeysReport(e.extensions));
      ValidateExtensionKeys(e.extensions, path + ".extensions");
      done := done.And(At(".extensions", ExtensionKeysReport(e.extensions)));
      Step(before, path, done, ".extensions", When(AreBadPolicyUrls(e.extensions), Fault(PolicyUrls)));
      ValidatePolicyUrls(e.extensions, path + ".extensions");
      done := done.And(At(".extensions", When(AreBadPolicyUrls(e.extensions), Fault(PolicyUrls))));
      Step(before, path, done, ".publisher", PublisherReport(e.publisher));
      ValidatePublisher(e.publisher, path + ".publisher");
      done := done.And(At(".publisher", PublisherReport(e.publisher)));
      Whole(before, path, done, EntryTrustReport(env, e));
      ValidateEntryTrust(e, path);
      done := done.And(EntryTrustReport(env, e));
      Whole(before, path, done, NestedReport(env, e, Limit(depth)));
      ValidateNestedCatalog(e, path, depth);
      done := done.And(NestedReport(env, e, Limit(depth)));
      Step(before, path, done, ".identifier", Concern(IdentifierNotUri));
      if e.identifier != "" && ':' !in e.identifier {
        Warning(IdentifierNotUri, path + ".identifier");
      }
      done := done.And(When(e.identifier != "" && ':' !in e.identifier, At(".identifier", Concern(IdentifierNotUri))));
    }

    /** How many levels of nesting are still allowed below `depth`. */
    function Limit(depth: nat): nat { if depth < maxDepth then maxDepth - depth else 0 }

    method ValidateNestedCatalog(e: CatalogEntry, path: string, depth: nat)
      modifies this`errors, this`warnings
      ensures Reported() == old(Reported()).And(At(path, NestedReport(env, e, Limit(depth))))
      decreases Limit(depth), 0
    {
      hide At, Report.And, CatalogReport;
      ghost var before := Reported();
      Begin(before, path);
      if !e.IsNestedCatalog() {
        return;
      }
      if depth >= maxDepth {
        Whole(before, path, QUIET, Fault(NestedDepth));
        Error(NestedDepth, path);
        return;
      }
      if e.data.None? {
        return;
      }
      match env.catalogOf(e.data.value) {
        case Some(nested) =>
          Step(before, path, QUIET, ".data", CatalogReport(env, nested, Limit(depth + 1)));
          AndQuiet(At(".data", CatalogReport(env, nested, Limit(depth + 1))));
          ValidateCatalog(nested, path + ".data", depth + 1);
        case None =>
          Step(before, path, QUIET, ".data", Fault(NestedInvalid));
          AndQuiet(At(".data", Fault(NestedInvalid)));
          Error(NestedInvalid, path + ".data");
      }
    }

    method ValidateEntries(entries: seq<CatalogEntry>, path: string, depth: nat)
      modifies this`errors, this`warnings
      ensures Reported() == old(Reported()).And(At(path, EntriesReport(env, entries, Limit(depth))))
      decreases Limit(depth), 2
    {
      hide At, Report.And, EntryReport, Item, Decimal;
      ghost var before, done := Reported(), QUIET;
      Begin(before, path);
      assert entries[..0] == [];
      for i := 0 to |entries|
        invariant Reported() == before.And(At(path, EntriesReport(env, entries[..i], Limit(depth))))
      {
        Step(before, path, EntriesReport(env, entries[..i], Limit(depth)), Item(".entries", i), EntryReport(env, entries[i], Limit(depth)));
        ValidateEntry(entries[i], path + Item(".entries", i), depth);
        assert entries[..i + 1][..i] == entries[..i] && entries[..i + 1][i] == entries[i];
      }
      assert entries[..|entries|] == entries;
    }

    /** Validates a catalog at any path and depth: the report is that of the root, with the limit
        reduced by the depth and the path put before it. */
    method ValidateCatalog(c: AiCatalog, path: string, depth: nat)
      modifies this`errors, this`warnings
      ensures Reported() == old(Reported()).And(At(path, CatalogReport(env, c, Limit(depth))))
      decreases Limit(depth), 3
    {
      hide At, Report.And, IsSpecVersion, HostReport, SignatureReport, ExtensionKeysReport, UniquenessReport, EntriesReport;
      ghost var before, done := Reported(), QUIET;
      Begin(before, path);
      Step(before, path, done, ".specVersion", When(!IsSpecVersion(c.specVersion), Fault(SpecVersion)));
      ValidateSpecVersion(c.specVersion, path + ".specVersion");
      done := done.And(At(".specVersion", When(!IsSpecVersion(c.specVersion), Fault(SpecVersion))));
      Step(before, path, done, ".host", HostReport(c.host));
      ValidateHost(c.host, path + ".host");
      done := done.And(At(".host", HostReport(c.host)));
      AndQuiet(done);
      if c.signature.Some? {
        Step(before, path, done, ".signature", SignatureReport(env, c.signature.value, OfCatalog));
        var _ := ValidateSignature(c.signature.value, OfCatalog, path + ".signature");
        done := done.And(At(".signature", SignatureReport(env, c.signature.value, OfCatalog)));
      }
      Step(before, path, done, ".extensions", ExtensionKeysReport(c.extensions));
      ValidateExtensionKeys(c.extensions, path + ".extensions");
      done := done.And(At(".extensions", ExtensionKeysReport(c.extensions)));
      Whole(before, path, done, UniquenessReport(c.entries));
      ValidateEntryUniqueness(c.entries, path);
      done := done.And(UniquenessReport(c.entries));
      Whole(before, path, done, EntriesReport(env, c.entries, Limit(depth)));
      ValidateEntries(c.entries, path, depth);
      done := done.And(EntriesReport(env, c.entries, Limit(depth)));
    }
  }

  function BadIn(keys: seq<string>): set<string> { set key | key in keys && !IsExtensionKey(key) }

  lemma AllBadKeys(extensions: Option<Extras>, keys: seq<string>)
    requires extensions.Some? && forall key :: key in keys <==> key in extensions.value.Keys
    ensures ExtensionKeysReport(extensions) == Faults(|BadIn(keys)|, ExtensionKey)
  {
    assert BadIn(keys) == BadKeys(extensions);
  }

  lemma BadStep(keys: seq<string>, i: nat)
    requires i < |keys| && forall j, k :: 0 <= j < k < |keys| ==> keys[j] != keys[k]
    ensures |BadIn(keys[..i + 1])| == |BadIn(keys[..i])| + if IsExtensionKey(keys[i]) then 0 else 1
  {
    hide IsExtensionKey;
    assert keys[..i + 1] == keys[..i] + [keys[i]];
    assert keys[i] !in keys[..i];
    assert BadIn(keys[..i + 1]) == BadIn(keys[..i]) + if IsExtensionKey(keys[i]) then {} else {keys[i]};
  }

  lemma SignedStep(manifests: seq<TrustManifest>, i: nat)
    requires i < |manifests|
    ensures HasSigned(manifests[..i + 1]) <==> HasSigned(manifests[..i]) || manifests[i].fields.signature.Some?
  {
    var now, next := manifests[..i], manifests[..i + 1];
    assert next == now + [manifests[i]];
    if j :| 0 <= j < |now| && now[j].fields.signature.Some? {
      assert next[j] == now[j];
    }
    assert next[i] == manifests[i];
    if j :| 0 <= j < |next| && next[j].fields.signature.Some? && j < i {
      assert now[j] == next[j];
    }
  }

  lemma EmptyParts()
    ensures |Split("", '.')| == 1
  {
  }

  // ---------------------------------------------------------------- the three sets

  /** What the three sets of the uniqueness pass hold after `n` entries. */
  ghost predicate Tracks(entries: seq<CatalogEntry>, n: nat, versioned: set<(string, string)>, unversioned: set<string>, ids: set<string>)
    requires n <= |entries|
  {
    && (forall id, v :: (id, v) in versioned <==>
          exists j :: 0 <= j < n && entries[j].identifier == id && Text(entries[j].version) == v && v != "")
    && (forall id :: id in unversioned <==> exists j :: 0 <= j < n && entries[j].identifier == id && IsUnversioned(entries[j]))
    && (forall id :: id in ids <==> exists j :: 0 <= j < n && entries[j].identifier == id && !IsUnversioned(entries[j]))
  }

  lemma TracksMeans(entries: seq<CatalogEntry>, i: nat, versioned: set<(string, string)>, unversioned: set<string>, ids: set<string>)
    requires i < |entries| && Tracks(entries, i, versioned, unversioned, ids)
    ensures var id, v := entries[i].identifier, Text(entries[i].version);
            && (HasEarlier(entries, i) <==> id in unversioned || id in ids)
            && (HasEarlierUnversioned(entries, i) <==> id in unversioned)
            && (v != "" ==> (HasEarlierVersion(entries, i) <==> (id, v) in versioned))
  {
  }

  lemma TracksStep(entries: seq<CatalogEntry>, i: nat, versioned: set<(string, string)>, unversioned: set<string>, ids: set<string>)
    requires i < |entries| && Tracks(entries, i, versioned, unversioned, ids)
    ensures var id, v := entries[i].identifier, Text(entries[i].version);
            if v == "" then Tracks(entries, i + 1, versioned, unversioned + {id}, ids)
            else Tracks(entries, i + 1, versioned + {(id, v)}, unversioned, ids + {id})
  {
  }

  // ---------------------------------------------------------------- entry point

  method ValidateWith(env: Env, c: AiCatalog, maxDepth: nat) returns (result: ValidationResult)
    ensures result == ResultOf(env, c, maxDepth)
  {
    hide At, CatalogReport, Report.And;
    var validator := new Validator(env, maxDepth);
    AndQuiet(At("catalog", CatalogReport(env, c, maxDepth)));
    validator.ValidateCatalog(c, "catalog", 0);
    var report := validator.Reported();
    result := ValidationResult(validator.errors == [], LevelOf(report, c), report);
  }
}
