// What it means that a catalog is reported as Trusted, end to end.

module TrustedMeaning {
  import opened Basics
  import opened JsonValue
  import opened Catalog
  import opened Trust
  import opened Identity
  import opened Validation
  import opened Verification
  import opened Agreement
  import opened Uniqueness
  import opened Validity
  import opened Verdicts

  /** Validator and verifier agree on releases: where the validator finds no error in the trust of an
      entry, every signed manifest of it covers the entry release. */
  lemma {:induction false} SignedCovers(env: Env, entry: CatalogEntry, j: nat)
    requires IsTrusting(env, entry)
    requires j < |entry.trustManifests| && entry.trustManifests[j].fields.signature.Some?
    ensures var manifest := entry.trustManifests[j].fields;
            ReleaseOutcome(entry, manifest, manifest.signature.value) == Verified
  {
    var manifest := entry.trustManifests[j].fields;
    assert IsManifestOf(env, entry, manifest);
    assert !NoneSigned(entry.trustManifests);
    SoundCovers(env, entry, manifest);
    ReleaseExact(entry, manifest, manifest.signature.value);
    hide IsTrusting, IsManifestOf, ReleaseOutcome, Covers;
  }

  lemma SoundCovers(env: Env, entry: CatalogEntry, manifest: ManifestFields)
    requires IsManifestOf(env, entry, manifest) && manifest.signature.Some? && Text(entry.digest) != ""
    ensures Covers(entry, manifest, manifest.signature.value)
  {
    hide IsSound, IsAbsoluteUri, IsSubstantive, AreExtensions, AreAttestations, AreProvenances, IsTrustSchema, IsDigest;
  }

  // ---------------------------------------------------------------- endorsements

  /** What a publisher endorsement of an entry is: the manifest selects the profile, is signed by its contributor,
      who is the `did:web` of the valid domain that the `urn:air` identifier names, is in order, covers the entry
      release, and is authentic; and the content of the entry has the digest that was signed. */
  ghost predicate Endorses(env: Env, outside: Outside, entry: CatalogEntry, raw: Json, manifest: ManifestFields, rawManifest: Json) {
    && manifest.signature.Some?
    && PublisherOf(entry.identifier).Some?
    && var signature := manifest.signature.value;
       var publisher := PublisherOf(entry.identifier).value;
       && IsValidPublisher(publisher)
       && signature.profile == "did-web-v1"
       && signature.signer == Did(publisher)
       && Covers(entry, manifest, signature)
       && IsInOrder(env, signature, OfManifest)
       && IsAuthentic(env, outside, publisher, signature, rawManifest)
       && HasContent(env, outside, entry, raw)
  }

  lemma VouchedExact(env: Env, outside: Outside, entry: CatalogEntry, manifest: ManifestFields, rawManifest: Json)
    requires IsPublishers(entry, manifest)
    ensures var signature := manifest.signature.value;
            IsAccepted(env, outside, entry, manifest, rawManifest) <==>
            && signature.profile == "did-web-v1" && Covers(entry, manifest, signature) && IsInOrder(env, signature, OfManifest)
            && IsAuthentic(env, outside, PublisherOf(entry.identifier).value, signature, rawManifest)
  {
    DidDomain(PublisherOf(entry.identifier).value);
    AuthenticIsFetched(env, outside, PublisherOf(entry.identifier).value, manifest.signature.value, rawManifest);
    hide IsInOrder, IsAuthentic, Covers, PublisherOf, IsValidPublisher, DomainOf, Did;
  }

  lemma DidDomain(publisher: string)
    ensures DomainOf(Did(publisher)) == publisher
  {
  }

  lemma AuthenticIsFetched(env: Env, outside: Outside, publisher: string, signature: Signature, document: Json)
    ensures IsAuthentic(env, outside, publisher, signature, document) ==>
              outside.fetch("https://" + (publisher + "/.well-known/did.json")) != None
  {
    hide ParseHeader, Payload, Designates, KeyFromJwk, VerifyEs256;
  }

  lemma ReachedContent(env: Env, outside: Outside, entry: CatalogEntry, raw: Json)
    ensures ArtifactVerdict(env, outside, entry, raw) == Verified <==> HasContent(env, outside, entry, raw)
  {
    hide IsCanonicalDigest, Lower;
  }

  /** A manifest of the publisher that is accepted, with an artifact that is verified, is an endorsement. */
  lemma EndorsesExact(env: Env, outside: Outside, entry: CatalogEntry, raw: Json, manifest: ManifestFields, rawManifest: Json)
    ensures Endorses(env, outside, entry, raw, manifest, rawManifest) <==>
            && IsPublishers(entry, manifest) && IsAccepted(env, outside, entry, manifest, rawManifest)
            && ArtifactVerdict(env, outside, entry, raw) == Verified
  {
    ReachedContent(env, outside, entry, raw);
    if IsPublishers(entry, manifest) {
      VouchedExact(env, outside, entry, manifest, rawManifest);
    }
    hide IsAccepted, ArtifactVerdict, HasContent, IsInOrder, IsAuthentic, Covers, PublisherOf, IsValidPublisher, Did;
  }

  /** Some manifest of the entry is an endorsement by its publisher. */
  ghost predicate IsEndorsed(env: Env, outside: Outside, entry: CatalogEntry, raw: Json) {
    exists j :: 0 <= j < |entry.trustManifests| &&
                Endorses(env, outside, entry, raw, entry.trustManifests[j].fields, RawItem(raw, j))
  }

  /** An entry is reported as endorsed exactly when it has an endorsement by its publisher, and as failed exactly when a
      manifest that the publisher signed is refused, or one is accepted and the artifact has failed. */
  lemma {:induction false} EndorsedExact(env: Env, outside: Outside, index: nat, entry: CatalogEntry, raw: Json)
    requires forall bytes :: HashLengths(env.crypto, bytes)
    ensures EntryTrustOf(env, outside, index, entry, raw).publisherEndorsed <==> IsEndorsed(env, outside, entry, raw)
    ensures EntryTrustOf(env, outside, index, entry, raw).publisherFailed <==> HasFailure(env, outside, entry, raw)
  {
    EntryReportExact(env, outside, index, entry, raw);
    forall j | 0 <= j < |entry.trustManifests|
      ensures Endorses(env, outside, entry, raw, entry.trustManifests[j].fields, RawItem(raw, j)) <==>
              && IsPublishers(entry, entry.trustManifests[j].fields)
              && IsAccepted(env, outside, entry, entry.trustManifests[j].fields, RawItem(raw, j))
              && ArtifactVerdict(env, outside, entry, raw) == Verified
    {
      EndorsesExact(env, outside, entry, raw, entry.trustManifests[j].fields, RawItem(raw, j));
    }
    hide EntryTrustOf, ArtifactVerdict, Endorses, HasFailure, IsAccepted, IsPublishers, RawItem;
  }

  /** The verdict about the publisher depends on nothing but the manifests that the publisher signed. */
  lemma PublisherDecides(env: Env, outside: Outside, index: nat, entry: CatalogEntry, raw: Json)
    ensures var e := EntryTrustOf(env, outside, index, entry, raw);
            var ms := ManifestTrusts(env, outside, entry, raw);
            && (e.publisherEndorsed <==> PublisherAccepted(ms) && ArtifactOutcome(env, outside, entry, raw) == Verified)
            && (e.publisherFailed <==>
                  PublisherFailed(ms) || (PublisherAccepted(ms) && ArtifactOutcome(env, outside, entry, raw) == Outcome.Failed))
  {
    var ms := ManifestTrusts(env, outside, entry, raw);
    assert PublisherAccepted(ms) ==> AnyAccepted(ms);
    hide ManifestTrusts, ArtifactOutcome, PublisherFailed, AnyAccepted, PublisherAccepted;
  }

  // ---------------------------------------------------------------- Trusted

  function RawEntry(raw: Json, i: nat): Json { raw.At("entries").Item(i) }

  ghost predicate AnyEndorsed(env: Env, outside: Outside, c: AiCatalog, raw: Json) {
    exists i :: 0 <= i < |c.entries| && IsEndorsed(env, outside, c.entries[i], RawEntry(raw, i))
  }

  ghost predicate AnyFailure(env: Env, outside: Outside, c: AiCatalog, raw: Json) {
    exists i :: 0 <= i < |c.entries| && HasFailure(env, outside, c.entries[i], RawEntry(raw, i))
  }

  /** A catalog is Trusted exactly when it has a host and validates without an error, some entry is endorsed
      by its publisher, and no publisher's manifest fails. */
  lemma {:induction false} TrustedExact(env: Env, outside: Outside, operators: seq<string>, maxDepth: nat, c: AiCatalog, raw: Json)
    requires forall bytes :: HashLengths(env.crypto, bytes)
    ensures VerificationOf(env, outside, operators, maxDepth, c, raw).level == Trusted <==>
            && IsValidCatalog(env, c, maxDepth) && c.host.Some?
            && AnyEndorsed(env, outside, c, raw) && !AnyFailure(env, outside, c, raw)
  {
    hide VerificationOf, EntryTrusts, AnyEndorsed, AnyFailure, ResultOf, IsValidCatalog, IsTrusted;
    EntriesExact(env, outside, c, raw);
    LevelOfVerification(env, outside, operators, maxDepth, c, raw);
  }

  lemma EntriesExact(env: Env, outside: Outside, c: AiCatalog, raw: Json)
    requires forall bytes :: HashLengths(env.crypto, bytes)
    ensures IsTrusted(EntryTrusts(env, outside, c, raw)) <==> AnyEndorsed(env, outside, c, raw) && !AnyFailure(env, outside, c, raw)
  {
    hide EntryTrustOf, IsEndorsed, HasFailure;
    var entries := EntryTrusts(env, outside, c, raw);
    forall i | 0 <= i < |c.entries|
      ensures entries[i].publisherEndorsed <==> IsEndorsed(env, outside, c.entries[i], RawEntry(raw, i))
      ensures entries[i].publisherFailed <==> HasFailure(env, outside, c.entries[i], RawEntry(raw, i))
    {
      EndorsedExact(env, outside, i, c.entries[i], RawEntry(raw, i));
    }
    hide RawEntry, EntryTrusts;
  }

  lemma LevelOfVerification(env: Env, outside: Outside, operators: seq<string>, maxDepth: nat, c: AiCatalog, raw: Json)
    ensures VerificationOf(env, outside, operators, maxDepth, c, raw).level ==
            if !IsValidCatalog(env, c, maxDepth) || c.host.None? then Minimal
            else if IsTrusted(EntryTrusts(env, outside, c, raw)) then Trusted
            else Discoverable
  {
    LevelExact(env, c, maxDepth);
    hide ResultOf, EntryTrusts, IsTrusted, SignatureOutcome, IsValidCatalog;
  }

  lemma ValidEntry(env: Env, c: AiCatalog, maxDepth: nat, i: nat)
    requires IsValidCatalog(env, c, maxDepth) && i < |c.entries|
    ensures c.entries[i].entryType != "" && IsTrusting(env, c.entries[i])
  {
    assert AreEntries(env, c.entries, maxDepth);
    assert IsValidEntry(env, c.entries[i], maxDepth);
    hide IsTrusting;
  }

  function RawManifest(raw: Json, i: nat, j: nat): Json { RawItem(RawEntry(raw, i), j) }

  /** The manifest is by the publisher of the entry, about exactly this release. */
  predicate Describes(entry: CatalogEntry, manifest: ManifestFields) {
    && PublisherOf(entry.identifier).Some? && entry.digest.Some? && manifest.subject.Some?
    && manifest.contributor == Did(PublisherOf(entry.identifier).value)
    && manifest.subject.value.(extraFields := map[]) ==
       Subject(entry.identifier, entry.version, entry.entryType, entry.digest.value, map[])
  }

  /** What a Trusted catalog contains: an endorsement in which the signed subject is the entry in identifier,
      version, type and digest, signed by the publisher that the identifier names. */
  lemma {:induction false} TrustedMeans(env: Env, outside: Outside, operators: seq<string>, maxDepth: nat, c: AiCatalog, raw: Json) returns (i: nat, j: nat)
    requires forall bytes :: HashLengths(env.crypto, bytes)
    requires VerificationOf(env, outside, operators, maxDepth, c, raw).level == Trusted
    ensures i < |c.entries| && j < |c.entries[i].trustManifests|
    ensures var entry, manifest := c.entries[i], c.entries[i].trustManifests[j].fields;
            && Endorses(env, outside, entry, RawEntry(raw, i), manifest, RawManifest(raw, i, j))
            && Describes(entry, manifest) && manifest.signature.value.signer == manifest.contributor
  {
    TrustedExact(env, outside, operators, maxDepth, c, raw);
    hide VerificationOf, AnyFailure;
    i :| 0 <= i < |c.entries| && IsEndorsed(env, outside, c.entries[i], RawEntry(raw, i));
    var entry := c.entries[i];
    j := EndorsementOf(env, outside, entry, RawEntry(raw, i));
    LevelExact(env, c, maxDepth);
    ValidEntry(env, c, maxDepth, i);
    hide ResultOf, IsValidCatalog, IsEndorsed, IsTrusting, IsValidInside, AreExtensions,
         IsValidPublisher, IsInOrder, IsAuthentic, HasContent, PublisherOf, Did, RawEntry;
  }

  lemma EndorsementOf(env: Env, outside: Outside, entry: CatalogEntry, raw: Json) returns (j: nat)
    requires IsEndorsed(env, outside, entry, raw)
    ensures j < |entry.trustManifests|
    ensures Endorses(env, outside, entry, raw, entry.trustManifests[j].fields, RawItem(raw, j))
  {
    j :| 0 <= j < |entry.trustManifests| &&
         Endorses(env, outside, entry, raw, entry.trustManifests[j].fields, RawItem(raw, j));
  }

  // ---------------------------------------------------------------- what was signed

  /** Contributor and subject of a manifest are read from the members of those names. */
  ghost predicate ReadsMembers(codec: ManifestCodec) {
    forall a: Json, b: Json :: codec.fromJson(a).Some? && codec.fromJson(b).Some? ==>
      && (a.Get("contributor") == b.Get("contributor") ==> codec.fromJson(a).value.contributor == codec.fromJson(b).value.contributor)
      && (a.Get("subject") == b.Get("subject") ==> codec.fromJson(a).value.subject == codec.fromJson(b).value.subject)
  }

  /** The document that is verified is the one that the catalog was decoded from, as far as manifests go. */
  ghost predicate DecodesTo(codec: ManifestCodec, raw: Json, c: AiCatalog) {
    forall i, j :: 0 <= i < |c.entries| && 0 <= j < |c.entries[i].trustManifests| ==>
      codec.fromJson(RawManifest(raw, i, j)) == Some(c.entries[i].trustManifests[j].fields)
  }

  /** The canonical form of what is signed tells the two documents apart. */
  ghost predicate ToldApart(crypto: Crypto, a: Json, b: Json) {
    crypto.canonical(Strip(a)) == crypto.canonical(Strip(b)) ==> Strip(a) == Strip(b)
  }

  /** Manifests with the same signed payload have the same contributor and subject. */
  lemma PayloadFixesSubject(crypto: Crypto, codec: ManifestCodec, a: Json, b: Json)
    requires ReadsMembers(codec) && codec.fromJson(a).Some? && codec.fromJson(b).Some?
    requires Payload(crypto, a).Some? && Payload(crypto, a) == Payload(crypto, b) && ToldApart(crypto, a, b)
    ensures codec.fromJson(a).value.contributor == codec.fromJson(b).value.contributor
    ensures codec.fromJson(a).value.subject == codec.fromJson(b).value.subject
  {
    PayloadExact(crypto, a, b);
    assert "contributor"[0] == 'c' && "subject"[1] == 'u';
    assert SIGNATURE[0] == 's' && SIGNATURE[1] == 'i' && ADDITIONAL_SIGNATURES[0] == 'a';
    assert "contributor" !in {SIGNATURE, ADDITIONAL_SIGNATURES} && "subject" !in {SIGNATURE, ADDITIONAL_SIGNATURES};
    assert a.Get("contributor") == b.Get("contributor") && a.Get("subject") == b.Get("subject");
    hide Strip, SameSigned, Json.Get;
  }

  /** In a Trusted catalog the signature itself fixes the release: the key of the publisher signed the payload of a
      document that decodes to the manifest, and every manifest with that payload has the same contributor and a
      subject that is the entry in identifier, version, type and digest. */
  lemma {:induction false} TrustedSigned(env: Env, outside: Outside, operators: seq<string>, maxDepth: nat, c: AiCatalog, raw: Json,
                                         codec: ManifestCodec) returns (i: nat, j: nat)
    requires forall bytes :: HashLengths(env.crypto, bytes)
    requires VerificationOf(env, outside, operators, maxDepth, c, raw).level == Trusted
    requires ReadsMembers(codec) && DecodesTo(codec, raw, c)
    ensures i < |c.entries| && j < |c.entries[i].trustManifests|
    ensures PublisherOf(c.entries[i].identifier).Some? && c.entries[i].trustManifests[j].fields.signature.Some?
    ensures IsAuthentic(env, outside, PublisherOf(c.entries[i].identifier).value,
                        c.entries[i].trustManifests[j].fields.signature.value, RawManifest(raw, i, j))
    ensures forall other: Json :: SharesPayload(env.crypto, codec, RawManifest(raw, i, j), other) ==>
              Describes(c.entries[i], codec.fromJson(other).value)
  {
    i, j := TrustedMeans(env, outside, operators, maxDepth, c, raw);
    var entry, manifest, signed := c.entries[i], c.entries[i].trustManifests[j].fields, RawManifest(raw, i, j);
    assert codec.fromJson(signed) == Some(manifest);
    assert Payload(env.crypto, signed).Some?;
    hide VerificationOf, Endorses, IsAuthentic, HashLengths, ReadsMembers, DecodesTo, RawManifest, RawEntry, Payload, ToldApart, Did;
    forall other: Json | SharesPayload(env.crypto, codec, signed, other) ensures Describes(entry, codec.fromJson(other).value) {
      PayloadFixesSubject(env.crypto, codec, signed, other);
    }
  }

  /** Another manifest that the same signature would cover. */
  ghost predicate SharesPayload(crypto: Crypto, codec: ManifestCodec, signed: Json, other: Json) {
    codec.fromJson(other).Some? && Payload(crypto, signed) == Payload(crypto, other) && ToldApart(crypto, signed, other)
  }

  // ---------------------------------------------------------------- other contributors

  /** The entry lists a manifest with these fields and this JSON, signed by its publisher. */
  ghost predicate Lists(entry: CatalogEntry, raw: Json, manifest: ManifestFields, rawManifest: Json) {
    && IsPublishers(entry, manifest)
    && exists j :: 0 <= j < |entry.trustManifests| && entry.trustManifests[j].fields == manifest
                   && RawItem(raw, j) == rawManifest
  }

  /** Both list the same manifests of the publisher, in any order and number, among any others. */
  ghost predicate SamePublisherManifests(a: CatalogEntry, rawA: Json, b: CatalogEntry, rawB: Json) {
    forall manifest, rawManifest :: Lists(a, rawA, manifest, rawManifest) <==> Lists(b, rawB, manifest, rawManifest)
  }

  lemma AcceptedListed(env: Env, outside: Outside, a: CatalogEntry, rawA: Json, b: CatalogEntry, rawB: Json)
    requires Release(a) == Release(b) && SamePublisherManifests(a, rawA, b, rawB)
    ensures PublisherAccepted(ManifestTrusts(env, outside, a, rawA)) ==> PublisherAccepted(ManifestTrusts(env, outside, b, rawB))
    ensures PublisherFailed(ManifestTrusts(env, outside, a, rawA)) ==> PublisherFailed(ManifestTrusts(env, outside, b, rawB))
  {
    hide SignatureOutcome, ReleaseOutcome, Lists, IsPublisher;
    var xs, ys := ManifestTrusts(env, outside, a, rawA), ManifestTrusts(env, outside, b, rawB);
    if j :| 0 <= j < |xs| && xs[j].publisher && xs[j].IsAccepted() {
      var k := Counterpart(env, outside, a, rawA, b, rawB, j);
      assert ys[k].publisher && ys[k].IsAccepted();
    }
    if j :| 0 <= j < |xs| && xs[j].publisher && xs[j].HasFailed() {
      var k := Counterpart(env, outside, a, rawA, b, rawB, j);
      assert ys[k].publisher && ys[k].HasFailed();
    }
  }

  lemma Counterpart(env: Env, outside: Outside, a: CatalogEntry, rawA: Json, b: CatalogEntry, rawB: Json, j: nat) returns (k: nat)
    requires Release(a) == Release(b) && SamePublisherManifests(a, rawA, b, rawB)
    requires j < |a.trustManifests| && ManifestTrusts(env, outside, a, rawA)[j].publisher
    ensures k < |b.trustManifests|
    ensures ManifestTrusts(env, outside, b, rawB)[k].(index := j) == ManifestTrusts(env, outside, a, rawA)[j]
  {
    hide SignatureOutcome, IsPublisher;
    var manifest, rawManifest := a.trustManifests[j].fields, RawItem(rawA, j);
    assert Lists(a, rawA, manifest, rawManifest);
    assert Lists(b, rawB, manifest, rawManifest);
    k :| 0 <= k < |b.trustManifests| && b.trustManifests[k].fields == manifest && RawItem(rawB, k) == rawManifest;
    SameReleaseOutcome(a, b, manifest);
    hide ReleaseOutcome;
  }

  lemma SameReleaseOutcome(a: CatalogEntry, b: CatalogEntry, manifest: ManifestFields)
    requires Release(a) == Release(b) && manifest.signature.Some?
    ensures ReleaseOutcome(a, manifest, manifest.signature.value) == ReleaseOutcome(b, manifest, manifest.signature.value)
    ensures a.identifier == b.identifier
  {
    SameReleaseFields(a, b);
    hide Release;
  }

  lemma SameReleaseFields(a: CatalogEntry, b: CatalogEntry)
    requires Release(a) == Release(b)
    ensures a.identifier == b.identifier && a.version == b.version && a.entryType == b.entryType
    ensures a.digest == b.digest && a.url == b.url && a.data == b.data
    ensures a.updatedAt == b.updatedAt && a.extensions == b.extensions && a.publisher == b.publisher
  {
    assert Release(a).data == a.data && Release(b).data == b.data;
    assert Release(a).updatedAt == a.updatedAt && Release(b).updatedAt == b.updatedAt;
    assert Release(a).extensions == a.extensions && Release(b).extensions == b.extensions;
    assert Release(a).publisher == a.publisher && Release(b).publisher == b.publisher;
    assert Release(a).identifier == a.identifier && Release(b).identifier == b.identifier;
    assert Release(a).version == a.version && Release(b).version == b.version;
    assert Release(a).entryType == a.entryType && Release(b).entryType == b.entryType;
    assert Release(a).digest == a.digest && Release(b).digest == b.digest;
    assert Release(a).url == a.url && Release(b).url == b.url;
  }

  /** Inserting, removing, repeating or reordering manifests that the publisher did not sign never changes
      the verdict about the publisher, although any accepted manifest has the artifact checked. */
  lemma NonInterference(env: Env, outside: Outside, i: nat, a: CatalogEntry, rawA: Json, b: CatalogEntry, rawB: Json)
    requires Release(a) == Release(b) && rawA.Get("data") == rawB.Get("data")
    requires SamePublisherManifests(a, rawA, b, rawB)
    ensures EntryTrustOf(env, outside, i, a, rawA).publisherEndorsed == EntryTrustOf(env, outside, i, b, rawB).publisherEndorsed
    ensures EntryTrustOf(env, outside, i, a, rawA).publisherFailed == EntryTrustOf(env, outside, i, b, rawB).publisherFailed
  {
    PublisherDecides(env, outside, i, a, rawA);
    PublisherDecides(env, outside, i, b, rawB);
    AcceptedListed(env, outside, a, rawA, b, rawB);
    AcceptedListed(env, outside, b, rawB, a, rawA) by { hide Lists; }
    SameArtifact(env, outside, a, rawA, b, rawB);
    hide EntryTrustOf, ManifestTrusts, ArtifactOutcome, PublisherAccepted, PublisherFailed;
  }

  lemma SameArtifact(env: Env, outside: Outside, a: CatalogEntry, rawA: Json, b: CatalogEntry, rawB: Json)
    requires Release(a) == Release(b) && rawA.Get("data") == rawB.Get("data")
    ensures ArtifactOutcome(env, outside, a, rawA) == ArtifactOutcome(env, outside, b, rawB)
  {
    SameReleaseFields(a, b);
    hide VerifyDigest, Release;
  }

  /** The manifest is valid for the entry and, if it is signed, the entry has a digest. */
  predicate IsHarmless(env: Env, entry: CatalogEntry, manifest: ManifestFields) {
    IsManifestOf(env, entry, manifest) && (manifest.signature.Some? ==> Text(entry.digest) != "")
  }

  lemma TrustingExact(env: Env, entry: CatalogEntry)
    ensures IsTrusting(env, entry) <==>
            && IsDigest(Text(entry.digest))
            && forall j :: 0 <= j < |entry.trustManifests| ==> IsHarmless(env, entry, entry.trustManifests[j].fields)
  {
    hide IsManifestOf, IsDigest;
  }

  /** Every manifest that someone other than the publisher of its entry signed, or nobody, is harmless. */
  ghost predicate OthersHarmless(env: Env, c: AiCatalog) {
    forall i, j :: 0 <= i < |c.entries| && 0 <= j < |c.entries[i].trustManifests| ==>
      IsPublishers(c.entries[i], c.entries[i].trustManifests[j].fields)
      || IsHarmless(env, c.entries[i], c.entries[i].trustManifests[j].fields)
  }

  ghost predicate AllTrusting(env: Env, c: AiCatalog) {
    forall i :: 0 <= i < |c.entries| ==> IsTrusting(env, c.entries[i])
  }

  /** The same catalog but for trust manifests. */
  ghost predicate SameReleases(c: AiCatalog, d: AiCatalog) {
    && c.(entries := []) == d.(entries := []) && |c.entries| == |d.entries|
    && forall i :: 0 <= i < |c.entries| ==> Release(c.entries[i]) == Release(d.entries[i])
  }

  /** The same catalog as served, but for manifests that the publishers of their entries did not sign. */
  ghost predicate SameForPublishers(c: AiCatalog, rawC: Json, d: AiCatalog, rawD: Json) {
    && SameReleases(c, d)
    && forall i :: 0 <= i < |c.entries| ==>
         && RawEntry(rawC, i).Get("data") == RawEntry(rawD, i).Get("data")
         && SamePublisherManifests(c.entries[i], RawEntry(rawC, i), d.entries[i], RawEntry(rawD, i))
  }

  lemma EntryDepends(env: Env, a: CatalogEntry, b: CatalogEntry, limit: nat)
    requires Release(a) == Release(b)
    ensures IsValidEntry(env, a, limit) && IsTrusting(env, b) ==> IsValidEntry(env, b, limit)
  {
    SameReleaseFields(a, b);
    InsideDepends(env, a, b, limit);
    hide Release, IsTrusting, IsValidInside, AreExtensions, AreBadPolicyUrls, IsPublisherRecord, IsTimestamp;
  }

  lemma InsideDepends(env: Env, a: CatalogEntry, b: CatalogEntry, limit: nat)
    requires a.entryType == b.entryType && a.data == b.data
    ensures IsValidInside(env, a, limit) <==> IsValidInside(env, b, limit)
  {
    hide IsValidCatalog;
  }

  lemma ConflictsDepend(c: AiCatalog, d: AiCatalog)
    requires SameReleases(c, d)
    ensures NoConflict(c.entries) ==> NoConflict(d.entries)
  {
    forall i | 0 <= i < |c.entries|
      ensures c.entries[i].identifier == d.entries[i].identifier && c.entries[i].version == d.entries[i].version
    {
      SameReleaseFields(c.entries[i], d.entries[i]);
    }
    hide Release, SameReleases;
    if NoConflict(c.entries) {
      forall i, j | 0 <= i < j < |d.entries| ensures !Conflict(d.entries[i], d.entries[j]) {
        assert !Conflict(c.entries[i], c.entries[j]);
      }
    }
  }

  /** Trust manifests enter into the validity of a catalog in no other way. */
  lemma ValidDepends(env: Env, c: AiCatalog, d: AiCatalog, limit: nat)
    requires SameReleases(c, d) && IsValidCatalog(env, c, limit)
    ensures IsValidCatalog(env, d, limit) <==> AllTrusting(env, d)
  {
    ConflictsDepend(c, d);
    if IsValidCatalog(env, d, limit) {
      forall i | 0 <= i < |d.entries| ensures IsTrusting(env, d.entries[i]) {
        ValidEntry(env, d, limit, i);
      }
    }
    if AllTrusting(env, d) {
      assert AreEntries(env, c.entries, limit);
      forall i | 0 <= i < |d.entries| ensures IsValidEntry(env, d.entries[i], limit) {
        EntryDepends(env, c.entries[i], d.entries[i], limit);
        assert IsValidEntry(env, c.entries[i], limit);
        hide IsValidEntry, IsTrusting, NoConflict, IsValidCatalog, AreEntries, Release;
      }
      assert AreEntries(env, d.entries, limit);
      hide AllTrusting, IsTrusting, AreEntries;
      RestDepends(env, c, d, limit);
    }
    hide IsValidCatalog, AreEntries, IsTrusting, SameReleases, NoConflict;
  }

  lemma RestDepends(env: Env, c: AiCatalog, d: AiCatalog, limit: nat)
    requires SameReleases(c, d) && IsValidCatalog(env, c, limit)
    requires NoConflict(d.entries) && AreEntries(env, d.entries, limit)
    ensures IsValidCatalog(env, d, limit)
  {
    assert c.(entries := []).specVersion == d.specVersion && c.(entries := []).host == d.host;
    assert c.(entries := []).signature == d.signature && c.(entries := []).extensions == d.extensions;
    hide NoConflict, AreEntries, IsSpecVersion, IsHost, IsSound, AreExtensions, Release;
  }

  /** Manifests of the publisher are as valid in one catalog as in the other. */
  lemma PublishersHarmless(env: Env, a: CatalogEntry, rawA: Json, b: CatalogEntry, rawB: Json, j: nat)
    requires Release(a) == Release(b) && SamePublisherManifests(a, rawA, b, rawB) && IsTrusting(env, a)
    requires j < |b.trustManifests| && IsPublishers(b, b.trustManifests[j].fields)
    ensures IsHarmless(env, b, b.trustManifests[j].fields)
  {
    var manifest, rawManifest := b.trustManifests[j].fields, RawItem(rawB, j);
    hide IsPublishers, IsTrusting;
    assert Lists(b, rawB, manifest, rawManifest);
    assert Lists(a, rawA, manifest, rawManifest);
    hide SamePublisherManifests;
    TrustingExact(env, a);
    var k :| 0 <= k < |a.trustManifests| && a.trustManifests[k].fields == manifest;
    assert IsHarmless(env, a, manifest);
    SameReleaseFields(a, b);
    hide Release, Lists, IsManifest;
  }

  lemma OthersExact(env: Env, c: AiCatalog, rawC: Json, d: AiCatalog, rawD: Json)
    requires SameForPublishers(c, rawC, d, rawD) && AllTrusting(env, c)
    ensures AllTrusting(env, d) <==> OthersHarmless(env, d)
  {
    hide IsTrusting, IsHarmless, SamePublisherManifests, Release, RawEntry, IsPublishers;
    forall i | 0 <= i < |d.entries|
      ensures IsTrusting(env, d.entries[i]) <==>
              forall j :: 0 <= j < |d.entries[i].trustManifests| ==>
                IsPublishers(d.entries[i], d.entries[i].trustManifests[j].fields)
                || IsHarmless(env, d.entries[i], d.entries[i].trustManifests[j].fields)
    {
      var a, b := c.entries[i], d.entries[i];
      TrustingExact(env, a);
      TrustingExact(env, b);
      SameReleaseFields(a, b);
      forall j | 0 <= j < |b.trustManifests| && IsPublishers(b, b.trustManifests[j].fields)
        ensures IsHarmless(env, b, b.trustManifests[j].fields)
      {
        PublishersHarmless(env, a, RawEntry(rawC, i), b, RawEntry(rawD, i), j);
      }
    }
    hide SameForPublishers;
  }

  lemma SameVerdicts(env: Env, outside: Outside, c: AiCatalog, rawC: Json, d: AiCatalog, rawD: Json)
    requires SameForPublishers(c, rawC, d, rawD)
    ensures IsTrusted(EntryTrusts(env, outside, c, rawC)) <==> IsTrusted(EntryTrusts(env, outside, d, rawD))
  {
    hide EntryTrustOf, SamePublisherManifests, Release;
    var xs, ys := EntryTrusts(env, outside, c, rawC), EntryTrusts(env, outside, d, rawD);
    forall i | 0 <= i < |xs|
      ensures xs[i].publisherEndorsed == ys[i].publisherEndorsed && xs[i].publisherFailed == ys[i].publisherFailed
    {
      NonInterference(env, outside, i, c.entries[i], RawEntry(rawC, i), d.entries[i], RawEntry(rawD, i));
    }
    hide EntryTrusts, RawEntry, SameForPublishers;
  }

  /** What other contributors can do to a Trusted catalog. Change the manifests that publishers did not sign in any
      way: it stays Trusted if and only if each of them is valid for its entry and none is signed where the entry has no
      digest; otherwise it becomes Minimal. */
  lemma {:induction false} OthersHoldBackExact(env: Env, outside: Outside, operators: seq<string>, maxDepth: nat,
                                               c: AiCatalog, rawC: Json, d: AiCatalog, rawD: Json)
    requires VerificationOf(env, outside, operators, maxDepth, c, rawC).level == Trusted
    requires SameForPublishers(c, rawC, d, rawD)
    ensures VerificationOf(env, outside, operators, maxDepth, d, rawD).level ==
            if OthersHarmless(env, d) then Trusted else Minimal
  {
    LevelOfVerification(env, outside, operators, maxDepth, c, rawC);
    LevelOfVerification(env, outside, operators, maxDepth, d, rawD);
    SameVerdicts(env, outside, c, rawC, d, rawD);
    forall i | 0 <= i < |c.entries| ensures IsTrusting(env, c.entries[i]) {
      ValidEntry(env, c, maxDepth, i);
    }
    assert c.(entries := []).host == d.(entries := []).host;
    hide *;
    assert SameReleases(c, d) && AllTrusting(env, c);
    ValidDepends(env, c, d, maxDepth);
    OthersExact(env, c, rawC, d, rawD);
  }

  /** In any catalog, one manifest that is not harmless, whoever signed it, makes the whole catalog Minimal. */
  lemma {:induction false} FaultyManifestHoldsBack(env: Env, outside: Outside, operators: seq<string>, maxDepth: nat, c: AiCatalog, raw: Json, i: nat, j: nat)
    requires i < |c.entries| && j < |c.entries[i].trustManifests|
    requires !IsHarmless(env, c.entries[i], c.entries[i].trustManifests[j].fields)
    ensures VerificationOf(env, outside, operators, maxDepth, c, raw).level == Minimal
  {
    LevelOfVerification(env, outside, operators, maxDepth, c, raw);
    TrustingExact(env, c.entries[i]);
    if IsValidCatalog(env, c, maxDepth) {
      ValidEntry(env, c, maxDepth, i);
    }
    hide IsHarmless, IsTrusting, VerificationOf, IsValidCatalog;
  }

  /** The catalog with one more manifest in the entry at `i`. */
  function Appended(c: AiCatalog, i: nat, manifest: TrustManifest): AiCatalog
    requires i < |c.entries|
  {
    c.(entries := c.entries[i := c.entries[i].(trustManifests := c.entries[i].trustManifests + [manifest])])
  }

  /** Both documents serve the same data and the same JSON for every manifest that `c` lists. */
  predicate ServesSame(c: AiCatalog, raw: Json, rawMore: Json) {
    forall i :: 0 <= i < |c.entries| ==>
      && RawEntry(raw, i).Get("data") == RawEntry(rawMore, i).Get("data")
      && forall j :: 0 <= j < |c.entries[i].trustManifests| ==>
           RawItem(RawEntry(raw, i), j) == RawItem(RawEntry(rawMore, i), j)
  }

  /** One more manifest that the publisher did not sign leaves a Trusted catalog Trusted if it is harmless, and makes
      it Minimal otherwise: an unsigned one without a contributor is enough. */
  lemma {:induction false} OneMoreManifest(env: Env, outside: Outside, operators: seq<string>, maxDepth: nat,
                                           c: AiCatalog, raw: Json, rawMore: Json, i: nat, manifest: TrustManifest)
    requires VerificationOf(env, outside, operators, maxDepth, c, raw).level == Trusted
    requires ServesSame(c, raw, rawMore) && i < |c.entries| && !IsPublishers(c.entries[i], manifest.fields)
    ensures VerificationOf(env, outside, operators, maxDepth, Appended(c, i, manifest), rawMore).level ==
            if IsHarmless(env, c.entries[i], manifest.fields) then Trusted else Minimal
    ensures manifest.fields.contributor == "" ==> !IsHarmless(env, c.entries[i], manifest.fields)
  {
    var d := Appended(c, i, manifest);
    AppendedSame(c, raw, rawMore, i, manifest);
    LevelOfVerification(env, outside, operators, maxDepth, c, raw);
    OthersHoldBackExact(env, outside, operators, maxDepth, c, raw, d, rawMore);
    hide VerificationOf, EntryTrusts, IsTrusted, SameForPublishers, ServesSame;
    forall k | 0 <= k < |c.entries| ensures IsTrusting(env, c.entries[k]) {
      ValidEntry(env, c, maxDepth, k);
    }
    hide IsValidCatalog;
    AppendedHarmless(env, c, i, manifest);
    hide OthersHarmless, IsManifestOf;
    assert IsManifestOf(env, c.entries[i], manifest.fields) ==> manifest.fields.contributor != "" by {
      NoContributor(env, c.entries[i], manifest.fields);
    }
  }

  lemma NoContributor(env: Env, entry: CatalogEntry, manifest: ManifestFields)
    ensures IsManifestOf(env, entry, manifest) ==> manifest.contributor != ""
  {
    hide IsSignedSoundly, IsSubject, IsTrustSchema, AreAttestations, AreProvenances, AreExtensions;
  }

  lemma AppendedHarmless(env: Env, c: AiCatalog, i: nat, manifest: TrustManifest)
    requires AllTrusting(env, c) && i < |c.entries| && !IsPublishers(c.entries[i], manifest.fields)
    ensures OthersHarmless(env, Appended(c, i, manifest)) <==> IsHarmless(env, c.entries[i], manifest.fields)
  {
    var d, n := Appended(c, i, manifest), |c.entries[i].trustManifests|;
    assert d.entries[i].trustManifests[n] == manifest && d.entries[i].identifier == c.entries[i].identifier;
    HarmlessDepends(env, c.entries[i], d.entries[i], manifest.fields);
    hide IsHarmless, IsTrusting;
    forall k, j | 0 <= k < |d.entries| && 0 <= j < |d.entries[k].trustManifests| && (k == i ==> j < n)
      ensures IsHarmless(env, d.entries[k], d.entries[k].trustManifests[j].fields)
    {
      TrustingExact(env, c.entries[k]);
      assert d.entries[k].trustManifests[j] == c.entries[k].trustManifests[j];
      HarmlessDepends(env, c.entries[k], d.entries[k], c.entries[k].trustManifests[j].fields);
    }
    hide IsPublisher;
  }

  lemma HarmlessDepends(env: Env, a: CatalogEntry, b: CatalogEntry, manifest: ManifestFields)
    requires Release(a) == Release(b)
    ensures IsHarmless(env, a, manifest) <==> IsHarmless(env, b, manifest)
  {
    SameReleaseFields(a, b);
    hide Release, IsManifest;
  }

  lemma AppendedSame(c: AiCatalog, raw: Json, rawMore: Json, i: nat, manifest: TrustManifest)
    requires ServesSame(c, raw, rawMore) && i < |c.entries| && !IsPublishers(c.entries[i], manifest.fields)
    ensures SameForPublishers(c, raw, Appended(c, i, manifest), rawMore)
  {
    var d := Appended(c, i, manifest);
    assert d.(entries := []) == c.(entries := []);
    forall k | 0 <= k < |c.entries|
      ensures Release(c.entries[k]) == Release(d.entries[k])
      ensures SamePublisherManifests(c.entries[k], RawEntry(raw, k), d.entries[k], RawEntry(rawMore, k))
    {
      MoreManifests(c.entries[k], RawEntry(raw, k), d.entries[k], RawEntry(rawMore, k));
    }
    hide Release, SamePublisherManifests, RawEntry;
  }

  /** Entries of the same release, the second of which may have one more manifest, not signed by the publisher. */
  lemma MoreManifests(a: CatalogEntry, rawA: Json, b: CatalogEntry, rawB: Json)
    requires a.identifier == b.identifier
    requires var n := |a.trustManifests|;
             && n <= |b.trustManifests| <= n + 1 && b.trustManifests[..n] == a.trustManifests
             && (|b.trustManifests| > n ==> !IsPublishers(a, b.trustManifests[n].fields))
    requires forall j :: 0 <= j < |a.trustManifests| ==>
               RawItem(rawA, j) == RawItem(rawB, j)
    ensures SamePublisherManifests(a, rawA, b, rawB)
  {
    hide IsPublishers;
    assert forall j :: 0 <= j < |a.trustManifests| ==> b.trustManifests[j] == b.trustManifests[..|a.trustManifests|][j];
    forall manifest, rawManifest ensures Lists(a, rawA, manifest, rawManifest) <==> Lists(b, rawB, manifest, rawManifest) {
      SamePublishers(a, b, manifest);
      hide Json.At, Json.Item;
    }
  }

  lemma SamePublishers(a: CatalogEntry, b: CatalogEntry, manifest: ManifestFields)
    requires a.identifier == b.identifier
    ensures IsPublishers(a, manifest) <==> IsPublishers(b, manifest)
  {
    hide IsPublisher;
  }
}
