// What an error-free catalog is, said of the records themselves: the validator accepts exactly these.

module Validity {
  import opened Basics
  import opened JsonValue
  import opened Catalog
  import opened Trust
  import opened Identity
  import opened Validation
  import opened Uniqueness
  import opened Agreement
  import OciModel
  import OciUnpack

  predicate IsDigest(value: string) { value == "" || IsDigestText(value) }

  predicate AreExtensions(extensions: Option<Extras>) {
    extensions.Some? ==> forall key :: key in extensions.value ==> IsExtensionKey(key)
  }

  predicate IsSubject(subject: Subject) {
    subject.identifier != "" && subject.subjectType != "" && subject.digest != "" && IsDigest(subject.digest)
  }

  predicate IsTrustSchema(schema: TrustSchema) { schema.identifier != "" && schema.version != "" }

  predicate IsAttestation(attestation: Attestation) {
    attestation.attestationType != "" && attestation.uri != "" && IsDigest(Text(attestation.digest))
  }

  predicate IsProvenance(link: ProvenanceLink) {
    link.relation != "" && link.sourceId != "" && IsDigest(Text(link.sourceDigest))
  }

  predicate AreAttestations(attestations: seq<Attestation>) {
    forall i :: 0 <= i < |attestations| ==> IsAttestation(attestations[i])
  }

  predicate AreProvenances(links: seq<ProvenanceLink>) {
    forall i :: 0 <= i < |links| ==> IsProvenance(links[i])
  }

  /** A signed manifest has a subject, and its contributor signed it. */
  predicate IsSignedSoundly(env: Env, manifest: ManifestFields) {
    manifest.signature.Some? ==>
      && manifest.subject.Some? && IsSound(env, manifest.signature.value, OfManifest)
      && manifest.signature.value.signer == manifest.contributor
  }

  /** The manifest says something besides who contributed it and what it is about. */
  predicate SaysSomething(manifest: ManifestFields) {
    !(&& manifest.signature == None && manifest.trustSchema == None && manifest.attestations == [] && manifest.provenance == []
      && (manifest.extensions == None || manifest.extensions == Some(map[])))
  }

  predicate IsManifest(env: Env, manifest: ManifestFields) {
    && IsAbsoluteUri(manifest.contributor) && SaysSomething(manifest) && AreExtensions(manifest.extensions)
    && IsSignedSoundly(env, manifest)
    && (manifest.subject.Some? ==> IsSubject(manifest.subject.value))
    && (manifest.trustSchema.Some? ==> IsTrustSchema(manifest.trustSchema.value))
    && AreAttestations(manifest.attestations) && AreProvenances(manifest.provenance)
  }

  /** No member of the subject contradicts the entry; only versions are compared when one is missing. */
  predicate Agrees(entry: CatalogEntry, subject: Subject) {
    && (subject.identifier == "" || subject.identifier == entry.identifier)
    && (subject.subjectType == "" || entry.entryType == "" || subject.subjectType == entry.entryType)
    && (subject.digest == "" || Text(entry.digest) == "" || subject.digest == Text(entry.digest))
    && subject.version == entry.version
  }

  predicate IsManifestOf(env: Env, entry: CatalogEntry, manifest: ManifestFields) {
    IsManifest(env, manifest) && (manifest.subject.Some? ==> Agrees(entry, manifest.subject.value))
  }

  predicate NoneSigned(manifests: seq<TrustManifest>) {
    forall j :: 0 <= j < |manifests| ==> manifests[j].fields.signature == None
  }

  predicate IsTrusting(env: Env, entry: CatalogEntry) {
    && IsDigest(Text(entry.digest))
    && (forall j :: 0 <= j < |entry.trustManifests| ==> IsManifestOf(env, entry, entry.trustManifests[j].fields))
    && (entry.digest.None? || entry.digest == Some("") ==> NoneSigned(entry.trustManifests))
  }

  /** The data of an entry stands in it or behind its URL, not both. */
  predicate IsSourced(e: CatalogEntry) {
    if e.data.Some? then e.url.None? || e.url == Some("") else e.url.Some? && e.url != Some("")
  }

  /** The extension for policy URLs, if there is one, is an object whose two URLs are strings where they are given. */
  predicate HasPolicyUrls(extensions: Option<Extras>) {
    extensions.Some? && "https://ai-catalog.org/extensions/policy-urls" in extensions.value ==>
      match extensions.value["https://ai-catalog.org/extensions/policy-urls"]
      case Object(members) =>
        && ("privacyPolicyUrl" in members ==> members["privacyPolicyUrl"].String?)
        && ("termsOfServiceUrl" in members ==> members["termsOfServiceUrl"].String?)
      case _ => false
  }

  predicate IsPublisherRecord(publisher: Option<Publisher>) {
    publisher.Some? ==> publisher.value.identifier != "" && publisher.value.displayName != ""
  }

  /** An entry that is a catalog is within the limit, and its data, if any, decodes to a valid catalog. */
  predicate IsValidInside(env: Env, e: CatalogEntry, limit: nat)
    decreases limit, 0
  {
    e.IsNestedCatalog() ==>
      && limit > 0
      && (e.data.Some? ==> env.catalogOf(e.data.value).Some? && IsValidCatalog(env, env.catalogOf(e.data.value).value, limit - 1))
  }

  predicate IsValidEntry(env: Env, e: CatalogEntry, limit: nat)
    decreases limit, 1
  {
    && e.identifier != "" && e.entryType != "" && IsSourced(e)
    && IsTimestamp(env, Text(e.updatedAt))
    && AreExtensions(e.extensions) && HasPolicyUrls(e.extensions)
    && IsPublisherRecord(e.publisher)
    && IsTrusting(env, e)
    && IsValidInside(env, e, limit)
  }

  predicate AreEntries(env: Env, entries: seq<CatalogEntry>, limit: nat)
    decreases limit, 2
  {
    forall i :: 0 <= i < |entries| ==> IsValidEntry(env, entries[i], limit)
  }

  predicate IsHost(host: Option<HostInfo>) { host.Some? ==> host.value.displayName != "" }

  predicate IsValidCatalog(env: Env, c: AiCatalog, limit: nat)
    decreases limit, 3
  {
    && IsSpecVersion(c.specVersion)
    && IsHost(c.host)
    && (c.signature.Some? ==> IsSound(env, c.signature.value, OfCatalog))
    && AreExtensions(c.extensions)
    && NoConflict(c.entries)
    && AreEntries(env, c.entries, limit)
  }

  // ---------------------------------------------------------------- small reports

  lemma DigestSilent(value: string)
    ensures NoErrors(DigestReport(value)) <==> IsDigest(value)
  {
    SilentParts();
    ParseDigestExact(value);
    hide NoErrors, Fault, ParseDigest, IsDigestText;
  }

  lemma {:induction false} FaultsSilent(n: nat, code: Code)
    ensures NoErrors(Faults(n, code)) <==> n == 0
  {
    SilentParts();
    hide NoErrors, Report.And, Fault;
    if n > 0 {
      FaultsSilent(n - 1, code);
    }
  }

  lemma BadKeysExact(extensions: Option<Extras>)
    ensures |BadKeys(extensions)| == 0 <==> AreExtensions(extensions)
  {
    hide IsExtensionKey;
    if extensions.Some? {
      var bad := BadKeys(extensions);
      assert forall key :: key in bad <==> key in extensions.value && !IsExtensionKey(key);
      assert |bad| == 0 <==> forall key :: key !in bad;
    }
  }

  lemma ExtensionsSilent(extensions: Option<Extras>)
    ensures NoErrors(ExtensionKeysReport(extensions)) <==> AreExtensions(extensions)
  {
    BadKeysExact(extensions);
    FaultsSilent(|BadKeys(extensions)|, ExtensionKey);
    hide BadKeys, AreExtensions, Faults, NoErrors;
  }

  lemma SubjectSilent(subject: Subject)
    ensures NoErrors(SubjectReport(subject)) <==> IsSubject(subject)
  {
    SilentParts();
    DigestSilent(subject.digest);
    hide NoErrors, Report.And, At, When, Fault, DigestReport, IsDigest;
  }

  lemma TrustSchemaSilent(schema: TrustSchema)
    ensures NoErrors(TrustSchemaReport(schema)) <==> IsTrustSchema(schema)
  {
    SilentParts();
    hide NoErrors, Report.And, At, When, Fault;
  }

  lemma {:induction false} AttestationsSilent(attestations: seq<Attestation>)
    ensures NoErrors(AttestationsReport(attestations)) <==> AreAttestations(attestations)
  {
    SilentParts();
    hide NoErrors, Report.And, At, AttestationReport, IsAttestation, Item;
    if attestations != [] {
      var last := |attestations| - 1;
      AttestationsSilent(attestations[..last]);
      AttestationSilent(attestations[last]);
      assert attestations == attestations[..last] + [attestations[last]];
    }
  }

  lemma AttestationSilent(attestation: Attestation)
    ensures NoErrors(AttestationReport(attestation)) <==> IsAttestation(attestation)
  {
    SilentParts();
    DigestSilent(Text(attestation.digest));
    hide NoErrors, Report.And, At, When, Fault, DigestReport, IsDigest;
  }

  lemma {:induction false} ProvenancesSilent(links: seq<ProvenanceLink>)
    ensures NoErrors(ProvenancesReport(links)) <==> AreProvenances(links)
  {
    SilentParts();
    hide NoErrors, Report.And, At, ProvenanceReport, IsProvenance, Item;
    if links != [] {
      var last := |links| - 1;
      ProvenancesSilent(links[..last]);
      ProvenanceSilent(links[last]);
      assert links == links[..last] + [links[last]];
    }
  }

  lemma ProvenanceSilent(link: ProvenanceLink)
    ensures NoErrors(ProvenanceReport(link)) <==> IsProvenance(link)
  {
    SilentParts();
    DigestSilent(Text(link.sourceDigest));
    hide NoErrors, Report.And, At, When, Fault, DigestReport, IsDigest;
  }

  // ---------------------------------------------------------------- manifests

  lemma ContributorSilent(contributor: string)
    ensures NoErrors(ContributorReport(contributor)) <==> IsAbsoluteUri(contributor)
  {
    SilentParts();
    hide NoErrors, Fault;
  }

  lemma ManifestSignatureSilent(env: Env, manifest: ManifestFields)
    ensures NoErrors(ManifestSignatureReport(env, manifest)) <==> IsSignedSoundly(env, manifest)
  {
    SilentParts();
    if manifest.signature.Some? {
      SignatureSilent(env, manifest.signature.value, OfManifest);
    }
    hide NoErrors, Report.And, At, When, Fault, SignatureReport, IsTimestamp, IsWindow, IsProtected, IsAbsoluteUri;
  }

  lemma ManifestSilent(env: Env, manifest: ManifestFields)
    ensures NoErrors(ManifestReport(env, manifest)) <==> IsManifest(env, manifest)
  {
    SilentParts();
    ExtensionsSilent(manifest.extensions);
    ContributorSilent(manifest.contributor);
    ManifestSignatureSilent(env, manifest);
    if manifest.subject.Some? {
      SubjectSilent(manifest.subject.value);
    }
    if manifest.trustSchema.Some? {
      TrustSchemaSilent(manifest.trustSchema.value);
    }
    AttestationsSilent(manifest.attestations);
    ProvenancesSilent(manifest.provenance);
    hide *;
    ManifestParts(env, manifest);
  }

  /** The parts of a manifest report, each either silent or not. */
  lemma ManifestParts(env: Env, manifest: ManifestFields)
    requires NoErrors(ExtensionKeysReport(manifest.extensions)) <==> AreExtensions(manifest.extensions)
    requires NoErrors(ContributorReport(manifest.contributor)) <==> IsAbsoluteUri(manifest.contributor)
    requires NoErrors(ManifestSignatureReport(env, manifest)) <==> IsSignedSoundly(env, manifest)
    requires manifest.subject.Some? ==> (NoErrors(SubjectReport(manifest.subject.value)) <==> IsSubject(manifest.subject.value))
    requires manifest.trustSchema.Some? ==> (NoErrors(TrustSchemaReport(manifest.trustSchema.value)) <==> IsTrustSchema(manifest.trustSchema.value))
    requires NoErrors(AttestationsReport(manifest.attestations)) <==> AreAttestations(manifest.attestations)
    requires NoErrors(ProvenancesReport(manifest.provenance)) <==> AreProvenances(manifest.provenance)
    ensures NoErrors(ManifestReport(env, manifest)) <==> IsManifest(env, manifest)
  {
    SilentParts();
    hide NoErrors, Report.And, At, When, Fault, ExtensionKeysReport, ContributorReport, ManifestSignatureReport, SubjectReport,
         TrustSchemaReport, AttestationsReport, ProvenancesReport, AreExtensions, IsAbsoluteUri, IsSignedSoundly, IsSubject,
         IsTrustSchema, AreAttestations, AreProvenances;
  }

  lemma MismatchesExact(entry: CatalogEntry, subject: Subject)
    ensures Mismatches(entry, subject) == [] <==> Agrees(entry, subject)
  {
  }

  lemma MismatchSilent(members: seq<string>)
    ensures NoErrors(MismatchReport(members)) <==> members == []
  {
    SilentParts();
    hide NoErrors, Report.And, At, Fault;
  }

  lemma BindingSilent(entry: CatalogEntry, manifest: ManifestFields)
    ensures NoErrors(BindingReport(entry, manifest)) <==> (manifest.subject.Some? ==> Agrees(entry, manifest.subject.value))
  {
    if manifest.subject.Some? {
      MismatchesExact(entry, manifest.subject.value);
      MismatchSilent(Mismatches(entry, manifest.subject.value));
    }
    hide Mismatches, MismatchReport, Agrees;
  }

  lemma {:induction false} KeySourceNoErrors(header: Header, names: seq<string>)
    ensures NoErrors(KeySourceReport(header, names))
  {
    SilentParts();
    hide NoErrors, Report.And, At, When, Concern;
    if names != [] {
      KeySourceNoErrors(header, names[..|names| - 1]);
    }
  }

  /** The profile only ever warns. */
  lemma ProfileOnlyWarns(env: Env, manifest: ManifestFields)
    ensures NoErrors(ProfileReport(env, manifest))
  {
    SilentParts();
    if manifest.signature.Some? && SelectsProfile(env, manifest.signature.value) {
      KeySourceNoErrors(ParseHeader(env.crypto, manifest.signature.value.jws).value, KEY_SOURCES);
    }
    hide NoErrors, Report.And, At, When, Concern, KeySourceReport, SelectsProfile, IsRootDidWeb, IsForbidden, IsKeyOf, IsNotYetValid, IsExpired;
  }

  lemma EntryManifestSilent(env: Env, entry: CatalogEntry, manifest: ManifestFields)
    ensures NoErrors(EntryManifestReport(env, entry, manifest)) <==> IsManifestOf(env, entry, manifest)
  {
    SilentParts();
    ManifestSilent(env, manifest);
    BindingSilent(entry, manifest);
    ProfileOnlyWarns(env, manifest);
    hide NoErrors, Report.And, ManifestReport, BindingReport, ProfileReport, IsManifest, Agrees;
  }

  lemma {:induction false} ManifestsSilent(env: Env, entry: CatalogEntry, manifests: seq<TrustManifest>)
    ensures NoErrors(ManifestsReport(env, entry, manifests)) <==>
            forall j :: 0 <= j < |manifests| ==> IsManifestOf(env, entry, manifests[j].fields)
  {
    SilentParts();
    hide NoErrors, Report.And, At, EntryManifestReport, IsManifestOf, Item;
    if manifests != [] {
      var last := |manifests| - 1;
      ManifestsSilent(env, entry, manifests[..last]);
      EntryManifestSilent(env, entry, manifests[last].fields);
      assert manifests == manifests[..last] + [manifests[last]];
    }
  }

  lemma TrustSilent(env: Env, entry: CatalogEntry)
    ensures NoErrors(EntryTrustReport(env, entry)) <==> IsTrusting(env, entry)
  {
    SilentParts();
    DigestSilent(Text(entry.digest));
    ManifestsSilent(env, entry, entry.trustManifests);
    hide NoErrors, Report.And, At, When, Fault, DigestReport, IsDigest, ManifestsReport, IsManifestOf;
  }

  // ---------------------------------------------------------------- entries and catalogs

  lemma PublisherSilent(publisher: Option<Publisher>)
    ensures NoErrors(PublisherReport(publisher)) <==> IsPublisherRecord(publisher)
  {
    SilentParts();
    hide NoErrors, Report.And, At, When, Fault;
  }

  lemma TimestampSilent(env: Env, value: string)
    ensures NoErrors(TimestampReport(env, value)) <==> IsTimestamp(env, value)
  {
    SilentParts();
    hide NoErrors, Fault;
  }

  lemma PolicyUrlsExact(extensions: Option<Extras>)
    ensures AreBadPolicyUrls(extensions) <==> !HasPolicyUrls(extensions)
  {
  }

  lemma SourcedExact(e: CatalogEntry)
    ensures HasOneSource(e) <==> IsSourced(e)
  {
  }

  lemma {:induction false} EntrySilent(env: Env, e: CatalogEntry, limit: nat)
    requires NoErrors(NestedReport(env, e, limit)) <==> IsValidInside(env, e, limit)
    ensures NoErrors(EntryReport(env, e, limit)) <==> IsValidEntry(env, e, limit)
  {
    SilentParts();
    TimestampSilent(env, Text(e.updatedAt));
    ExtensionsSilent(e.extensions);
    PublisherSilent(e.publisher);
    TrustSilent(env, e);
    PolicyUrlsExact(e.extensions);
    SourcedExact(e);
    hide NoErrors, Report.And, At, When, Fault, Concern, TimestampReport, IsTimestamp, ExtensionKeysReport, AreExtensions, AreBadPolicyUrls, HasOneSource, IsSourced,
         PublisherReport, IsPublisherRecord, EntryTrustReport, IsTrusting, NestedReport, IsValidInside, HasPolicyUrls;
  }

  lemma {:induction false} EntriesSilent(env: Env, entries: seq<CatalogEntry>, limit: nat)
    requires forall i :: 0 <= i < |entries| ==> (NoErrors(EntryReport(env, entries[i], limit)) <==> IsValidEntry(env, entries[i], limit))
    ensures NoErrors(EntriesReport(env, entries, limit)) <==> AreEntries(env, entries, limit)
  {
    SilentParts();
    hide NoErrors, Report.And, At, EntryReport, IsValidEntry, Item;
    if entries != [] {
      var last := |entries| - 1;
      EntriesSilent(env, entries[..last], limit);
      assert entries == entries[..last] + [entries[last]];
    }
  }

  /** The validator reports no error exactly for a valid catalog, at every depth up to the limit. */
  lemma {:induction false} ValidExact(env: Env, c: AiCatalog, limit: nat)
    ensures NoErrors(CatalogReport(env, c, limit)) <==> IsValidCatalog(env, c, limit)
    decreases limit
  {
    hide EntryReport, IsValidEntry, NestedReport, IsValidInside, NoErrors, CatalogReport, IsValidCatalog;
    forall i | 0 <= i < |c.entries|
      ensures NoErrors(EntryReport(env, c.entries[i], limit)) <==> IsValidEntry(env, c.entries[i], limit)
    {
      if limit > 0 && NestedIn(env, c.entries[i]).Some? {
        ValidExact(env, NestedIn(env, c.entries[i]).value, limit - 1);
      }
      InsideSilent(env, c.entries[i], limit);
      EntrySilent(env, c.entries[i], limit);
    }
    EntriesSilent(env, c.entries, limit);
    UniquenessExact(c.entries);
    CatalogSilent(env, c, limit);
  }

  lemma InsideSilent(env: Env, e: CatalogEntry, limit: nat)
    requires limit > 0 && NestedIn(env, e).Some? ==>
               (NoErrors(CatalogReport(env, NestedIn(env, e).value, limit - 1)) <==>
                IsValidCatalog(env, NestedIn(env, e).value, limit - 1))
    ensures NoErrors(NestedReport(env, e, limit)) <==> IsValidInside(env, e, limit)
  {
    SilentParts();
    hide NoErrors, At, Fault, CatalogReport, IsValidCatalog;
  }

  lemma HostSilent(host: Option<HostInfo>)
    ensures NoErrors(HostReport(host)) <==> IsHost(host)
  {
    SilentParts();
    hide NoErrors, At, Fault;
  }

  lemma CatalogSilent(env: Env, c: AiCatalog, limit: nat)
    requires NoErrors(EntriesReport(env, c.entries, limit)) <==> AreEntries(env, c.entries, limit)
    requires UniquenessReport(c.entries).errors == [] <==> NoConflict(c.entries)
    ensures NoErrors(CatalogReport(env, c, limit)) <==> IsValidCatalog(env, c, limit)
  {
    assert NoErrors(UniquenessReport(c.entries)) <==> NoConflict(c.entries);
    SilentParts();
    HostSilent(c.host);
    ExtensionsSilent(c.extensions);
    if c.signature.Some? {
      SignatureSilent(env, c.signature.value, OfCatalog);
    }
    hide *;
    CatalogParts(env, c, limit);
  }

  /** The parts of a catalog report, each either silent or not. */
  lemma CatalogParts(env: Env, c: AiCatalog, limit: nat)
    requires NoErrors(HostReport(c.host)) <==> IsHost(c.host)
    requires c.signature.Some? ==> (NoErrors(SignatureReport(env, c.signature.value, OfCatalog)) <==> IsSound(env, c.signature.value, OfCatalog))
    requires NoErrors(ExtensionKeysReport(c.extensions)) <==> AreExtensions(c.extensions)
    requires NoErrors(UniquenessReport(c.entries)) <==> NoConflict(c.entries)
    requires NoErrors(EntriesReport(env, c.entries, limit)) <==> AreEntries(env, c.entries, limit)
    ensures NoErrors(CatalogReport(env, c, limit)) <==> IsValidCatalog(env, c, limit)
  {
    SilentParts();
    hide NoErrors, Report.And, At, When, Fault, IsSpecVersion, HostReport, IsHost, SignatureReport, IsSound, ExtensionKeysReport, AreExtensions,
         UniquenessReport, NoConflict, EntriesReport, AreEntries;
  }

  /** A catalog is Minimal unless it is valid and has a host. */
  lemma LevelExact(env: Env, c: AiCatalog, maxDepth: nat)
    ensures ResultOf(env, c, maxDepth).isValid <==> IsValidCatalog(env, c, maxDepth)
    ensures ResultOf(env, c, maxDepth).level == if IsValidCatalog(env, c, maxDepth) && c.host.Some? then Discoverable else Minimal
  {
    SilentParts();
    ValidExact(env, c, maxDepth);
    hide CatalogReport, IsValidCatalog;
  }

  // ---------------------------------------------------------------- valid catalogs and packing

  /** An entry with data whose `url` is there but empty: the validator takes it as absent, packing does not. */
  predicate HasBlankUrl(e: CatalogEntry) { e.url == Some("") && e.data.Some? }

  /** A valid catalog packs if and only if no entry with data has an empty `url`, and the signing payload of
      every trust manifest has a canonical form. */
  lemma {:induction false} ValidPacks(env: Env, w: OciModel.World, c: AiCatalog, limit: nat)
    requires IsValidCatalog(env, c, limit)
    ensures OciModel.Packed(w, c).Ok? <==>
            forall i :: 0 <= i < |c.entries| ==> !HasBlankUrl(c.entries[i]) && OciUnpack.CanBeSigned(w, c.entries[i])
  {
    assert AreEntries(env, c.entries, limit);
    forall i | 0 <= i < |c.entries| ensures OciUnpack.HasEither(c.entries[i]) <==> !HasBlankUrl(c.entries[i]) {
      assert IsValidEntry(env, c.entries[i], limit);
      hide IsTrusting, IsValidInside, AreExtensions, IsPublisherRecord, IsTimestamp, HasPolicyUrls;
    }
    hide *;
    OciUnpack.PackExact(w, c);
  }
}
