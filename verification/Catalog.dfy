// The records of the ai-catalog crate.

module Catalog {
  import opened Basics
  import opened JsonValue

  const MEDIA_TYPE_CATALOG := "application/ai-catalog+json"

  datatype AiCatalog = AiCatalog(
    specVersion: string,
    host: Option<HostInfo>,
    entries: seq<CatalogEntry>,
    signature: Option<Signature>,
    additionalSignatures: Option<Json>,
    extensions: Option<Extras>,
    extraFields: Extras)

  datatype HostInfo = HostInfo(
    displayName: string,
    identifier: Option<string>,
    documentationUrl: Option<string>,
    logoUrl: Option<string>,
    extraFields: Extras)

  datatype CatalogEntry = CatalogEntry(
    identifier: string,
    displayName: Option<string>,
    entryType: string,
    url: Option<string>,
    data: Option<Json>,
    version: Option<string>,
    description: Option<string>,
    tags: seq<string>,
    publisher: Option<Publisher>,
    digest: Option<string>,
    trustManifests: seq<TrustManifest>,
    updatedAt: Option<string>,
    extensions: Option<Extras>,
    extraFields: Extras)
  {
    predicate IsNestedCatalog() { entryType == MEDIA_TYPE_CATALOG }
  }

  datatype Publisher = Publisher(
    identifier: string,
    displayName: string,
    identityType: Option<string>,
    extraFields: Extras)

  /** What a trust manifest says: everything that serialization and equality look at. */
  datatype ManifestFields = ManifestFields(
    contributor: string,
    subject: Option<Subject>,
    signature: Option<Signature>,
    additionalSignatures: Option<Json>,
    trustSchema: Option<TrustSchema>,
    attestations: seq<Attestation>,
    provenance: seq<ProvenanceLink>,
    extensions: Option<Extras>,
    extraFields: Extras)

  /** A trust manifest and the JSON it was decoded from, if it was decoded. */
  datatype TrustManifest = TrustManifest(fields: ManifestFields, decoded: Option<Json>)

  datatype Subject = Subject(
    identifier: string,
    version: Option<string>,
    subjectType: string,
    digest: string,
    extraFields: Extras)

  datatype Signature = Signature(
    signer: string,
    profile: string,
    issuedAt: string,
    expiresAt: Option<string>,
    jws: string,
    extraFields: Extras)

  datatype TrustSchema = TrustSchema(
    identifier: string,
    version: string,
    governanceUri: Option<string>,
    verificationMethods: seq<string>,
    extraFields: Extras)

  datatype Attestation = Attestation(
    attestationType: string,
    uri: string,
    digest: Option<string>,
    size: Option<nat>,
    description: Option<string>,
    extraFields: Extras)

  datatype ProvenanceLink = ProvenanceLink(
    relation: string,
    sourceId: string,
    sourceDigest: Option<string>,
    registryUri: Option<string>,
    statementUri: Option<string>,
    signatureRef: Option<string>,
    extraFields: Extras)

  // ---------------------------------------------------------------- equality

  function Bare(m: TrustManifest): TrustManifest {
    m.(decoded := None)
  }

  function BareAll(ms: seq<TrustManifest>): (r: seq<TrustManifest>)
    ensures |r| == |ms|
  {
    seq(|ms|, i requires 0 <= i < |ms| => Bare(ms[i]))
  }

  /** Equality of manifests ignores the JSON they were decoded from. */
  predicate SameManifests(a: seq<TrustManifest>, b: seq<TrustManifest>) {
    BareAll(a) == BareAll(b)
  }

  /** Everything an entry says besides its trust manifests. */
  function Release(e: CatalogEntry): CatalogEntry {
    e.(trustManifests := [])
  }

  predicate SameEntry(a: CatalogEntry, b: CatalogEntry) {
    Release(a) == Release(b) && SameManifests(a.trustManifests, b.trustManifests)
  }

  predicate SameCatalog(a: AiCatalog, b: AiCatalog) {
    && a.(entries := []) == b.(entries := [])
    && |a.entries| == |b.entries|
    && forall i :: 0 <= i < |a.entries| ==> SameEntry(a.entries[i], b.entries[i])
  }
}
