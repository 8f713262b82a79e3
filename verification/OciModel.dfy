// The data of the ai-catalog-oci crate and what packing a catalog produces.

module OciModel {
  import opened Basics
  import opened JsonValue
  import opened Catalog
  import opened Trust

  const INDEX_MEDIA_TYPE := "application/vnd.oci.image.index.v1+json"
  const MANIFEST_MEDIA_TYPE := "application/vnd.oci.image.manifest.v1+json"
  const ENTRY_CONFIG_MEDIA_TYPE := "application/vnd.ai-catalog.entry.config.v1+json"
  const TRUST_ARTIFACT_TYPE := "application/vnd.ai-catalog.trust-manifest.v1+json"
  const TRUST_CONFIG_MEDIA_TYPE := "application/vnd.ai-catalog.trust-manifest.config.v1+json"
  const COSIGN_SIGNATURE_ARTIFACT_TYPE := "application/vnd.ai-catalog.cosign.signature.v1"
  const COSIGN_SIGNATURE_CONFIG_MEDIA_TYPE := "application/vnd.ai-catalog.cosign.signature.config.v1+json"
  const COSIGN_SIGNATURE_LAYER_MEDIA_TYPE := "application/vnd.dev.sigstore.cosign.signature"
  const COSIGN_BUNDLE_LAYER_MEDIA_TYPE := "application/vnd.dev.sigstore.bundle.v0.3+json"
  const COSIGN_KEY_ARTIFACT_TYPE := "application/vnd.ai-catalog.cosign.public-key.v1"
  const COSIGN_KEY_CONFIG_MEDIA_TYPE := "application/vnd.ai-catalog.cosign.public-key.config.v1+json"
  const COSIGN_KEY_LAYER_MEDIA_TYPE := "application/vnd.dev.sigstore.cosign.public-key"

  type Annotations = map<string, string>

  datatype Descriptor = Descriptor(
    mediaType: string,
    digest: string,
    size: nat,
    artifactType: Option<string>,
    annotations: Annotations)

  datatype ImageIndex = ImageIndex(
    schemaVersion: nat,
    mediaType: string,
    artifactType: Option<string>,
    manifests: seq<Descriptor>,
    annotations: Annotations)

  datatype ImageManifest = ImageManifest(
    schemaVersion: nat,
    mediaType: string,
    artifactType: Option<string>,
    config: Descriptor,
    layers: seq<Descriptor>,
    subject: Option<Descriptor>,
    annotations: Annotations)

  datatype ArtifactSet = ArtifactSet(
    index: ImageIndex,
    manifests: map<string, ImageManifest>,
    referrers: map<string, seq<ImageManifest>>,
    blobs: map<string, Bytes>)

  datatype EntryConfig = EntryConfig(
    identifier: string,
    displayName: Option<string>,
    description: Option<string>,
    tags: seq<string>,
    version: Option<string>,
    digest: Option<string>,
    updatedAt: Option<string>,
    extensions: Option<Extras>,
    publisher: Option<Publisher>,
    url: Option<string>,
    extraFields: Extras)

  datatype CosignSignatureConfig = CosignSignatureConfig(identity: string, payloadDigest: string, payloadMediaType: string)

  datatype CosignPublicKeyConfig = CosignPublicKeyConfig(identity: string, payloadDigest: string, format: string)

  datatype Error =
    | Io
    | Json
    | InvalidEntryContent(identifier: string)
    | MissingManifest(digest: string)
    | MissingBlob(digest: string)
    | UnsupportedIndexArtifactType
    | MissingSpecVersion
    | MissingEntryContent(identifier: string)
    | InvalidLayoutTag
    | NonEmptyLayoutDirectory
    | InvalidDigest(digest: string)
    | UnsupportedLayoutVersion(version: string)
    | MissingLayoutReference(reference: string)
    | AmbiguousLayoutReference
    | MissingSubjectDescriptor(digest: string)
    | Canonicalization

  /** A serializer and its deserializer. */
  datatype Codec<!T, !E> = Codec(write: T -> E, read: E -> Option<T>) {
    /** `x` survives its own serialization. */
    ghost predicate Keeps(x: T) { read(write(x)) == Some(x) }

    ghost predicate KeepsAny(x: Option<T>) { x.Some? ==> Keeps(x.value) }
  }

  /** The hash function and the serde text codecs that packing uses. */
  datatype World = World(
    crypto: Crypto,
    trust: ManifestCodec,
    trustBytes: ManifestFields -> Bytes,
    data: Codec<Json, Bytes>,
    config: Codec<EntryConfig, Bytes>,
    manifest: Codec<ImageManifest, Bytes>,
    index: Codec<ImageIndex, Bytes>,
    prettyIndex: ImageIndex -> Bytes,
    metadata: Codec<string, Bytes>,
    cosignSignature: CosignSignatureConfig -> Bytes,
    cosignKey: CosignPublicKeyConfig -> Bytes,
    hostText: Codec<HostInfo, string>,
    extrasText: Codec<Extras, string>,
    signatureText: Codec<Signature, string>,
    valueText: Codec<Json, string>)

  /** What holds of serde for the OCI records: they survive serialization, pretty or not,
      and an index is never written like a manifest. */
  ghost predicate Lawful(w: World) {
    && (forall b :: |w.crypto.sha256(b)| == 32)
    && (forall m :: w.manifest.Keeps(m))
    && (forall i :: w.index.Keeps(i) && w.index.read(w.prettyIndex(i)) == Some(i))
    && (forall s :: w.metadata.Keeps(s))
    && (forall i, m :: w.index.write(i) != w.manifest.write(m))
  }

  function Digest(w: World, bytes: Bytes): string {
    "sha256:" + Hex(w.crypto.sha256(bytes))
  }

  /** Different byte strings among `bs` have different digests. */
  ghost predicate CollisionFree(w: World, bs: seq<Bytes>) {
    forall a, b :: a in bs && b in bs && Digest(w, a) == Digest(w, b) ==> a == b
  }

  function DescriptorForBytes(w: World, bytes: Bytes, mediaType: string, artifactType: Option<string>, annotations: Annotations): Descriptor {
    Descriptor(mediaType, Digest(w, bytes), |bytes|, artifactType, annotations)
  }

  function PlainDescriptor(w: World, bytes: Bytes, mediaType: string): Descriptor {
    DescriptorForBytes(w, bytes, mediaType, None, map[])
  }

  // ---------------------------------------------------------------- one entry

  function ConfigOf(e: CatalogEntry): EntryConfig {
    EntryConfig(e.identifier, e.displayName, e.description, e.tags, e.version, e.digest, e.updatedAt,
                e.extensions, e.publisher, e.url, e.extraFields)
  }

  function ConfigBytes(w: World, e: CatalogEntry): Bytes { w.config.write(ConfigOf(e)) }

  function DataBytes(w: World, e: CatalogEntry): seq<Bytes> {
    if e.data.Some? then [w.data.write(e.data.value)] else []
  }

  function DataLayers(w: World, e: CatalogEntry): seq<Descriptor> {
    if e.data.Some? then [PlainDescriptor(w, w.data.write(e.data.value), e.entryType)] else []
  }

  function EntryAnnotations(e: CatalogEntry): Annotations {
    var identified := map["ai-catalog.identifier" := e.identifier];
    var named := if e.displayName.Some? then identified["ai-catalog.displayName" := e.displayName.value] else identified;
    if e.version.Some? then named["ai-catalog.version" := e.version.value] else named
  }

  function ManifestOf(w: World, e: CatalogEntry): ImageManifest {
    ImageManifest(2, MANIFEST_MEDIA_TYPE, Some(e.entryType),
                  PlainDescriptor(w, ConfigBytes(w, e), ENTRY_CONFIG_MEDIA_TYPE),
                  DataLayers(w, e), None, EntryAnnotations(e))
  }

  function ManifestBytes(w: World, e: CatalogEntry): Bytes { w.manifest.write(ManifestOf(w, e)) }

  function DescriptorOf(w: World, e: CatalogEntry): Descriptor {
    DescriptorForBytes(w, ManifestBytes(w, e), MANIFEST_MEDIA_TYPE, Some(e.entryType), EntryAnnotations(e))
  }

  function Key(w: World, e: CatalogEntry): string { Digest(w, ManifestBytes(w, e)) }

  // ---------------------------------------------------------------- trust manifests

  function PayloadOf(w: World, m: TrustManifest): Option<Bytes> { SignedPayload(w.crypto, w.trust, m) }

  function PayloadBytes(w: World, m: TrustManifest): Bytes {
    match PayloadOf(w, m)
    case Some(bytes) => bytes
    case None => []
  }

  function ReferrerOf(w: World, e: CatalogEntry, m: TrustManifest): ImageManifest {
    ImageManifest(2, MANIFEST_MEDIA_TYPE, Some(TRUST_ARTIFACT_TYPE),
                  PlainDescriptor(w, w.trustBytes(m.fields), TRUST_CONFIG_MEDIA_TYPE),
                  [PlainDescriptor(w, PayloadBytes(w, m), TRUST_ARTIFACT_TYPE)],
                  Some(DescriptorOf(w, e)),
                  map["ai-catalog.contributor" := m.fields.contributor])
  }

  function ReferrersOf(w: World, e: CatalogEntry, ms: seq<TrustManifest>): (rs: seq<ImageManifest>)
    ensures |rs| == |ms|
    ensures forall i :: 0 <= i < |ms| ==> rs[i] == ReferrerOf(w, e, ms[i])
  {
    if ms == [] then [] else [ReferrerOf(w, e, ms[0])] + ReferrersOf(w, e, ms[1..])
  }

  function TrustBytes(w: World, ms: seq<TrustManifest>): seq<Bytes> {
    if ms == [] then [] else [w.trustBytes(ms[0].fields), PayloadBytes(w, ms[0])] + TrustBytes(w, ms[1..])
  }

  function ReadTrust(w: World, bytes: Bytes): Option<TrustManifest> {
    match w.data.read(bytes)
    case Some(json) => Decode(w.trust, json)
    case None => None
  }

  // ---------------------------------------------------------------- a sequence of entries

  /** The blobs an entry stores, in order. */
  function EntryBytes(w: World, e: CatalogEntry): seq<Bytes> {
    [ConfigBytes(w, e)] + DataBytes(w, e) + TrustBytes(w, e.trustManifests)
  }

  function AllBytes(w: World, es: seq<CatalogEntry>): seq<Bytes> {
    if es == [] then [] else EntryBytes(w, es[0]) + AllBytes(w, es[1..])
  }

  function AllManifestBytes(w: World, es: seq<CatalogEntry>): seq<Bytes> {
    if es == [] then [] else [ManifestBytes(w, es[0])] + AllManifestBytes(w, es[1..])
  }

  /** Every byte string that packing hashes. */
  function PackedBytes(w: World, es: seq<CatalogEntry>): seq<Bytes> {
    AllBytes(w, es) + AllManifestBytes(w, es)
  }

  function Descriptors(w: World, es: seq<CatalogEntry>): (ds: seq<Descriptor>)
    ensures |ds| == |es|
    ensures forall i :: 0 <= i < |es| ==> ds[i] == DescriptorOf(w, es[i])
  {
    if es == [] then [] else [DescriptorOf(w, es[0])] + Descriptors(w, es[1..])
  }

  function StoreAll(w: World, blobs: map<string, Bytes>, bs: seq<Bytes>): map<string, Bytes>
    decreases bs
  {
    if bs == [] then blobs else StoreAll(w, blobs[Digest(w, bs[0]) := bs[0]], bs[1..])
  }

  function AddManifests(w: World, manifests: map<string, ImageManifest>, es: seq<CatalogEntry>): map<string, ImageManifest>
    decreases es
  {
    if es == [] then manifests else AddManifests(w, manifests[Key(w, es[0]) := ManifestOf(w, es[0])], es[1..])
  }

  type Referrers = map<string, seq<ImageManifest>>

  function Under(referrers: Referrers, key: string): seq<ImageManifest> {
    if key in referrers then referrers[key] else []
  }

  function Refer(referrers: Referrers, key: string, r: ImageManifest): Referrers {
    referrers[key := Under(referrers, key) + [r]]
  }

  function ReferAll(referrers: Referrers, key: string, rs: seq<ImageManifest>): Referrers
    decreases rs
  {
    if rs == [] then referrers else ReferAll(Refer(referrers, key, rs[0]), key, rs[1..])
  }

  function AddReferrers(w: World, referrers: Referrers, es: seq<CatalogEntry>): Referrers
    decreases es
  {
    if es == [] then referrers
    else AddReferrers(w, ReferAll(referrers, Key(w, es[0]), ReferrersOf(w, es[0], es[0].trustManifests)), es[1..])
  }

  predicate HasOneContent(e: CatalogEntry) { e.url.Some? != e.data.Some? }

  predicate Canonicalizes(w: World, ms: seq<TrustManifest>) {
    forall i :: 0 <= i < |ms| ==> PayloadOf(w, ms[i]).Some?
  }

  function EntryError(w: World, e: CatalogEntry): Option<Error> {
    if !HasOneContent(e) then Some(InvalidEntryContent(e.identifier))
    else if !Canonicalizes(w, e.trustManifests) then Some(Canonicalization)
    else None
  }

  /** The error the first bad entry causes. */
  function PackError(w: World, es: seq<CatalogEntry>): Option<Error> {
    if es == [] then None
    else if EntryError(w, es[0]).Some? then EntryError(w, es[0])
    else PackError(w, es[1..])
  }

  // ---------------------------------------------------------------- the catalog itself

  const SPEC_VERSION := "ai-catalog.specVersion"
  const HOST := "ai-catalog.host"
  const EXTENSIONS := "ai-catalog.extensions"
  const SIGNATURE := "ai-catalog.signature"
  const ADDITIONAL_SIGNATURES := "ai-catalog.additionalSignatures"
  const EXTRA_FIELDS := "ai-catalog.extraFields"

  function Annotate<T>(annotations: Annotations, key: string, codec: Codec<T, string>, value: Option<T>): Annotations {
    match value
    case Some(x) => annotations[key := codec.write(x)]
    case None => annotations
  }

  function CatalogAnnotations(w: World, c: AiCatalog): Annotations {
    var a0 := map[SPEC_VERSION := c.specVersion];
    var a1 := Annotate(a0, HOST, w.hostText, c.host);
    var a2 := Annotate(a1, EXTENSIONS, w.extrasText, c.extensions);
    var a3 := Annotate(a2, SIGNATURE, w.signatureText, c.signature);
    var a4 := Annotate(a3, ADDITIONAL_SIGNATURES, w.valueText, c.additionalSignatures);
    Annotate(a4, EXTRA_FIELDS, w.extrasText, if c.extraFields == map[] then None else Some(c.extraFields))
  }

  function IndexOf(w: World, c: AiCatalog): ImageIndex {
    ImageIndex(2, INDEX_MEDIA_TYPE, Some(MEDIA_TYPE_CATALOG), Descriptors(w, c.entries), CatalogAnnotations(w, c))
  }

  /** What packing a catalog yields. */
  function Packed(w: World, c: AiCatalog): Result<ArtifactSet, Error> {
    match PackError(w, c.entries)
    case Some(e) => Err(e)
    case None =>
      Ok(ArtifactSet(IndexOf(w, c), AddManifests(w, map[], c.entries), AddReferrers(w, map[], c.entries),
                     StoreAll(w, map[], AllBytes(w, c.entries))))
  }

  // ---------------------------------------------------------------- unpacking

  /** An annotation that holds serialized JSON, if it is there. */
  function Annotation<T>(annotations: Annotations, key: string, codec: Codec<T, string>): Result<Option<T>, Error> {
    if key !in annotations then Ok(None)
    else
      match codec.read(annotations[key])
      case Some(x) => Ok(Some(x))
      case None => Err(Error.Json)
  }

  function Blob(art: ArtifactSet, digest: string): Result<Bytes, Error> {
    if digest in art.blobs then Ok(art.blobs[digest]) else Err(MissingBlob(digest))
  }

  function Parsed<T>(value: Option<T>): Result<T, Error> {
    match value
    case Some(x) => Ok(x)
    case None => Err(Error.Json)
  }

  /** The trust manifests among some referrers, in order. */
  function TrustOf(w: World, art: ArtifactSet, rs: seq<ImageManifest>): Result<seq<TrustManifest>, Error> {
    if rs == [] then Ok([])
    else if rs[0].artifactType != Some(TRUST_ARTIFACT_TYPE) then TrustOf(w, art, rs[1..])
    else
      var bytes :- Blob(art, rs[0].config.digest);
      var m :- Parsed(ReadTrust(w, bytes));
      var ms :- TrustOf(w, art, rs[1..]);
      Ok([m] + ms)
  }

  datatype Content = Content(url: Option<string>, data: Option<Json>)

  function ContentOf(w: World, art: ArtifactSet, manifest: ImageManifest, config: EntryConfig): Result<Content, Error> {
    if config.url.Some? then Ok(Content(config.url, None))
    else if manifest.layers != [] then
      var bytes :- Blob(art, manifest.layers[0].digest);
      var data :- Parsed(w.data.read(bytes));
      Ok(Content(None, Some(data)))
    else Err(MissingEntryContent(config.identifier))
  }

  function EntryTypeOf(descriptor: Descriptor, manifest: ImageManifest): string {
    if descriptor.artifactType.Some? then descriptor.artifactType.value else Text(manifest.artifactType)
  }

  function UnpackEntry(w: World, art: ArtifactSet, descriptor: Descriptor): Result<CatalogEntry, Error> {
    if descriptor.digest !in art.manifests then Err(MissingManifest(descriptor.digest))
    else
      var manifest := art.manifests[descriptor.digest];
      var configBytes :- Blob(art, manifest.config.digest);
      var config :- Parsed(w.config.read(configBytes));
      var content :- ContentOf(w, art, manifest, config);
      var trust :- TrustOf(w, art, Under(art.referrers, descriptor.digest));
      Ok(CatalogEntry(config.identifier, config.displayName, EntryTypeOf(descriptor, manifest), content.url,
                      content.data, config.version, config.description, config.tags, config.publisher,
                      config.digest, trust, config.updatedAt, config.extensions, config.extraFields))
  }

  function UnpackEntries(w: World, art: ArtifactSet, ds: seq<Descriptor>): Result<seq<CatalogEntry>, Error> {
    if ds == [] then Ok([])
    else
      var e :- UnpackEntry(w, art, ds[0]);
      var es :- UnpackEntries(w, art, ds[1..]);
      Ok([e] + es)
  }

  function Unpacked(w: World, art: ArtifactSet): Result<AiCatalog, Error> {
    var a := art.index.annotations;
    if art.index.artifactType != Some(MEDIA_TYPE_CATALOG) then Err(UnsupportedIndexArtifactType)
    else if SPEC_VERSION !in a then Err(MissingSpecVersion)
    else
      var host :- Annotation(a, HOST, w.hostText);
      var extensions :- Annotation(a, EXTENSIONS, w.extrasText);
      var signature :- Annotation(a, SIGNATURE, w.signatureText);
      var additional :- Annotation(a, ADDITIONAL_SIGNATURES, w.valueText);
      var extra :- Annotation(a, EXTRA_FIELDS, w.extrasText);
      var entries :- UnpackEntries(w, art, art.index.manifests);
      Ok(AiCatalog(a[SPEC_VERSION], host, entries, signature, additional, extensions,
                   match extra { case Some(fields) => fields case None => map[] }))
  }

  // ---------------------------------------------------------------- attaching

  /** One call that attaches Cosign verification material. */
  datatype Attachment = Attachment(
    subject: string,
    identity: string,
    payloadDigest: string,
    signature: Bytes,
    bundle: Option<Bytes>,
    publicKey: Bytes)

  predicate Lists(ds: seq<Descriptor>, digest: string) {
    exists i :: 0 <= i < |ds| && ds[i].digest == digest
  }

  lemma ListsStep(ds: seq<Descriptor>, k: string)
    requires ds != []
    ensures Lists(ds, k) <==> k == ds[0].digest || Lists(ds[1..], k)
  {
    if i :| 0 <= i < |ds[1..]| && ds[1..][i].digest == k {
      assert ds[i + 1].digest == k;
    }
    if i :| 0 < i < |ds| && ds[i].digest == k {
      assert ds[1..][i - 1].digest == k;
    }
  }

  function FindSubject(ds: seq<Descriptor>, digest: string): Option<Descriptor> {
    if ds == [] then None
    else if ds[0].digest == digest then Some(ds[0])
    else FindSubject(ds[1..], digest)
  }

  function SignatureConfigBytes(w: World, a: Attachment): Bytes {
    w.cosignSignature(CosignSignatureConfig(a.identity, a.payloadDigest, TRUST_ARTIFACT_TYPE))
  }

  function KeyConfigBytes(w: World, a: Attachment): Bytes {
    w.cosignKey(CosignPublicKeyConfig(a.identity, a.payloadDigest, "pem"))
  }

  function SignatureBytes(w: World, a: Attachment): seq<Bytes> {
    [SignatureConfigBytes(w, a), a.signature] + if a.bundle.Some? then [a.bundle.value] else []
  }

  function AttachedBytes(w: World, a: Attachment): seq<Bytes> {
    SignatureBytes(w, a) + [KeyConfigBytes(w, a), a.publicKey]
  }

  function CosignAnnotations(a: Attachment, material: string): Annotations {
    map["ai-catalog.identity" := a.identity,
        "ai-catalog.payloadDigest" := a.payloadDigest,
        "ai-catalog.payloadMediaType" := TRUST_ARTIFACT_TYPE,
        "ai-catalog.verificationMaterial" := material]
  }

  function SignatureLayers(w: World, a: Attachment): seq<Descriptor> {
    [PlainDescriptor(w, a.signature, COSIGN_SIGNATURE_LAYER_MEDIA_TYPE)] +
    if a.bundle.Some? then [PlainDescriptor(w, a.bundle.value, COSIGN_BUNDLE_LAYER_MEDIA_TYPE)] else []
  }

  function SignatureReferrer(w: World, a: Attachment, subject: Descriptor): ImageManifest {
    ImageManifest(2, MANIFEST_MEDIA_TYPE, Some(COSIGN_SIGNATURE_ARTIFACT_TYPE),
                  PlainDescriptor(w, SignatureConfigBytes(w, a), COSIGN_SIGNATURE_CONFIG_MEDIA_TYPE),
                  SignatureLayers(w, a), Some(subject), CosignAnnotations(a, "cosign-signature"))
  }

  function KeyReferrer(w: World, a: Attachment, subject: Descriptor): ImageManifest {
    ImageManifest(2, MANIFEST_MEDIA_TYPE, Some(COSIGN_KEY_ARTIFACT_TYPE),
                  PlainDescriptor(w, KeyConfigBytes(w, a), COSIGN_KEY_CONFIG_MEDIA_TYPE),
                  [PlainDescriptor(w, a.publicKey, COSIGN_KEY_LAYER_MEDIA_TYPE)],
                  Some(subject), CosignAnnotations(a, "cosign-public-key"))
  }

  /** The artifact set after one call; a call for an unknown subject changes nothing. */
  function Attached(w: World, art: ArtifactSet, a: Attachment): ArtifactSet {
    match FindSubject(art.index.manifests, a.subject)
    case None => art
    case Some(subject) =>
      art.(blobs := StoreAll(w, art.blobs, AttachedBytes(w, a)),
           referrers := Refer(Refer(art.referrers, a.subject, SignatureReferrer(w, a, subject)),
                              a.subject, KeyReferrer(w, a, subject)))
  }

  function AttachedAll(w: World, art: ArtifactSet, calls: seq<Attachment>): ArtifactSet
    decreases calls
  {
    if calls == [] then art else AttachedAll(w, Attached(w, art, calls[0]), calls[1..])
  }
}
