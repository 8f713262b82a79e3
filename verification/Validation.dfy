// What the validator reports. Reports are relative to the object they are about: the
// path of a diagnostic starts at that object, and nesting is limited by how many
// further levels are allowed. `Validator` shows that the validator, which carries
// absolute paths and depths, appends exactly these reports.

module Validation {
  import opened Basics
  import opened JsonValue
  import opened Catalog
  import opened Trust
  import opened Identity

  datatype Code =
    | SpecVersion | HostMember | EntryMember | EntryArtifact | EntryDuplicate | EntryVersion | IdentifierNotUri
    | Timestamp | PublisherMember | ExtensionKey | NestedDepth | NestedInvalid | DigestInvalid | EntryDigest
    | PolicyUrls | SignatureMember | SignatureSigner | SignatureExpiry | SignatureForm | SignatureMalformed
    | SignatureAlgorithm | SignatureB64 | SignatureType | SignatureExpired | SignatureNotYetValid
    | ManifestContributor | ManifestContributorUri | ManifestEmpty | ManifestSignedMember | ManifestSigner
    | SubjectMember | SubjectMismatch | TrustSchemaMember | AttestationMember | ProvenanceMember
    | ProfileSigner | ProfileAlgorithm | ProfileKeyId | ProfileHeader

  datatype Diagnostic = Diagnostic(code: Code, path: string)

  datatype Report = Report(errors: seq<Diagnostic>, warnings: seq<Diagnostic>) {
    function And(more: Report): Report {
      Report(errors + more.errors, warnings + more.warnings)
    }
  }

  const QUIET := Report([], [])

  function Prefixed(path: string, ds: seq<Diagnostic>): (r: seq<Diagnostic>)
    ensures |r| == |ds|
    ensures forall i :: 0 <= i < |ds| ==> r[i] == Diagnostic(ds[i].code, path + ds[i].path)
  {
    seq(|ds|, i requires 0 <= i < |ds| => Diagnostic(ds[i].code, path + ds[i].path))
  }

  /** A report about the member at `path`. */
  function At(path: string, r: Report): Report {
    Report(Prefixed(path, r.errors), Prefixed(path, r.warnings))
  }

  function Fault(code: Code): Report { Report([Diagnostic(code, "")], []) }

  function Concern(code: Code): Report { Report([], [Diagnostic(code, "")]) }

  function When(condition: bool, r: Report): Report { if condition then r else QUIET }

  /** The clock and the parsers that validation relies on. */
  datatype Env = Env(
    now: int,
    instant: string -> Option<int>,
    crypto: Crypto,
    catalogOf: Json -> Option<AiCatalog>)

  const DID_WEB_PROFILE := "did-web-v1"
  const POLICY_URLS_KEY := "https://ai-catalog.org/extensions/policy-urls"
  const MAX_SUPPORTED_MAJOR := 1

  // ---------------------------------------------------------------- protected headers

  datatype Header = Header(algorithm: string, keyId: string, typ: string, members: map<string, Json>) {
    predicate Has(name: string) { name in members }
  }

  /** A string member, empty when it is absent; other kinds of member are refused. */
  function StringMember(members: map<string, Json>, name: string): Option<string> {
    match Object(members).Get(name)
    case None => Some("")
    case Some(String(s)) => Some(s)
    case _ => None
  }

  function ParseHeader(c: Crypto, jws: string): Option<Header> {
    match c.base64(Split(jws, '.')[0])
    case None => None
    case Some(raw) =>
      if !c.isUtf8(raw) then None
      else
        match c.parseJson(raw)
        case Some(Object(members)) => HeaderOf(members)
        case _ => None
  }

  function HeaderOf(members: map<string, Json>): Option<Header> {
    match (StringMember(members, "alg"), StringMember(members, "kid"), StringMember(members, "typ"))
    case (Some(algorithm), Some(keyId), Some(typ)) =>
      if algorithm == "" then None else Some(Header(algorithm, keyId, typ, members))
    case _ => None
  }

  predicate IsDetached(jws: string) {
    var parts := Split(jws, '.');
    |parts| == 3 && parts[0] != "" && parts[1] == "" && parts[2] != ""
  }

  predicate IsForbidden(algorithm: string) { Lower(algorithm) == "none" }

  datatype Kind = OfCatalog | OfManifest

  function Typ(kind: Kind): string {
    match kind
    case OfCatalog => "ai-catalog+jws"
    case OfManifest => "ai-catalog-trust-manifest+jws"
  }

  // ---------------------------------------------------------------- small values

  function TimestampReport(env: Env, value: string): Report {
    When(value != "" && env.instant(value).None?, Fault(Timestamp))
  }

  function DigestReport(value: string): Report {
    When(value != "" && ParseDigest(value).Err?, Fault(DigestInvalid))
  }

  function Faults(n: nat, code: Code): Report {
    if n == 0 then QUIET else Faults(n - 1, code).And(Fault(code))
  }

  function BadKeys(extensions: Option<Extras>): set<string> {
    match extensions
    case None => {}
    case Some(members) => set key | key in members && !IsExtensionKey(key)
  }

  /** One error for every extension key that is neither a URL nor a reverse-DNS name. */
  function ExtensionKeysReport(extensions: Option<Extras>): Report {
    Faults(|BadKeys(extensions)|, ExtensionKey)
  }

  predicate IsOptionalText(value: Option<Json>) { value.None? || value.value.String? }

  predicate AreBadPolicyUrls(extensions: Option<Extras>) {
    match extensions
    case None => false
    case Some(members) =>
      && POLICY_URLS_KEY in members
      && var value := members[POLICY_URLS_KEY];
         !(value.Object? && IsOptionalText(value.Get("privacyPolicyUrl")) && IsOptionalText(value.Get("termsOfServiceUrl")))
  }

  /** Digits with an optional plus sign that fit 64 bits, as an unsigned integer is parsed. */
  function ParseUnsigned(s: string): Option<nat> {
    var digits := if s != "" && s[0] == '+' then s[1..] else s;
    if digits == "" || !AreDigits(digits) || NumberOf(digits) >= 0x1_0000_0000_0000_0000 then None
    else Some(NumberOf(digits))
  }

  predicate IsSpecVersion(value: string) {
    var parts := Split(value, '.');
    && |parts| == 2
    && ParseUnsigned(parts[0]).Some? && ParseUnsigned(parts[1]).Some?
    && ParseUnsigned(parts[0]).value <= MAX_SUPPORTED_MAJOR
  }

  // ---------------------------------------------------------------- signatures

  function HeaderReport(header: Header, kind: Kind): Report {
    QUIET
      .And(When(IsForbidden(header.algorithm), Fault(SignatureAlgorithm)))
      .And(When(header.Has("b64"), Fault(SignatureB64)))
      .And(When(header.typ != Typ(kind), Fault(SignatureType)))
  }

  function JwsReport(env: Env, jws: string, kind: Kind): Report {
    if jws == "" then QUIET
    else if !IsDetached(jws) then Fault(SignatureForm)
    else
      match ParseHeader(env.crypto, jws)
      case None => Fault(SignatureMalformed)
      case Some(header) => HeaderReport(header, kind)
  }

  /** The header that validating a `jws` returns. */
  function ReadHeader(env: Env, jws: string): Option<Header> {
    if jws == "" || !IsDetached(jws) then None else ParseHeader(env.crypto, jws)
  }

  predicate ExpiresBeforeIssued(env: Env, signature: Signature) {
    && signature.expiresAt.Some?
    && env.instant(signature.issuedAt).Some? && env.instant(signature.expiresAt.value).Some?
    && env.instant(signature.expiresAt.value).value <= env.instant(signature.issuedAt).value
  }

  function WindowReport(env: Env, signature: Signature): Report {
    match signature.expiresAt
    case None => QUIET
    case Some(expiresAt) =>
      QUIET
        .And(At(".expiresAt", TimestampReport(env, expiresAt)))
        .And(When(ExpiresBeforeIssued(env, signature), At(".expiresAt", Fault(SignatureExpiry))))
  }

  function SignatureReport(env: Env, signature: Signature, kind: Kind): Report {
    QUIET
      .And(When(signature.signer == "", At(".signer", Fault(SignatureMember))))
      .And(When(signature.profile == "", At(".profile", Fault(SignatureMember))))
      .And(When(signature.issuedAt == "", At(".issuedAt", Fault(SignatureMember))))
      .And(When(signature.jws == "", At(".jws", Fault(SignatureMember))))
      .And(When(signature.signer != "" && !IsAbsoluteUri(signature.signer), At(".signer", Fault(SignatureSigner))))
      .And(At(".issuedAt", TimestampReport(env, signature.issuedAt)))
      .And(WindowReport(env, signature))
      .And(At(".jws", JwsReport(env, signature.jws, kind)))
  }

  // ---------------------------------------------------------------- the did:web profile

  const KEY_SOURCES := ["jku", "jwk", "x5u", "x5c"]

  function KeySourceReport(header: Header, names: seq<string>): Report {
    if names == [] then QUIET
    else
      KeySourceReport(header, names[..|names| - 1])
        .And(When(header.Has(names[|names| - 1]), At(".jws", Concern(ProfileHeader))))
  }

  function SignerProfileReport(signature: Signature, header: Header): Report {
    QUIET
      .And(When(!IsRootDidWeb(signature.signer), At(".signer", Concern(ProfileSigner))))
      .And(When(header.algorithm != ALGORITHM && !IsForbidden(header.algorithm), At(".jws", Concern(ProfileAlgorithm))))
      .And(When(!IsKeyOf(signature.signer, header.keyId), At(".jws", Concern(ProfileKeyId))))
      .And(KeySourceReport(header, KEY_SOURCES))
  }

  predicate IsNotYetValid(env: Env, signature: Signature) {
    env.instant(signature.issuedAt).Some? && env.instant(signature.issuedAt).value > env.now
  }

  predicate IsExpired(env: Env, signature: Signature) {
    && signature.expiresAt.Some? && env.instant(signature.expiresAt.value).Some?
    && env.instant(signature.expiresAt.value).value <= env.now
  }

  function CurrentReport(env: Env, signature: Signature): Report {
    QUIET
      .And(When(IsNotYetValid(env, signature), At(".issuedAt", Concern(SignatureNotYetValid))))
      .And(When(IsExpired(env, signature), At(".expiresAt", Concern(SignatureExpired))))
  }

  /** Whether the profile applies to a signature: it selects it, and its header can be read. */
  predicate SelectsProfile(env: Env, signature: Signature) {
    signature.profile == DID_WEB_PROFILE && IsDetached(signature.jws) && ParseHeader(env.crypto, signature.jws).Some?
  }

  function ProfileReport(env: Env, manifest: ManifestFields): Report {
    match manifest.signature
    case None => QUIET
    case Some(signature) =>
      if !SelectsProfile(env, signature) then QUIET
      else
        QUIET
          .And(At(".signature", SignerProfileReport(signature, ParseHeader(env.crypto, signature.jws).value)))
          .And(At(".signature", CurrentReport(env, signature)))
  }

  // ---------------------------------------------------------------- trust manifests

  function SubjectReport(subject: Subject): Report {
    QUIET
      .And(When(subject.identifier == "", At(".identifier", Fault(SubjectMember))))
      .And(When(subject.subjectType == "", At(".type", Fault(SubjectMember))))
      .And(When(subject.digest == "", At(".digest", Fault(SubjectMember))))
      .And(At(".digest", DigestReport(subject.digest)))
  }

  /** The members of the subject that do not match the entry release. */
  function Mismatches(entry: CatalogEntry, subject: Subject): seq<string> {
    (if subject.identifier != "" && subject.identifier != entry.identifier then ["identifier"] else [])
    + (if subject.subjectType != "" && entry.entryType != "" && subject.subjectType != entry.entryType then ["type"] else [])
    + (if subject.digest != "" && Text(entry.digest) != "" && subject.digest != Text(entry.digest) then ["digest"] else [])
    + (if subject.version != entry.version then ["version"] else [])
  }

  function MismatchReport(members: seq<string>): Report {
    if members == [] then QUIET
    else MismatchReport(members[..|members| - 1]).And(At(".subject." + members[|members| - 1], Fault(SubjectMismatch)))
  }

  function BindingReport(entry: CatalogEntry, manifest: ManifestFields): Report {
    match manifest.subject
    case None => QUIET
    case Some(subject) => MismatchReport(Mismatches(entry, subject))
  }

  function TrustSchemaReport(schema: TrustSchema): Report {
    QUIET
      .And(When(schema.identifier == "", At(".identifier", Fault(TrustSchemaMember))))
      .And(When(schema.version == "", At(".version", Fault(TrustSchemaMember))))
  }

  function AttestationReport(attestation: Attestation): Report {
    QUIET
      .And(When(attestation.attestationType == "", At(".type", Fault(AttestationMember))))
      .And(When(attestation.uri == "", At(".uri", Fault(AttestationMember))))
      .And(At(".digest", DigestReport(Text(attestation.digest))))
  }

  function ProvenanceReport(link: ProvenanceLink): Report {
    QUIET
      .And(When(link.relation == "", At(".relation", Fault(ProvenanceMember))))
      .And(When(link.sourceId == "", At(".sourceId", Fault(ProvenanceMember))))
      .And(At(".sourceDigest", DigestReport(Text(link.sourceDigest))))
  }

  function Item(name: string, i: nat): string { name + ("[" + (Decimal(i) + "]")) }

  function AttestationsReport(attestations: seq<Attestation>): Report {
    if attestations == [] then QUIET
    else
      var last := |attestations| - 1;
      AttestationsReport(attestations[..last]).And(At(Item(".attestations", last), AttestationReport(attestations[last])))
  }

  function ProvenancesReport(links: seq<ProvenanceLink>): Report {
    if links == [] then QUIET
    else
      var last := |links| - 1;
      ProvenancesReport(links[..last]).And(At(Item(".provenance", last), ProvenanceReport(links[last])))
  }

  function ContributorReport(contributor: string): Report {
    if contributor == "" then Fault(ManifestContributor)
    else When(!IsAbsoluteUri(contributor), Fault(ManifestContributorUri))
  }

  predicate IsSubstantive(manifest: ManifestFields) {
    || manifest.signature.Some? || manifest.trustSchema.Some?
    || manifest.attestations != [] || manifest.provenance != []
    || (manifest.extensions.Some? && manifest.extensions.value != map[])
  }

  function ManifestSignatureReport(env: Env, manifest: ManifestFields): Report {
    match manifest.signature
    case None => QUIET
    case Some(signature) =>
      QUIET
        .And(When(manifest.subject.None?, At(".subject", Fault(ManifestSignedMember))))
        .And(At(".signature", SignatureReport(env, signature, OfManifest)))
        .And(When(signature.signer != "" && signature.signer != manifest.contributor, At(".signature.signer", Fault(ManifestSigner))))
  }

  function ManifestReport(env: Env, manifest: ManifestFields): Report {
    QUIET
      .And(At(".extensions", ExtensionKeysReport(manifest.extensions)))
      .And(At(".contributor", ContributorReport(manifest.contributor)))
      .And(When(!IsSubstantive(manifest), At("", Fault(ManifestEmpty))))
      .And(ManifestSignatureReport(env, manifest))
      .And(if manifest.subject.Some? then At(".subject", SubjectReport(manifest.subject.value)) else QUIET)
      .And(if manifest.trustSchema.Some? then At(".trustSchema", TrustSchemaReport(manifest.trustSchema.value)) else QUIET)
      .And(AttestationsReport(manifest.attestations))
      .And(ProvenancesReport(manifest.provenance))
  }

  /** What is reported about one trust manifest of an entry. */
  function EntryManifestReport(env: Env, entry: CatalogEntry, manifest: ManifestFields): Report {
    QUIET
      .And(ManifestReport(env, manifest))
      .And(BindingReport(entry, manifest))
      .And(ProfileReport(env, manifest))
  }

  function ManifestsReport(env: Env, entry: CatalogEntry, manifests: seq<TrustManifest>): Report {
    if manifests == [] then QUIET
    else
      var last := |manifests| - 1;
      ManifestsReport(env, entry, manifests[..last])
        .And(At(Item(".trustManifests", last), EntryManifestReport(env, entry, manifests[last].fields)))
  }

  predicate HasSigned(manifests: seq<TrustManifest>) {
    exists i :: 0 <= i < |manifests| && manifests[i].fields.signature.Some?
  }

  function EntryTrustReport(env: Env, entry: CatalogEntry): Report {
    QUIET
      .And(At(".digest", DigestReport(Text(entry.digest))))
      .And(ManifestsReport(env, entry, entry.trustManifests))
      .And(When(HasSigned(entry.trustManifests) && Text(entry.digest) == "", At(".digest", Fault(EntryDigest))))
  }

  // ---------------------------------------------------------------- uniqueness

  /** Two entries that may not be listed together: the same identifier, and versions that do not tell them apart. */
  predicate Conflict(a: CatalogEntry, b: CatalogEntry) {
    a.identifier == b.identifier && (Text(a.version) == "" || Text(b.version) == "" || Text(a.version) == Text(b.version))
  }

  predicate IsUnversioned(e: CatalogEntry) { Text(e.version) == "" }

  predicate HasEarlier(entries: seq<CatalogEntry>, i: nat)
    requires i < |entries|
  {
    exists j :: 0 <= j < i && entries[j].identifier == entries[i].identifier
  }

  predicate HasEarlierUnversioned(entries: seq<CatalogEntry>, i: nat)
    requires i < |entries|
  {
    exists j :: 0 <= j < i && entries[j].identifier == entries[i].identifier && IsUnversioned(entries[j])
  }

  predicate HasEarlierVersion(entries: seq<CatalogEntry>, i: nat)
    requires i < |entries|
  {
    exists j :: 0 <= j < i && entries[j].identifier == entries[i].identifier && Text(entries[j].version) == Text(entries[i].version)
  }

  /** What is reported about the entry at `i`, given the entries before it. */
  function DuplicateReport(entries: seq<CatalogEntry>, i: nat): Report
    requires i < |entries|
  {
    if IsUnversioned(entries[i]) then
      When(HasEarlier(entries, i), At(Item(".entries", i), Fault(EntryDuplicate)))
    else
      When(HasEarlierUnversioned(entries, i), At(Item(".entries", i) + ".identifier", Fault(EntryVersion)))
        .And(When(HasEarlierVersion(entries, i), At(Item(".entries", i), Fault(EntryDuplicate))))
  }

  function UniquenessUpTo(entries: seq<CatalogEntry>, n: nat): Report
    requires n <= |entries|
  {
    if n == 0 then QUIET else UniquenessUpTo(entries, n - 1).And(DuplicateReport(entries, n - 1))
  }

  function UniquenessReport(entries: seq<CatalogEntry>): Report { UniquenessUpTo(entries, |entries|) }

  // ---------------------------------------------------------------- entries and catalogs

  function PublisherReport(publisher: Option<Publisher>): Report {
    match publisher
    case None => QUIET
    case Some(p) =>
      QUIET
        .And(When(p.identifier == "", At(".identifier", Fault(PublisherMember))))
        .And(When(p.displayName == "", At(".displayName", Fault(PublisherMember))))
  }

  function HostReport(host: Option<HostInfo>): Report {
    When(host.Some? && host.value.displayName == "", At(".displayName", Fault(HostMember)))
  }

  predicate HasOneSource(e: CatalogEntry) { (Text(e.url) != "") != e.data.Some? }

  function EntryReport(env: Env, e: CatalogEntry, limit: nat): Report
    decreases limit, 1
  {
    QUIET
      .And(When(e.identifier == "", At(".identifier", Fault(EntryMember))))
      .And(When(e.entryType == "", At(".type", Fault(EntryMember))))
      .And(When(!HasOneSource(e), At("", Fault(EntryArtifact))))
      .And(At(".updatedAt", TimestampReport(env, Text(e.updatedAt))))
      .And(At(".extensions", ExtensionKeysReport(e.extensions)))
      .And(At(".extensions", When(AreBadPolicyUrls(e.extensions), Fault(PolicyUrls))))
      .And(At(".publisher", PublisherReport(e.publisher)))
      .And(EntryTrustReport(env, e))
      .And(NestedReport(env, e, limit))
      .And(When(e.identifier != "" && ':' !in e.identifier, At(".identifier", Concern(IdentifierNotUri))))
  }

  /** The catalog that is decoded from the data of an entry. */
  function NestedIn(env: Env, e: CatalogEntry): Option<AiCatalog> {
    if e.data.None? then None else env.catalogOf(e.data.value)
  }

  /** What is reported about the catalog nested in an entry, when `limit` more levels are allowed. */
  function NestedReport(env: Env, e: CatalogEntry, limit: nat): Report
    decreases limit, 0
  {
    if !e.IsNestedCatalog() then QUIET
    else if limit == 0 then At("", Fault(NestedDepth))
    else
      match e.data
      case None => QUIET
      case Some(data) =>
        match env.catalogOf(data)
        case None => At(".data", Fault(NestedInvalid))
        case Some(nested) => At(".data", CatalogReport(env, nested, limit - 1))
  }

  function EntriesReport(env: Env, entries: seq<CatalogEntry>, limit: nat): Report
    decreases limit, 2, |entries|
  {
    if entries == [] then QUIET
    else
      var last := |entries| - 1;
      EntriesReport(env, entries[..last], limit).And(At(Item(".entries", last), EntryReport(env, entries[last], limit)))
  }

  /** Everything reported about a catalog in which `limit` levels of nesting are allowed. */
  function CatalogReport(env: Env, c: AiCatalog, limit: nat): Report
    decreases limit, 3
  {
    QUIET
      .And(At(".specVersion", When(!IsSpecVersion(c.specVersion), Fault(SpecVersion))))
      .And(At(".host", HostReport(c.host)))
      .And(if c.signature.Some? then At(".signature", SignatureReport(env, c.signature.value, OfCatalog)) else QUIET)
      .And(At(".extensions", ExtensionKeysReport(c.extensions)))
      .And(UniquenessReport(c.entries))
      .And(EntriesReport(env, c.entries, limit))
  }

  // ---------------------------------------------------------------- results

  datatype Level = Minimal | Discoverable | Trusted

  function LevelOf(report: Report, c: AiCatalog): Level {
    if report.errors != [] || c.host.None? then Minimal else Discoverable
  }

  datatype ValidationResult = ValidationResult(isValid: bool, level: Level, report: Report)

  function ResultOf(env: Env, c: AiCatalog, maxDepth: nat): ValidationResult {
    var report := At("catalog", CatalogReport(env, c, maxDepth));
    ValidationResult(report.errors == [], LevelOf(report, c), report)
  }
}
