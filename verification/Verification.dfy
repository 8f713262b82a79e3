// Signature and artifact verification under the did:web profiles: the verifier of
// ai-catalog-validate and its DID document resolution. Fetching is a function of the URL.

module Verification {
  import opened Basics
  import opened JsonValue
  import opened Catalog
  import opened Trust
  import opened Identity
  import opened Validation
  import opened Validator

  datatype Outcome = Verified | Failed | Unverifiable

  /** A URL as the verifier sees it: its scheme and its text. */
  datatype Location = Location(scheme: string, text: string)

  /** What verification takes from outside: fetching, and resolving URLs against the base. */
  datatype Outside = Outside(
    fetch: string -> Option<Bytes>,
    locate: string -> Option<Location>,
    parseCatalog: Bytes -> Option<AiCatalog>)

  datatype ManifestTrust = ManifestTrust(
    index: nat,
    contributor: string,
    signer: Option<string>,
    signature: Option<Outcome>,
    release: Option<Outcome>,
    publisher: bool)
  {
    predicate IsAccepted() { signature == Some(Verified) && release == Some(Verified) }

    predicate HasFailed() { signature == Some(Outcome.Failed) || release == Some(Outcome.Failed) }
  }

  datatype EntryTrust = EntryTrust(
    index: nat,
    identifier: string,
    manifests: seq<ManifestTrust>,
    artifact: Option<Outcome>,
    publisherEndorsed: bool,
    publisherFailed: bool)

  datatype Verification = Verification(
    validation: ValidationResult,
    level: Level,
    catalogSignature: Option<Outcome>,
    catalogAuthorized: bool,
    entries: seq<EntryTrust>)

  datatype VerifyError = NotJson | NotACatalog

  // ---------------------------------------------------------------- DID documents

  function DocumentUrl(did: string): Option<string> {
    if IsRootDidWeb(did) then Some("https://" + (did[|DID_WEB_PREFIX|..] + "/.well-known/did.json")) else None
  }

  /** A reference to a verification method; one that starts with a fragment is relative to the signer. */
  function ResolveReference(signer: string, reference: string): string {
    if HasPrefix(reference, "#") then signer + reference else reference
  }

  predicate IsMethod(signer: string, keyId: string, value: Json) {
    && value.Object?
    && match AsText(value.Get("id")) {
         case Some(id) => ResolveReference(signer, id) == keyId
         case None => false
       }
  }

  predicate Authorizes(signer: string, keyId: string, value: Json) {
    match value
    case String(reference) => ResolveReference(signer, reference) == keyId
    case Object(_) => IsMethod(signer, keyId, value)
    case _ => false
  }

  /** The verification methods among `values` that have the key identifier. */
  function Methods(signer: string, keyId: string, values: seq<Json>): seq<Json> {
    if values == [] then []
    else (if IsMethod(signer, keyId, values[0]) then [values[0]] else []) + Methods(signer, keyId, values[1..])
  }

  predicate IsAuthorized(signer: string, keyId: string, values: seq<Json>) {
    exists i :: 0 <= i < |values| && Authorizes(signer, keyId, values[i])
  }

  function Candidates(document: Json, signer: string, keyId: string): seq<Json> {
    Methods(signer, keyId, AsItems(document.Get("verificationMethod")))
    + Methods(signer, keyId, AsItems(document.Get("assertionMethod")))
  }

  /** The key of the single method with this identifier, authorized for assertions and controlled by the signer. */
  function SelectKey(document: Json, signer: string, keyId: string): Option<Json> {
    var methods := Candidates(document, signer, keyId);
    if AsText(document.Get("id")) != Some(signer) then None
    else if !IsAuthorized(signer, keyId, AsItems(document.Get("assertionMethod"))) then None
    else if |methods| != 1 then None
    else if AsText(methods[0].Get("controller")) != Some(signer) then None
    else methods[0].Get("publicKeyJwk")
  }

  method SelectKeyOf(document: Json, signer: string, keyId: string) returns (key: Option<Json>)
    ensures key == SelectKey(document, signer, keyId)
  {
    hide IsMethod, Authorizes, ResolveReference;
    if AsText(document.Get("id")) != Some(signer) {
      return None;
    }
    var listed := AsItems(document.Get("verificationMethod"));
    var asserted := AsItems(document.Get("assertionMethod"));
    var methods := Methods(signer, keyId, listed);
    var authorized := false;
    assert asserted[0..] == asserted;
    for i := 0 to |asserted|
      invariant authorized <==> exists j :: 0 <= j < i && Authorizes(signer, keyId, asserted[j])
      invariant methods + Methods(signer, keyId, asserted[i..]) == Candidates(document, signer, keyId)
    {
      var entry := asserted[i];
      assert asserted[i..][0] == entry && asserted[i..][1..] == asserted[i + 1..];
      ghost var rest := Methods(signer, keyId, asserted[i + 1..]);
      MethodAuthorizes(signer, keyId, entry);
      assert Methods(signer, keyId, asserted[i..]) == (if IsMethod(signer, keyId, entry) then [entry] else []) + rest;
      hide Methods, Candidates;
      Append([], rest);
      Associate(methods, [entry], rest);
      authorized := authorized || Authorizes(signer, keyId, entry);
      if IsMethod(signer, keyId, entry) {
        methods := methods + [entry];
      }
    }
    Append(methods, []);
    if !authorized || |methods| != 1 {
      return None;
    }
    if AsText(methods[0].Get("controller")) != Some(signer) {
      return None;
    }
    key := methods[0].Get("publicKeyJwk");
  }

  lemma MethodAuthorizes(signer: string, keyId: string, value: Json)
    ensures IsMethod(signer, keyId, value) ==> Authorizes(signer, keyId, value)
  {
  }

  // ---------------------------------------------------------------- signatures

  predicate HasKeySource(header: Header) {
    exists i :: 0 <= i < |KEY_SOURCES| && header.Has(KEY_SOURCES[i])
  }

  function CheckHeader(env: Env, signature: Signature, kind: Kind): Result<Header, Outcome> {
    if !IsDetached(signature.jws) then Err(Outcome.Failed)
    else
      match ParseHeader(env.crypto, signature.jws)
      case None => Err(Outcome.Failed)
      case Some(header) =>
        if header.algorithm != ALGORITHM then Err(Outcome.Failed)
        else if header.typ != Typ(kind) then Err(Outcome.Failed)
        else if HasKeySource(header) then Err(Outcome.Failed)
        else if !IsRootDidWeb(signature.signer) then Err(Outcome.Failed)
        else if !IsKeyOf(signature.signer, header.keyId) then Err(Outcome.Failed)
        else Ok(header)
  }

  function CheckTime(env: Env, signature: Signature): Result<(), Outcome> {
    match env.instant(signature.issuedAt)
    case None => Err(Outcome.Failed)
    case Some(issued) =>
      if issued > env.now then Err(Outcome.Failed)
      else
        match signature.expiresAt
        case None => Ok(())
        case Some(expiresAt) =>
          match env.instant(expiresAt)
          case None => Err(Outcome.Failed)
          case Some(expires) => if expires <= env.now then Err(Outcome.Failed) else Ok(())
  }

  /** Fetches the DID document of the signer, selects the key and verifies the signature over the payload. */
  function CheckKey(env: Env, outside: Outside, signature: Signature, header: Header, payload: Json): Result<(), Outcome> {
    match DocumentUrl(signature.signer)
    case None => Err(Outcome.Failed)
    case Some(url) =>
      match outside.fetch(url)
      case None => Err(Unverifiable)
      case Some(body) =>
        match env.crypto.parseJson(body)
        case None => Err(Outcome.Failed)
        case Some(document) =>
          match SelectKey(document, signature.signer, header.keyId)
          case None => Err(Outcome.Failed)
          case Some(jwk) =>
            match KeyFromJwk(env.crypto, jwk)
            case Err(_) => Err(Outcome.Failed)
            case Ok(key) =>
              match Payload(env.crypto, payload)
              case None => Err(Outcome.Failed)
              case Some(signed) =>
                if VerifyEs256(env.crypto, signature.jws, signed, key).Ok? then Ok(()) else Err(Outcome.Failed)
  }

  function CheckSignature(env: Env, outside: Outside, signature: Signature, kind: Kind, payload: Json): Result<(), Outcome> {
    if signature.profile != DID_WEB_PROFILE then Err(Unverifiable)
    else
      var header :- CheckHeader(env, signature, kind);
      var _ :- CheckTime(env, signature);
      CheckKey(env, outside, signature, header, payload)
  }

  function OutcomeOf(result: Result<(), Outcome>): Outcome {
    match result
    case Ok(_) => Verified
    case Err(outcome) => outcome
  }

  function SignatureOutcome(env: Env, outside: Outside, signature: Signature, kind: Kind, payload: Json): Outcome {
    OutcomeOf(CheckSignature(env, outside, signature, kind, payload))
  }

  // ---------------------------------------------------------------- releases and artifacts

  /** Whether the manifest covers the entry release. */
  function ReleaseOutcome(entry: CatalogEntry, manifest: ManifestFields, signature: Signature): Outcome {
    if signature.signer != manifest.contributor then Outcome.Failed
    else if Text(entry.digest) == "" then Outcome.Failed
    else
      match manifest.subject
      case None => Outcome.Failed
      case Some(subject) =>
        if subject.identifier == "" || subject.subjectType == "" || subject.digest == "" then Outcome.Failed
        else if Mismatches(entry, subject) != [] then Outcome.Failed
        else Verified
  }

  /** The bytes an entry stands for: its data in canonical form, or what its URL serves. */
  function Content(env: Env, outside: Outside, entry: CatalogEntry, raw: Json): Result<Bytes, Outcome> {
    match raw.Get("data")
    case Some(data) =>
      (match env.crypto.canonical(data)
       case Some(bytes) => Ok(bytes)
       case None => Err(Outcome.Failed))
    case None =>
      match outside.locate(Text(entry.url))
      case None => Err(Outcome.Failed)
      case Some(location) =>
        if location.scheme != "https" then Err(Unverifiable)
        else
          match outside.fetch(location.text)
          case None => Err(Unverifiable)
          case Some(bytes) => Ok(bytes)
  }

  function ArtifactOutcome(env: Env, outside: Outside, entry: CatalogEntry, raw: Json): Outcome {
    match Content(env, outside, entry, raw)
    case Err(outcome) => outcome
    case Ok(content) => if VerifyDigest(env.crypto, Text(entry.digest), content) == Ok(true) then Verified else Outcome.Failed
  }

  // ---------------------------------------------------------------- manifests, entries, catalogs

  function ManifestTrustOf(env: Env, outside: Outside, entry: CatalogEntry, manifest: ManifestFields, index: nat, raw: Json): ManifestTrust {
    match manifest.signature
    case None => ManifestTrust(index, manifest.contributor, None, None, None, false)
    case Some(signature) =>
      ManifestTrust(index, manifest.contributor, Some(signature.signer),
                    Some(SignatureOutcome(env, outside, signature, OfManifest, raw)),
                    Some(ReleaseOutcome(entry, manifest, signature)),
                    IsPublisher(entry.identifier, signature.signer))
  }

  function ManifestTrusts(env: Env, outside: Outside, entry: CatalogEntry, raw: Json): (r: seq<ManifestTrust>)
    ensures |r| == |entry.trustManifests|
    ensures forall j :: 0 <= j < |r| ==>
              r[j] == ManifestTrustOf(env, outside, entry, entry.trustManifests[j].fields, j, raw.At("trustManifests").Item(j))
  {
    seq(|entry.trustManifests|, j requires 0 <= j < |entry.trustManifests| =>
      ManifestTrustOf(env, outside, entry, entry.trustManifests[j].fields, j, raw.At("trustManifests").Item(j)))
  }

  predicate AnyAccepted(ms: seq<ManifestTrust>) { exists j :: 0 <= j < |ms| && ms[j].IsAccepted() }

  predicate PublisherAccepted(ms: seq<ManifestTrust>) { exists j :: 0 <= j < |ms| && ms[j].publisher && ms[j].IsAccepted() }

  predicate PublisherFailed(ms: seq<ManifestTrust>) { exists j :: 0 <= j < |ms| && ms[j].publisher && ms[j].HasFailed() }

  function EntryTrustOf(env: Env, outside: Outside, index: nat, entry: CatalogEntry, raw: Json): EntryTrust {
    var ms := ManifestTrusts(env, outside, entry, raw);
    var artifact := if AnyAccepted(ms) then Some(ArtifactOutcome(env, outside, entry, raw)) else None;
    EntryTrust(index, entry.identifier, ms, artifact,
               PublisherAccepted(ms) && artifact == Some(Verified),
               PublisherFailed(ms) || (PublisherAccepted(ms) && artifact == Some(Outcome.Failed)))
  }

  function EntryTrusts(env: Env, outside: Outside, c: AiCatalog, raw: Json): (r: seq<EntryTrust>)
    ensures |r| == |c.entries|
    ensures forall i :: 0 <= i < |r| ==> r[i] == EntryTrustOf(env, outside, i, c.entries[i], raw.At("entries").Item(i))
  {
    seq(|c.entries|, i requires 0 <= i < |c.entries| =>
      EntryTrustOf(env, outside, i, c.entries[i], raw.At("entries").Item(i)))
  }

  predicate IsTrusted(entries: seq<EntryTrust>) {
    (exists i :: 0 <= i < |entries| && entries[i].publisherEndorsed) && !exists i :: 0 <= i < |entries| && entries[i].publisherFailed
  }

  function VerificationOf(env: Env, outside: Outside, operators: seq<string>, maxDepth: nat, c: AiCatalog, raw: Json): Verification {
    var validation := ResultOf(env, c, maxDepth);
    var catalogSignature := if c.signature.Some? then Some(SignatureOutcome(env, outside, c.signature.value, OfCatalog, raw)) else None;
    var entries := EntryTrusts(env, outside, c, raw);
    Verification(validation,
                 if IsTrusted(entries) && validation.level != Minimal then Trusted else validation.level,
                 catalogSignature,
                 catalogSignature == Some(Verified) && c.signature.value.signer in operators,
                 entries)
  }

  /** Validates a document and verifies the signatures and artifacts of its root entries. */
  method Verify(env: Env, outside: Outside, operators: seq<string>, maxDepth: nat, document: Bytes)
    returns (result: Result<Verification, VerifyError>)
    ensures match (env.crypto.parseJson(document), outside.parseCatalog(document)) {
              case (None, _) => result == Err(NotJson)
              case (Some(_), None) => result == Err(NotACatalog)
              case (Some(raw), Some(c)) => result == Ok(VerificationOf(env, outside, operators, maxDepth, c, raw))
            }
  {
    var raw := env.crypto.parseJson(document);
    if raw.None? {
      return Err(NotJson);
    }
    var catalog := outside.parseCatalog(document);
    if catalog.None? {
      return Err(NotACatalog);
    }
    var c := catalog.value;
    hide ResultOf, EntryTrustOf, SignatureOutcome;
    var validation := ValidateWith(env, c, maxDepth);
    var catalogSignature := if c.signature.Some? then Some(SignatureOutcome(env, outside, c.signature.value, OfCatalog, raw.value)) else None;
    var entries := EntryTrusts(env, outside, c, raw.value);
    var level := if IsTrusted(entries) && validation.level != Minimal then Trusted else validation.level;
    return Ok(Verification(validation, level, catalogSignature,
                           catalogSignature == Some(Verified) && c.signature.value.signer in operators, entries));
  }
}
