// The outcomes that the verifier reports, by their inputs: the document that was served, the
// documents that can be fetched and the clock.

module Verdicts {
  import opened Basics
  import opened JsonValue
  import opened Catalog
  import opened Trust
  import opened Identity
  import opened Validation
  import opened Verification
  import opened Agreement
  import opened Validity

  // ---------------------------------------------------------------- the key of the signer

  /** The item at `i` is the only verification method with the key identifier. */
  predicate IsSole(signer: string, keyId: string, items: seq<Json>, i: nat) {
    && i < |items| && IsMethod(signer, keyId, items[i])
    && forall j :: 0 <= j < |items| && j != i ==> !IsMethod(signer, keyId, items[j])
  }

  lemma {:induction false} NoMethods(signer: string, keyId: string, items: seq<Json>)
    ensures Methods(signer, keyId, items) == [] <==> forall j :: 0 <= j < |items| ==> !IsMethod(signer, keyId, items[j])
  {
    hide IsMethod;
    if items != [] {
      NoMethods(signer, keyId, items[1..]);
      assert items == [items[0]] + items[1..];
    }
  }

  lemma {:induction false} MethodsJoin(signer: string, keyId: string, a: seq<Json>, b: seq<Json>)
    ensures Methods(signer, keyId, a + b) == Methods(signer, keyId, a) + Methods(signer, keyId, b)
  {
    hide IsMethod;
    Append(a, b);
    Append(Methods(signer, keyId, a), Methods(signer, keyId, b));
    if a != [] {
      MethodsJoin(signer, keyId, a[1..], b);
      assert (a + b)[1..] == a[1..] + b;
      var first := if IsMethod(signer, keyId, a[0]) then [a[0]] else [];
      Associate(first, Methods(signer, keyId, a[1..]), Methods(signer, keyId, b));
    }
  }

  lemma FirstIsAll(first: Json, rest: seq<Json>, m: Json)
    ensures [first] + rest == [m] <==> first == m && rest == []
  {
    assert |[first] + rest| == 1 + |rest| && ([first] + rest)[0] == first && [m][0] == m;
  }

  /** Some item is the only method with the key identifier, and it is `m`. */
  predicate IsSoleMethod(signer: string, keyId: string, items: seq<Json>, m: Json) {
    exists i :: 0 <= i < |items| && items[i] == m && IsSole(signer, keyId, items, i)
  }

  lemma {:induction false} SoleExact(signer: string, keyId: string, items: seq<Json>, m: Json)
    ensures Methods(signer, keyId, items) == [m] <==> IsSoleMethod(signer, keyId, items, m)
  {
    hide IsMethod;
    if items != [] {
      var rest := items[1..];
      NoMethods(signer, keyId, rest);
      SoleExact(signer, keyId, rest, m);
      SoleStep(signer, keyId, items, m);
      hide IsSoleMethod;
      if IsMethod(signer, keyId, items[0]) {
        FirstIsAll(items[0], Methods(signer, keyId, rest), m);
      }
    }
  }

  lemma SoleStep(signer: string, keyId: string, items: seq<Json>, m: Json)
    requires items != []
    ensures IsMethod(signer, keyId, items[0]) ==>
              (IsSoleMethod(signer, keyId, items, m) <==>
               items[0] == m && forall j :: 0 <= j < |items[1..]| ==> !IsMethod(signer, keyId, items[1..][j]))
    ensures !IsMethod(signer, keyId, items[0]) ==>
              (IsSoleMethod(signer, keyId, items, m) <==> IsSoleMethod(signer, keyId, items[1..], m))
  {
    hide IsMethod;
    var rest := items[1..];
    assert forall j :: 0 <= j < |rest| ==> rest[j] == items[j + 1];
    assert forall j :: 1 <= j < |items| ==> items[j] == rest[j - 1];
    if IsMethod(signer, keyId, items[0]) {
      if items[0] == m && forall j :: 0 <= j < |rest| ==> !IsMethod(signer, keyId, rest[j]) {
        assert IsSole(signer, keyId, items, 0);
      }
    } else {
      if i :| 0 <= i < |items| && items[i] == m && IsSole(signer, keyId, items, i) {
        assert IsSole(signer, keyId, rest, i - 1);
      }
      if i :| 0 <= i < |rest| && rest[i] == m && IsSole(signer, keyId, rest, i) {
        assert IsSole(signer, keyId, items, i + 1);
      }
    }
  }

  /** A reference names the key by its full identifier, or by a fragment of the signer's. */
  predicate NamesKey(signer: string, keyId: string, reference: string) {
    if HasPrefix(reference, "#") then keyId == signer + reference else keyId == reference
  }

  /** A verification method whose `id` names the key. */
  predicate HasKeyId(signer: string, keyId: string, method': Json) {
    && method'.Object? && "id" in method'.members
    && method'.members["id"].String? && NamesKey(signer, keyId, method'.members["id"].text)
  }

  /** Exactly one of the items has the key identifier, and it is `m`. */
  predicate IsOnlyMethod(signer: string, keyId: string, items: seq<Json>, m: Json) {
    exists i :: 0 <= i < |items| && items[i] == m && HasKeyId(signer, keyId, items[i])
                && forall j :: 0 <= j < |items| && j != i ==> !HasKeyId(signer, keyId, items[j])
  }

  /** One of the items is a reference to the key, or a method that has its identifier. */
  predicate AnyNamesKey(signer: string, keyId: string, items: seq<Json>) {
    exists i :: 0 <= i < |items| &&
                ((items[i].String? && NamesKey(signer, keyId, items[i].text)) || HasKeyId(signer, keyId, items[i]))
  }

  lemma MethodExact(signer: string, keyId: string, item: Json)
    ensures IsMethod(signer, keyId, item) <==> HasKeyId(signer, keyId, item)
    ensures Authorizes(signer, keyId, item) <==>
            (item.String? && NamesKey(signer, keyId, item.text)) || HasKeyId(signer, keyId, item)
  {
  }

  lemma MethodsExact(signer: string, keyId: string, items: seq<Json>)
    ensures IsAuthorized(signer, keyId, items) <==> AnyNamesKey(signer, keyId, items)
    ensures forall m :: IsSoleMethod(signer, keyId, items, m) <==> IsOnlyMethod(signer, keyId, items, m)
  {
    forall i | 0 <= i < |items|
      ensures IsMethod(signer, keyId, items[i]) <==> HasKeyId(signer, keyId, items[i])
      ensures Authorizes(signer, keyId, items[i]) <==>
              (items[i].String? && NamesKey(signer, keyId, items[i].text)) || HasKeyId(signer, keyId, items[i])
    {
      MethodExact(signer, keyId, items[i]);
    }
    hide IsMethod, HasKeyId, Authorizes, NamesKey;
  }

  /** The document of the signer authorizes the key identifier for assertions, exactly one method in it
      has that identifier, the signer controls that method, and its key is `jwk`. */
  ghost predicate Designates(document: Json, signer: string, keyId: string, jwk: Json) {
    var listed, asserted := AsItems(document.Get("verificationMethod")), AsItems(document.Get("assertionMethod"));
    && AsText(document.Get("id")) == Some(signer)
    && AnyNamesKey(signer, keyId, asserted)
    && exists m: Json :: IsControlled(signer, m, jwk) && IsOnlyMethod(signer, keyId, listed + asserted, m)
  }

  predicate IsControlled(signer: string, m: Json, jwk: Json) {
    AsText(m.Get("controller")) == Some(signer) && m.Get("publicKeyJwk") == Some(jwk)
  }

  lemma SelectKeyExact(document: Json, signer: string, keyId: string, jwk: Json)
    ensures SelectKey(document, signer, keyId) == Some(jwk) <==> Designates(document, signer, keyId, jwk)
  {
    var listed, asserted := AsItems(document.Get("verificationMethod")), AsItems(document.Get("assertionMethod"));
    MethodsJoin(signer, keyId, listed, asserted);
    MethodsExact(signer, keyId, asserted);
    MethodsExact(signer, keyId, listed + asserted);
    forall m: Json
      ensures Candidates(document, signer, keyId) == [m] <==> IsSoleMethod(signer, keyId, listed + asserted, m)
    {
      SoleExact(signer, keyId, listed + asserted, m);
    }
    var methods := Candidates(document, signer, keyId);
    hide Candidates, IsAuthorized, AnyNamesKey, IsSoleMethod, IsOnlyMethod, Methods;
    if |methods| == 1 {
      assert methods == [methods[0]];
      assert IsSoleMethod(signer, keyId, listed + asserted, methods[0]);
    }
  }

  // ---------------------------------------------------------------- the entry release

  /** The manifest is about this entry release: the same identifier, version, type and digest, none of
      them empty, signed by its contributor. An entry without a type is covered whatever the type. */
  predicate Covers(entry: CatalogEntry, manifest: ManifestFields, signature: Signature) {
    && signature.signer == manifest.contributor
    && manifest.subject.Some?
    && var subject := manifest.subject.value;
       && subject.identifier == entry.identifier != ""
       && subject.version == entry.version
       && subject.subjectType != "" && (entry.entryType == "" || subject.subjectType == entry.entryType)
       && Some(subject.digest) == entry.digest && subject.digest != ""
  }

  /** A release is covered or not; this never depends on what can be fetched. */
  lemma ReleaseExact(entry: CatalogEntry, manifest: ManifestFields, signature: Signature)
    ensures ReleaseOutcome(entry, manifest, signature) == if Covers(entry, manifest, signature) then Verified else Outcome.Failed
  {
    if manifest.subject.Some? {
      MismatchesExact(entry, manifest.subject.value);
    }
    hide Mismatches;
  }

  // ---------------------------------------------------------------- signatures

  /** The DID document that the publisher's own domain serves. */
  function DocumentOf(env: Env, outside: Outside, publisher: string): Option<Json> {
    match outside.fetch("https://" + (publisher + "/.well-known/did.json"))
    case None => None
    case Some(body) => env.crypto.parseJson(body)
  }

  /** The signature was made over the document, up to its signatures, with the one key that the
      publisher's DID document designates for the key identifier of the protected header. */
  ghost predicate IsAuthentic(env: Env, outside: Outside, publisher: string, signature: Signature, document: Json) {
    && DocumentOf(env, outside, publisher).Some?
    && ParseHeader(env.crypto, signature.jws).Some?
    && Payload(env.crypto, document).Some?
    && exists jwk ::
         && Designates(DocumentOf(env, outside, publisher).value, Did(publisher), ParseHeader(env.crypto, signature.jws).value.keyId, jwk)
         && KeyFromJwk(env.crypto, jwk).Ok?
         && VerifyEs256(env.crypto, signature.jws, Payload(env.crypto, document).value, KeyFromJwk(env.crypto, jwk).value).Ok?
  }

  lemma {:induction false} KeyExact(env: Env, outside: Outside, signature: Signature, payload: Json, publisher: string)
    requires ParseHeader(env.crypto, signature.jws).Some?
    requires IsValidPublisher(publisher) && signature.signer == Did(publisher)
    ensures CheckKey(env, outside, signature, ParseHeader(env.crypto, signature.jws).value, payload).Ok? <==>
            IsAuthentic(env, outside, publisher, signature, payload)
  {
    DidUrl(publisher);
    hide ParseHeader, IsValidPublisher, KeyFromJwk, VerifyEs256, Payload, Designates, SelectKey, DocumentUrl, Did;
    if DocumentOf(env, outside, publisher).Some? {
      var document := DocumentOf(env, outside, publisher).value;
      SelectedExact(document, Did(publisher), ParseHeader(env.crypto, signature.jws).value.keyId);
    }
  }

  lemma SelectedExact(document: Json, signer: string, keyId: string)
    ensures forall jwk :: Designates(document, signer, keyId, jwk) <==> SelectKey(document, signer, keyId) == Some(jwk)
  {
    forall jwk ensures Designates(document, signer, keyId, jwk) <==> SelectKey(document, signer, keyId) == Some(jwk) {
      SelectKeyExact(document, signer, keyId, jwk);
    }
  }

  lemma DidUrl(publisher: string)
    requires IsValidPublisher(publisher)
    ensures DocumentUrl(Did(publisher)) == Some("https://" + (publisher + "/.well-known/did.json"))
  {
    hide IsValidPublisher;
    assert Did(publisher)[|DID_WEB_PREFIX|..] == publisher;
  }

  /** What follows `did:web:` in a DID. */
  function DomainOf(did: string): string { if |did| < 8 then "" else did[8..] }

  /** The outcome of a signature: Unverifiable when it selects another profile, or is in order and the DID document
      of its signer cannot be fetched; otherwise Verified when it is in order and authentic, and else Failed. */
  ghost function SignatureVerdict(env: Env, outside: Outside, signature: Signature, kind: Kind, document: Json): Outcome {
    if signature.profile != "did-web-v1" then Unverifiable
    else if !IsInOrder(env, signature, kind) then Outcome.Failed
    else if outside.fetch("https://" + (DomainOf(signature.signer) + "/.well-known/did.json")) == None then Unverifiable
    else if IsAuthentic(env, outside, DomainOf(signature.signer), signature, document) then Verified
    else Outcome.Failed
  }

  lemma RootDid(did: string)
    requires IsRootDidWeb(did)
    ensures IsValidPublisher(DomainOf(did)) && did == Did(DomainOf(did))
  {
    hide IsValidPublisher;
  }

  /** A step that is refused before the key is known has failed. */
  lemma OfflineFails(env: Env, signature: Signature, kind: Kind)
    ensures CheckHeader(env, signature, kind).Err? ==> CheckHeader(env, signature, kind).error == Outcome.Failed
    ensures CheckTime(env, signature).Err? ==> CheckTime(env, signature).error == Outcome.Failed
  {
    hide IsDetached, ParseHeader, IsRootDidWeb, IsKeyOf, HasKeySource;
  }

  /** The check of the key is unverifiable exactly when the DID document cannot be fetched. */
  lemma KeyOutcome(env: Env, outside: Outside, signature: Signature, header: Header, payload: Json)
    requires IsRootDidWeb(signature.signer)
    ensures var r := CheckKey(env, outside, signature, header, payload);
            var url := "https://" + (DomainOf(signature.signer) + "/.well-known/did.json");
            r.Err? ==> r.error == if outside.fetch(url) == None then Unverifiable else Outcome.Failed
    ensures outside.fetch("https://" + (DomainOf(signature.signer) + "/.well-known/did.json")) == None ==>
              CheckKey(env, outside, signature, header, payload).Err?
  {
    RootDid(signature.signer);
    DidUrl(DomainOf(signature.signer));
    hide DocumentUrl, IsRootDidWeb, SelectKey, KeyFromJwk, Payload, VerifyEs256, Did, DomainOf;
  }

  /** The verifier reports exactly this outcome, for signatures of either kind. */
  lemma {:induction false} SignatureVerdictExact(env: Env, outside: Outside, signature: Signature, kind: Kind, document: Json)
    ensures SignatureOutcome(env, outside, signature, kind, document) == SignatureVerdict(env, outside, signature, kind, document)
  {
    OfflineFails(env, signature, kind);
    OfflineMeans(env, signature, kind);
    if IsInOrder(env, signature, kind) {
      InOrderParts(env, signature, kind);
      RootDid(signature.signer);
      HeaderIsParsed(env, signature, kind);
      var header := ParseHeader(env.crypto, signature.jws).value;
      KeyOutcome(env, outside, signature, header, document);
      KeyExact(env, outside, signature, document, DomainOf(signature.signer));
    }
    hide CheckHeader, CheckTime, CheckKey, IsInOrder, IsAuthentic, IsValidPublisher, ParseHeader, Did, DomainOf;
  }

  lemma InOrderParts(env: Env, signature: Signature, kind: Kind)
    requires IsInOrder(env, signature, kind)
    ensures IsRootDidWeb(signature.signer) && ParseHeader(env.crypto, signature.jws).Some?
    ensures CheckHeader(env, signature, kind).Ok? && CheckTime(env, signature).Ok?
  {
    OfflineMeans(env, signature, kind);
    hide IsDetached, ParseHeader, IsRootDidWeb, IsKeyOf, CheckHeader, CheckTime;
  }

  // ---------------------------------------------------------------- artifacts

  /** What an entry stands for: its data in canonical form, or else what its https URL serves. */
  predicate IsContent(env: Env, outside: Outside, entry: CatalogEntry, raw: Json, bytes: Bytes) {
    match raw.Get("data")
    case Some(data) => env.crypto.canonical(data) == Some(bytes)
    case None =>
      match outside.locate(Text(entry.url))
      case Some(location) => location.scheme == "https" && outside.fetch(location.text) == Some(bytes)
      case None => false
  }

  /** The entry has no data, and its URL is not https or cannot be fetched. */
  predicate IsOutOfReach(outside: Outside, entry: CatalogEntry, raw: Json) {
    && raw.Get("data") == None
    && match outside.locate(Text(entry.url))
       case Some(location) => location.scheme != "https" || outside.fetch(location.text) == None
       case None => false
  }

  /** The content of the entry has the digest of the entry. */
  ghost predicate HasContent(env: Env, outside: Outside, entry: CatalogEntry, raw: Json) {
    exists bytes :: IsContent(env, outside, entry, raw, bytes) && IsCanonicalDigest(env.crypto, Lower(Text(entry.digest)), bytes)
  }

  ghost function ArtifactVerdict(env: Env, outside: Outside, entry: CatalogEntry, raw: Json): Outcome {
    if IsOutOfReach(outside, entry, raw) then Unverifiable
    else if HasContent(env, outside, entry, raw) then Verified
    else Outcome.Failed
  }

  lemma ContentIs(env: Env, outside: Outside, entry: CatalogEntry, raw: Json)
    ensures var r := Content(env, outside, entry, raw);
            && (forall bytes :: IsContent(env, outside, entry, raw, bytes) <==> r == Ok(bytes))
            && (r.Err? ==> r.error == if IsOutOfReach(outside, entry, raw) then Unverifiable else Outcome.Failed)
            && (IsOutOfReach(outside, entry, raw) ==> r.Err?)
  {
  }

  /** The verifier reports exactly this outcome of an artifact. */
  lemma {:induction false} ArtifactVerdictExact(env: Env, outside: Outside, entry: CatalogEntry, raw: Json)
    requires forall bytes :: HashLengths(env.crypto, bytes)
    ensures ArtifactOutcome(env, outside, entry, raw) == ArtifactVerdict(env, outside, entry, raw)
  {
    ContentIs(env, outside, entry, raw);
    hide Content, VerifyDigest, IsCanonicalDigest, Lower, IsContent, IsOutOfReach;
    if Content(env, outside, entry, raw).Ok? {
      var bytes := Content(env, outside, entry, raw).value;
      DigestExact(env.crypto, Text(entry.digest), bytes);
      assert IsContent(env, outside, entry, raw, bytes);
    }
  }

  // ---------------------------------------------------------------- manifests and entries

  /** The publisher of the entry signed the manifest. */
  predicate IsPublishers(entry: CatalogEntry, manifest: ManifestFields) {
    manifest.signature.Some? && IsPublisher(entry.identifier, manifest.signature.value.signer)
  }

  /** The signature is verified and the manifest covers the release. */
  ghost predicate IsAccepted(env: Env, outside: Outside, entry: CatalogEntry, manifest: ManifestFields, rawManifest: Json) {
    && manifest.signature.Some?
    && SignatureVerdict(env, outside, manifest.signature.value, OfManifest, rawManifest) == Verified
    && Covers(entry, manifest, manifest.signature.value)
  }

  /** The signature has failed, or the manifest does not cover the release. */
  ghost predicate IsRefused(env: Env, outside: Outside, entry: CatalogEntry, manifest: ManifestFields, rawManifest: Json) {
    && manifest.signature.Some?
    && (|| SignatureVerdict(env, outside, manifest.signature.value, OfManifest, rawManifest) == Outcome.Failed
        || !Covers(entry, manifest, manifest.signature.value))
  }

  /** What the verifier reports of one manifest. */
  ghost function ManifestVerdict(env: Env, outside: Outside, entry: CatalogEntry, manifest: ManifestFields, j: nat, rawManifest: Json): ManifestTrust {
    match manifest.signature
    case None => ManifestTrust(j, manifest.contributor, None, None, None, false)
    case Some(signature) =>
      ManifestTrust(j, manifest.contributor, Some(signature.signer),
                    Some(SignatureVerdict(env, outside, signature, OfManifest, rawManifest)),
                    Some(if Covers(entry, manifest, signature) then Verified else Outcome.Failed),
                    IsPublisher(entry.identifier, signature.signer))
  }

  lemma ManifestVerdictExact(env: Env, outside: Outside, entry: CatalogEntry, manifest: ManifestFields, j: nat, rawManifest: Json)
    ensures var m := ManifestTrustOf(env, outside, entry, manifest, j, rawManifest);
            && m == ManifestVerdict(env, outside, entry, manifest, j, rawManifest)
            && (m.IsAccepted() <==> IsAccepted(env, outside, entry, manifest, rawManifest))
            && (m.HasFailed() <==> IsRefused(env, outside, entry, manifest, rawManifest))
            && (m.publisher <==> IsPublishers(entry, manifest))
  {
    if manifest.signature.Some? {
      SignatureVerdictExact(env, outside, manifest.signature.value, OfManifest, rawManifest);
      ReleaseExact(entry, manifest, manifest.signature.value);
    }
    hide SignatureOutcome, SignatureVerdict, ReleaseOutcome, Covers, IsPublisher;
  }

  /** The JSON of a manifest within the JSON of its entry. */
  function RawItem(raw: Json, j: nat): Json { raw.At("trustManifests").Item(j) }

  ghost predicate AnyAcceptedIn(env: Env, outside: Outside, entry: CatalogEntry, raw: Json) {
    exists j :: 0 <= j < |entry.trustManifests| && IsAccepted(env, outside, entry, entry.trustManifests[j].fields, RawItem(raw, j))
  }

  ghost predicate PublisherAcceptedIn(env: Env, outside: Outside, entry: CatalogEntry, raw: Json) {
    exists j :: 0 <= j < |entry.trustManifests| && IsPublishers(entry, entry.trustManifests[j].fields)
                && IsAccepted(env, outside, entry, entry.trustManifests[j].fields, RawItem(raw, j))
  }

  ghost predicate PublisherRefusedIn(env: Env, outside: Outside, entry: CatalogEntry, raw: Json) {
    exists j :: 0 <= j < |entry.trustManifests| && IsPublishers(entry, entry.trustManifests[j].fields)
                && IsRefused(env, outside, entry, entry.trustManifests[j].fields, RawItem(raw, j))
  }

  /** A manifest that the publisher signed is refused, or one is accepted and the artifact has failed. */
  ghost predicate HasFailure(env: Env, outside: Outside, entry: CatalogEntry, raw: Json) {
    || PublisherRefusedIn(env, outside, entry, raw)
    || (PublisherAcceptedIn(env, outside, entry, raw) && ArtifactVerdict(env, outside, entry, raw) == Outcome.Failed)
  }

  lemma ManifestTrustsExact(env: Env, outside: Outside, entry: CatalogEntry, raw: Json)
    ensures var ms := ManifestTrusts(env, outside, entry, raw);
            && (forall j :: 0 <= j < |ms| ==>
                  ms[j] == ManifestVerdict(env, outside, entry, entry.trustManifests[j].fields, j, RawItem(raw, j)))
            && (AnyAccepted(ms) <==> AnyAcceptedIn(env, outside, entry, raw))
            && (PublisherAccepted(ms) <==> PublisherAcceptedIn(env, outside, entry, raw))
            && (PublisherFailed(ms) <==> PublisherRefusedIn(env, outside, entry, raw))
  {
    var ms := ManifestTrusts(env, outside, entry, raw);
    forall j | 0 <= j < |ms|
      ensures ms[j] == ManifestVerdict(env, outside, entry, entry.trustManifests[j].fields, j, RawItem(raw, j))
      ensures IsJudged(env, outside, entry, entry.trustManifests[j].fields, RawItem(raw, j), ms[j])
    {
      ManifestVerdictExact(env, outside, entry, entry.trustManifests[j].fields, j, RawItem(raw, j));
    }
    hide ManifestTrusts, ManifestVerdict, ManifestTrustOf, IsJudged, RawItem, AnyAcceptedIn, PublisherAcceptedIn, PublisherRefusedIn,
         AnyAccepted, PublisherAccepted, PublisherFailed;
    AllJudged(env, outside, entry, raw, ms);
  }

  /** The report on a manifest says whether it is accepted, refused and the publisher's. */
  ghost predicate IsJudged(env: Env, outside: Outside, entry: CatalogEntry, manifest: ManifestFields, rawManifest: Json, m: ManifestTrust) {
    && (m.IsAccepted() <==> IsAccepted(env, outside, entry, manifest, rawManifest))
    && (m.HasFailed() <==> IsRefused(env, outside, entry, manifest, rawManifest))
    && (m.publisher <==> IsPublishers(entry, manifest))
  }

  lemma AllJudged(env: Env, outside: Outside, entry: CatalogEntry, raw: Json, ms: seq<ManifestTrust>)
    requires |ms| == |entry.trustManifests|
    requires forall j :: 0 <= j < |ms| ==> IsJudged(env, outside, entry, entry.trustManifests[j].fields, RawItem(raw, j), ms[j])
    ensures AnyAccepted(ms) <==> AnyAcceptedIn(env, outside, entry, raw)
    ensures PublisherAccepted(ms) <==> PublisherAcceptedIn(env, outside, entry, raw)
    ensures PublisherFailed(ms) <==> PublisherRefusedIn(env, outside, entry, raw)
  {
    hide IsAccepted, IsRefused, IsPublishers, RawItem, ManifestTrust.IsAccepted, ManifestTrust.HasFailed;
  }

  /** The whole report on an entry: every manifest, the artifact if any manifest is accepted, and the two verdicts. */
  lemma {:induction false} EntryReportExact(env: Env, outside: Outside, index: nat, entry: CatalogEntry, raw: Json)
    requires forall bytes :: HashLengths(env.crypto, bytes)
    ensures var e := EntryTrustOf(env, outside, index, entry, raw);
            && e.index == index && e.identifier == entry.identifier && |e.manifests| == |entry.trustManifests|
            && (forall j :: 0 <= j < |e.manifests| ==>
                  e.manifests[j] == ManifestVerdict(env, outside, entry, entry.trustManifests[j].fields, j, RawItem(raw, j)))
            && e.artifact == (if AnyAcceptedIn(env, outside, entry, raw) then Some(ArtifactVerdict(env, outside, entry, raw)) else None)
            && (e.publisherEndorsed <==>
                  PublisherAcceptedIn(env, outside, entry, raw) && ArtifactVerdict(env, outside, entry, raw) == Verified)
            && (e.publisherFailed <==> HasFailure(env, outside, entry, raw))
  {
    ManifestTrustsExact(env, outside, entry, raw);
    ArtifactVerdictExact(env, outside, entry, raw);
    SomeAccepted(env, outside, entry, raw);
    hide ManifestTrusts, ArtifactOutcome, ArtifactVerdict, AnyAccepted, PublisherAccepted, PublisherFailed, ManifestVerdict,
         AnyAcceptedIn, PublisherAcceptedIn, PublisherRefusedIn, RawItem;
  }

  lemma SomeAccepted(env: Env, outside: Outside, entry: CatalogEntry, raw: Json)
    ensures PublisherAcceptedIn(env, outside, entry, raw) ==> AnyAcceptedIn(env, outside, entry, raw)
  {
    hide IsAccepted, IsPublishers, RawItem;
  }

  /** The report on the signature of the catalog itself: authorized exactly when it is verified and its signer is one of
      the operators that the caller names. */
  lemma {:induction false} CatalogSignatureExact(env: Env, outside: Outside, operators: seq<string>, maxDepth: nat, c: AiCatalog, raw: Json)
    ensures var v := VerificationOf(env, outside, operators, maxDepth, c, raw);
            && v.validation == ResultOf(env, c, maxDepth)
            && (v.catalogSignature.Some? <==> c.signature.Some?)
            && (c.signature.Some? ==> v.catalogSignature == Some(SignatureVerdict(env, outside, c.signature.value, OfCatalog, raw)))
            && (v.catalogAuthorized <==>
                  && c.signature.Some? && c.signature.value.signer in operators
                  && SignatureVerdict(env, outside, c.signature.value, OfCatalog, raw) == Verified)
  {
    if c.signature.Some? {
      SignatureVerdictExact(env, outside, c.signature.value, OfCatalog, raw);
    }
    hide ResultOf, EntryTrusts, IsTrusted, SignatureOutcome, SignatureVerdict;
  }
}
