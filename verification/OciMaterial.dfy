// What a reader of an artifact set finds in it: the records and the material that were put in,
// by the descriptors that lead there. The readers name no function that the writers use.

module OciMaterial {
  import opened Basics
  import opened Catalog
  import opened Trust
  import opened OciModel
  import opened OciRoundTrip
  import opened OciInvariant
  import opened OciLayout
  import opened OciLayoutRoundTrip

  /** The descriptor leads to these bytes, with their size and a media type. */
  predicate Leads(art: ArtifactSet, d: Descriptor, bytes: Bytes, mediaType: string) {
    && d.digest in art.blobs && art.blobs[d.digest] == bytes
    && d.size == |bytes| && d.mediaType == mediaType
  }

  lemma PlainLeads(w: World, art: ArtifactSet, bytes: Bytes, mediaType: string)
    requires Digest(w, bytes) in art.blobs && art.blobs[Digest(w, bytes)] == bytes
    ensures Leads(art, PlainDescriptor(w, bytes, mediaType), bytes, mediaType)
  {
  }

  // ---------------------------------------------------------------- verification material

  /** The byte strings that one call hands over. */
  function Material(w: World, a: Attachment): seq<Bytes> {
    [w.cosignSignature(CosignSignatureConfig(a.identity, a.payloadDigest, TRUST_ARTIFACT_TYPE)), a.signature]
    + (if a.bundle.Some? then [a.bundle.value] else [])
    + [w.cosignKey(CosignPublicKeyConfig(a.identity, a.payloadDigest, "pem")), a.publicKey]
  }

  lemma MaterialAttached(w: World, a: Attachment)
    ensures AttachedBytes(w, a) == Material(w, a)
  {
  }

  /** The annotations say whom the material is by, of which payload, and what it is. */
  predicate SaysWhose(annotations: Annotations, a: Attachment, what: string) {
    annotations == map["ai-catalog.identity" := a.identity,
                       "ai-catalog.payloadDigest" := a.payloadDigest,
                       "ai-catalog.payloadMediaType" := TRUST_ARTIFACT_TYPE,
                       "ai-catalog.verificationMaterial" := what]
  }

  /** A referrer about a listed subject whose layers lead to the signature and then to the bundle, if there is one. */
  predicate HasSignature(w: World, art: ArtifactSet, a: Attachment, m: ImageManifest) {
    && m.artifactType == Some(COSIGN_SIGNATURE_ARTIFACT_TYPE) && IsReferrerOf(art, m, a.subject)
    && Leads(art, m.config, w.cosignSignature(CosignSignatureConfig(a.identity, a.payloadDigest, TRUST_ARTIFACT_TYPE)),
             COSIGN_SIGNATURE_CONFIG_MEDIA_TYPE)
    && |m.layers| == (if a.bundle.Some? then 2 else 1)
    && Leads(art, m.layers[0], a.signature, COSIGN_SIGNATURE_LAYER_MEDIA_TYPE)
    && (a.bundle.Some? ==> Leads(art, m.layers[1], a.bundle.value, COSIGN_BUNDLE_LAYER_MEDIA_TYPE))
    && SaysWhose(m.annotations, a, "cosign-signature")
  }

  /** A referrer about a listed subject whose only layer leads to the public key. */
  predicate HasPublicKey(w: World, art: ArtifactSet, a: Attachment, m: ImageManifest) {
    && m.artifactType == Some(COSIGN_KEY_ARTIFACT_TYPE) && IsReferrerOf(art, m, a.subject)
    && Leads(art, m.config, w.cosignKey(CosignPublicKeyConfig(a.identity, a.payloadDigest, "pem")), COSIGN_KEY_CONFIG_MEDIA_TYPE)
    && |m.layers| == 1
    && Leads(art, m.layers[0], a.publicKey, COSIGN_KEY_LAYER_MEDIA_TYPE)
    && SaysWhose(m.annotations, a, "cosign-public-key")
  }

  /** The referrers at `n` and after it under the subject are the signature and the key of the call. */
  predicate HoldsMaterial(w: World, art: ArtifactSet, a: Attachment, n: nat) {
    && a.subject in art.referrers && n + 1 < |art.referrers[a.subject]|
    && HasSignature(w, art, a, art.referrers[a.subject][n])
    && HasPublicKey(w, art, a, art.referrers[a.subject][n + 1])
  }

  lemma MaterialStored(w: World, blobs: map<string, Bytes>, bs: seq<Bytes>, b: Bytes)
    requires Keyed(w, blobs) && NoClash(w, blobs, bs) && CollisionFree(w, bs) && b in bs
    ensures var r := StoreAll(w, blobs, bs); Digest(w, b) in r && r[Digest(w, b)] == b
  {
    StoreKeeps(w, blobs, bs);
    hide StoreAll, Digest;
  }

  lemma InMaterial(w: World, a: Attachment)
    ensures w.cosignSignature(CosignSignatureConfig(a.identity, a.payloadDigest, TRUST_ARTIFACT_TYPE)) in Material(w, a)
    ensures a.signature in Material(w, a) && (a.bundle.Some? ==> a.bundle.value in Material(w, a))
    ensures w.cosignKey(CosignPublicKeyConfig(a.identity, a.payloadDigest, "pem")) in Material(w, a) && a.publicKey in Material(w, a)
  {
    var first := [w.cosignSignature(CosignSignatureConfig(a.identity, a.payloadDigest, TRUST_ARTIFACT_TYPE)), a.signature];
    var middle := if a.bundle.Some? then [a.bundle.value] else [];
    var last := [w.cosignKey(CosignPublicKeyConfig(a.identity, a.payloadDigest, "pem")), a.publicKey];
    assert first[0] in first && first[1] in first && last[0] in last && last[1] in last;
    assert a.bundle.Some? ==> middle[0] in middle;
  }

  /** After a call on a listed subject, the last two referrers under it are the signature and the key, and lead to what
      was handed over. */
  lemma {:induction false} AttachedHolds(w: World, art: ArtifactSet, a: Attachment)
    requires Consistent(w, art) && Lists(art.index.manifests, a.subject)
    requires NoClash(w, art.blobs, Material(w, a)) && CollisionFree(w, Material(w, a))
    ensures var n := |Under(art.referrers, a.subject)|;
            && HoldsMaterial(w, Attached(w, art, a), a, n)
            && |Attached(w, art, a).referrers[a.subject]| == n + 2
  {
    FoundSubject(art.index.manifests, a.subject);
    NewReferrersAttached(w, art, a);
    AttachedIndex(w, art, a);
    MaterialAttached(w, a);
    InMaterial(w, a);
    var next, subject := Attached(w, art, a), FindSubject(art.index.manifests, a.subject).value;
    assert Keyed(w, art.blobs);
    hide Consistent, Attached, FindSubject, Lists, StoreAll, Digest, Keyed, NoClash, CollisionFree;
    forall b | b in Material(w, a) ensures Digest(w, b) in next.blobs && next.blobs[Digest(w, b)] == b {
      MaterialStored(w, art.blobs, Material(w, a), b);
    }
    hide Material, AttachedBytes;
    SignatureReads(w, next, a, subject);
    PublicKeyReads(w, next, a, subject);
    hide HasSignature, HasPublicKey;
  }

  lemma {:induction false} FoundSubject(ds: seq<Descriptor>, digest: string)
    ensures FindSubject(ds, digest).Some? <==> Lists(ds, digest)
    ensures FindSubject(ds, digest).Some? ==>
              FindSubject(ds, digest).value in ds && FindSubject(ds, digest).value.digest == digest
  {
    if ds != [] {
      ListsStep(ds, digest);
      FoundSubject(ds[1..], digest);
    }
  }

  lemma SignatureReads(w: World, art: ArtifactSet, a: Attachment, subject: Descriptor)
    requires subject in art.index.manifests && subject.digest == a.subject
    requires forall b {:trigger Digest(w, b)} :: b in Material(w, a) ==> Digest(w, b) in art.blobs && art.blobs[Digest(w, b)] == b
    ensures HasSignature(w, art, a, SignatureReferrer(w, a, subject))
  {
    InMaterial(w, a);
    hide Material;
    PlainLeads(w, art, w.cosignSignature(CosignSignatureConfig(a.identity, a.payloadDigest, TRUST_ARTIFACT_TYPE)),
               COSIGN_SIGNATURE_CONFIG_MEDIA_TYPE);
    PlainLeads(w, art, a.signature, COSIGN_SIGNATURE_LAYER_MEDIA_TYPE);
    if a.bundle.Some? {
      PlainLeads(w, art, a.bundle.value, COSIGN_BUNDLE_LAYER_MEDIA_TYPE);
    }
    hide Leads, Digest, PlainDescriptor;
  }

  lemma PublicKeyReads(w: World, art: ArtifactSet, a: Attachment, subject: Descriptor)
    requires subject in art.index.manifests && subject.digest == a.subject
    requires forall b {:trigger Digest(w, b)} :: b in Material(w, a) ==> Digest(w, b) in art.blobs && art.blobs[Digest(w, b)] == b
    ensures HasPublicKey(w, art, a, KeyReferrer(w, a, subject))
  {
    InMaterial(w, a);
    hide Material;
    PlainLeads(w, art, w.cosignKey(CosignPublicKeyConfig(a.identity, a.payloadDigest, "pem")), COSIGN_KEY_CONFIG_MEDIA_TYPE);
    PlainLeads(w, art, a.publicKey, COSIGN_KEY_LAYER_MEDIA_TYPE);
    hide Leads, Digest, PlainDescriptor;
  }

  // ---------------------------------------------------------------- whole runs

  /** What is read stays as it is when more is stored and filed. */
  ghost predicate Grows(art: ArtifactSet, next: ArtifactSet) {
    && next.index == art.index && next.manifests == art.manifests && Extends(art.blobs, next.blobs)
    && forall k, i :: k in art.referrers && 0 <= i < |art.referrers[k]| ==> Keeps(art, next, k, i)
  }

  predicate Keeps(art: ArtifactSet, next: ArtifactSet, k: string, i: nat) {
    k in art.referrers && i < |art.referrers[k]| ==>
      k in next.referrers && i < |next.referrers[k]| && next.referrers[k][i] == art.referrers[k][i]
  }

  lemma LeadsStill(art: ArtifactSet, next: ArtifactSet, d: Descriptor, bytes: Bytes, mediaType: string)
    requires Extends(art.blobs, next.blobs) && Leads(art, d, bytes, mediaType)
    ensures Leads(next, d, bytes, mediaType)
  {
  }

  lemma MaterialStays(w: World, art: ArtifactSet, next: ArtifactSet, a: Attachment, n: nat)
    requires HoldsMaterial(w, art, a, n) && Grows(art, next)
    ensures HoldsMaterial(w, next, a, n)
  {
    assert Keeps(art, next, a.subject, n) && Keeps(art, next, a.subject, n + 1);
    var s, k := art.referrers[a.subject][n], art.referrers[a.subject][n + 1];
    hide SaysWhose;
    SignatureStays(w, art, next, a, s);
    PublicKeyStays(w, art, next, a, k);
    hide HasSignature, HasPublicKey, Grows;
  }

  lemma SignatureStays(w: World, art: ArtifactSet, next: ArtifactSet, a: Attachment, m: ImageManifest)
    requires HasSignature(w, art, a, m) && Extends(art.blobs, next.blobs) && next.index == art.index
    ensures HasSignature(w, next, a, m)
  {
    LeadsStill(art, next, m.layers[0], a.signature, COSIGN_SIGNATURE_LAYER_MEDIA_TYPE);
    LeadsStill(art, next, m.config, w.cosignSignature(CosignSignatureConfig(a.identity, a.payloadDigest, TRUST_ARTIFACT_TYPE)),
               COSIGN_SIGNATURE_CONFIG_MEDIA_TYPE);
    if a.bundle.Some? {
      LeadsStill(art, next, m.layers[1], a.bundle.value, COSIGN_BUNDLE_LAYER_MEDIA_TYPE);
    }
    hide Leads, SaysWhose, Extends;
  }

  lemma PublicKeyStays(w: World, art: ArtifactSet, next: ArtifactSet, a: Attachment, m: ImageManifest)
    requires HasPublicKey(w, art, a, m) && Extends(art.blobs, next.blobs) && next.index == art.index
    ensures HasPublicKey(w, next, a, m)
  {
    LeadsStill(art, next, m.config, w.cosignKey(CosignPublicKeyConfig(a.identity, a.payloadDigest, "pem")), COSIGN_KEY_CONFIG_MEDIA_TYPE);
    LeadsStill(art, next, m.layers[0], a.publicKey, COSIGN_KEY_LAYER_MEDIA_TYPE);
    hide Leads, SaysWhose, Extends;
  }

  lemma AttachGrows(w: World, art: ArtifactSet, a: Attachment)
    requires Consistent(w, art) && NoClash(w, art.blobs, Material(w, a))
    ensures Grows(art, Attached(w, art, a))
  {
    AttachedIndex(w, art, a);
    MaterialAttached(w, a);
    if FindSubject(art.index.manifests, a.subject).Some? {
      StoreExtends(w, art.blobs, Material(w, a));
      forall k, i | k in art.referrers && 0 <= i < |art.referrers[k]| ensures Keeps(art, Attached(w, art, a), k, i) {
        ReferrerStays(w, art, a, k, i);
      }
    }
    hide Attached, StoreAll, Digest, Material, IndexTyped, ManifestsExact, ReferrersFiled, NoClash;
  }

  lemma GrowsOn(a: ArtifactSet, b: ArtifactSet, c: ArtifactSet)
    requires Grows(a, b) && Grows(b, c)
    ensures Grows(a, c)
  {
    forall k, i | k in a.referrers && 0 <= i < |a.referrers[k]| ensures Keeps(a, c, k, i) {
      assert Keeps(a, b, k, i);
      assert Keeps(b, c, k, i);
    }
  }

  function AllMaterial(w: World, calls: seq<Attachment>): seq<Bytes> {
    if calls == [] then [] else Material(w, calls[0]) + AllMaterial(w, calls[1..])
  }

  /** Everything that a run stores. */
  function RunMaterial(w: World, c: AiCatalog, calls: seq<Attachment>): seq<Bytes> {
    PackedBytes(w, c.entries) + AllMaterial(w, calls)
  }

  lemma {:induction false} RunGrows(w: World, art: ArtifactSet, calls: seq<Attachment>, all: seq<Bytes>)
    requires Consistent(w, art) && CollisionFree(w, all) && StoredIn(art.blobs, all)
    requires forall b :: b in AllMaterial(w, calls) ==> b in all
    ensures var final := AttachedAll(w, art, calls);
            && Consistent(w, final) && Grows(art, final)
            && forall i :: 0 <= i < |calls| && Lists(art.index.manifests, calls[i].subject) ==> HasMaterial(w, final, calls[i])
    decreases calls
  {
    hide Consistent, Grows, CollisionFree, Material, Attached, Lists, StoredIn, HasMaterial;
    if calls == [] {
      assert Grows(art, art) by { NothingGrows(art); }
    } else {
      var a, next := calls[0], Attached(w, art, calls[0]);
      assert forall b :: b in AllMaterial(w, calls) <==> b in Material(w, a) || b in AllMaterial(w, calls[1..]);
      OneCall(w, art, a, all);
      hide AllMaterial;
      RunGrows(w, next, calls[1..], all);
      var final := AttachedAll(w, next, calls[1..]);
      GrowsOn(art, next, final);
      forall i | 0 <= i < |calls| && Lists(art.index.manifests, calls[i].subject) ensures HasMaterial(w, final, calls[i]) {
        if i == 0 {
          MaterialKept(w, next, final, a);
        } else {
          assert calls[1..][i - 1] == calls[i];
        }
      }
    }
  }

  lemma NothingGrows(art: ArtifactSet)
    ensures Grows(art, art)
  {
  }

  /** Somewhere among the referrers of its subject, the material of the call can be read. */
  predicate HasMaterial(w: World, art: ArtifactSet, a: Attachment) {
    a.subject in art.referrers && exists n :: 0 <= n < |art.referrers[a.subject]| && HoldsMaterial(w, art, a, n)
  }

  lemma MaterialKept(w: World, art: ArtifactSet, next: ArtifactSet, a: Attachment)
    requires HasMaterial(w, art, a) && Grows(art, next)
    ensures HasMaterial(w, next, a)
  {
    var n :| 0 <= n < |art.referrers[a.subject]| && HoldsMaterial(w, art, a, n);
    MaterialStays(w, art, next, a, n);
    HeldInRange(w, next, a, n);
    hide HoldsMaterial, Grows;
  }

  lemma HeldInRange(w: World, art: ArtifactSet, a: Attachment, n: nat)
    requires HoldsMaterial(w, art, a, n)
    ensures a.subject in art.referrers && n < |art.referrers[a.subject]|
  {
  }

  lemma OneCall(w: World, art: ArtifactSet, a: Attachment, all: seq<Bytes>)
    requires Consistent(w, art) && CollisionFree(w, all) && StoredIn(art.blobs, all)
    requires forall b :: b in Material(w, a) ==> b in all
    ensures var next := Attached(w, art, a);
            && Consistent(w, next) && Grows(art, next) && StoredIn(next.blobs, all) && next.index == art.index
            && (Lists(art.index.manifests, a.subject) ==> HasMaterial(w, next, a))
  {
    AttachConsistent(w, art, a);
    AttachedIndex(w, art, a);
    MaterialAttached(w, a);
    assert Keyed(w, art.blobs);
    StoreKeeps(w, art.blobs, Material(w, a));
    assert NoClash(w, art.blobs, Material(w, a)) && CollisionFree(w, Material(w, a));
    hide Material, Attached, Consistent, StoreAll, Digest, CollisionFree, NoClash, Keyed;
    AttachGrows(w, art, a);
    FoundSubject(art.index.manifests, a.subject);
    hide FindSubject, Lists, Grows;
    if Lists(art.index.manifests, a.subject) {
      AttachedHolds(w, art, a);
      HeldInRange(w, Attached(w, art, a), a, |Under(art.referrers, a.subject)|);
      hide HoldsMaterial;
    }
  }

  /** After any run, the material of every call on a listed subject can be read, and again after an export and import. */
  lemma {:induction false} MaterialSurvives(w: World, c: AiCatalog, calls: seq<Attachment>, dir: Dir, tag: string, refName: Option<string>)
    requires Lawful(w) && Packed(w, c).Ok? && CollisionFree(w, RunMaterial(w, c, calls))
    requires ExportCollisionFree(w, AttachedAll(w, Packed(w, c).value, calls))
    requires IsReal(dir) && IsVacant(dir) && Trim(tag) != "" && (refName == None || refName == Some(tag))
    ensures var final := AttachedAll(w, Packed(w, c).value, calls);
            var imported := Imported(w, Exported(w, final, dir, tag).dir.files, refName);
            && imported.Ok?
            && forall i :: 0 <= i < |calls| && Lists(Packed(w, c).value.index.manifests, calls[i].subject) ==>
                 HasMaterial(w, final, calls[i]) && HasMaterial(w, imported.value, calls[i])
  {
    var art, all := Packed(w, c).value, RunMaterial(w, c, calls);
    assert forall b :: b in PackedBytes(w, c.entries) ==> b in all;
    assert forall b :: b in AllMaterial(w, calls) ==> b in all;
    PackConsistent(w, c);
    PackedStoredIn(w, c, all);
    hide *;
    RunGrows(w, art, calls, all);
    LayoutRoundTrip(w, AttachedAll(w, art, calls), dir, tag, refName);
  }

  lemma PackedStoredIn(w: World, c: AiCatalog, all: seq<Bytes>)
    requires Packed(w, c).Ok? && forall b :: b in PackedBytes(w, c.entries) ==> b in all
    ensures StoredIn(Packed(w, c).value.blobs, all)
  {
    PackedParts(w, c);
    StoreKeeps(w, map[], AllBytes(w, c.entries));
    InPacked(w, c.entries);
    hide Packed, StoreAll, AllBytes, PackedBytes, Digest;
  }

  // ---------------------------------------------------------------- packed entries

  /** The annotations are the identifier, and the display name and version where the entry has them. */
  predicate IsLabelled(annotations: Annotations, e: CatalogEntry) {
    && (forall k :: k in annotations ==> k == "ai-catalog.identifier" || k == "ai-catalog.displayName" || k == "ai-catalog.version")
    && "ai-catalog.identifier" in annotations && annotations["ai-catalog.identifier"] == e.identifier
    && IsLabel(annotations, "ai-catalog.displayName", e.displayName) && IsLabel(annotations, "ai-catalog.version", e.version)
  }

  predicate IsLabel(annotations: Annotations, key: string, value: Option<string>) {
    if value.Some? then key in annotations && annotations[key] == value.value else key !in annotations
  }

  /** The descriptor leads to a manifest of the set, and says what the manifest says. */
  predicate Describes(w: World, d: Descriptor, m: ImageManifest) {
    && d.mediaType == MANIFEST_MEDIA_TYPE && d.digest == Digest(w, w.manifest.write(m)) && d.size == |w.manifest.write(m)|
    && d.artifactType == m.artifactType && d.annotations == m.annotations
  }

  /** Everything an entry says but its type, its URL or data, and its trust manifests. */
  predicate IsRecordOf(config: EntryConfig, e: CatalogEntry) {
    && config.identifier == e.identifier && config.displayName == e.displayName && config.description == e.description
    && config.tags == e.tags && config.version == e.version && config.digest == e.digest && config.updatedAt == e.updatedAt
    && config.extensions == e.extensions && config.publisher == e.publisher && config.extraFields == e.extraFields
  }

  predicate IsConfig(config: EntryConfig, e: CatalogEntry) { IsRecordOf(config, e) && config.url == e.url }

  /** A manifest of the entry's type whose config leads to its record, and whose only layer to its data, if it has any. */
  ghost predicate IsEntryManifest(w: World, art: ArtifactSet, e: CatalogEntry, m: ImageManifest) {
    && m.artifactType == Some(e.entryType) && m.subject == None && IsLabelled(m.annotations, e)
    && (exists config :: IsConfig(config, e) && Leads(art, m.config, w.config.write(config), ENTRY_CONFIG_MEDIA_TYPE))
    && (if e.data.Some? then |m.layers| == 1 && Leads(art, m.layers[0], w.data.write(e.data.value), e.entryType) else m.layers == [])
  }

  /** A referrer of the entry whose config leads to the trust manifest, and whose only layer leads to exactly the bytes
      that its signer signs: its JSON without signatures, in canonical form. */
  predicate IsTrustReferrer(w: World, art: ArtifactSet, d: Descriptor, trust: TrustManifest, m: ImageManifest) {
    && m.artifactType == Some(TRUST_ARTIFACT_TYPE) && m.subject == Some(d)
    && m.annotations == map["ai-catalog.contributor" := trust.fields.contributor]
    && Leads(art, m.config, w.trustBytes(trust.fields), TRUST_CONFIG_MEDIA_TYPE)
    && |m.layers| == 1
    && match w.crypto.canonical(Strip(SigningJson(w.trust, trust)))
       case Some(payload) => Leads(art, m.layers[0], payload, TRUST_ARTIFACT_TYPE)
       case None => false
  }

  /** One of the referrers of the entry holds the trust manifest. */
  predicate HoldsTrustManifest(w: World, art: ArtifactSet, d: Descriptor, trust: TrustManifest) {
    d.digest in art.referrers &&
    exists n :: 0 <= n < |art.referrers[d.digest]| && IsTrustReferrer(w, art, d, trust, art.referrers[d.digest][n])
  }

  lemma LabelsExact(e: CatalogEntry)
    ensures IsLabelled(EntryAnnotations(e), e)
  {
    assert "ai-catalog.identifier"[11] == 'i' && "ai-catalog.displayName"[11] == 'd' && "ai-catalog.version"[11] == 'v';
  }

  lemma StoredLeads(w: World, c: AiCatalog, i: nat, b: Bytes, mediaType: string)
    requires CollisionFree(w, PackedBytes(w, c.entries)) && Packed(w, c).Ok? && i < |c.entries|
    requires b in EntryBytes(w, c.entries[i])
    ensures Leads(Packed(w, c).value, PlainDescriptor(w, b, mediaType), b, mediaType)
  {
    BlobHeld(w, c, i, b);
    hide Packed, CollisionFree, PackedBytes, EntryBytes, Digest;
    PlainLeads(w, Packed(w, c).value, b, mediaType);
  }

  lemma InEntryBytes(w: World, e: CatalogEntry)
    ensures ConfigBytes(w, e) in EntryBytes(w, e)
    ensures e.data.Some? ==> w.data.write(e.data.value) in EntryBytes(w, e)
    ensures forall b :: b in TrustBytes(w, e.trustManifests) ==> b in EntryBytes(w, e)
  {
    hide TrustBytes;
    assert e.data.Some? ==> DataBytes(w, e)[0] == w.data.write(e.data.value);
  }

  lemma EntryManifestReads(w: World, c: AiCatalog, i: nat)
    requires CollisionFree(w, PackedBytes(w, c.entries)) && Packed(w, c).Ok? && i < |c.entries|
    ensures IsEntryManifest(w, Packed(w, c).value, c.entries[i], ManifestOf(w, c.entries[i]))
  {
    var e, art := c.entries[i], Packed(w, c).value;
    InEntryBytes(w, e);
    hide CollisionFree, PackedBytes, EntryBytes, Packed, PlainDescriptor, Leads, EntryAnnotations, IsLabelled;
    StoredLeads(w, c, i, ConfigBytes(w, e), ENTRY_CONFIG_MEDIA_TYPE);
    if e.data.Some? {
      StoredLeads(w, c, i, w.data.write(e.data.value), e.entryType);
    }
    LabelsExact(e);
    assert IsConfig(ConfigOf(e), e);
  }

  lemma TrustReferrerReads(w: World, c: AiCatalog, i: nat, j: nat)
    requires CollisionFree(w, PackedBytes(w, c.entries)) && Packed(w, c).Ok? && i < |c.entries| && j < |c.entries[i].trustManifests|
    ensures var e := c.entries[i];
            IsTrustReferrer(w, Packed(w, c).value, DescriptorOf(w, e), e.trustManifests[j], ReferrerOf(w, e, e.trustManifests[j]))
  {
    var e := c.entries[i];
    var trust := e.trustManifests[j];
    InEntryBytes(w, e);
    NoPackError(w, c.entries, i);
    assert PayloadOf(w, trust).Some?;
    TrustIn(w, e.trustManifests, j);
    hide CollisionFree, PackedBytes, EntryBytes, Packed, PlainDescriptor, Leads, DescriptorOf, TrustBytes;
    StoredLeads(w, c, i, w.trustBytes(trust.fields), TRUST_CONFIG_MEDIA_TYPE);
    StoredLeads(w, c, i, PayloadBytes(w, trust), TRUST_ARTIFACT_TYPE);
    hide Strip;
  }

  lemma {:induction false} TrustIn(w: World, ms: seq<TrustManifest>, j: nat)
    requires j < |ms|
    ensures w.trustBytes(ms[j].fields) in TrustBytes(w, ms) && PayloadBytes(w, ms[j]) in TrustBytes(w, ms)
  {
    var first := [w.trustBytes(ms[0].fields), PayloadBytes(w, ms[0])];
    assert first[0] in first && first[1] in first;
    hide PayloadBytes;
    if j > 0 {
      TrustIn(w, ms[1..], j - 1);
    }
  }

  /** In the artifact set of a packed catalog, the descriptor of each entry leads to its manifest, the manifest to its
      record and data, and its referrers to each of its trust manifests and the bytes that were signed. */
  lemma {:induction false} PackedReads(w: World, c: AiCatalog, i: nat)
    requires CollisionFree(w, PackedBytes(w, c.entries)) && Packed(w, c).Ok? && i < |c.entries|
    requires Lawful(w)
    ensures var art, e := Packed(w, c).value, c.entries[i];
            && |art.index.manifests| == |c.entries|
            && var d := art.index.manifests[i];
               && d.digest in art.manifests && Describes(w, d, art.manifests[d.digest])
               && IsEntryManifest(w, art, e, art.manifests[d.digest])
               && forall j :: 0 <= j < |e.trustManifests| ==> HoldsTrustManifest(w, art, d, e.trustManifests[j])
  {
    var art, e := Packed(w, c).value, c.entries[i];
    PackIndex(w, c);
    PackedParts(w, c);
    ManifestFound(w, c.entries, i);
    EntryManifestReads(w, c, i);
    assert art.index.manifests[i] == DescriptorOf(w, e) && DescriptorOf(w, e).digest == Key(w, e);
    assert Describes(w, DescriptorOf(w, e), ManifestOf(w, e));
    forall j | 0 <= j < |e.trustManifests| ensures HoldsTrustManifest(w, art, DescriptorOf(w, e), e.trustManifests[j]) {
      TrustHeldAt(w, c, i, j);
    }
    hide *;
  }

  lemma TrustHeldAt(w: World, c: AiCatalog, i: nat, j: nat)
    requires CollisionFree(w, PackedBytes(w, c.entries)) && Packed(w, c).Ok? && i < |c.entries| && j < |c.entries[i].trustManifests|
    ensures HoldsTrustManifest(w, Packed(w, c).value, DescriptorOf(w, c.entries[i]), c.entries[i].trustManifests[j])
  {
    var art, e := Packed(w, c).value, c.entries[i];
    TrustReferrerReads(w, c, i, j);
    PackReferrersAre(w, c, Key(w, e));
    PoolHas(w, c.entries, i, j);
    KeyOfDescriptor(w, e);
    hide Packed, ReferrerOf, IsTrustReferrer, Key, DescriptorOf, PoolReferrers;
    var r := ReferrerOf(w, e, e.trustManifests[j]);
    var n :| 0 <= n < |art.referrers[Key(w, e)]| && art.referrers[Key(w, e)][n] == r;
  }
}
