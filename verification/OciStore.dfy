// The packing, unpacking and attaching code of the ai-catalog-oci crate.

module OciStore {
  import opened Basics
  import opened Catalog
  import opened OciModel

  method StoreBlob(w: World, blobs: map<string, Bytes>, bytes: Bytes, mediaType: string)
    returns (stored: map<string, Bytes>, descriptor: Descriptor)
    ensures descriptor == PlainDescriptor(w, bytes, mediaType)
    ensures descriptor.digest == Digest(w, bytes) && descriptor.size == |bytes| && descriptor.mediaType == mediaType
    ensures stored == StoreAll(w, blobs, [bytes])
    ensures stored - {descriptor.digest} == blobs - {descriptor.digest}
    ensures descriptor.digest in stored && stored[descriptor.digest] == bytes
  {
    descriptor := PlainDescriptor(w, bytes, mediaType);
    stored := blobs[descriptor.digest := bytes];
    assert [bytes][1..] == [];
  }

  lemma {:induction false} StoreAppend(w: World, blobs: map<string, Bytes>, a: seq<Bytes>, b: seq<Bytes>)
    ensures StoreAll(w, blobs, a + b) == StoreAll(w, StoreAll(w, blobs, a), b)
    decreases a
  {
    if a == [] {
      Append(a, b);
    } else {
      assert (a + b)[0] == a[0] && (a + b)[1..] == a[1..] + b;
      StoreAppend(w, blobs[Digest(w, a[0]) := a[0]], a[1..], b);
    }
  }

  lemma StoreOneMore(w: World, before: map<string, Bytes>, done: seq<Bytes>, blobs: map<string, Bytes>, bytes: Bytes)
    requires blobs == StoreAll(w, before, done)
    ensures StoreAll(w, blobs, [bytes]) == StoreAll(w, before, done + [bytes])
  {
    StoreAppend(w, before, done, [bytes]);
  }

  // ---------------------------------------------------------------- packing

  method PackCatalog(w: World, c: AiCatalog) returns (result: Result<ArtifactSet, Error>)
    ensures result == Packed(w, c)
  {
    hide StoreAll, AllBytes, AddManifests, AddReferrers, Descriptors, CatalogAnnotations, PackError, DescriptorOf;
    var blobs: map<string, Bytes> := map[];
    var manifests: map<string, ImageManifest> := map[];
    var referrers: Referrers := map[];
    var descriptors: seq<Descriptor> := [];
    var es := c.entries;
    assert es[0..] == es;
    Append([], Descriptors(w, es));
    for i := 0 to |es|
      invariant PackError(w, es[i..]) == PackError(w, es)
      invariant StoreAll(w, blobs, AllBytes(w, es[i..])) == StoreAll(w, map[], AllBytes(w, es))
      invariant AddManifests(w, manifests, es[i..]) == AddManifests(w, map[], es)
      invariant AddReferrers(w, referrers, es[i..]) == AddReferrers(w, map[], es)
      invariant descriptors + Descriptors(w, es[i..]) == Descriptors(w, es)
    {
      assert es[i..][0] == es[i] && es[i..][1..] == es[i + 1..];
      hide *;
      PackStep(w, es[i..], blobs, manifests, referrers, descriptors);
      var error;
      error, blobs, manifests, referrers := PackEntry(w, es[i], blobs, manifests, referrers);
      if error.Some? {
        return Err(error.value);
      }
      descriptors := descriptors + [DescriptorOf(w, es[i])];
    }
    assert es[|es|..] == [];
    PackEnd(w, blobs, manifests, referrers, descriptors);
    var index := ImageIndex(2, INDEX_MEDIA_TYPE, Some(MEDIA_TYPE_CATALOG), descriptors, CatalogAnnotations(w, c));
    return Ok(ArtifactSet(index, manifests, referrers, blobs));
  }

  lemma PackStep(w: World, es: seq<CatalogEntry>, blobs: map<string, Bytes>, manifests: map<string, ImageManifest>,
                 referrers: Referrers, descriptors: seq<Descriptor>)
    requires es != []
    ensures PackError(w, es) == if EntryError(w, es[0]).Some? then EntryError(w, es[0]) else PackError(w, es[1..])
    ensures StoreAll(w, blobs, AllBytes(w, es)) ==
            StoreAll(w, StoreAll(w, blobs, EntryBytes(w, es[0])), AllBytes(w, es[1..]))
    ensures AddManifests(w, manifests, es) == AddManifests(w, manifests[Key(w, es[0]) := ManifestOf(w, es[0])], es[1..])
    ensures AddReferrers(w, referrers, es) ==
            AddReferrers(w, ReferAll(referrers, Key(w, es[0]), ReferrersOf(w, es[0], es[0].trustManifests)), es[1..])
    ensures descriptors + Descriptors(w, es) == descriptors + [DescriptorOf(w, es[0])] + Descriptors(w, es[1..])
  {
    StoreAppend(w, blobs, EntryBytes(w, es[0]), AllBytes(w, es[1..]));
    Associate(descriptors, [DescriptorOf(w, es[0])], Descriptors(w, es[1..]));
  }

  lemma PackEnd(w: World, blobs: map<string, Bytes>, manifests: map<string, ImageManifest>,
                referrers: Referrers, descriptors: seq<Descriptor>)
    ensures PackError(w, []) == None && StoreAll(w, blobs, AllBytes(w, [])) == blobs
    ensures AddManifests(w, manifests, []) == manifests && AddReferrers(w, referrers, []) == referrers
    ensures descriptors + Descriptors(w, []) == descriptors
  {
  }

  /** The body of the packing loop. */
  method PackEntry(w: World, e: CatalogEntry, blobs: map<string, Bytes>, manifests: map<string, ImageManifest>, referrers: Referrers)
    returns (error: Option<Error>, blobs': map<string, Bytes>, manifests': map<string, ImageManifest>, referrers': Referrers)
    ensures error == EntryError(w, e)
    ensures error.None? ==> blobs' == StoreAll(w, blobs, EntryBytes(w, e))
    ensures error.None? ==> manifests' == manifests[Key(w, e) := ManifestOf(w, e)]
    ensures error.None? ==> referrers' == ReferAll(referrers, Key(w, e), ReferrersOf(w, e, e.trustManifests))
  {
    hide StoreAll, ReferAll, Digest, EntryAnnotations, Canonicalizes;
    error, blobs', manifests', referrers' := None, blobs, manifests, referrers;
    var config;
    blobs', config := StoreBlob(w, blobs', ConfigBytes(w, e), ENTRY_CONFIG_MEDIA_TYPE);

    var layers: seq<Descriptor> := [];
    match (e.url, e.data) {
      case (Some(_), None) =>
        Append([ConfigBytes(w, e)], []);
      case (None, Some(data)) =>
        var layer;
        ghost var before := blobs';
        blobs', layer := StoreBlob(w, blobs', w.data.write(data), e.entryType);
        StoreOneMore(w, blobs, [ConfigBytes(w, e)], before, w.data.write(data));
        layers := [layer];
      case _ =>
        error := Some(InvalidEntryContent(e.identifier));
        return;
    }
    assert blobs' == StoreAll(w, blobs, [ConfigBytes(w, e)] + DataBytes(w, e));

    var manifest := ImageManifest(2, MANIFEST_MEDIA_TYPE, Some(e.entryType), config, layers, None, EntryAnnotations(e));
    var descriptor := DescriptorForBytes(w, w.manifest.write(manifest), MANIFEST_MEDIA_TYPE, Some(e.entryType), EntryAnnotations(e));
    assert manifest == ManifestOf(w, e) && descriptor == DescriptorOf(w, e);

    StoreAppend(w, blobs, [ConfigBytes(w, e)] + DataBytes(w, e), TrustBytes(w, e.trustManifests));
    error, blobs', referrers' := PackTrust(w, e, descriptor, blobs', referrers');
    manifests' := manifests'[descriptor.digest := manifest];
  }

  /** The inner loop, over the trust manifests of one entry. */
  method PackTrust(w: World, e: CatalogEntry, subject: Descriptor, blobs: map<string, Bytes>, referrers: Referrers)
    returns (error: Option<Error>, blobs': map<string, Bytes>, referrers': Referrers)
    requires subject == DescriptorOf(w, e)
    ensures error == if Canonicalizes(w, e.trustManifests) then None else Some(Canonicalization)
    ensures error.None? ==> blobs' == StoreAll(w, blobs, TrustBytes(w, e.trustManifests))
    ensures error.None? ==> referrers' == ReferAll(referrers, subject.digest, ReferrersOf(w, e, e.trustManifests))
  {
    hide DescriptorOf, PlainDescriptor, Digest, PayloadOf, ReferrerOf;
    var ms := e.trustManifests;
    error, blobs', referrers' := None, blobs, referrers;
    assert ms[0..] == ms;
    for i := 0 to |ms|
      invariant forall j :: 0 <= j < i ==> PayloadOf(w, ms[j]).Some?
      invariant StoreAll(w, blobs', TrustBytes(w, ms[i..])) == StoreAll(w, blobs, TrustBytes(w, ms))
      invariant ReferAll(referrers', subject.digest, ReferrersOf(w, e, ms[i..])) ==
                ReferAll(referrers, subject.digest, ReferrersOf(w, e, ms))
    {
      var m := ms[i];
      TrustStep(w, e, ms[i..], blobs', referrers', subject.digest);
      assert ms[i..][0] == m && ms[i..][1..] == ms[i + 1..];
      hide StoreAll, ReferAll, TrustBytes, ReferrersOf, Refer;
      var config, payload;
      ghost var before := blobs';
      blobs', config := StoreBlob(w, blobs', w.trustBytes(m.fields), TRUST_CONFIG_MEDIA_TYPE);
      var signed := PayloadOf(w, m);
      if signed.None? {
        error := Some(Canonicalization);
        return;
      }
      ghost var stored := blobs';
      blobs', payload := StoreBlob(w, blobs', signed.value, TRUST_ARTIFACT_TYPE);
      StoreOneMore(w, before, [w.trustBytes(m.fields)], stored, signed.value);
      var referrer := ImageManifest(2, MANIFEST_MEDIA_TYPE, Some(TRUST_ARTIFACT_TYPE), config, [payload], Some(subject),
                                    map["ai-catalog.contributor" := m.fields.contributor]);
      ReferrerIs(w, e, m);
      referrers' := Refer(referrers', subject.digest, referrer);
    }
    assert ms[|ms|..] == [];
  }

  lemma ReferrerIs(w: World, e: CatalogEntry, m: TrustManifest)
    requires PayloadOf(w, m).Some?
    ensures PayloadBytes(w, m) == PayloadOf(w, m).value
    ensures ReferrerOf(w, e, m) ==
            ImageManifest(2, MANIFEST_MEDIA_TYPE, Some(TRUST_ARTIFACT_TYPE),
                          PlainDescriptor(w, w.trustBytes(m.fields), TRUST_CONFIG_MEDIA_TYPE),
                          [PlainDescriptor(w, PayloadOf(w, m).value, TRUST_ARTIFACT_TYPE)], Some(DescriptorOf(w, e)),
                          map["ai-catalog.contributor" := m.fields.contributor])
  {
    hide PayloadOf, DescriptorOf, PlainDescriptor;
  }

  lemma TrustStep(w: World, e: CatalogEntry, ms: seq<TrustManifest>, blobs: map<string, Bytes>, referrers: Referrers, key: string)
    requires ms != []
    ensures StoreAll(w, blobs, TrustBytes(w, ms)) ==
            StoreAll(w, StoreAll(w, blobs, [w.trustBytes(ms[0].fields)] + [PayloadBytes(w, ms[0])]), TrustBytes(w, ms[1..]))
    ensures ReferAll(referrers, key, ReferrersOf(w, e, ms)) ==
            ReferAll(Refer(referrers, key, ReferrerOf(w, e, ms[0])), key, ReferrersOf(w, e, ms[1..]))
  {
    StoreAppend(w, blobs, [w.trustBytes(ms[0].fields), PayloadBytes(w, ms[0])], TrustBytes(w, ms[1..]));
    assert [w.trustBytes(ms[0].fields)] + [PayloadBytes(w, ms[0])] == [w.trustBytes(ms[0].fields), PayloadBytes(w, ms[0])];
    assert ReferrersOf(w, e, ms)[1..] == ReferrersOf(w, e, ms[1..]);
  }

  // ---------------------------------------------------------------- unpacking

  method UnpackCatalog(w: World, art: ArtifactSet) returns (result: Result<AiCatalog, Error>)
    ensures result == Unpacked(w, art)
  {
    var a := art.index.annotations;
    if art.index.artifactType != Some(MEDIA_TYPE_CATALOG) {
      return Err(UnsupportedIndexArtifactType);
    }
    if SPEC_VERSION !in a {
      return Err(MissingSpecVersion);
    }
    hide UnpackEntry, Annotation;
    var host :- Annotation(a, HOST, w.hostText);
    var extensions :- Annotation(a, EXTENSIONS, w.extrasText);
    var signature :- Annotation(a, OciModel.SIGNATURE, w.signatureText);
    var additional :- Annotation(a, OciModel.ADDITIONAL_SIGNATURES, w.valueText);
    var extra :- Annotation(a, EXTRA_FIELDS, w.extrasText);

    var ds := art.index.manifests;
    var entries: seq<CatalogEntry> := [];
    assert ds[0..] == ds;
    NothingYet(UnpackEntries(w, art, ds));
    for i := 0 to |ds|
      invariant After(entries, UnpackEntries(w, art, ds[i..])) == UnpackEntries(w, art, ds)
    {
      UnpackStep(w, art, ds[i..], entries);
      assert ds[i..][0] == ds[i] && ds[i..][1..] == ds[i + 1..];
      hide UnpackEntries, After;
      var entry :- UnpackEntry(w, art, ds[i]);
      entries := entries + [entry];
    }
    Append(entries, []);
    return Ok(AiCatalog(a[SPEC_VERSION], host, entries, signature, additional, extensions,
                        match extra { case Some(fields) => fields case None => map[] }));
  }

  /** The result of a loop that has produced `done` and has `rest` still to come. */
  function After<T>(done: seq<T>, rest: Result<seq<T>, Error>): Result<seq<T>, Error> {
    match rest
    case Ok(more) => Ok(done + more)
    case Err(e) => Err(e)
  }

  lemma NothingYet<T>(rest: Result<seq<T>, Error>)
    ensures After([], rest) == rest
  {
    if rest.Ok? {
      Append([], rest.value);
    }
  }

  lemma UnpackStep(w: World, art: ArtifactSet, ds: seq<Descriptor>, entries: seq<CatalogEntry>)
    requires ds != []
    ensures After(entries, UnpackEntries(w, art, ds)) ==
            match UnpackEntry(w, art, ds[0]) {
              case Err(e) => Err(e)
              case Ok(entry) => After(entries + [entry], UnpackEntries(w, art, ds[1..]))
            }
  {
    hide UnpackEntry;
    if UnpackEntry(w, art, ds[0]).Ok? && UnpackEntries(w, art, ds[1..]).Ok? {
      Associate(entries, [UnpackEntry(w, art, ds[0]).value], UnpackEntries(w, art, ds[1..]).value);
    }
  }

  // ---------------------------------------------------------------- attaching

  /** An artifact set that is mutated in place. */
  class Artifacts {
    var index: ImageIndex
    var manifests: map<string, ImageManifest>
    var referrers: Referrers
    var blobs: map<string, Bytes>

    constructor (art: ArtifactSet)
      ensures View() == art
    {
      index, manifests, referrers, blobs := art.index, art.manifests, art.referrers, art.blobs;
    }

    function View(): ArtifactSet
      reads this
    {
      ArtifactSet(index, manifests, referrers, blobs)
    }

    method AttachCosign(w: World, a: Attachment) returns (result: Result<(), Error>)
      modifies this`blobs, this`referrers
      ensures View() == Attached(w, old(View()), a)
      ensures result == if exists i :: 0 <= i < |index.manifests| && index.manifests[i].digest == a.subject
                        then Ok(()) else Err(MissingSubjectDescriptor(a.subject))
    {
      hide StoreAll, Digest, PlainDescriptor;
      SubjectFound(index.manifests, a.subject);
      var found := FindSubject(index.manifests, a.subject);
      if found.None? {
        return Err(MissingSubjectDescriptor(a.subject));
      }
      var subject := found.value;
      ghost var before := blobs;

      var config, layer;
      var store := blobs;
      store, config := StoreBlob(w, store, SignatureConfigBytes(w, a), COSIGN_SIGNATURE_CONFIG_MEDIA_TYPE);
      ghost var done := [SignatureConfigBytes(w, a)];
      ghost var last := store;
      store, layer := StoreBlob(w, store, a.signature, COSIGN_SIGNATURE_LAYER_MEDIA_TYPE);
      StoreOneMore(w, before, done, last, a.signature);
      done := done + [a.signature];
      var layers := [layer];
      if a.bundle.Some? {
        last := store;
        store, layer := StoreBlob(w, store, a.bundle.value, COSIGN_BUNDLE_LAYER_MEDIA_TYPE);
        StoreOneMore(w, before, done, last, a.bundle.value);
        done := done + [a.bundle.value];
        layers := layers + [layer];
      }
      assert done == SignatureBytes(w, a) && layers == SignatureLayers(w, a);
      var signature := ImageManifest(2, MANIFEST_MEDIA_TYPE, Some(COSIGN_SIGNATURE_ARTIFACT_TYPE), config, layers,
                                     Some(subject), CosignAnnotations(a, "cosign-signature"));

      last := store;
      store, config := StoreBlob(w, store, KeyConfigBytes(w, a), COSIGN_KEY_CONFIG_MEDIA_TYPE);
      StoreOneMore(w, before, done, last, KeyConfigBytes(w, a));
      last := store;
      store, layer := StoreBlob(w, store, a.publicKey, COSIGN_KEY_LAYER_MEDIA_TYPE);
      StoreOneMore(w, before, done + [KeyConfigBytes(w, a)], last, a.publicKey);
      assert done + [KeyConfigBytes(w, a)] + [a.publicKey] == AttachedBytes(w, a);
      var key := ImageManifest(2, MANIFEST_MEDIA_TYPE, Some(COSIGN_KEY_ARTIFACT_TYPE), config, [layer],
                               Some(subject), CosignAnnotations(a, "cosign-public-key"));
      blobs := store;
      referrers := Refer(referrers, a.subject, signature);
      referrers := Refer(referrers, a.subject, key);
      return Ok(());
    }
  }

  lemma {:induction false} SubjectFound(ds: seq<Descriptor>, digest: string)
    ensures FindSubject(ds, digest).Some? <==> exists i :: 0 <= i < |ds| && ds[i].digest == digest
    ensures FindSubject(ds, digest).Some? ==> FindSubject(ds, digest).value in ds && FindSubject(ds, digest).value.digest == digest
  {
    if ds != [] && ds[0].digest != digest {
      SubjectFound(ds[1..], digest);
      if i :| 0 <= i < |ds| && ds[i].digest == digest {
        assert ds[1..][i - 1].digest == digest;
      }
    }
  }
}
