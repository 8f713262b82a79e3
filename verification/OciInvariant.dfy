// What every artifact set keeps, from packing through any number of attachments.

module OciInvariant {
  import opened Basics
  import opened Catalog
  import opened OciModel
  import opened OciStore
  import opened OciRoundTrip

  /** The blobs a manifest refers to. */
  predicate RefersTo(m: ImageManifest, digest: string) {
    m.config.digest == digest || exists i :: 0 <= i < |m.layers| && m.layers[i].digest == digest
  }

  ghost predicate IsReferenced(art: ArtifactSet, digest: string) {
    || (exists k :: k in art.manifests && RefersTo(art.manifests[k], digest))
    || (exists k, i :: k in art.referrers && 0 <= i < |art.referrers[k]| && RefersTo(art.referrers[k][i], digest))
  }

  /** Blobs are keyed by the digest of their bytes; none is missing and none is left over. */
  ghost predicate BlobsExact(w: World, art: ArtifactSet) {
    && Keyed(w, art.blobs)
    && forall digest :: digest in art.blobs <==> IsReferenced(art, digest)
  }

  /** Entry manifests are keyed by their digest, and are those that the index lists. */
  ghost predicate ManifestsExact(w: World, art: ArtifactSet) {
    && (forall k :: k in art.manifests <==> Lists(art.index.manifests, k))
    && (forall k :: k in art.manifests ==>
          k == Digest(w, w.manifest.write(art.manifests[k])) && art.manifests[k].subject == None)
  }

  predicate IsReferrerOf(art: ArtifactSet, r: ImageManifest, key: string) {
    r.subject.Some? && r.subject.value.digest == key && r.subject.value in art.index.manifests
  }

  /** Referrers are filed under their own subject, which the index lists. */
  ghost predicate ReferrersFiled(art: ArtifactSet) {
    forall k :: k in art.referrers ==>
      art.referrers[k] != [] && forall i :: 0 <= i < |art.referrers[k]| ==> IsReferrerOf(art, art.referrers[k][i], k)
  }

  predicate IndexTyped(art: ArtifactSet) {
    && art.index.artifactType == Some(MEDIA_TYPE_CATALOG)
    && forall i :: 0 <= i < |art.index.manifests| ==> art.index.manifests[i].mediaType == MANIFEST_MEDIA_TYPE
  }

  ghost predicate Consistent(w: World, art: ArtifactSet) {
    IndexTyped(art) && ManifestsExact(w, art) && ReferrersFiled(art) && BlobsExact(w, art)
  }

  // ---------------------------------------------------------------- packing establishes it

  lemma PackIndex(w: World, c: AiCatalog)
    requires Packed(w, c).Ok?
    ensures IndexTyped(Packed(w, c).value)
    ensures forall i :: 0 <= i < |c.entries| ==> Packed(w, c).value.index.manifests[i].digest == Key(w, c.entries[i])
    ensures |Packed(w, c).value.index.manifests| == |c.entries|
  {
    assert Packed(w, c).value.index == IndexOf(w, c);
    hide CatalogAnnotations, EntryAnnotations, Digest, ManifestBytes;
  }

  lemma PackManifests(w: World, c: AiCatalog)
    requires Packed(w, c).Ok?
    ensures ManifestsExact(w, Packed(w, c).value)
  {
    var art := Packed(w, c).value;
    forall k | k in art.manifests
      ensures Lists(art.index.manifests, k)
      ensures k == Digest(w, w.manifest.write(art.manifests[k])) && art.manifests[k].subject == None
    {
      PackedManifest(w, c, k);
    }
    forall k | Lists(art.index.manifests, k) ensures k in art.manifests {
      ManifestPacked(w, c, k);
    }
    hide Packed, Digest, Lists;
  }

  lemma PackedManifest(w: World, c: AiCatalog, k: string)
    requires Packed(w, c).Ok? && k in Packed(w, c).value.manifests
    ensures var art := Packed(w, c).value;
            && Lists(art.index.manifests, k)
            && k == Digest(w, w.manifest.write(art.manifests[k])) && art.manifests[k].subject == None
  {
    var art, es := Packed(w, c).value, c.entries;
    PackIndex(w, c);
    ManifestsKeep(w, map[], es);
    assert art.manifests == AddManifests(w, map[], es);
    KeysAreDigests(w, es);
    hide Key, ManifestOf, AddManifests, Packed, Digest;
    var i :| 0 <= i < |es| && k == Key(w, es[i]) && art.manifests[k] == ManifestOf(w, es[i]);
    assert art.index.manifests[i].digest == k;
  }

  lemma ManifestPacked(w: World, c: AiCatalog, k: string)
    requires Packed(w, c).Ok? && Lists(Packed(w, c).value.index.manifests, k)
    ensures k in Packed(w, c).value.manifests
  {
    var art, es := Packed(w, c).value, c.entries;
    PackIndex(w, c);
    ManifestsKeep(w, map[], es);
    assert art.manifests == AddManifests(w, map[], es);
    hide Key, ManifestOf, AddManifests, Packed;
    var i :| 0 <= i < |art.index.manifests| && art.index.manifests[i].digest == k;
    assert k == Key(w, es[i]);
  }

  lemma KeysAreDigests(w: World, es: seq<CatalogEntry>)
    ensures forall i :: 0 <= i < |es| ==> Key(w, es[i]) == Digest(w, w.manifest.write(ManifestOf(w, es[i])))
    ensures forall i :: 0 <= i < |es| ==> ManifestOf(w, es[i]).subject == None
  {
    hide Digest, EntryAnnotations;
  }

  lemma {:induction false} InPool(w: World, es: seq<CatalogEntry>, key: string, r: ImageManifest)
    requires r in PoolReferrers(w, es, key)
    ensures exists i, j :: 0 <= i < |es| && 0 <= j < |es[i].trustManifests| && Key(w, es[i]) == key
                           && r == ReferrerOf(w, es[i], es[i].trustManifests[j])
  {
    hide Key, ReferrerOf;
    if Key(w, es[0]) == key && r in ReferrersOf(w, es[0], es[0].trustManifests) {
      var j :| 0 <= j < |es[0].trustManifests| && r == ReferrersOf(w, es[0], es[0].trustManifests)[j];
      assert r == ReferrerOf(w, es[0], es[0].trustManifests[j]);
    } else {
      InPool(w, es[1..], key, r);
      var i, j :| 0 <= i < |es[1..]| && 0 <= j < |es[1..][i].trustManifests| && Key(w, es[1..][i]) == key
                  && r == ReferrerOf(w, es[1..][i], es[1..][i].trustManifests[j]);
      assert es[1..][i] == es[i + 1];
    }
  }

  lemma {:induction false} PoolHas(w: World, es: seq<CatalogEntry>, i: nat, j: nat)
    requires i < |es| && j < |es[i].trustManifests|
    ensures ReferrerOf(w, es[i], es[i].trustManifests[j]) in PoolReferrers(w, es, Key(w, es[i]))
  {
    hide Key, ReferrerOf;
    if i == 0 {
      assert ReferrersOf(w, es[0], es[0].trustManifests)[j] == ReferrerOf(w, es[0], es[0].trustManifests[j]);
    } else {
      assert es[1..][i - 1] == es[i];
      PoolHas(w, es[1..], i - 1, j);
    }
  }

  /** The referrers of a packed catalog are those of its trust manifests. */
  lemma PackReferrersAre(w: World, c: AiCatalog, k: string)
    requires Packed(w, c).Ok?
    ensures var refs := Packed(w, c).value.referrers;
            && Under(refs, k) == PoolReferrers(w, c.entries, k)
            && (k in refs <==> PoolReferrers(w, c.entries, k) != [])
  {
    AddReferrersUnder(w, map[], c.entries, k);
    Append([], PoolReferrers(w, c.entries, k));
    assert Packed(w, c).value.referrers == AddReferrers(w, map[], c.entries);
  }

  lemma PackReferrers(w: World, c: AiCatalog)
    requires Packed(w, c).Ok?
    ensures ReferrersFiled(Packed(w, c).value)
  {
    var art, es := Packed(w, c).value, c.entries;
    forall k | k in art.referrers
      ensures art.referrers[k] != []
      ensures forall i :: 0 <= i < |art.referrers[k]| ==> IsReferrerOf(art, art.referrers[k][i], k)
    {
      PackReferrersAre(w, c, k);
      forall i | 0 <= i < |art.referrers[k]| ensures IsReferrerOf(art, art.referrers[k][i], k) {
        InPool(w, es, k, art.referrers[k][i]);
        var m, j :| 0 <= m < |es| && 0 <= j < |es[m].trustManifests| && Key(w, es[m]) == k
                    && art.referrers[k][i] == ReferrerOf(w, es[m], es[m].trustManifests[j]);
        SubjectListed(w, c, m, es[m].trustManifests[j]);
      }
    }
  }

  lemma SubjectListed(w: World, c: AiCatalog, i: nat, m: TrustManifest)
    requires Packed(w, c).Ok? && i < |c.entries|
    ensures IsReferrerOf(Packed(w, c).value, ReferrerOf(w, c.entries[i], m), Key(w, c.entries[i]))
  {
    assert Packed(w, c).value.index.manifests == Descriptors(w, c.entries);
    assert Descriptors(w, c.entries)[i] == DescriptorOf(w, c.entries[i]);
    hide Digest, EntryAnnotations, Packed, PayloadBytes;
  }

  // ---- blobs of a packed catalog

  lemma EntryRefers(w: World, e: CatalogEntry, digest: string)
    ensures RefersTo(ManifestOf(w, e), digest) <==>
            exists b :: b in [ConfigBytes(w, e)] + DataBytes(w, e) && Digest(w, b) == digest
  {
    hide Digest, ConfigBytes, EntryAnnotations;
    if e.data.Some? {
      assert DataLayers(w, e)[0].digest == Digest(w, DataBytes(w, e)[0]);
    }
    if Digest(w, ConfigBytes(w, e)) == digest {
      assert ConfigBytes(w, e) in [ConfigBytes(w, e)] + DataBytes(w, e);
    }
    if e.data.Some? && Digest(w, DataBytes(w, e)[0]) == digest {
      assert DataBytes(w, e)[0] in [ConfigBytes(w, e)] + DataBytes(w, e);
    }
    if b :| b in [ConfigBytes(w, e)] + DataBytes(w, e) && Digest(w, b) == digest {
      if b != ConfigBytes(w, e) {
        assert b in DataBytes(w, e);
      }
    }
  }

  lemma TrustRefers(w: World, e: CatalogEntry, m: TrustManifest, digest: string)
    ensures RefersTo(ReferrerOf(w, e, m), digest) <==>
            Digest(w, w.trustBytes(m.fields)) == digest || Digest(w, PayloadBytes(w, m)) == digest
  {
    hide Digest, PayloadBytes, DescriptorOf;
    assert |ReferrerOf(w, e, m).layers| == 1;
    assert ReferrerOf(w, e, m).layers[0].digest == Digest(w, PayloadBytes(w, m));
  }

  lemma {:induction false} TrustBytesAre(w: World, ms: seq<TrustManifest>, b: Bytes)
    requires b in TrustBytes(w, ms)
    ensures exists j :: 0 <= j < |ms| && (b == w.trustBytes(ms[j].fields) || b == PayloadBytes(w, ms[j]))
  {
    hide PayloadBytes;
    if b != w.trustBytes(ms[0].fields) && b != PayloadBytes(w, ms[0]) {
      TrustBytesAre(w, ms[1..], b);
      var j :| 0 <= j < |ms[1..]| && (b == w.trustBytes(ms[1..][j].fields) || b == PayloadBytes(w, ms[1..][j]));
      assert ms[1..][j] == ms[j + 1];
    }
  }

  lemma {:induction false} AllBytesAre(w: World, es: seq<CatalogEntry>, b: Bytes)
    requires b in AllBytes(w, es)
    ensures exists i :: 0 <= i < |es| && b in EntryBytes(w, es[i])
  {
    hide EntryBytes;
    if b !in EntryBytes(w, es[0]) {
      AllBytesAre(w, es[1..], b);
      var i :| 0 <= i < |es[1..]| && b in EntryBytes(w, es[1..][i]);
      assert es[1..][i] == es[i + 1];
    }
  }

  lemma PackReferenced(w: World, c: AiCatalog, b: Bytes)
    requires Lawful(w) && CollisionFree(w, PackedBytes(w, c.entries))
    requires Packed(w, c).Ok? && b in AllBytes(w, c.entries)
    ensures IsReferenced(Packed(w, c).value, Digest(w, b))
  {
    var art, es := Packed(w, c).value, c.entries;
    AllBytesAre(w, es, b);
    var i :| 0 <= i < |es| && b in EntryBytes(w, es[i]);
    InEntry(w, es[i], b);
    hide Packed, Key, Digest, PackedBytes, CollisionFree, Lawful, EntryBytes;
    if b in TrustBytes(w, es[i].trustManifests) {
      TrustReferenced(w, c, i, b);
    } else {
      assert art.manifests == AddManifests(w, map[], es) by { PackedParts(w, c); }
      ManifestFound(w, es, i);
      EntryRefers(w, es[i], Digest(w, b));
    }
  }

  lemma PackedParts(w: World, c: AiCatalog)
    requires Packed(w, c).Ok?
    ensures Packed(w, c).value.manifests == AddManifests(w, map[], c.entries)
    ensures Packed(w, c).value.blobs == StoreAll(w, map[], AllBytes(w, c.entries))
  {
  }

  lemma TrustReferenced(w: World, c: AiCatalog, i: nat, b: Bytes)
    requires Packed(w, c).Ok? && i < |c.entries| && b in TrustBytes(w, c.entries[i].trustManifests)
    ensures IsReferenced(Packed(w, c).value, Digest(w, b))
  {
    var art, es := Packed(w, c).value, c.entries;
    var ms, k := es[i].trustManifests, Key(w, es[i]);
    hide Packed, Key, Digest, ReferrerOf, PoolReferrers, PayloadBytes, RefersTo, EntryBytes;
    TrustBytesAre(w, ms, b);
    var j :| 0 <= j < |ms| && (b == w.trustBytes(ms[j].fields) || b == PayloadBytes(w, ms[j]));
    TrustRefers(w, es[i], ms[j], Digest(w, b));
    PoolHas(w, es, i, j);
    PackReferrersAre(w, c, k);
    var n :| 0 <= n < |art.referrers[k]| && art.referrers[k][n] == ReferrerOf(w, es[i], ms[j]);
  }

  lemma PackBlobsExact(w: World, c: AiCatalog)
    requires Lawful(w) && CollisionFree(w, PackedBytes(w, c.entries))
    requires Packed(w, c).Ok?
    ensures BlobsExact(w, Packed(w, c).value)
  {
    var art, es := Packed(w, c).value, c.entries;
    assert art.blobs == StoreAll(w, map[], AllBytes(w, es)) && art.manifests == AddManifests(w, map[], es);
    StoreKeeps(w, map[], AllBytes(w, es));
    forall digest | digest in art.blobs ensures IsReferenced(art, digest) {
      PackReferenced(w, c, art.blobs[digest]);
    }
    forall digest | IsReferenced(art, digest) ensures digest in art.blobs {
      ReferencedIsStored(w, c, digest);
    }
    hide Packed, StoreAll, AllBytes, IsReferenced, PackedBytes;
  }

  lemma ReferencedIsStored(w: World, c: AiCatalog, digest: string)
    requires Packed(w, c).Ok? && IsReferenced(Packed(w, c).value, digest)
    ensures digest in Packed(w, c).value.blobs
  {
    var art := Packed(w, c).value;
    hide Packed, RefersTo;
    if k :| k in art.manifests && RefersTo(art.manifests[k], digest) {
      ManifestIsStored(w, c, k, digest);
    } else {
      var k, n :| k in art.referrers && 0 <= n < |art.referrers[k]| && RefersTo(art.referrers[k][n], digest);
      ReferrerIsStored(w, c, k, n, digest);
    }
  }

  lemma ManifestIsStored(w: World, c: AiCatalog, k: string, digest: string)
    requires Packed(w, c).Ok? && k in Packed(w, c).value.manifests && RefersTo(Packed(w, c).value.manifests[k], digest)
    ensures digest in Packed(w, c).value.blobs
  {
    var art, es := Packed(w, c).value, c.entries;
    hide Packed, Key, Digest, ManifestOf, RefersTo;
    PackedParts(w, c);
    ManifestsKeep(w, map[], es);
    var i :| 0 <= i < |es| && k == Key(w, es[i]) && art.manifests[k] == ManifestOf(w, es[i]);
    EntryRefers(w, es[i], digest);
    var b :| b in [ConfigBytes(w, es[i])] + DataBytes(w, es[i]) && Digest(w, b) == digest;
    InEntry(w, es[i], b);
    EntryIsStored(w, c, i, b);
  }

  lemma ReferrerIsStored(w: World, c: AiCatalog, k: string, n: nat, digest: string)
    requires Packed(w, c).Ok? && k in Packed(w, c).value.referrers && n < |Packed(w, c).value.referrers[k]|
    requires RefersTo(Packed(w, c).value.referrers[k][n], digest)
    ensures digest in Packed(w, c).value.blobs
  {
    var art, es := Packed(w, c).value, c.entries;
    hide Packed, Key, ReferrerOf, RefersTo;
    PackReferrersAre(w, c, k);
    InPool(w, es, k, art.referrers[k][n]);
    var i, j :| 0 <= i < |es| && 0 <= j < |es[i].trustManifests| && Key(w, es[i]) == k
                && art.referrers[k][n] == ReferrerOf(w, es[i], es[i].trustManifests[j]);
    TrustIsStored(w, c, i, j, digest);
  }

  lemma EntryIsStored(w: World, c: AiCatalog, i: nat, b: Bytes)
    requires Packed(w, c).Ok? && i < |c.entries| && b in EntryBytes(w, c.entries[i])
    ensures Digest(w, b) in Packed(w, c).value.blobs
  {
    PackedParts(w, c);
    InAllBytes(w, c.entries, i, b);
    StoreKeeps(w, map[], AllBytes(w, c.entries));
    hide Packed, StoreAll, AllBytes, EntryBytes, Digest;
  }

  lemma TrustIsStored(w: World, c: AiCatalog, i: nat, j: nat, digest: string)
    requires Packed(w, c).Ok? && i < |c.entries| && j < |c.entries[i].trustManifests|
    requires RefersTo(ReferrerOf(w, c.entries[i], c.entries[i].trustManifests[j]), digest)
    ensures digest in Packed(w, c).value.blobs
  {
    var e := c.entries[i];
    var m := e.trustManifests[j];
    TrustRefers(w, e, m, digest);
    InTrustBytes(w, e.trustManifests, j);
    hide Packed, Digest, ReferrerOf, RefersTo, PayloadBytes, EntryBytes, TrustBytes;
    InEntry(w, e, w.trustBytes(m.fields));
    InEntry(w, e, PayloadBytes(w, m));
    EntryIsStored(w, c, i, w.trustBytes(m.fields));
    EntryIsStored(w, c, i, PayloadBytes(w, m));
  }

  lemma InEntry(w: World, e: CatalogEntry, b: Bytes)
    ensures b in EntryBytes(w, e) <==> b in [ConfigBytes(w, e)] + DataBytes(w, e) || b in TrustBytes(w, e.trustManifests)
  {
  }

  lemma {:induction false} PackConsistent(w: World, c: AiCatalog)
    requires Lawful(w) && CollisionFree(w, PackedBytes(w, c.entries))
    requires Packed(w, c).Ok?
    ensures Consistent(w, Packed(w, c).value)
  {
    PackIndex(w, c);
    PackManifests(w, c);
    PackReferrers(w, c);
    PackBlobsExact(w, c);
  }

  // ---------------------------------------------------------------- attaching keeps it

  lemma SignatureRefers(w: World, a: Attachment, subject: Descriptor, digest: string)
    ensures RefersTo(SignatureReferrer(w, a, subject), digest) <==>
            exists b :: b in SignatureBytes(w, a) && Digest(w, b) == digest
  {
    hide Digest, SignatureConfigBytes, CosignAnnotations;
    var m, bs := SignatureReferrer(w, a, subject), SignatureBytes(w, a);
    assert m.layers[0].digest == Digest(w, a.signature) && bs[0] == SignatureConfigBytes(w, a) && bs[1] == a.signature;
    if a.bundle.Some? {
      assert m.layers[1].digest == Digest(w, a.bundle.value) && bs[2] == a.bundle.value;
    }
    if i :| 0 <= i < |m.layers| && m.layers[i].digest == digest {
      assert Digest(w, bs[i + 1]) == digest;
    }
    if b :| b in bs && Digest(w, b) == digest {
      var i :| 0 <= i < |bs| && bs[i] == b;
      assert i == 0 || m.layers[i - 1].digest == digest;
    }
  }

  lemma KeyRefers(w: World, a: Attachment, subject: Descriptor, digest: string)
    ensures RefersTo(KeyReferrer(w, a, subject), digest) <==>
            Digest(w, KeyConfigBytes(w, a)) == digest || Digest(w, a.publicKey) == digest
  {
    hide Digest, KeyConfigBytes, CosignAnnotations;
    assert |KeyReferrer(w, a, subject).layers| == 1;
    assert KeyReferrer(w, a, subject).layers[0].digest == Digest(w, a.publicKey);
  }

  lemma AttachedRefers(w: World, a: Attachment, subject: Descriptor, digest: string)
    ensures RefersTo(SignatureReferrer(w, a, subject), digest) || RefersTo(KeyReferrer(w, a, subject), digest) <==>
            exists b :: b in AttachedBytes(w, a) && Digest(w, b) == digest
  {
    hide Digest, SignatureBytes, KeyConfigBytes, SignatureReferrer, KeyReferrer, RefersTo;
    SignatureRefers(w, a, subject, digest);
    KeyRefers(w, a, subject, digest);
    var last := [KeyConfigBytes(w, a), a.publicKey];
    assert last[0] in AttachedBytes(w, a) && last[1] in AttachedBytes(w, a);
    assert forall b :: b in AttachedBytes(w, a) <==> b in SignatureBytes(w, a) || b in last;
  }

  /** The two referrers that a call adds. */
  function NewReferrers(w: World, a: Attachment, subject: Descriptor): seq<ImageManifest> {
    [SignatureReferrer(w, a, subject), KeyReferrer(w, a, subject)]
  }

  lemma AttachedUnder(w: World, art: ArtifactSet, a: Attachment, subject: Descriptor, k: string)
    requires FindSubject(art.index.manifests, a.subject) == Some(subject)
    ensures var refs := Attached(w, art, a).referrers;
            && Under(refs, k) == Under(art.referrers, k) + (if k == a.subject then NewReferrers(w, a, subject) else [])
            && (k in refs <==> k in art.referrers || k == a.subject)
  {
    hide SignatureReferrer, KeyReferrer;
    if k == a.subject {
      Associate(Under(art.referrers, k), [SignatureReferrer(w, a, subject)], [KeyReferrer(w, a, subject)]);
      assert [SignatureReferrer(w, a, subject)] + [KeyReferrer(w, a, subject)] == NewReferrers(w, a, subject);
    } else {
      Append(Under(art.referrers, k), []);
    }
  }

  lemma AttachFiled(w: World, art: ArtifactSet, a: Attachment)
    requires ReferrersFiled(art)
    ensures ReferrersFiled(Attached(w, art, a))
  {
    var next, found := Attached(w, art, a), FindSubject(art.index.manifests, a.subject);
    SubjectFound(art.index.manifests, a.subject);
    if found.Some? {
      forall k | k in next.referrers
        ensures next.referrers[k] != []
        ensures forall i :: 0 <= i < |next.referrers[k]| ==> IsReferrerOf(next, next.referrers[k][i], k)
      {
        AttachedUnder(w, art, a, found.value, k);
        SubjectsKept(w, a, found.value);
        var old' := Under(art.referrers, k);
        forall i | 0 <= i < |next.referrers[k]| ensures IsReferrerOf(next, next.referrers[k][i], k) {
          if i < |old'| {
            assert next.referrers[k][i] == old'[i];
          } else {
            assert next.referrers[k][i] == NewReferrers(w, a, found.value)[i - |old'|];
          }
        }
        hide Attached;
      }
    }
  }

  lemma SubjectsKept(w: World, a: Attachment, subject: Descriptor)
    ensures SignatureReferrer(w, a, subject).subject == Some(subject) && KeyReferrer(w, a, subject).subject == Some(subject)
  {
  }

  lemma AttachedIndex(w: World, art: ArtifactSet, a: Attachment)
    ensures Attached(w, art, a).index == art.index && Attached(w, art, a).manifests == art.manifests
    ensures FindSubject(art.index.manifests, a.subject).Some? ==>
              Attached(w, art, a).blobs == StoreAll(w, art.blobs, AttachedBytes(w, a))
    ensures FindSubject(art.index.manifests, a.subject).None? ==> Attached(w, art, a) == art
  {
  }

  lemma AttachedReferenced(w: World, art: ArtifactSet, a: Attachment, digest: string)
    requires FindSubject(art.index.manifests, a.subject).Some?
    ensures IsReferenced(Attached(w, art, a), digest) <==>
            IsReferenced(art, digest) || exists b :: b in AttachedBytes(w, a) && Digest(w, b) == digest
  {
    var next, subject := Attached(w, art, a), FindSubject(art.index.manifests, a.subject).value;
    AttachedIndex(w, art, a);
    AttachedRefers(w, a, subject, digest);
    hide Digest, SignatureReferrer, KeyReferrer, RefersTo, AttachedBytes, Attached, FindSubject;
    if k, i :| k in next.referrers && 0 <= i < |next.referrers[k]| && RefersTo(next.referrers[k][i], digest) {
      ReferrersOfAttached(w, art, a, k, i);
    }
    if k, i :| k in art.referrers && 0 <= i < |art.referrers[k]| && RefersTo(art.referrers[k][i], digest) {
      ReferrerStays(w, art, a, k, i);
      assert RefersTo(next.referrers[k][i], digest);
    }
    if b :| b in AttachedBytes(w, a) && Digest(w, b) == digest {
      NewReferrersAttached(w, art, a);
    }
  }

  lemma ReferrersOfAttached(w: World, art: ArtifactSet, a: Attachment, k: string, i: nat)
    requires FindSubject(art.index.manifests, a.subject).Some?
    requires k in Attached(w, art, a).referrers && i < |Attached(w, art, a).referrers[k]|
    ensures var r := Attached(w, art, a).referrers[k][i];
            var subject := FindSubject(art.index.manifests, a.subject).value;
            || (k in art.referrers && i < |art.referrers[k]| && r == art.referrers[k][i])
            || r == SignatureReferrer(w, a, subject) || r == KeyReferrer(w, a, subject)
  {
    hide Attached, FindSubject, SignatureReferrer, KeyReferrer;
    var subject := FindSubject(art.index.manifests, a.subject).value;
    AttachedUnder(w, art, a, subject, k);
    if i >= |Under(art.referrers, k)| {
      assert Attached(w, art, a).referrers[k][i] == NewReferrers(w, a, subject)[i - |Under(art.referrers, k)|];
    }
  }

  lemma ReferrerStays(w: World, art: ArtifactSet, a: Attachment, k: string, i: nat)
    requires FindSubject(art.index.manifests, a.subject).Some?
    requires k in art.referrers && i < |art.referrers[k]|
    ensures var refs := Attached(w, art, a).referrers;
            k in refs && i < |refs[k]| && refs[k][i] == art.referrers[k][i]
  {
    hide Attached, FindSubject, NewReferrers;
    AttachedUnder(w, art, a, FindSubject(art.index.manifests, a.subject).value, k);
  }

  lemma NewReferrersAttached(w: World, art: ArtifactSet, a: Attachment)
    requires FindSubject(art.index.manifests, a.subject).Some?
    ensures var refs := Attached(w, art, a).referrers;
            var subject := FindSubject(art.index.manifests, a.subject).value;
            var n := |Under(art.referrers, a.subject)|;
            && a.subject in refs && |refs[a.subject]| == n + 2
            && refs[a.subject][n] == SignatureReferrer(w, a, subject) && refs[a.subject][n + 1] == KeyReferrer(w, a, subject)
  {
    hide Attached, FindSubject, SignatureReferrer, KeyReferrer;
    AttachedUnder(w, art, a, FindSubject(art.index.manifests, a.subject).value, a.subject);
  }

  lemma AttachBlobs(w: World, art: ArtifactSet, a: Attachment)
    requires BlobsExact(w, art)
    ensures BlobsExact(w, Attached(w, art, a))
  {
    AttachedIndex(w, art, a);
    if FindSubject(art.index.manifests, a.subject).Some? {
      var next := Attached(w, art, a);
      StoreKeeps(w, art.blobs, AttachedBytes(w, a));
      forall digest ensures digest in next.blobs <==> IsReferenced(next, digest) {
        AttachedReferenced(w, art, a, digest);
        hide IsReferenced, AttachedBytes, Attached, StoreAll, FindSubject, Digest;
      }
    }
  }

  /** Every call keeps the store consistent, whatever is attached and to whichever subject. */
  lemma AttachConsistent(w: World, art: ArtifactSet, a: Attachment)
    requires Consistent(w, art)
    ensures Consistent(w, Attached(w, art, a))
  {
    AttachedIndex(w, art, a);
    AttachFiled(w, art, a);
    AttachBlobs(w, art, a);
    hide Attached, FindSubject, BlobsExact, ReferrersFiled, Digest;
    assert forall k :: Lists(Attached(w, art, a).index.manifests, k) <==> Lists(art.index.manifests, k);
  }

  // ---------------------------------------------------------------- attaching and unpacking

  /** None of `bs` has the digest of a different stored byte string. */
  ghost predicate NoClash(w: World, blobs: map<string, Bytes>, bs: seq<Bytes>) {
    forall b :: b in bs && Digest(w, b) in blobs ==> blobs[Digest(w, b)] == b
  }

  ghost predicate Extends(blobs: map<string, Bytes>, more: map<string, Bytes>) {
    forall k :: k in blobs ==> k in more && more[k] == blobs[k]
  }

  lemma {:induction false} StoreExtends(w: World, blobs: map<string, Bytes>, bs: seq<Bytes>)
    requires Keyed(w, blobs) && NoClash(w, blobs, bs)
    ensures Extends(blobs, StoreAll(w, blobs, bs))
  {
    StoreKeeps(w, blobs, bs);
    hide Digest, StoreAll;
  }

  lemma {:induction false} TrustOfSame(w: World, art: ArtifactSet, next: ArtifactSet, rs: seq<ImageManifest>, tail: seq<ImageManifest>)
    requires Extends(art.blobs, next.blobs)
    requires forall i :: 0 <= i < |rs| ==> rs[i].config.digest in art.blobs
    requires forall i :: 0 <= i < |tail| ==> tail[i].artifactType != Some(TRUST_ARTIFACT_TYPE)
    ensures TrustOf(w, next, rs + tail) == TrustOf(w, art, rs)
    decreases |rs| + |tail|
  {
    hide ReadTrust;
    if rs == [] {
      Append(rs, tail);
      if tail != [] {
        TrustOfSame(w, art, next, [], tail[1..]);
        Append([], tail[1..]);
      }
    } else {
      assert (rs + tail)[0] == rs[0] && (rs + tail)[1..] == rs[1..] + tail;
      TrustOfSame(w, art, next, rs[1..], tail);
    }
  }

  lemma UnpackEntrySame(w: World, art: ArtifactSet, a: Attachment, d: Descriptor)
    requires Consistent(w, art) && NoClash(w, art.blobs, AttachedBytes(w, a)) && d in art.index.manifests
    ensures UnpackEntry(w, Attached(w, art, a), d) == UnpackEntry(w, art, d)
  {
    var next := Attached(w, art, a);
    AttachedIndex(w, art, a);
    if FindSubject(art.index.manifests, a.subject).Some? {
      StoreExtends(w, art.blobs, AttachedBytes(w, a));
      assert d.digest in art.manifests by { assert Lists(art.index.manifests, d.digest); }
      hide Attached, StoreAll, FindSubject, NewReferrers, Digest, AttachedBytes, IndexTyped, ManifestsExact, ReferrersFiled;
      TrustSame(w, art, a, d);
      ContentSame(w, art, next, d.digest);
      hide *;
      EntryDepends(w, art, next, d);
    }
  }

  lemma TrustSame(w: World, art: ArtifactSet, a: Attachment, d: Descriptor)
    requires BlobsExact(w, art) && Extends(art.blobs, Attached(w, art, a).blobs)
    requires FindSubject(art.index.manifests, a.subject).Some?
    ensures var next := Attached(w, art, a);
            TrustOf(w, next, Under(next.referrers, d.digest)) == TrustOf(w, art, Under(art.referrers, d.digest))
  {
    hide Attached, FindSubject, NewReferrers, Digest, TrustOf;
    var next, subject := Attached(w, art, a), FindSubject(art.index.manifests, a.subject).value;
    AttachedUnder(w, art, a, subject, d.digest);
    CosignTyped(w, a, subject);
    var rs := Under(art.referrers, d.digest);
    forall i | 0 <= i < |rs| ensures rs[i].config.digest in art.blobs {
      assert IsReferenced(art, rs[i].config.digest) by { assert RefersTo(art.referrers[d.digest][i], rs[i].config.digest); }
    }
    TrustOfSame(w, art, next, rs, if d.digest == a.subject then NewReferrers(w, a, subject) else []);
  }

  lemma EntryDepends(w: World, x: ArtifactSet, y: ArtifactSet, d: Descriptor)
    requires x.manifests == y.manifests && d.digest in x.manifests
    requires Blob(x, x.manifests[d.digest].config.digest) == Blob(y, x.manifests[d.digest].config.digest)
    requires forall config :: ContentOf(w, x, x.manifests[d.digest], config) == ContentOf(w, y, x.manifests[d.digest], config)
    requires TrustOf(w, x, Under(x.referrers, d.digest)) == TrustOf(w, y, Under(y.referrers, d.digest))
    ensures UnpackEntry(w, x, d) == UnpackEntry(w, y, d)
  {
    hide Blob, ContentOf, TrustOf, Under;
  }

  lemma CatalogDepends(w: World, x: ArtifactSet, y: ArtifactSet)
    requires x.index == y.index
    requires UnpackEntries(w, x, x.index.manifests) == UnpackEntries(w, y, x.index.manifests)
    ensures Unpacked(w, x) == Unpacked(w, y)
  {
    hide UnpackEntries, Annotation;
  }

  lemma CosignTyped(w: World, a: Attachment, subject: Descriptor)
    ensures forall i :: 0 <= i < 2 ==> NewReferrers(w, a, subject)[i].artifactType != Some(TRUST_ARTIFACT_TYPE)
    ensures |NewReferrers(w, a, subject)| == 2
  {
    assert COSIGN_SIGNATURE_ARTIFACT_TYPE[27] == 'c' && TRUST_ARTIFACT_TYPE[27] == 't' && COSIGN_KEY_ARTIFACT_TYPE[27] == 'c';
  }

  lemma ContentSame(w: World, art: ArtifactSet, next: ArtifactSet, k: string)
    requires BlobsExact(w, art) && Extends(art.blobs, next.blobs) && k in art.manifests
    ensures var m := art.manifests[k];
            && Blob(next, m.config.digest) == Blob(art, m.config.digest)
            && forall config :: ContentOf(w, next, m, config) == ContentOf(w, art, m, config)
  {
    var m := art.manifests[k];
    assert RefersTo(m, m.config.digest) && IsReferenced(art, m.config.digest);
    if m.layers != [] {
      assert RefersTo(m, m.layers[0].digest) && IsReferenced(art, m.layers[0].digest);
    }
    hide Digest, IsReferenced;
  }

  lemma {:induction false} UnpackEntriesSame(w: World, art: ArtifactSet, a: Attachment, ds: seq<Descriptor>)
    requires Consistent(w, art) && NoClash(w, art.blobs, AttachedBytes(w, a))
    requires forall i :: 0 <= i < |ds| ==> ds[i] in art.index.manifests
    ensures UnpackEntries(w, Attached(w, art, a), ds) == UnpackEntries(w, art, ds)
    decreases ds
  {
    hide Consistent, NoClash, AttachedBytes, Attached, UnpackEntry;
    if ds != [] {
      UnpackEntrySame(w, art, a, ds[0]);
      UnpackEntriesSame(w, art, a, ds[1..]);
    }
  }

  /** Attaching verification material never changes the catalog that is unpacked. */
  lemma {:induction false} AttachKeepsCatalog(w: World, art: ArtifactSet, a: Attachment)
    requires Consistent(w, art) && NoClash(w, art.blobs, AttachedBytes(w, a))
    ensures Unpacked(w, Attached(w, art, a)) == Unpacked(w, art)
  {
    AttachedIndex(w, art, a);
    UnpackEntriesSame(w, art, a, art.index.manifests);
    hide *;
    CatalogDepends(w, Attached(w, art, a), art);
  }

  // ---------------------------------------------------------------- whole runs

  function CallBytes(w: World, calls: seq<Attachment>): seq<Bytes> {
    if calls == [] then [] else AttachedBytes(w, calls[0]) + CallBytes(w, calls[1..])
  }

  /** Every byte string that a run hashes. */
  function RunBytes(w: World, c: AiCatalog, calls: seq<Attachment>): seq<Bytes> {
    PackedBytes(w, c.entries) + CallBytes(w, calls)
  }

  ghost predicate StoredIn(blobs: map<string, Bytes>, bs: seq<Bytes>) {
    forall k :: k in blobs ==> blobs[k] in bs
  }

  lemma {:induction false} RunFrom(w: World, art: ArtifactSet, calls: seq<Attachment>, all: seq<Bytes>)
    requires Consistent(w, art) && CollisionFree(w, all)
    requires StoredIn(art.blobs, all) && forall b :: b in CallBytes(w, calls) ==> b in all
    ensures var final := AttachedAll(w, art, calls);
            && Consistent(w, final) && final.index == art.index && final.manifests == art.manifests
            && Unpacked(w, final) == Unpacked(w, art)
    decreases calls
  {
    if calls != [] {
      var a, bs := calls[0], AttachedBytes(w, calls[0]);
      assert forall b :: b in CallBytes(w, calls) <==> b in bs || b in CallBytes(w, calls[1..]);
      hide CallBytes, AttachedBytes, Attached, StoreAll, Unpacked, FindSubject, Digest, IndexTyped, ManifestsExact, ReferrersFiled, IsReferenced;
      AttachConsistent(w, art, a);
      AttachKeepsCatalog(w, art, a);
      AttachedIndex(w, art, a);
      StoreKeeps(w, art.blobs, bs);
      RunFrom(w, Attached(w, art, a), calls[1..], all);
    }
  }

  /** Every state that packing and any number of calls reach is consistent, and unpacks to
      what was packed. */
  lemma {:induction false} RunConsistent(w: World, c: AiCatalog, calls: seq<Attachment>)
    requires Lawful(w) && CollisionFree(w, RunBytes(w, c, calls)) && Packed(w, c).Ok?
    ensures var final := AttachedAll(w, Packed(w, c).value, calls);
            Consistent(w, final) && Unpacked(w, final) == Unpacked(w, Packed(w, c).value)
  {
    var all := RunBytes(w, c, calls);
    assert forall b :: b in PackedBytes(w, c.entries) ==> b in all;
    assert forall b :: b in CallBytes(w, calls) ==> b in all;
    PackConsistent(w, c);
    PackedParts(w, c);
    StoreKeeps(w, map[], AllBytes(w, c.entries));
    InPacked(w, c.entries);
    hide Packed, StoreAll, AllBytes, PackedBytes, RunBytes, CallBytes, Lawful, Digest, Consistent, Unpacked;
    RunFrom(w, Packed(w, c).value, calls, all);
  }

  lemma InPacked(w: World, es: seq<CatalogEntry>)
    ensures forall b :: b in AllBytes(w, es) ==> b in PackedBytes(w, es)
  {
  }
}
