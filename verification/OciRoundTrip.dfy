// Packing and unpacking: what unpacking restores, and exactly when it is the catalog.

module OciRoundTrip {
  import opened Basics
  import opened Catalog
  import opened Trust
  import opened OciModel

  // ---------------------------------------------------------------- hypotheses on serde

  ghost predicate SurvivesTrust(w: World, m: TrustManifest) {
    && w.data.read(w.trustBytes(m.fields)) == Some(w.trust.toJson(m.fields))
    && w.trust.fromJson(w.trust.toJson(m.fields)) == Some(m.fields)
  }

  ghost predicate SurvivesEntry(w: World, e: CatalogEntry) {
    && w.config.Keeps(ConfigOf(e))
    && w.data.KeepsAny(e.data)
    && forall i :: 0 <= i < |e.trustManifests| ==> SurvivesTrust(w, e.trustManifests[i])
  }

  ghost predicate SurvivesEntries(w: World, es: seq<CatalogEntry>) {
    forall i :: 0 <= i < |es| ==> SurvivesEntry(w, es[i])
  }

  /** Every value of the catalog survives its own serialization. */
  ghost predicate Survives(w: World, c: AiCatalog) {
    && SurvivesEntries(w, c.entries)
    && w.hostText.KeepsAny(c.host)
    && w.extrasText.KeepsAny(c.extensions)
    && w.signatureText.KeepsAny(c.signature)
    && w.valueText.KeepsAny(c.additionalSignatures)
    && w.extrasText.Keeps(c.extraFields)
  }

  // ---------------------------------------------------------------- what unpacking restores

  /** All trust manifests of the entries that are the same release as `e`, in order. */
  function Pool(es: seq<CatalogEntry>, e: CatalogEntry): seq<TrustManifest> {
    if es == [] then []
    else (if Release(es[0]) == Release(e) then es[0].trustManifests else []) + Pool(es[1..], e)
  }

  function Restored(w: World, m: TrustManifest): TrustManifest {
    TrustManifest(m.fields, Some(w.trust.toJson(m.fields)))
  }

  function RestoredAll(w: World, ms: seq<TrustManifest>): (rs: seq<TrustManifest>)
    ensures |rs| == |ms|
    ensures forall i :: 0 <= i < |ms| ==> rs[i] == Restored(w, ms[i])
  {
    if ms == [] then [] else [Restored(w, ms[0])] + RestoredAll(w, ms[1..])
  }

  function PooledEntry(w: World, es: seq<CatalogEntry>, e: CatalogEntry): CatalogEntry {
    e.(trustManifests := RestoredAll(w, Pool(es, e)))
  }

  function PooledEntries(w: World, all: seq<CatalogEntry>, es: seq<CatalogEntry>): (r: seq<CatalogEntry>)
    ensures |r| == |es|
    ensures forall i :: 0 <= i < |es| ==> r[i] == PooledEntry(w, all, es[i])
  {
    if es == [] then [] else [PooledEntry(w, all, es[0])] + PooledEntries(w, all, es[1..])
  }

  /** The catalog in which every entry carries the trust manifests of its whole release. */
  function Pooled(w: World, c: AiCatalog): AiCatalog {
    c.(entries := PooledEntries(w, c.entries, c.entries))
  }

  // ---------------------------------------------------------------- the blob store

  ghost predicate Keyed(w: World, blobs: map<string, Bytes>) {
    forall k :: k in blobs ==> k == Digest(w, blobs[k])
  }

  lemma {:induction false} StoreKeeps(w: World, blobs: map<string, Bytes>, bs: seq<Bytes>)
    requires Keyed(w, blobs)
    ensures var r := StoreAll(w, blobs, bs);
            && Keyed(w, r)
            && (forall b :: b in bs ==> Digest(w, b) in r)
            && (forall k :: k in blobs ==> k in r)
            && (forall k :: k in r ==> r[k] in bs || (k in blobs && r[k] == blobs[k]))
    decreases bs
  {
    if bs != [] {
      var next := blobs[Digest(w, bs[0]) := bs[0]];
      StoreKeeps(w, next, bs[1..]);
      assert forall b :: b in bs <==> b == bs[0] || b in bs[1..];
      hide Digest;
    }
  }

  /** Without collisions every stored byte string is found under its digest. */
  lemma StoreHolds(w: World, bs: seq<Bytes>, b: Bytes)
    requires CollisionFree(w, bs) && b in bs
    ensures var r := StoreAll(w, map[], bs); Digest(w, b) in r && r[Digest(w, b)] == b
  {
    StoreKeeps(w, map[], bs);
    hide StoreAll, Digest;
  }

  lemma {:induction false} ManifestsKeep(w: World, manifests: map<string, ImageManifest>, es: seq<CatalogEntry>)
    ensures var r := AddManifests(w, manifests, es);
            && (forall i :: 0 <= i < |es| ==> Key(w, es[i]) in r)
            && (forall k :: k in manifests ==> k in r)
            && (forall k :: k in r ==> (k in manifests && r[k] == manifests[k]) ||
                                       exists i :: 0 <= i < |es| && k == Key(w, es[i]) && r[k] == ManifestOf(w, es[i]))
    decreases es
  {
    hide Key, ManifestOf;
    if es != [] {
      var next := manifests[Key(w, es[0]) := ManifestOf(w, es[0])];
      ManifestsKeep(w, next, es[1..]);
      var r := AddManifests(w, manifests, es);
      assert r == AddManifests(w, next, es[1..]);
      forall k | k in r && !(k in manifests && r[k] == manifests[k])
        ensures exists i :: 0 <= i < |es| && k == Key(w, es[i]) && r[k] == ManifestOf(w, es[i])
      {
        if k in next && r[k] == next[k] {
          assert k == Key(w, es[0]) && r[k] == ManifestOf(w, es[0]);
        } else {
          var i :| 0 <= i < |es[1..]| && k == Key(w, es[1..][i]) && r[k] == ManifestOf(w, es[1..][i]);
          assert es[1..][i] == es[i + 1];
        }
      }
      forall i | 0 <= i < |es| ensures Key(w, es[i]) in r {
        if i > 0 {
          assert es[i] == es[1..][i - 1];
        } else {
          assert Key(w, es[0]) in next;
        }
      }
    }
  }

  lemma {:induction false} InManifestBytes(w: World, es: seq<CatalogEntry>, i: nat)
    requires i < |es|
    ensures ManifestBytes(w, es[i]) in PackedBytes(w, es)
    ensures ManifestBytes(w, es[i]) in AllManifestBytes(w, es)
  {
    if i > 0 {
      InManifestBytes(w, es[1..], i - 1);
    }
  }

  lemma {:induction false} InAllBytes(w: World, es: seq<CatalogEntry>, i: nat, b: Bytes)
    requires i < |es| && b in EntryBytes(w, es[i])
    ensures b in AllBytes(w, es)
    ensures b in PackedBytes(w, es)
  {
    hide EntryBytes;
    if i > 0 {
      InAllBytes(w, es[1..], i - 1, b);
    }
  }

  lemma {:induction false} InTrustBytes(w: World, ms: seq<TrustManifest>, i: nat)
    requires i < |ms|
    ensures w.trustBytes(ms[i].fields) in TrustBytes(w, ms) && PayloadBytes(w, ms[i]) in TrustBytes(w, ms)
  {
    hide PayloadBytes;
    if i > 0 {
      InTrustBytes(w, ms[1..], i - 1);
    }
  }

  // ---------------------------------------------------------------- keys

  /** The digest of an entry's manifest identifies its release: all but the trust manifests. */
  lemma KeyExact(w: World, es: seq<CatalogEntry>, i: nat, j: nat)
    requires Lawful(w) && CollisionFree(w, PackedBytes(w, es)) && SurvivesEntries(w, es)
    requires i < |es| && j < |es|
    ensures Key(w, es[i]) == Key(w, es[j]) <==> Release(es[i]) == Release(es[j])
  {
    var a, b := es[i], es[j];
    if Key(w, a) == Key(w, b) {
      InManifestBytes(w, es, i);
      InManifestBytes(w, es, j);
      assert w.manifest.Keeps(ManifestOf(w, a)) && w.manifest.Keeps(ManifestOf(w, b));
      assert ManifestOf(w, a) == ManifestOf(w, b) by {
        hide ManifestOf, PackedBytes, AllManifestBytes, Digest;
      }
      InAllBytes(w, es, i, ConfigBytes(w, a));
      InAllBytes(w, es, j, ConfigBytes(w, b));
      SameManifest(w, a, b);
      SameConfig(w, es, a, b);
      SameData(w, es, i, j);
    } else if Release(a) == Release(b) {
      SameRelease(w, a, b);
    }
  }

  lemma SameManifest(w: World, a: CatalogEntry, b: CatalogEntry)
    requires ManifestOf(w, a) == ManifestOf(w, b)
    ensures a.entryType == b.entryType && DataLayers(w, a) == DataLayers(w, b)
    ensures Digest(w, ConfigBytes(w, a)) == Digest(w, ConfigBytes(w, b))
  {
    hide DataLayers, EntryAnnotations, Digest, ConfigBytes;
  }

  lemma SameConfig(w: World, es: seq<CatalogEntry>, a: CatalogEntry, b: CatalogEntry)
    requires CollisionFree(w, PackedBytes(w, es)) && w.config.Keeps(ConfigOf(a)) && w.config.Keeps(ConfigOf(b))
    requires ConfigBytes(w, a) in PackedBytes(w, es) && ConfigBytes(w, b) in PackedBytes(w, es)
    requires Digest(w, ConfigBytes(w, a)) == Digest(w, ConfigBytes(w, b))
    ensures ConfigOf(a) == ConfigOf(b)
  {
    hide PackedBytes, Digest, ConfigOf;
  }

  lemma SameData(w: World, es: seq<CatalogEntry>, i: nat, j: nat)
    requires CollisionFree(w, PackedBytes(w, es)) && SurvivesEntries(w, es)
    requires i < |es| && j < |es| && DataLayers(w, es[i]) == DataLayers(w, es[j])
    ensures es[i].data == es[j].data
  {
    var a, b := es[i], es[j];
    if a.data.Some? && b.data.Some? {
      assert DataLayers(w, a)[0] == DataLayers(w, b)[0];
      InAllBytes(w, es, i, w.data.write(a.data.value));
      InAllBytes(w, es, j, w.data.write(b.data.value));
      hide PackedBytes, Digest, DataLayers;
      assert SurvivesEntry(w, a) && SurvivesEntry(w, b);
    } else {
      assert |DataLayers(w, a)| == |DataLayers(w, b)|;
    }
  }

  lemma SameRelease(w: World, a: CatalogEntry, b: CatalogEntry)
    requires Release(a) == Release(b)
    ensures ManifestOf(w, a) == ManifestOf(w, b)
  {
    assert a.entryType == Release(a).entryType && b.entryType == Release(b).entryType;
    assert a.data == Release(a).data && b.data == Release(b).data;
    assert ConfigOf(a) == ConfigOf(Release(a)) && ConfigOf(b) == ConfigOf(Release(b));
    assert EntryAnnotations(a) == EntryAnnotations(Release(a)) && EntryAnnotations(b) == EntryAnnotations(Release(b));
    hide Release, ConfigOf, EntryAnnotations;
  }

  lemma ManifestFound(w: World, es: seq<CatalogEntry>, i: nat)
    requires Lawful(w) && CollisionFree(w, PackedBytes(w, es)) && i < |es|
    ensures var r := AddManifests(w, map[], es); Key(w, es[i]) in r && r[Key(w, es[i])] == ManifestOf(w, es[i])
  {
    ManifestsKeep(w, map[], es);
    var r := AddManifests(w, map[], es);
    var j :| 0 <= j < |es| && Key(w, es[i]) == Key(w, es[j]) && r[Key(w, es[i])] == ManifestOf(w, es[j]);
    InManifestBytes(w, es, i);
    InManifestBytes(w, es, j);
    assert w.manifest.Keeps(ManifestOf(w, es[i])) && w.manifest.Keeps(ManifestOf(w, es[j]));
    hide PackedBytes, AllManifestBytes, ManifestOf, AddManifests, Digest;
  }

  // ---------------------------------------------------------------- referrers

  /** The trust referrers that packing files under `key`, in order. */
  function PoolReferrers(w: World, es: seq<CatalogEntry>, key: string): seq<ImageManifest> {
    if es == [] then []
    else (if Key(w, es[0]) == key then ReferrersOf(w, es[0], es[0].trustManifests) else []) + PoolReferrers(w, es[1..], key)
  }

  lemma {:induction false} ReferAllUnder(referrers: Referrers, key: string, rs: seq<ImageManifest>, k: string)
    ensures Under(ReferAll(referrers, key, rs), k) == Under(referrers, k) + if k == key then rs else []
    ensures k in ReferAll(referrers, key, rs) <==> k in referrers || (k == key && rs != [])
    decreases rs
  {
    if rs == [] {
      Append(Under(referrers, k), []);
    } else {
      var next := Refer(referrers, key, rs[0]);
      ReferAllUnder(next, key, rs[1..], k);
      assert Under(next, k) == if k == key then Under(referrers, k) + [rs[0]] else Under(referrers, k);
      assert rs == [rs[0]] + rs[1..];
      Associate(Under(referrers, k), [rs[0]], rs[1..]);
      hide Refer;
    }
  }

  lemma {:induction false} AddReferrersUnder(w: World, referrers: Referrers, es: seq<CatalogEntry>, k: string)
    ensures Under(AddReferrers(w, referrers, es), k) == Under(referrers, k) + PoolReferrers(w, es, k)
    ensures k in AddReferrers(w, referrers, es) <==> k in referrers || PoolReferrers(w, es, k) != []
    decreases es
  {
    hide Under, ReferAll, ReferrersOf, Key;
    if es == [] {
      Append(Under(referrers, k), []);
    } else {
      var rs := ReferrersOf(w, es[0], es[0].trustManifests);
      var next := ReferAll(referrers, Key(w, es[0]), rs);
      ReferAllUnder(referrers, Key(w, es[0]), rs, k);
      AddReferrersUnder(w, next, es[1..], k);
      Associate(Under(referrers, k), if Key(w, es[0]) == k then rs else [], PoolReferrers(w, es[1..], k));
    }
  }

  lemma {:induction false} TrustOfAppend(w: World, art: ArtifactSet, a: seq<ImageManifest>, b: seq<ImageManifest>)
    requires TrustOf(w, art, a).Ok? && TrustOf(w, art, b).Ok?
    ensures TrustOf(w, art, a + b) == Ok(TrustOf(w, art, a).value + TrustOf(w, art, b).value)
  {
    hide ReadTrust;
    if a == [] {
      Append(a, b);
      Append([], TrustOf(w, art, b).value);
    } else {
      assert (a + b)[0] == a[0] && (a + b)[1..] == a[1..] + b;
      TrustOfAppend(w, art, a[1..], b);
      if a[0].artifactType == Some(TRUST_ARTIFACT_TYPE) {
        var m := ReadTrust(w, art.blobs[a[0].config.digest]).value;
        Associate([m], TrustOf(w, art, a[1..]).value, TrustOf(w, art, b).value);
      }
    }
  }

  /** The blob store gives back the serialized form of these manifests. */
  ghost predicate HoldsTrust(w: World, art: ArtifactSet, ms: seq<TrustManifest>) {
    forall i :: 0 <= i < |ms| ==>
      Blob(art, Digest(w, w.trustBytes(ms[i].fields))) == Ok(w.trustBytes(ms[i].fields)) && SurvivesTrust(w, ms[i])
  }

  lemma {:induction false} TrustOfReferrers(w: World, art: ArtifactSet, e: CatalogEntry, ms: seq<TrustManifest>)
    requires HoldsTrust(w, art, ms)
    ensures TrustOf(w, art, ReferrersOf(w, e, ms)) == Ok(RestoredAll(w, ms))
  {
    hide Digest, Blob, DescriptorOf, PayloadBytes;
    if ms != [] {
      assert Blob(art, Digest(w, w.trustBytes(ms[0].fields))) == Ok(w.trustBytes(ms[0].fields)) && SurvivesTrust(w, ms[0]);
      forall i | 0 <= i < |ms[1..]| ensures ms[1..][i] == ms[i + 1] {
      }
      TrustOfReferrers(w, art, e, ms[1..]);
      var rs := ReferrersOf(w, e, ms);
      assert rs == [ReferrerOf(w, e, ms[0])] + ReferrersOf(w, e, ms[1..]);
      assert rs[1..] == ReferrersOf(w, e, ms[1..]);
      assert ReadTrust(w, w.trustBytes(ms[0].fields)) == Some(Restored(w, ms[0]));
    }
  }

  lemma {:induction false} RestoredAppend(w: World, a: seq<TrustManifest>, b: seq<TrustManifest>)
    ensures RestoredAll(w, a + b) == RestoredAll(w, a) + RestoredAll(w, b)
  {
  }

  /** What is filed under a key restores the trust manifests of the whole release. */
  lemma {:induction false} TrustOfPool(w: World, art: ArtifactSet, es: seq<CatalogEntry>, e: CatalogEntry, key: string)
    requires forall i :: 0 <= i < |es| ==> HoldsTrust(w, art, es[i].trustManifests)
    requires forall i :: 0 <= i < |es| ==> (Key(w, es[i]) == key <==> Release(es[i]) == Release(e))
    ensures TrustOf(w, art, PoolReferrers(w, es, key)) == Ok(RestoredAll(w, Pool(es, e)))
  {
    hide Key, Release, HoldsTrust, ReferrersOf;
    if es != [] {
      assert HoldsTrust(w, art, es[0].trustManifests);
      forall i | 0 <= i < |es[1..]| ensures es[1..][i] == es[i + 1] {
      }
      TrustOfPool(w, art, es[1..], e, key);
      if Key(w, es[0]) == key {
        TrustOfReferrers(w, art, es[0], es[0].trustManifests);
        TrustOfAppend(w, art, ReferrersOf(w, es[0], es[0].trustManifests), PoolReferrers(w, es[1..], key));
        RestoredAppend(w, es[0].trustManifests, Pool(es[1..], e));
      } else {
        Append([], PoolReferrers(w, es[1..], key));
        Append([], Pool(es[1..], e));
      }
    }
  }

  // ---------------------------------------------------------------- entries

  /** All that unpacking needs of the artifact set for one entry. */
  ghost predicate HoldsOne(w: World, art: ArtifactSet, es: seq<CatalogEntry>, i: nat)
    requires i < |es|
  {
    && Key(w, es[i]) in art.manifests && art.manifests[Key(w, es[i])] == ManifestOf(w, es[i])
    && Blob(art, Digest(w, ConfigBytes(w, es[i]))) == Ok(ConfigBytes(w, es[i]))
    && (es[i].data.Some? ==> Blob(art, Digest(w, w.data.write(es[i].data.value))) == Ok(w.data.write(es[i].data.value)))
    && TrustOf(w, art, Under(art.referrers, Key(w, es[i]))) == Ok(RestoredAll(w, Pool(es, es[i])))
  }

  ghost predicate Holds(w: World, art: ArtifactSet, es: seq<CatalogEntry>) {
    forall i :: 0 <= i < |es| ==> HoldsOne(w, art, es, i)
  }

  lemma UnpackOne(w: World, art: ArtifactSet, es: seq<CatalogEntry>, i: nat)
    requires i < |es| && Holds(w, art, es) && SurvivesEntries(w, es) && HasOneContent(es[i])
    ensures UnpackEntry(w, art, DescriptorOf(w, es[i])) == Ok(PooledEntry(w, es, es[i]))
  {
    var e := es[i];
    assert SurvivesEntry(w, e) && HoldsOne(w, art, es, i);
    UnpackContent(w, art, e);
    hide Digest, Blob, TrustOf, ContentOf, RestoredAll, Pool, ConfigBytes, EntryAnnotations, DataLayers, Key;
    assert DescriptorOf(w, e).digest == Key(w, e) by { KeyOfDescriptor(w, e); }
    assert w.config.read(ConfigBytes(w, e)) == Some(ConfigOf(e)) by { ConfigReads(w, e); }
  }

  lemma KeyOfDescriptor(w: World, e: CatalogEntry)
    ensures DescriptorOf(w, e).digest == Key(w, e)
  {
  }

  lemma ConfigReads(w: World, e: CatalogEntry)
    requires w.config.Keeps(ConfigOf(e))
    ensures w.config.read(ConfigBytes(w, e)) == Some(ConfigOf(e))
  {
  }

  lemma UnpackContent(w: World, art: ArtifactSet, e: CatalogEntry)
    requires HasOneContent(e) && w.data.KeepsAny(e.data)
    requires e.data.Some? ==> Blob(art, Digest(w, w.data.write(e.data.value))) == Ok(w.data.write(e.data.value))
    ensures ContentOf(w, art, ManifestOf(w, e), ConfigOf(e)) == Ok(Content(e.url, e.data))
  {
    hide Blob, Digest, EntryAnnotations;
  }

  lemma {:induction false} UnpackAll(w: World, art: ArtifactSet, all: seq<CatalogEntry>, es: seq<CatalogEntry>, from: nat)
    requires from <= |all| && es == all[from..]
    requires Holds(w, art, all) && SurvivesEntries(w, all)
    requires forall i :: 0 <= i < |all| ==> HasOneContent(all[i])
    ensures UnpackEntries(w, art, Descriptors(w, es)) == Ok(PooledEntries(w, all, es))
    decreases |es|
  {
    hide Holds, SurvivesEntries, UnpackEntry, DescriptorOf;
    if es != [] {
      UnpackOne(w, art, all, from);
      UnpackAll(w, art, all, es[1..], from + 1);
      assert Descriptors(w, es) == [DescriptorOf(w, es[0])] + Descriptors(w, es[1..]);
      assert Descriptors(w, es)[1..] == Descriptors(w, es[1..]);
      assert es[0] == all[from];
    }
  }

  lemma PackedHolds(w: World, c: AiCatalog)
    requires Lawful(w) && SurvivesEntries(w, c.entries) && CollisionFree(w, PackedBytes(w, c.entries))
    requires Packed(w, c).Ok?
    ensures Holds(w, Packed(w, c).value, c.entries)
  {
    hide SurvivesEntries, CollisionFree, PackedBytes, HoldsOne, Packed;
    forall i | 0 <= i < |c.entries| ensures HoldsOne(w, Packed(w, c).value, c.entries, i) {
      PackedHoldsOne(w, c, i);
    }
  }

  lemma PackedHoldsOne(w: World, c: AiCatalog, i: nat)
    requires Lawful(w) && SurvivesEntries(w, c.entries) && CollisionFree(w, PackedBytes(w, c.entries))
    requires Packed(w, c).Ok? && i < |c.entries|
    ensures HoldsOne(w, Packed(w, c).value, c.entries, i)
  {
    var es, art := c.entries, Packed(w, c).value;
    ManifestFound(w, es, i);
    BlobHeld(w, c, i, ConfigBytes(w, es[i]));
    if es[i].data.Some? {
      BlobHeld(w, c, i, w.data.write(es[i].data.value));
    }
    forall j | 0 <= j < |es|
      ensures HoldsTrust(w, art, es[j].trustManifests)
      ensures Key(w, es[j]) == Key(w, es[i]) <==> Release(es[j]) == Release(es[i])
    {
      TrustHeld(w, c, j);
      KeyExact(w, es, j, i);
    }
    AddReferrersUnder(w, map[], es, Key(w, es[i]));
    Append([], PoolReferrers(w, es, Key(w, es[i])));
    TrustOfPool(w, art, es, es[i], Key(w, es[i]));
    assert art.referrers == AddReferrers(w, map[], es) && art.manifests == AddManifests(w, map[], es);
    hide Key, ManifestOf, Blob, Digest, ConfigBytes, TrustOf, RestoredAll, Pool, Under, AddReferrers, PoolReferrers,
         AddManifests, Packed, SurvivesEntries, CollisionFree, PackedBytes, HoldsTrust, Release, Lawful;
  }

  lemma BlobHeld(w: World, c: AiCatalog, i: nat, b: Bytes)
    requires CollisionFree(w, PackedBytes(w, c.entries)) && Packed(w, c).Ok? && i < |c.entries|
    requires b in EntryBytes(w, c.entries[i])
    ensures Blob(Packed(w, c).value, Digest(w, b)) == Ok(b)
  {
    InAllBytes(w, c.entries, i, b);
    assert CollisionFree(w, AllBytes(w, c.entries));
    StoreHolds(w, AllBytes(w, c.entries), b);
    assert Packed(w, c).value.blobs == StoreAll(w, map[], AllBytes(w, c.entries));
    hide Digest, StoreAll, AllBytes, Packed;
  }

  lemma TrustHeld(w: World, c: AiCatalog, i: nat)
    requires CollisionFree(w, PackedBytes(w, c.entries)) && Packed(w, c).Ok? && i < |c.entries|
    requires SurvivesEntries(w, c.entries)
    ensures HoldsTrust(w, Packed(w, c).value, c.entries[i].trustManifests)
  {
    var ms := c.entries[i].trustManifests;
    assert SurvivesEntry(w, c.entries[i]);
    hide SurvivesEntries, Digest, Blob, CollisionFree, PackedBytes, TrustBytes, Packed;
    forall j | 0 <= j < |ms|
      ensures Blob(Packed(w, c).value, Digest(w, w.trustBytes(ms[j].fields))) == Ok(w.trustBytes(ms[j].fields))
    {
      InTrustBytes(w, ms, j);
      BlobHeld(w, c, i, w.trustBytes(ms[j].fields));
    }
  }

  // ---------------------------------------------------------------- annotations

  lemma AnnotationsRead(w: World, c: AiCatalog)
    requires Survives(w, c)
    ensures var a := CatalogAnnotations(w, c);
            && SPEC_VERSION in a && a[SPEC_VERSION] == c.specVersion
            && Annotation(a, HOST, w.hostText) == Ok(c.host)
            && Annotation(a, EXTENSIONS, w.extrasText) == Ok(c.extensions)
            && Annotation(a, OciModel.SIGNATURE, w.signatureText) == Ok(c.signature)
            && Annotation(a, OciModel.ADDITIONAL_SIGNATURES, w.valueText) == Ok(c.additionalSignatures)
            && Annotation(a, EXTRA_FIELDS, w.extrasText) == Ok(if c.extraFields == map[] then None else Some(c.extraFields))
  {
    DistinctNames();
    hide SPEC_VERSION, HOST, EXTENSIONS, OciModel.SIGNATURE, OciModel.ADDITIONAL_SIGNATURES, EXTRA_FIELDS, SurvivesEntries, Annotate, Annotation;
    var a0 := map[SPEC_VERSION := c.specVersion];
    var a1 := Annotate(a0, HOST, w.hostText, c.host);
    var a2 := Annotate(a1, EXTENSIONS, w.extrasText, c.extensions);
    var a3 := Annotate(a2, OciModel.SIGNATURE, w.signatureText, c.signature);
    var a4 := Annotate(a3, OciModel.ADDITIONAL_SIGNATURES, w.valueText, c.additionalSignatures);
    AnnotateReads(a0, HOST, w.hostText, c.host);
    AnnotateReads(a1, EXTENSIONS, w.extrasText, c.extensions);
    AnnotateReads(a2, OciModel.SIGNATURE, w.signatureText, c.signature);
    AnnotateReads(a3, OciModel.ADDITIONAL_SIGNATURES, w.valueText, c.additionalSignatures);
    AnnotateReads(a4, EXTRA_FIELDS, w.extrasText, if c.extraFields == map[] then None else Some(c.extraFields));
    var a5 := CatalogAnnotations(w, c);
    SameAnnotation(a1, a5, HOST, w.hostText);
    SameAnnotation(a2, a5, EXTENSIONS, w.extrasText);
    SameAnnotation(a3, a5, OciModel.SIGNATURE, w.signatureText);
    SameAnnotation(a4, a5, OciModel.ADDITIONAL_SIGNATURES, w.valueText);
  }

  lemma AnnotateReads<T>(annotations: Annotations, key: string, codec: Codec<T, string>, value: Option<T>)
    requires key !in annotations && codec.KeepsAny(value)
    ensures var next := Annotate(annotations, key, codec, value);
            && Annotation(next, key, codec) == Ok(value)
            && forall k {:trigger k in next} {:trigger k in annotations} :: k != key ==>
                 (k in next <==> k in annotations) && (k in next ==> next[k] == annotations[k])
  {
  }

  lemma SameAnnotation<T>(a: Annotations, b: Annotations, key: string, codec: Codec<T, string>)
    requires (key in a <==> key in b) && (key in a ==> a[key] == b[key])
    ensures Annotation(a, key, codec) == Annotation(b, key, codec)
  {
  }

  lemma DistinctNames()
    ensures SPEC_VERSION !in {HOST, EXTENSIONS, OciModel.SIGNATURE, OciModel.ADDITIONAL_SIGNATURES, EXTRA_FIELDS}
    ensures HOST !in {EXTENSIONS, OciModel.SIGNATURE, OciModel.ADDITIONAL_SIGNATURES, EXTRA_FIELDS}
    ensures EXTENSIONS !in {OciModel.SIGNATURE, OciModel.ADDITIONAL_SIGNATURES, EXTRA_FIELDS}
    ensures OciModel.SIGNATURE !in {OciModel.ADDITIONAL_SIGNATURES, EXTRA_FIELDS} && OciModel.ADDITIONAL_SIGNATURES != EXTRA_FIELDS
  {
    assert SPEC_VERSION[11] == 's' && HOST[11] == 'h' && EXTENSIONS[11] == 'e' && OciModel.SIGNATURE[11] == 's';
    assert OciModel.ADDITIONAL_SIGNATURES[11] == 'a' && EXTRA_FIELDS[11] == 'e';
    assert SPEC_VERSION[12] == 'p' && OciModel.SIGNATURE[12] == 'i' && EXTENSIONS[14] == 'e' && EXTRA_FIELDS[14] == 'r';
  }

  lemma {:induction false} NoPackError(w: World, es: seq<CatalogEntry>, i: nat)
    requires PackError(w, es) == None && i < |es|
    ensures HasOneContent(es[i]) && Canonicalizes(w, es[i].trustManifests)
  {
    if i > 0 {
      NoPackError(w, es[1..], i - 1);
    }
  }

  // ---------------------------------------------------------------- main results

  /** Unpacking what was packed succeeds, and gives every entry the trust manifests of all
      entries of the same release. */
  lemma {:induction false} UnpackOfPack(w: World, c: AiCatalog)
    requires Lawful(w) && Survives(w, c) && CollisionFree(w, PackedBytes(w, c.entries))
    requires Packed(w, c).Ok?
    ensures Unpacked(w, Packed(w, c).value) == Ok(Pooled(w, c))
  {
    var art := Packed(w, c).value;
    PackedHolds(w, c);
    forall i | 0 <= i < |c.entries| ensures HasOneContent(c.entries[i]) {
      NoPackError(w, c.entries, i);
    }
    assert c.entries[0..] == c.entries;
    UnpackAll(w, art, c.entries, c.entries, 0);
    AnnotationsRead(w, c);
    assert art.index == IndexOf(w, c);
    hide CatalogAnnotations, Annotation, UnpackEntries, PooledEntries, Descriptors, Packed, Survives, PackedBytes, CollisionFree, Lawful, Holds;
  }

  /** Two entries that are equal apart from their trust manifests carry none. */
  predicate NoSharedTrust(es: seq<CatalogEntry>) {
    forall i, j :: 0 <= i < j < |es| && Release(es[i]) == Release(es[j]) ==>
      es[i].trustManifests == [] && es[j].trustManifests == []
  }

  lemma {:induction false} PoolEmpty(es: seq<CatalogEntry>, e: CatalogEntry)
    requires forall i :: 0 <= i < |es| && Release(es[i]) == Release(e) ==> es[i].trustManifests == []
    ensures Pool(es, e) == []
  {
    if es != [] {
      PoolEmpty(es[1..], e);
    }
  }

  lemma {:induction false} PoolAlone(es: seq<CatalogEntry>, i: nat)
    requires i < |es|
    requires forall j :: 0 <= j < |es| && j != i && Release(es[j]) == Release(es[i]) ==> es[j].trustManifests == []
    ensures Pool(es, es[i]) == es[i].trustManifests
  {
    hide Release;
    if i == 0 {
      PoolEmpty(es[1..], es[0]);
      Append(es[0].trustManifests, []);
    } else {
      assert es[1..][i - 1] == es[i];
      forall j | 0 <= j < |es[1..]| ensures es[1..][j] == es[j + 1] {
      }
      PoolAlone(es[1..], i - 1);
      Append([], Pool(es[1..], es[i]));
    }
  }

  lemma {:induction false} PoolCounts(es: seq<CatalogEntry>, e: CatalogEntry, i: nat)
    requires i < |es| && Release(es[i]) == Release(e)
    ensures |Pool(es, e)| >= |es[i].trustManifests|
  {
    if i > 0 {
      PoolCounts(es[1..], e, i - 1);
    }
  }

  lemma {:induction false} PoolCountsBoth(es: seq<CatalogEntry>, e: CatalogEntry, i: nat, j: nat)
    requires i < j < |es| && Release(es[i]) == Release(e) && Release(es[j]) == Release(e)
    ensures |Pool(es, e)| >= |es[i].trustManifests| + |es[j].trustManifests|
  {
    if i > 0 {
      PoolCountsBoth(es[1..], e, i - 1, j - 1);
    } else {
      PoolCounts(es[1..], e, j - 1);
    }
  }

  lemma RestoredSame(w: World, ms: seq<TrustManifest>, ns: seq<TrustManifest>)
    ensures SameManifests(RestoredAll(w, ms), ms)
    ensures SameManifests(RestoredAll(w, ms), ns) ==> |ms| == |ns|
  {
    assert |BareAll(RestoredAll(w, ms))| == |ms| && |BareAll(ns)| == |ns|;
  }

  /** The restored catalog is the catalog that was packed exactly when no two entries that are
      equal apart from their trust manifests carry any. */
  lemma {:induction false} PooledExact(w: World, c: AiCatalog)
    ensures SameCatalog(Pooled(w, c), c) <==> NoSharedTrust(c.entries)
  {
    hide Release;
    var es := c.entries;
    if NoSharedTrust(es) {
      forall i | 0 <= i < |es| ensures SameEntry(Pooled(w, c).entries[i], es[i]) {
        PoolAlone(es, i);
        RestoredSame(w, es[i].trustManifests, es[i].trustManifests);
        PooledRelease(w, es, es[i]);
      }
    }
    if SameCatalog(Pooled(w, c), c) {
      forall i, j | 0 <= i < j < |es| && Release(es[i]) == Release(es[j])
        ensures es[i].trustManifests == [] && es[j].trustManifests == []
      {
        assert SameEntry(Pooled(w, c).entries[i], es[i]) && SameEntry(Pooled(w, c).entries[j], es[j]);
        RestoredSame(w, Pool(es, es[i]), es[i].trustManifests);
        RestoredSame(w, Pool(es, es[j]), es[j].trustManifests);
        PoolCountsBoth(es, es[i], i, j);
        PoolCountsBoth(es, es[j], i, j);
      }
    }
  }

  lemma PooledRelease(w: World, es: seq<CatalogEntry>, e: CatalogEntry)
    ensures Release(PooledEntry(w, es, e)) == Release(e)
  {
  }

  /** When packing succeeds, unpacking restores the catalog if and only if no two entries
      that are equal apart from their trust manifests carry any trust manifest. */
  lemma {:induction false} RestoresExactly(w: World, c: AiCatalog)
    requires Lawful(w) && Survives(w, c) && CollisionFree(w, PackedBytes(w, c.entries))
    requires Packed(w, c).Ok?
    ensures Unpacked(w, Packed(w, c).value).Ok?
    ensures SameCatalog(Unpacked(w, Packed(w, c).value).value, c) <==> NoSharedTrust(c.entries)
  {
    hide Packed, Unpacked, Pooled, Survives, Lawful, CollisionFree, PackedBytes, NoSharedTrust, SameCatalog;
    UnpackOfPack(w, c);
    PooledExact(w, c);
  }

  // ---------------------------------------------------------------- signed payloads

  /** A restored manifest keeps its signed payload exactly when its published JSON and its
      serialization differ in nothing that a signature covers. */
  lemma RestoredPayload(w: World, m: TrustManifest)
    requires SurvivesTrust(w, m)
    requires PayloadOf(w, Restored(w, m)).Some?
    requires PayloadOf(w, m) == PayloadOf(w, Restored(w, m)) ==>
               Strip(SigningJson(w.trust, m)) == Strip(w.trust.toJson(m.fields))
    ensures PayloadOf(w, Restored(w, m)) == PayloadOf(w, m) <==> SameSigned(w.trust.toJson(m.fields), SigningJson(w.trust, m))
    ensures DecodedJson(w.trust, m) == None ==> PayloadOf(w, Restored(w, m)) == PayloadOf(w, m)
  {
    assert SigningJson(w.trust, Restored(w, m)) == w.trust.toJson(m.fields);
    StripExact(w.trust.toJson(m.fields), SigningJson(w.trust, m));
  }
}
