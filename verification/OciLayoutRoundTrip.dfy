// Exporting a consistent artifact set and importing it again gives the same set.

module OciLayoutRoundTrip {
  import opened Basics
  import opened Catalog
  import opened Trust
  import opened OciModel
  import opened OciRoundTrip
  import opened OciInvariant
  import opened OciLayout
  import opened SortedKeys

  // ---------------------------------------------------------------- one namespace of blobs

  /** The byte strings that an export writes as blobs: the index, the manifests, the
      referrers and the blobs proper. */
  ghost predicate IsExported(w: World, art: ArtifactSet, b: Bytes) {
    || b == w.index.write(art.index)
    || (exists k :: k in art.manifests && b == w.manifest.write(art.manifests[k]))
    || (exists k, i :: k in art.referrers && 0 <= i < |art.referrers[k]| && b == w.manifest.write(art.referrers[k][i]))
    || (exists k :: k in art.blobs && b == art.blobs[k])
  }

  /** Different exported byte strings have different digests. */
  ghost predicate ExportCollisionFree(w: World, art: ArtifactSet) {
    forall a, b :: IsExported(w, art, a) && IsExported(w, art, b) && Digest(w, a) == Digest(w, b) ==> a == b
  }

  function PathOf(w: World, b: Bytes): Path { ["blobs", "sha256", Hex(w.crypto.sha256(b))] }

  lemma DigestSplits(w: World, b: Bytes)
    requires Lawful(w)
    ensures SplitDigest(Digest(w, b)) == Ok(("sha256", Hex(w.crypto.sha256(b))))
  {
    var d := Digest(w, b);
    assert |Hex(w.crypto.sha256(b))| == 64 by { assert |w.crypto.sha256(b)| == 32; }
    assert d == "sha256:" + Hex(w.crypto.sha256(b));
    assert forall j :: 0 <= j < 6 ==> d[j] != ':';
    UntilHit(d, 6, IsColon);
    hide Hex, Until, Lawful;
    assert d[..6] == "sha256" && d[7..] == Hex(w.crypto.sha256(b));
  }

  lemma PathIsDigest(w: World, a: Bytes, b: Bytes)
    ensures PathOf(w, a) == PathOf(w, b) <==> Digest(w, a) == Digest(w, b)
  {
    assert PathOf(w, a)[2] == Hex(w.crypto.sha256(a)) && PathOf(w, b)[2] == Hex(w.crypto.sha256(b));
    assert Digest(w, a)[7..] == Hex(w.crypto.sha256(a)) && Digest(w, b)[7..] == Hex(w.crypto.sha256(b));
  }

  ghost predicate KeyedWrites(w: World, writes: Writes) {
    forall i :: 0 <= i < |writes| ==> writes[i].0 == Digest(w, writes[i].1)
  }

  predicate Written(writes: Writes, b: Bytes) {
    exists i :: 0 <= i < |writes| && writes[i].1 == b
  }

  lemma {:induction false} WritesLand(w: World, dir: Dir, writes: Writes)
    requires Lawful(w) && KeyedWrites(w, writes)
    ensures var r := WriteAll(dir, writes);
            && r.error == None
            && (forall p :: p in dir.files ==> p in r.dir.files)
            && (forall b :: Written(writes, b) ==> PathOf(w, b) in r.dir.files)
            && (forall p :: p in r.dir.files ==>
                  (p in dir.files && r.dir.files[p] == dir.files[p]) ||
                  (Written(writes, r.dir.files[p]) && p == PathOf(w, r.dir.files[p])))
    decreases writes
  {
    hide Lawful, Digest, SplitDigest, PathOf;
    if writes != [] {
      var b := writes[0].1;
      WriteLands(w, dir, b);
      var first := WriteBlob(dir, writes[0].0, b);
      forall i | 0 <= i < |writes[1..]| ensures writes[1..][i] == writes[i + 1] {
      }
      WritesLand(w, first.dir, writes[1..]);
      forall x ensures Written(writes, x) <==> x == b || Written(writes[1..], x) {
        WrittenStep(writes, x);
      }
      hide WriteBlob, Written;
    }
  }

  lemma WrittenStep(writes: Writes, x: Bytes)
    requires writes != []
    ensures Written(writes, x) <==> x == writes[0].1 || Written(writes[1..], x)
  {
    if i :| 0 <= i < |writes[1..]| && writes[1..][i].1 == x {
      assert writes[i + 1].1 == x;
    }
    if i :| 0 <= i < |writes| && writes[i].1 == x && i > 0 {
      assert writes[1..][i - 1].1 == x;
    }
  }

  lemma WriteLands(w: World, dir: Dir, b: Bytes)
    requires Lawful(w)
    ensures WriteBlob(dir, Digest(w, b), b).error == None
    ensures WriteBlob(dir, Digest(w, b), b).dir.files == dir.files[PathOf(w, b) := b]
  {
    DigestSplits(w, b);
    hide Lawful, Digest, SplitDigest, Hex;
  }

  // ---- what an export writes

  lemma {:induction false} ManifestWritesAre(w: World, manifests: map<string, ImageManifest>, keys: seq<string>)
    requires forall k :: k in keys ==> k in manifests
    ensures |ManifestWrites(w, manifests, keys)| == |keys|
    ensures forall i :: 0 <= i < |keys| ==> ManifestWrites(w, manifests, keys)[i] == (keys[i], w.manifest.write(manifests[keys[i]]))
  {
    if keys != [] {
      ManifestWritesAre(w, manifests, keys[1..]);
    }
  }

  lemma {:induction false} BlobWritesAre(blobs: map<string, Bytes>, keys: seq<string>)
    requires forall k :: k in keys ==> k in blobs
    ensures |BlobWrites(blobs, keys)| == |keys|
    ensures forall i :: 0 <= i < |keys| ==> BlobWrites(blobs, keys)[i] == (keys[i], blobs[keys[i]])
  {
    if keys != [] {
      BlobWritesAre(blobs, keys[1..]);
    }
  }

  lemma {:induction false} ReferrerWritesAre(w: World, ms: seq<ImageManifest>)
    ensures |ReferrerWrites(w, ms)| == |ms|
    ensures forall i :: 0 <= i < |ms| ==>
              ReferrerWrites(w, ms)[i] == (Digest(w, w.manifest.write(ms[i])), w.manifest.write(ms[i]))
  {
    hide Digest;
    if ms != [] {
      ReferrerWritesAre(w, ms[1..]);
    }
  }

  lemma {:induction false} FlatHas(referrers: Referrers, keys: seq<string>, m: ImageManifest)
    ensures m in Flat(referrers, keys) <==> exists k :: k in keys && m in Under(referrers, k)
  {
    hide Under;
    if keys != [] {
      FlatHas(referrers, keys[1..], m);
      assert forall k :: k in keys <==> k == keys[0] || k in keys[1..];
    }
  }

  lemma InAllReferrers(art: ArtifactSet, m: ImageManifest)
    ensures m in AllReferrers(art) <==> exists k, i :: k in art.referrers && 0 <= i < |art.referrers[k]| && m == art.referrers[k][i]
  {
    FlatHas(art.referrers, Sorted(art.referrers.Keys), m);
    if k, i :| k in art.referrers && 0 <= i < |art.referrers[k]| && m == art.referrers[k][i] {
      assert k in Sorted(art.referrers.Keys) && m in Under(art.referrers, k);
    }
  }

  lemma WrittenIsExported(w: World, art: ArtifactSet, b: Bytes)
    requires Consistent(w, art)
    ensures Written(AllWrites(w, art), b) <==> IsExported(w, art, b)
    ensures KeyedWrites(w, AllWrites(w, art))
  {
    var root: Writes := [(Digest(w, w.index.write(art.index)), w.index.write(art.index))];
    var ms := ManifestWrites(w, art.manifests, Sorted(art.manifests.Keys));
    var rs := ReferrerWrites(w, AllReferrers(art));
    var bs := BlobWrites(art.blobs, Sorted(art.blobs.Keys));
    RootWritten(w, art, b);
    ManifestsWritten(w, art, b);
    ReferrersWritten(w, art, b);
    BlobsWritten(w, art, b);
    WrittenAppend(w, root, ms, b);
    WrittenAppend(w, root + ms, rs, b);
    WrittenAppend(w, root + ms + rs, bs, b);
    hide Digest, ManifestWrites, ReferrerWrites, BlobWrites, Written, KeyedWrites, Consistent, Sorted, AllReferrers;
  }

  lemma WrittenAppend(w: World, x: Writes, y: Writes, b: Bytes)
    ensures Written(x + y, b) <==> Written(x, b) || Written(y, b)
    ensures KeyedWrites(w, x + y) <==> KeyedWrites(w, x) && KeyedWrites(w, y)
  {
    hide Digest;
    forall i | 0 <= i < |x| ensures (x + y)[i] == x[i] {
    }
    forall i | 0 <= i < |y| ensures (x + y)[|x| + i] == y[i] {
    }
    if i :| 0 <= i < |y| && y[i].1 == b {
      assert (x + y)[|x| + i].1 == b;
    }
    if i :| 0 <= i < |x| && x[i].1 == b {
      assert (x + y)[i].1 == b;
    }
    if KeyedWrites(w, x + y) {
      forall i | 0 <= i < |y| ensures y[i].0 == Digest(w, y[i].1) {
        assert (x + y)[|x| + i] == y[i];
      }
      forall i | 0 <= i < |x| ensures x[i].0 == Digest(w, x[i].1) {
        assert (x + y)[i] == x[i];
      }
    }
  }

  lemma RootWritten(w: World, art: ArtifactSet, b: Bytes)
    ensures var writes: Writes := [(Digest(w, w.index.write(art.index)), w.index.write(art.index))];
            KeyedWrites(w, writes) && (Written(writes, b) <==> b == w.index.write(art.index))
  {
    hide Digest;
    var writes: Writes := [(Digest(w, w.index.write(art.index)), w.index.write(art.index))];
    assert writes[0].1 == w.index.write(art.index);
  }

  lemma ManifestsWritten(w: World, art: ArtifactSet, b: Bytes)
    requires ManifestsExact(w, art)
    ensures var writes := ManifestWrites(w, art.manifests, Sorted(art.manifests.Keys));
            && KeyedWrites(w, writes)
            && (Written(writes, b) <==> exists k :: k in art.manifests && b == w.manifest.write(art.manifests[k]))
  {
    var keys := Sorted(art.manifests.Keys);
    ManifestWritesAre(w, art.manifests, keys);
    hide Digest, Sorted, ManifestWrites, Lists;
    var writes := ManifestWrites(w, art.manifests, keys);
    forall i | 0 <= i < |writes| ensures writes[i].0 == Digest(w, writes[i].1) {
      assert keys[i] in art.manifests;
    }
    if k :| k in art.manifests && b == w.manifest.write(art.manifests[k]) {
      var i :| 0 <= i < |keys| && keys[i] == k;
      assert writes[i].1 == b;
    }
    if i :| 0 <= i < |writes| && writes[i].1 == b {
      assert keys[i] in art.manifests;
    }
  }

  lemma BlobsWritten(w: World, art: ArtifactSet, b: Bytes)
    requires Keyed(w, art.blobs)
    ensures var writes := BlobWrites(art.blobs, Sorted(art.blobs.Keys));
            && KeyedWrites(w, writes)
            && (Written(writes, b) <==> exists k :: k in art.blobs && b == art.blobs[k])
  {
    var keys := Sorted(art.blobs.Keys);
    BlobWritesAre(art.blobs, keys);
    hide Digest, Sorted, BlobWrites;
    var writes := BlobWrites(art.blobs, keys);
    forall i | 0 <= i < |writes| ensures writes[i].0 == Digest(w, writes[i].1) {
      assert keys[i] in art.blobs;
    }
    if k :| k in art.blobs && b == art.blobs[k] {
      var i :| 0 <= i < |keys| && keys[i] == k;
      assert writes[i].1 == b;
    }
    if i :| 0 <= i < |writes| && writes[i].1 == b {
      assert keys[i] in art.blobs;
    }
  }

  lemma ReferrersWritten(w: World, art: ArtifactSet, b: Bytes)
    ensures var writes := ReferrerWrites(w, AllReferrers(art));
            && KeyedWrites(w, writes)
            && (Written(writes, b) <==>
                exists k, i :: k in art.referrers && 0 <= i < |art.referrers[k]| && b == w.manifest.write(art.referrers[k][i]))
  {
    var ms := AllReferrers(art);
    ReferrerWritesAre(w, ms);
    hide Digest, AllReferrers, ReferrerWrites;
    var writes := ReferrerWrites(w, ms);
    if j :| 0 <= j < |writes| && writes[j].1 == b {
      InAllReferrers(art, ms[j]);
      var k, i :| k in art.referrers && 0 <= i < |art.referrers[k]| && ms[j] == art.referrers[k][i];
    }
    if k, i :| k in art.referrers && 0 <= i < |art.referrers[k]| && b == w.manifest.write(art.referrers[k][i]) {
      InAllReferrers(art, art.referrers[k][i]);
      var j :| 0 <= j < |ms| && ms[j] == art.referrers[k][i];
      assert writes[j].1 == b;
    }
  }

  // ---- what can be read back

  /** Every exported byte string is read back under its digest. */
  ghost predicate Mirrors(w: World, art: ArtifactSet, files: Files) {
    forall b :: IsExported(w, art, b) ==> ReadBlob(files, Digest(w, b)) == Ok(b)
  }

  predicate IsVacant(dir: Dir) { !dir.exists' || dir.IsEmpty() }

  /** A directory that does not exist has nothing in it. */
  predicate IsReal(dir: Dir) { !dir.exists' ==> dir.IsEmpty() }

  lemma ReadsPath(w: World, files: Files, b: Bytes)
    requires Lawful(w)
    ensures ReadBlob(files, Digest(w, b)) == ReadFile(files, PathOf(w, b))
  {
    DigestSplits(w, b);
    hide Lawful, Digest, SplitDigest, Hex;
  }

  lemma ExportWrites(w: World, art: ArtifactSet, dir: Dir, tag: string)
    requires Lawful(w) && Consistent(w, art) && ExportCollisionFree(w, art)
    requires IsReal(dir) && IsVacant(dir) && Trim(tag) != ""
    ensures var r := Exported(w, art, dir, tag);
            && r.error == None
            && Mirrors(w, art, r.dir.files)
            && ReadFile(r.dir.files, INDEX_FILE) == Ok(w.prettyIndex(LayoutIndex(w, art, tag)))
            && ReadFile(r.dir.files, METADATA_FILE) == Ok(w.metadata.write(LAYOUT_VERSION))
  {
    var blobs := WriteAll(Prepare(dir).dir, AllWrites(w, art)).dir.files;
    WrittenIsExported(w, art, []);
    ExportedFiles(w, art, dir, tag);
    FileNames();
    hide *;
    var files := Exported(w, art, dir, tag).dir.files;
    TwoMore(blobs, INDEX_FILE, w.prettyIndex(LayoutIndex(w, art, tag)), METADATA_FILE, w.metadata.write(LAYOUT_VERSION));
    MirrorsExported(w, art, blobs, files);
  }

  lemma ExportedFiles(w: World, art: ArtifactSet, dir: Dir, tag: string)
    requires Lawful(w) && KeyedWrites(w, AllWrites(w, art)) && IsReal(dir) && IsVacant(dir) && Trim(tag) != ""
    ensures var blobs := WriteAll(Prepare(dir).dir, AllWrites(w, art)).dir.files;
            && Exported(w, art, dir, tag).error == None
            && Exported(w, art, dir, tag).dir.files ==
               blobs[INDEX_FILE := w.prettyIndex(LayoutIndex(w, art, tag))][METADATA_FILE := w.metadata.write(LAYOUT_VERSION)]
            && (forall b :: Written(AllWrites(w, art), b) ==> PathOf(w, b) in blobs)
            && (forall p :: p in blobs ==> Written(AllWrites(w, art), blobs[p]) && p == PathOf(w, blobs[p]))
  {
    assert Prepare(dir).dir.files == map[];
    WritesLand(w, Prepare(dir).dir, AllWrites(w, art));
    hide WriteAll, AllWrites, LayoutIndex, Trim, Written, PathOf, Lawful, KeyedWrites, INDEX_FILE, METADATA_FILE;
  }

  lemma TwoMore(files: Files, a: Path, x: Bytes, b: Path, y: Bytes)
    requires a != b && |a| == |b| == 1
    ensures var more := files[a := x][b := y];
            && ReadFile(more, a) == Ok(x) && ReadFile(more, b) == Ok(y)
            && forall p :: p in files && |p| == 3 ==> p in more && more[p] == files[p]
  {
  }

  lemma MirrorsExported(w: World, art: ArtifactSet, blobs: Files, files: Files)
    requires Lawful(w) && Consistent(w, art) && ExportCollisionFree(w, art)
    requires forall b :: Written(AllWrites(w, art), b) ==> PathOf(w, b) in blobs
    requires forall p :: p in blobs ==> Written(AllWrites(w, art), blobs[p]) && p == PathOf(w, blobs[p])
    requires forall p :: p in blobs && |p| == 3 ==> p in files && files[p] == blobs[p]
    ensures Mirrors(w, art, files)
  {
    hide AllWrites, Consistent, IsExported, Digest, Written, Lawful, ReadBlob;
    forall b | IsExported(w, art, b) ensures ReadBlob(files, Digest(w, b)) == Ok(b) {
      WrittenIsExported(w, art, b);
      ReadsPath(w, files, b);
      assert |PathOf(w, b)| == 3;
      hide PathOf;
      WrittenIsExported(w, art, blobs[PathOf(w, b)]);
      PathIsDigest(w, blobs[PathOf(w, b)], b);
    }
  }

  lemma FileNames()
    ensures INDEX_FILE != METADATA_FILE && |INDEX_FILE| == |METADATA_FILE| == 1
  {
    assert INDEX_FILE[0][0] == 'i' && METADATA_FILE[0][0] == 'o';
  }

  // ---------------------------------------------------------------- loading blobs

  /** The files hold the blobs of `art`. */
  ghost predicate HasBlobs(art: ArtifactSet, files: Files) {
    forall k :: k in art.blobs ==> ReadBlob(files, k) == Ok(art.blobs[k])
  }

  lemma MirrorsBlobs(w: World, art: ArtifactSet, files: Files)
    requires Mirrors(w, art, files) && Keyed(w, art.blobs)
    ensures HasBlobs(art, files)
  {
    hide ReadBlob, Digest;
    forall k | k in art.blobs ensures ReadBlob(files, k) == Ok(art.blobs[k]) {
      assert IsExported(w, art, art.blobs[k]);
    }
  }

  lemma LoadsBlob(art: ArtifactSet, files: Files, digest: string, blobs: Blobs)
    requires HasBlobs(art, files) && digest in art.blobs && Extends(blobs, art.blobs)
    ensures LoadBlob(files, digest, blobs) == Ok(blobs[digest := art.blobs[digest]])
  {
    hide ReadBlob;
    if digest in blobs {
      assert blobs[digest := art.blobs[digest]] == blobs;
    }
  }

  lemma {:induction false} LoadsLayers(art: ArtifactSet, files: Files, layers: seq<Descriptor>, blobs: Blobs)
    requires HasBlobs(art, files) && Extends(blobs, art.blobs)
    requires forall i :: 0 <= i < |layers| ==> layers[i].digest in art.blobs
    ensures var r := LoadLayers(files, layers, blobs);
            r.Ok? && Extends(r.value, art.blobs) && forall k :: k in r.value <==> k in blobs || Lists(layers, k)
  {
    hide HasBlobs, LoadBlob;
    if layers != [] {
      LoadsBlob(art, files, layers[0].digest, blobs);
      LoadsLayers(art, files, layers[1..], blobs[layers[0].digest := art.blobs[layers[0].digest]]);
      forall k ensures Lists(layers, k) <==> layers[0].digest == k || Lists(layers[1..], k) {
        ListsStep(layers, k);
      }
    }
  }

  lemma LoadsManifestBlobs(art: ArtifactSet, files: Files, m: ImageManifest, blobs: Blobs)
    requires HasBlobs(art, files) && Extends(blobs, art.blobs)
    requires forall k :: RefersTo(m, k) ==> k in art.blobs
    ensures var r := LoadManifestBlobs(files, m, blobs);
            r.Ok? && Extends(r.value, art.blobs) && forall k :: k in r.value <==> k in blobs || RefersTo(m, k)
  {
    hide HasBlobs, LoadBlob, LoadLayers;
    assert RefersTo(m, m.config.digest);
    LoadsBlob(art, files, m.config.digest, blobs);
    forall i | 0 <= i < |m.layers| ensures m.layers[i].digest in art.blobs {
      assert RefersTo(m, m.layers[i].digest);
    }
    LoadsLayers(art, files, m.layers, blobs[m.config.digest := art.blobs[m.config.digest]]);
  }

  // ---------------------------------------------------------------- loading entries

  /** The files hold the manifests, referrers and blobs of `art`. */
  ghost predicate Readable(w: World, art: ArtifactSet, files: Files) {
    && HasBlobs(art, files)
    && (forall k :: k in art.manifests ==>
          ReadManifest(w, files, k) == Ok(art.manifests[k]) && forall d :: RefersTo(art.manifests[k], d) ==> d in art.blobs)
    && (forall m :: m in AllReferrers(art) ==>
          ReadManifest(w, files, Digest(w, w.manifest.write(m))) == Ok(m) && forall d :: RefersTo(m, d) ==> d in art.blobs)
  }

  lemma MirrorsReadable(w: World, art: ArtifactSet, files: Files)
    requires Lawful(w) && Consistent(w, art) && Mirrors(w, art, files)
    ensures Readable(w, art, files)
  {
    MirrorsBlobs(w, art, files);
    hide ReadManifest, Digest, AllReferrers, RefersTo, Lists, HasBlobs, Lawful, Mirrors;
    forall k | k in art.manifests
      ensures ReadManifest(w, files, k) == Ok(art.manifests[k])
      ensures forall d :: RefersTo(art.manifests[k], d) ==> d in art.blobs
    {
      assert IsExported(w, art, w.manifest.write(art.manifests[k]));
      MirrorsManifest(w, art, files, art.manifests[k]);
      assert forall d :: RefersTo(art.manifests[k], d) ==> IsReferenced(art, d);
    }
    forall m | m in AllReferrers(art)
      ensures ReadManifest(w, files, Digest(w, w.manifest.write(m))) == Ok(m)
      ensures forall d :: RefersTo(m, d) ==> d in art.blobs
    {
      ReferrerReadable(w, art, files, m);
    }
  }

  lemma ReferrerReadable(w: World, art: ArtifactSet, files: Files, m: ImageManifest)
    requires Lawful(w) && Consistent(w, art) && Mirrors(w, art, files) && m in AllReferrers(art)
    ensures ReadManifest(w, files, Digest(w, w.manifest.write(m))) == Ok(m)
    ensures forall d :: RefersTo(m, d) ==> d in art.blobs
  {
    hide ReadManifest, Digest, AllReferrers, RefersTo, Lists, Lawful, Mirrors;
    InAllReferrers(art, m);
    var k, i :| k in art.referrers && 0 <= i < |art.referrers[k]| && m == art.referrers[k][i];
    assert IsExported(w, art, w.manifest.write(m));
    MirrorsManifest(w, art, files, m);
    forall d | RefersTo(m, d) ensures d in art.blobs {
      assert RefersTo(art.referrers[k][i], d);
      assert IsReferenced(art, d);
    }
  }

  lemma MirrorsManifest(w: World, art: ArtifactSet, files: Files, m: ImageManifest)
    requires Lawful(w) && Mirrors(w, art, files) && IsExported(w, art, w.manifest.write(m))
    ensures ReadManifest(w, files, Digest(w, w.manifest.write(m))) == Ok(m)
  {
    hide ReadBlob, Digest, IsExported;
    assert w.manifest.Keeps(m);
  }

  ghost predicate EntryRefersTo(art: ArtifactSet, ds: seq<Descriptor>, digest: string) {
    exists k :: Lists(ds, k) && k in art.manifests && RefersTo(art.manifests[k], digest)
  }

  /** What has been loaded is part of `art`. */
  ghost predicate IsPart(art: ArtifactSet, loaded: Loaded) {
    && Extends(loaded.blobs, art.blobs)
    && forall k :: k in loaded.manifests ==> k in art.manifests && loaded.manifests[k] == art.manifests[k]
  }

  lemma {:induction false} LoadsEntries(w: World, art: ArtifactSet, files: Files, ds: seq<Descriptor>, loaded: Loaded)
    requires Readable(w, art, files) && IsPart(art, loaded)
    requires forall k :: Lists(ds, k) ==> k in art.manifests
    ensures var r := LoadEntries(w, files, ds, loaded);
            && r.Ok? && IsPart(art, r.value) && r.value.referrers == loaded.referrers
            && (forall k :: k in r.value.manifests <==> k in loaded.manifests || Lists(ds, k))
            && (forall k :: k in r.value.blobs <==> k in loaded.blobs || EntryRefersTo(art, ds, k))
    decreases ds
  {
    hide LoadEntry, Readable, RefersTo;
    if ds != [] {
      var k0 := ds[0].digest;
      ListsStep(ds, k0);
      EntryLoads(w, art, files, k0, loaded);
      var next := LoadEntry(w, files, k0, loaded).value;
      forall k ensures Lists(ds, k) <==> k0 == k || Lists(ds[1..], k) {
        ListsStep(ds, k);
      }
      hide Lists;
      LoadsEntries(w, art, files, ds[1..], next);
    }
  }

  lemma EntryLoads(w: World, art: ArtifactSet, files: Files, k: string, loaded: Loaded)
    requires Readable(w, art, files) && IsPart(art, loaded) && k in art.manifests
    ensures var r := LoadEntry(w, files, k, loaded);
            && r.Ok? && r.value.manifests == loaded.manifests[k := art.manifests[k]] && r.value.referrers == loaded.referrers
            && IsPart(art, r.value)
            && forall d :: d in r.value.blobs <==> d in loaded.blobs || RefersTo(art.manifests[k], d)
  {
    hide Digest, AllReferrers, RefersTo, HasBlobs, ReadManifest, LoadManifestBlobs;
    LoadsManifestBlobs(art, files, art.manifests[k], loaded.blobs);
  }

  // ---------------------------------------------------------------- loading referrers

  /** Descriptors of the root and of entries are passed over. */
  lemma {:induction false} PassesOver(w: World, files: Files, root: string, index: ImageIndex, ds: seq<Descriptor>,
                                      rest: seq<Descriptor>, loaded: Loaded)
    requires forall i :: 0 <= i < |ds| ==> ds[i].digest == root || Lists(index.manifests, ds[i].digest)
    ensures LoadReferrers(w, files, root, index, ds + rest, loaded) == LoadReferrers(w, files, root, index, rest, loaded)
  {
    hide Lists, ReadManifest, LoadManifestBlobs;
    if ds == [] {
      Append(ds, rest);
    } else {
      assert (ds + rest)[0] == ds[0] && (ds + rest)[1..] == ds[1..] + rest;
      PassesOver(w, files, root, index, ds[1..], rest, loaded);
    }
  }

  /** Files each referrer under its own subject. */
  function ReferEach(referrers: Referrers, ms: seq<ImageManifest>): Referrers
    requires forall m :: m in ms ==> m.subject.Some?
    decreases ms
  {
    if ms == [] then referrers else ReferEach(Refer(referrers, ms[0].subject.value.digest, ms[0]), ms[1..])
  }

  ghost predicate AnyRefersTo(ms: seq<ImageManifest>, digest: string) {
    exists m :: m in ms && RefersTo(m, digest)
  }

  /** A referrer of `art` as the layout index describes it is read and kept. */
  lemma ReferrerLoads(w: World, art: ArtifactSet, files: Files, m: ImageManifest, loaded: Loaded)
    requires Lawful(w) && Consistent(w, art) && ExportCollisionFree(w, art) && Readable(w, art, files)
    requires m in AllReferrers(art) && Extends(loaded.blobs, art.blobs)
    ensures m.subject.Some?
    ensures var r := LoadReferrer(w, files, Digest(w, w.index.write(art.index)), art.index, ReferrerDescriptor(w, m), loaded);
            && r.Ok? && r.value.manifests == loaded.manifests && Extends(r.value.blobs, art.blobs)
            && r.value.referrers == Refer(loaded.referrers, m.subject.value.digest, m)
            && forall d :: d in r.value.blobs <==> d in loaded.blobs || RefersTo(m, d)
  {
    NotRootNorEntry(w, art, m);
    SubjectIsListed(w, art, m);
    DigestOfReferrer(w, m);
    assert ReferrerDescriptor(w, m).mediaType == MANIFEST_MEDIA_TYPE;
    hide Digest, AllReferrers, RefersTo, HasBlobs, ReadManifest, LoadManifestBlobs, Consistent, ExportCollisionFree, Lawful,
         ReferrerDescriptor, Lists, Refer, LoadReferrer;
    LoadsManifestBlobs(art, files, m, loaded.blobs);
    Keeps(w, files, Digest(w, w.index.write(art.index)), art.index, ReferrerDescriptor(w, m), m, loaded);
  }

  lemma Keeps(w: World, files: Files, root: string, index: ImageIndex, d: Descriptor, m: ImageManifest, loaded: Loaded)
    requires d.digest != root && !Lists(index.manifests, d.digest) && d.mediaType == MANIFEST_MEDIA_TYPE
    requires ReadManifest(w, files, d.digest) == Ok(m) && m.subject.Some? && Lists(index.manifests, m.subject.value.digest)
    requires LoadManifestBlobs(files, m, loaded.blobs).Ok?
    ensures LoadReferrer(w, files, root, index, d, loaded) ==
            Ok(loaded.(blobs := LoadManifestBlobs(files, m, loaded.blobs).value,
                       referrers := Refer(loaded.referrers, m.subject.value.digest, m)))
  {
    hide Lists, ReadManifest, LoadManifestBlobs, Refer;
  }

  lemma SubjectIsListed(w: World, art: ArtifactSet, m: ImageManifest)
    requires Consistent(w, art) && m in AllReferrers(art)
    ensures m.subject.Some? && Lists(art.index.manifests, m.subject.value.digest)
  {
    InAllReferrers(art, m);
    hide AllReferrers, Digest, BlobsExact, ManifestsExact;
    var k, i :| k in art.referrers && 0 <= i < |art.referrers[k]| && m == art.referrers[k][i];
    assert IsReferrerOf(art, art.referrers[k][i], k);
  }

  lemma NotRootNorEntry(w: World, art: ArtifactSet, m: ImageManifest)
    requires Lawful(w) && Consistent(w, art) && ExportCollisionFree(w, art) && m in AllReferrers(art)
    ensures Digest(w, w.manifest.write(m)) != Digest(w, w.index.write(art.index))
    ensures !Lists(art.index.manifests, Digest(w, w.manifest.write(m)))
  {
    SubjectIsListed(w, art, m);
    InAllReferrers(art, m);
    hide AllReferrers, Digest, BlobsExact, ReferrersFiled, IndexTyped;
    var k, i :| k in art.referrers && 0 <= i < |art.referrers[k]| && m == art.referrers[k][i];
    assert IsExported(w, art, w.manifest.write(m)) && IsExported(w, art, w.index.write(art.index));
    var d := Digest(w, w.manifest.write(m));
    if d in art.manifests {
      DiffersFromEntry(w, art, m, d);
    }
  }

  lemma DiffersFromEntry(w: World, art: ArtifactSet, m: ImageManifest, k: string)
    requires Lawful(w) && ManifestsExact(w, art) && ExportCollisionFree(w, art)
    requires IsExported(w, art, w.manifest.write(m)) && m.subject.Some? && k in art.manifests
    ensures Digest(w, w.manifest.write(m)) != k
  {
    assert w.manifest.Keeps(m) && w.manifest.Keeps(art.manifests[k]);
    assert IsExported(w, art, w.manifest.write(art.manifests[k]));
    hide IsExported, Digest, Lists;
  }

  lemma {:induction false} LoadsReferrers(w: World, art: ArtifactSet, files: Files, ms: seq<ImageManifest>, loaded: Loaded)
    requires Lawful(w) && Consistent(w, art) && ExportCollisionFree(w, art) && Readable(w, art, files)
    requires Extends(loaded.blobs, art.blobs) && forall m :: m in ms ==> m in AllReferrers(art)
    ensures forall m :: m in ms ==> m.subject.Some?
    ensures var r := LoadReferrers(w, files, Digest(w, w.index.write(art.index)), art.index, ReferrerDescriptors(w, ms), loaded);
            && r.Ok? && r.value.manifests == loaded.manifests && Extends(r.value.blobs, art.blobs)
            && r.value.referrers == ReferEach(loaded.referrers, ms)
            && forall d :: d in r.value.blobs <==> d in loaded.blobs || AnyRefersTo(ms, d)
    decreases ms
  {
    hide Digest, AllReferrers, RefersTo, Consistent, ExportCollisionFree, Lawful, Readable, LoadReferrer, ReferrerDescriptor, Refer;
    if ms != [] {
      ReferrerLoads(w, art, files, ms[0], loaded);
      var root := Digest(w, w.index.write(art.index));
      var next := LoadReferrer(w, files, root, art.index, ReferrerDescriptor(w, ms[0]), loaded).value;
      LoadsReferrers(w, art, files, ms[1..], next);
      var ds := ReferrerDescriptors(w, ms);
      assert ds == [ReferrerDescriptor(w, ms[0])] + ReferrerDescriptors(w, ms[1..]);
      assert ds[0] == ReferrerDescriptor(w, ms[0]) && ds[1..] == ReferrerDescriptors(w, ms[1..]);
      assert forall m :: m in ms <==> m == ms[0] || m in ms[1..];
      hide ReferrerDescriptors, ReferEach;
      forall d ensures AnyRefersTo(ms, d) <==> RefersTo(ms[0], d) || AnyRefersTo(ms[1..], d) {
      }
    }
  }

  // ---- regrouping by subject

  function About(ms: seq<ImageManifest>, k: string): seq<ImageManifest> {
    if ms == [] then []
    else (if ms[0].subject.Some? && ms[0].subject.value.digest == k then [ms[0]] else []) + About(ms[1..], k)
  }

  lemma {:induction false} ReferEachUnder(referrers: Referrers, ms: seq<ImageManifest>, k: string)
    requires forall m :: m in ms ==> m.subject.Some?
    ensures Under(ReferEach(referrers, ms), k) == Under(referrers, k) + About(ms, k)
    ensures k in ReferEach(referrers, ms) <==> k in referrers || About(ms, k) != []
    decreases ms
  {
    if ms == [] {
      Append(Under(referrers, k), []);
    } else {
      var key := ms[0].subject.value.digest;
      ReferEachUnder(Refer(referrers, key, ms[0]), ms[1..], k);
      ReferUnder(referrers, key, ms[0], k);
      hide Refer, Under;
      Associate(Under(referrers, k), if key == k then [ms[0]] else [], About(ms[1..], k));
    }
  }

  lemma ReferUnder(referrers: Referrers, key: string, m: ImageManifest, k: string)
    ensures Under(Refer(referrers, key, m), k) == Under(referrers, k) + (if key == k then [m] else [])
    ensures k in Refer(referrers, key, m) <==> k in referrers || k == key
  {
    Append(Under(referrers, k), []);
  }

  lemma {:induction false} AboutAppend(a: seq<ImageManifest>, b: seq<ImageManifest>, k: string)
    ensures About(a + b, k) == About(a, k) + About(b, k)
  {
    if a == [] {
      Append(a, b);
      Append([], About(b, k));
    } else {
      assert (a + b)[0] == a[0] && (a + b)[1..] == a[1..] + b;
      AboutAppend(a[1..], b, k);
      Associate(if a[0].subject.Some? && a[0].subject.value.digest == k then [a[0]] else [], About(a[1..], k), About(b, k));
    }
  }

  lemma {:induction false} AboutOwn(ms: seq<ImageManifest>, key: string, k: string)
    requires forall i :: 0 <= i < |ms| ==> ms[i].subject.Some? && ms[i].subject.value.digest == key
    ensures About(ms, k) == if k == key then ms else []
  {
    if ms != [] {
      AboutOwn(ms[1..], key, k);
    }
  }

  lemma {:induction false} AboutFlat(art: ArtifactSet, keys: seq<string>, k: string)
    requires ReferrersFiled(art)
    requires forall i, j :: 0 <= i < j < |keys| ==> keys[i] != keys[j]
    ensures About(Flat(art.referrers, keys), k) == if k in keys then Under(art.referrers, k) else []
  {
    if keys != [] {
      AboutFlat(art, keys[1..], k);
      forall i | 0 <= i < |Under(art.referrers, keys[0])|
        ensures var m := Under(art.referrers, keys[0])[i]; m.subject.Some? && m.subject.value.digest == keys[0]
      {
        assert IsReferrerOf(art, art.referrers[keys[0]][i], keys[0]);
      }
      AboutOwn(Under(art.referrers, keys[0]), keys[0], k);
      AboutAppend(Under(art.referrers, keys[0]), Flat(art.referrers, keys[1..]), k);
      hide Under, About, ReferrersFiled;
      Append([], About(Flat(art.referrers, keys[1..]), k));
      Append(Under(art.referrers, keys[0]), []);
      if k == keys[0] {
        assert k !in keys[1..];
      }
    }
  }

  /** Every subject gets back its own referrers, in order. */
  lemma Regrouped(art: ArtifactSet)
    requires ReferrersFiled(art) && forall m :: m in AllReferrers(art) ==> m.subject.Some?
    ensures ReferEach(map[], AllReferrers(art)) == art.referrers
  {
    var keys := Sorted(art.referrers.Keys);
    var r := ReferEach(map[], AllReferrers(art));
    forall k
      ensures k in r <==> k in art.referrers
      ensures k in r ==> r[k] == art.referrers[k]
    {
      ReferEachUnder(map[], AllReferrers(art), k);
      AboutFlat(art, keys, k);
      Append([], About(AllReferrers(art), k));
    }
    hide ReferEach, AllReferrers;
  }

  // ---------------------------------------------------------------- selecting the root

  lemma {:induction false} RootsAppend(a: seq<Descriptor>, b: seq<Descriptor>)
    ensures Roots(a + b) == Roots(a) + Roots(b)
  {
    hide IsRoot;
    if a == [] {
      Append(a, b);
      Append([], Roots(b));
    } else {
      assert (a + b)[0] == a[0] && (a + b)[1..] == a[1..] + b;
      RootsAppend(a[1..], b);
      Associate(if IsRoot(a[0]) then [a[0]] else [], Roots(a[1..]), Roots(b));
    }
  }

  lemma {:induction false} NoRoots(ds: seq<Descriptor>)
    requires forall i :: 0 <= i < |ds| ==> ds[i].mediaType == MANIFEST_MEDIA_TYPE
    ensures Roots(ds) == []
  {
    if ds != [] {
      assert INDEX_MEDIA_TYPE[26] == 'i' && MANIFEST_MEDIA_TYPE[26] == 'm';
      NoRoots(ds[1..]);
    }
  }

  /** The layout index has one root: found under its tag or without a name, and under no other. */
  lemma SelectsRoot(w: World, art: ArtifactSet, tag: string, refName: Option<string>)
    requires IndexTyped(art)
    ensures SelectRoot(LayoutIndex(w, art, tag), refName) ==
            if refName == None || refName == Some(tag) then Ok(RootDescriptor(w, art, tag))
            else Err(MissingLayoutReference(refName.value))
  {
    var root, rs := RootDescriptor(w, art, tag), ReferrerDescriptors(w, AllReferrers(art));
    assert root.mediaType == INDEX_MEDIA_TYPE && root.artifactType == Some(MEDIA_TYPE_CATALOG) && root.annotations == map[REF_NAME := tag];
    ReferrersTyped(w, AllReferrers(art));
    hide Digest, AllReferrers, RootDescriptor, ReferrerDescriptors;
    NoRoots(art.index.manifests);
    NoRoots(rs);
    RootsAppend([root] + art.index.manifests, rs);
    RootsAppend([root], art.index.manifests);
    OneRoot(root);
    Append([root], []);
    assert LayoutIndex(w, art, tag).manifests == [root] + art.index.manifests + rs;
    hide LayoutIndex, Roots, SelectRoot;
    SelectsOnly(LayoutIndex(w, art, tag), root, tag, refName);
  }

  lemma SelectsOnly(index: ImageIndex, root: Descriptor, tag: string, refName: Option<string>)
    requires Roots(index.manifests) == [root] && root.annotations == map[REF_NAME := tag]
    ensures SelectRoot(index, refName) ==
            if refName == None || refName == Some(tag) then Ok(root) else Err(MissingLayoutReference(refName.value))
  {
    hide Roots;
    match refName {
      case Some(name) =>
        assert [root][1..] == [] && FindNamed([], name) == None;
        assert FindNamed([root], name) == if name == tag then Some(root) else None;
      case None =>
    }
  }

  lemma ReferrersTyped(w: World, ms: seq<ImageManifest>)
    ensures forall i :: 0 <= i < |ms| ==> ReferrerDescriptors(w, ms)[i].mediaType == MANIFEST_MEDIA_TYPE
  {
    hide Digest;
  }

  lemma OneRoot(root: Descriptor)
    requires IsRoot(root)
    ensures Roots([root]) == [root]
  {
    assert [root][1..] == [];
  }

  // ---------------------------------------------------------------- main results

  lemma ImportReads(w: World, art: ArtifactSet, files: Files, tag: string)
    requires Lawful(w) && Consistent(w, art) && ExportCollisionFree(w, art) && Mirrors(w, art, files)
    ensures var root := Digest(w, w.index.write(art.index));
            var entries := LoadEntries(w, files, art.index.manifests, NOTHING);
            && entries.Ok?
            && LoadReferrers(w, files, root, art.index, LayoutIndex(w, art, tag).manifests, entries.value) ==
               Ok(Loaded(art.manifests, art.referrers, art.blobs))
  {
    MirrorsReadable(w, art, files);
    EntriesListed(w, art);
    var root := RootDescriptor(w, art, tag);
    var ms := AllReferrers(art);
    hide Lawful, Mirrors, Readable, Digest, AllReferrers, ReferrerDescriptors, LoadEntries, LoadReferrers, LoadReferrer,
         Consistent, ExportCollisionFree, Lists, EntryRefersTo, AnyRefersTo, LayoutIndex, RootDescriptor;
    LoadsEntries(w, art, files, art.index.manifests, NOTHING);
    var entries := LoadEntries(w, files, art.index.manifests, NOTHING).value;
    LoadsReferrers(w, art, files, ms, entries);
    DigestOfRoot(w, art, tag);
    RootAndEntries(w, art, root);
    PassesOver(w, files, root.digest, art.index, [root] + art.index.manifests, ReferrerDescriptors(w, ms), entries);
    LayoutIndexIs(w, art, tag);
    FiledOf(w, art);
    Regrouped(art);
    var all := LoadReferrers(w, files, root.digest, art.index, ReferrerDescriptors(w, ms), entries).value;
    hide ReferEach;
    AllBlobsLoaded(w, art, all.blobs);
    SameMap(all.manifests, art.manifests);
  }

  lemma FiledOf(w: World, art: ArtifactSet)
    requires Consistent(w, art)
    ensures ReferrersFiled(art)
  {
  }

  lemma SameMap<K, V>(m: map<K, V>, n: map<K, V>)
    requires forall k :: k in m <==> k in n
    requires forall k :: k in m ==> k in n && m[k] == n[k]
    ensures m == n
  {
  }

  lemma LayoutIndexIs(w: World, art: ArtifactSet, tag: string)
    ensures LayoutIndex(w, art, tag).manifests ==
            ([RootDescriptor(w, art, tag)] + art.index.manifests) + ReferrerDescriptors(w, AllReferrers(art))
  {
    hide RootDescriptor, ReferrerDescriptors, AllReferrers;
  }

  lemma RootAndEntries(w: World, art: ArtifactSet, root: Descriptor)
    ensures forall i :: 0 <= i < |[root] + art.index.manifests| ==>
              var d := ([root] + art.index.manifests)[i]; d.digest == root.digest || Lists(art.index.manifests, d.digest)
  {
  }

  lemma EntriesListed(w: World, art: ArtifactSet)
    requires ManifestsExact(w, art)
    ensures forall k :: Lists(art.index.manifests, k) <==> k in art.manifests
    ensures IsPart(art, NOTHING)
  {
    hide Digest;
  }

  lemma AllBlobsLoaded(w: World, art: ArtifactSet, blobs: Blobs)
    requires Consistent(w, art) && Extends(blobs, art.blobs)
    requires forall d :: d in blobs <==> EntryRefersTo(art, art.index.manifests, d) || AnyRefersTo(AllReferrers(art), d)
    ensures blobs == art.blobs
  {
    forall d | d in art.blobs ensures d in blobs {
      ReferencedIsLoaded(w, art, d);
    }
    hide Consistent, EntryRefersTo, AnyRefersTo, AllReferrers;
    SameMap(blobs, art.blobs);
  }

  lemma ReferencedIsLoaded(w: World, art: ArtifactSet, d: string)
    requires Consistent(w, art) && d in art.blobs
    ensures EntryRefersTo(art, art.index.manifests, d) || AnyRefersTo(AllReferrers(art), d)
  {
    EntriesListed(w, art);
    assert IsReferenced(art, d);
    hide AllReferrers, RefersTo, Digest, Lists, Consistent;
    if k :| k in art.manifests && RefersTo(art.manifests[k], d) {
      assert EntryRefersTo(art, art.index.manifests, d);
    } else {
      var k, i :| k in art.referrers && 0 <= i < |art.referrers[k]| && RefersTo(art.referrers[k][i], d);
      InAllReferrers(art, art.referrers[k][i]);
    }
  }

  /** Exporting a consistent artifact set to a vacant directory under a non-blank tag succeeds, and
      importing it, under that tag or under none, returns exactly the same set; under any other
      name it is missing. */
  lemma LayoutRoundTrip(w: World, art: ArtifactSet, dir: Dir, tag: string, refName: Option<string>)
    requires Lawful(w) && Consistent(w, art) && ExportCollisionFree(w, art)
    requires IsReal(dir) && IsVacant(dir) && Trim(tag) != ""
    ensures Exported(w, art, dir, tag).error == None
    ensures Imported(w, Exported(w, art, dir, tag).dir.files, refName) ==
            if refName == None || refName == Some(tag) then Ok(art) else Err(MissingLayoutReference(refName.value))
  {
    ExportWrites(w, art, dir, tag);
    var files := Exported(w, art, dir, tag).dir.files;
    SelectsRoot(w, art, tag, refName);
    DigestOfRoot(w, art, tag);
    ImportReads(w, art, files, tag);
    assert w.metadata.Keeps(LAYOUT_VERSION) && w.index.Keeps(art.index);
    assert w.index.read(w.prettyIndex(LayoutIndex(w, art, tag))) == Some(LayoutIndex(w, art, tag));
    assert IsExported(w, art, w.index.write(art.index));
    assert ReadBlob(files, Digest(w, w.index.write(art.index))) == Ok(w.index.write(art.index));
    hide Exported, LayoutIndex, ReadFile, ReadBlob, LoadEntries, LoadReferrers, SelectRoot, RootDescriptor, Digest, Mirrors,
         Consistent, Lawful, IsExported, Trim, ExportCollisionFree;
  }

  /** A call with a blank tag still creates the `blobs` folder, so that every later call on the same
      directory is refused. */
  lemma BlankTagSpoilsDirectory(w: World, art: ArtifactSet, dir: Dir, blank: string, next: ArtifactSet, tag: string)
    requires IsReal(dir) && IsVacant(dir) && Trim(blank) == ""
    ensures var after := Exported(w, art, dir, blank);
            && after.error == Some(InvalidLayoutTag)
            && Exported(w, next, after.dir, tag) == Outcome(after.dir, Some(NonEmptyLayoutDirectory))
  {
    assert BLOBS_FOLDER in Prepare(dir).dir.folders;
    hide AllWrites, WriteAll, LayoutIndex, Trim;
  }

  /** An export of a consistent set fails and yet changes the directory in exactly one case: the directory
      was vacant and the tag is blank. */
  lemma {:induction false} SpoilsExactly(w: World, art: ArtifactSet, dir: Dir, tag: string)
    requires Lawful(w) && Consistent(w, art) && ExportCollisionFree(w, art) && IsReal(dir)
    ensures Exported(w, art, dir, tag).error.Some? && Exported(w, art, dir, tag).dir != dir <==> IsVacant(dir) && Trim(tag) == ""
  {
    if IsVacant(dir) {
      if Trim(tag) == "" {
        BlankTagSpoilsDirectory(w, art, dir, tag, art, tag);
        assert BLOBS_FOLDER in Prepare(dir).dir.folders;
      } else {
        LayoutRoundTrip(w, art, dir, tag, None);
      }
    }
    hide Lawful, Consistent, ExportCollisionFree, Trim, AllWrites, WriteAll, LayoutIndex, Imported;
  }

  /** What the whole run of the crate promises: a catalog that packs, with any verification material
      attached, survives an export and an import, and is restored exactly as `RestoresExactly` says. */
  lemma {:induction false} SurvivesLayout(w: World, c: AiCatalog, calls: seq<Attachment>, dir: Dir, tag: string, refName: Option<string>)
    requires Lawful(w) && Survives(w, c) && CollisionFree(w, RunBytes(w, c, calls)) && Packed(w, c).Ok?
    requires ExportCollisionFree(w, AttachedAll(w, Packed(w, c).value, calls))
    requires IsReal(dir) && IsVacant(dir) && Trim(tag) != "" && (refName == None || refName == Some(tag))
    ensures var final := AttachedAll(w, Packed(w, c).value, calls);
            var imported := Imported(w, Exported(w, final, dir, tag).dir.files, refName);
            && imported == Ok(final)
            && Unpacked(w, imported.value) == Ok(Pooled(w, c))
            && (SameCatalog(Unpacked(w, imported.value).value, c) <==> NoSharedTrust(c.entries))
  {
    assert forall b :: b in PackedBytes(w, c.entries) ==> b in RunBytes(w, c, calls);
    assert CollisionFree(w, PackedBytes(w, c.entries));
    hide *;
    RunConsistent(w, c, calls);
    LayoutRoundTrip(w, AttachedAll(w, Packed(w, c).value, calls), dir, tag, refName);
    UnpackOfPack(w, c);
    PooledExact(w, c);
  }
}
