// OCI image layouts: writing an artifact set to a directory and reading it back.

module OciLayout {
  import opened Basics
  import opened Catalog
  import opened OciModel
  import opened SortedKeys

  const LAYOUT_VERSION := "1.0.0"
  const REF_NAME := "org.opencontainers.image.ref.name"

  /** A path below the layout directory. */
  type Path = seq<string>

  type Files = map<Path, Bytes>

  const INDEX_FILE: Path := ["index.json"]
  const METADATA_FILE: Path := ["oci-layout"]
  const BLOBS_FOLDER: Path := ["blobs"]

  /** A directory: whether it exists, its subdirectories and its files. */
  datatype Dir = Dir(exists': bool, folders: set<Path>, files: Files) {
    predicate IsEmpty() { folders == {} && files == map[] }
  }

  /** What a call leaves behind: the directory, and the error if there was one. */
  datatype Outcome = Outcome(dir: Dir, error: Option<Error>)

  // ---------------------------------------------------------------- digests as paths

  function SplitDigest(digest: string): Result<(string, string), Error> {
    var colon := Until(digest, IsColon);
    if 0 < colon < |digest| - 1 then Ok((digest[..colon], digest[colon + 1..])) else Err(InvalidDigest(digest))
  }

  /** The digest is an algorithm and a value on either side of its first colon. */
  predicate IsDigestOf(digest: string, algorithm: string, value: string) {
    algorithm != "" && HasNo(algorithm, ':') && value != "" && digest == algorithm + (":" + value)
  }

  lemma SplitDigestExact(digest: string, algorithm: string, value: string)
    ensures SplitDigest(digest) == Ok((algorithm, value)) <==> IsDigestOf(digest, algorithm, value)
  {
    var colon := Until(digest, IsColon);
    if SplitDigest(digest) == Ok((algorithm, value)) {
      UntilMissed(digest, IsColon);
      assert digest == digest[..colon] + (":" + digest[colon + 1..]);
      hide Until;
    }
    if IsDigestOf(digest, algorithm, value) {
      UntilHit(digest, |algorithm|, IsColon);
      assert digest[..|algorithm|] == algorithm && digest[|algorithm| + 1..] == value;
      hide Until;
    }
  }

  function BlobPath(parts: (string, string)): Path { ["blobs", parts.0, parts.1] }

  function WriteBlob(dir: Dir, digest: string, bytes: Bytes): Outcome {
    match SplitDigest(digest)
    case Err(e) => Outcome(dir, Some(e))
    case Ok(parts) =>
      Outcome(Dir(true, dir.folders + {["blobs", parts.0]}, dir.files[BlobPath(parts) := bytes]), None)
  }

  /** Writing a blob changes one file, the one under algorithm and value of its digest. */
  lemma WriteBlobEffect(dir: Dir, digest: string, bytes: Bytes)
    ensures var after := WriteBlob(dir, digest, bytes);
            && (after.error.None? <==> exists algorithm, value :: IsDigestOf(digest, algorithm, value))
            && (after.error.Some? ==> after == Outcome(dir, Some(InvalidDigest(digest))))
            && forall algorithm, value :: IsDigestOf(digest, algorithm, value) ==>
                 var path: Path := ["blobs", algorithm, value];
                 && path in after.dir.files && after.dir.files[path] == bytes
                 && after.dir.files - {path} == dir.files - {path}
  {
    forall algorithm, value ensures SplitDigest(digest) == Ok((algorithm, value)) <==> IsDigestOf(digest, algorithm, value) {
      SplitDigestExact(digest, algorithm, value);
    }
    if SplitDigest(digest).Ok? {
      var parts := SplitDigest(digest).value;
      assert IsDigestOf(digest, parts.0, parts.1);
    }
    assert SplitDigest(digest).Err? ==> SplitDigest(digest).error == InvalidDigest(digest);
    hide SplitDigest, IsDigestOf;
  }

  /** Blobs to be written, in order. */
  type Writes = seq<(string, Bytes)>

  function WriteAll(dir: Dir, writes: Writes): Outcome
    decreases writes
  {
    if writes == [] then Outcome(dir, None)
    else
      var first := WriteBlob(dir, writes[0].0, writes[0].1);
      if first.error.Some? then first else WriteAll(first.dir, writes[1..])
  }

  // ---------------------------------------------------------------- exporting

  function RootDescriptor(w: World, art: ArtifactSet, tag: string): Descriptor {
    DescriptorForBytes(w, w.index.write(art.index), INDEX_MEDIA_TYPE, art.index.artifactType, map[REF_NAME := tag])
  }

  function ReferrerDescriptor(w: World, m: ImageManifest): Descriptor {
    DescriptorForBytes(w, w.manifest.write(m), MANIFEST_MEDIA_TYPE, m.artifactType, m.annotations)
  }

  function ReferrerDescriptors(w: World, ms: seq<ImageManifest>): (ds: seq<Descriptor>)
    ensures |ds| == |ms|
    ensures forall i :: 0 <= i < |ms| ==> ds[i] == ReferrerDescriptor(w, ms[i])
  {
    if ms == [] then [] else [ReferrerDescriptor(w, ms[0])] + ReferrerDescriptors(w, ms[1..])
  }

  function ReferrerWrites(w: World, ms: seq<ImageManifest>): Writes {
    if ms == [] then []
    else [(Digest(w, w.manifest.write(ms[0])), w.manifest.write(ms[0]))] + ReferrerWrites(w, ms[1..])
  }

  function ManifestWrites(w: World, manifests: map<string, ImageManifest>, keys: seq<string>): Writes
    requires forall k :: k in keys ==> k in manifests
  {
    if keys == [] then [] else [(keys[0], w.manifest.write(manifests[keys[0]]))] + ManifestWrites(w, manifests, keys[1..])
  }

  function BlobWrites(blobs: map<string, Bytes>, keys: seq<string>): Writes
    requires forall k :: k in keys ==> k in blobs
  {
    if keys == [] then [] else [(keys[0], blobs[keys[0]])] + BlobWrites(blobs, keys[1..])
  }

  /** All referrers, subject by subject. */
  function Flat(referrers: Referrers, keys: seq<string>): seq<ImageManifest> {
    if keys == [] then [] else Under(referrers, keys[0]) + Flat(referrers, keys[1..])
  }

  ghost function AllReferrers(art: ArtifactSet): seq<ImageManifest> {
    Flat(art.referrers, Sorted(art.referrers.Keys))
  }

  ghost function AllWrites(w: World, art: ArtifactSet): Writes {
    [(Digest(w, w.index.write(art.index)), w.index.write(art.index))]
    + ManifestWrites(w, art.manifests, Sorted(art.manifests.Keys))
    + ReferrerWrites(w, AllReferrers(art))
    + BlobWrites(art.blobs, Sorted(art.blobs.Keys))
  }

  ghost function LayoutIndex(w: World, art: ArtifactSet, tag: string): ImageIndex {
    ImageIndex(2, INDEX_MEDIA_TYPE, None,
               [RootDescriptor(w, art, tag)] + art.index.manifests + ReferrerDescriptors(w, AllReferrers(art)), map[])
  }

  /** A directory that is missing or empty is prepared; any other one is refused. */
  function Prepare(dir: Dir): Outcome {
    if dir.exists' && !dir.IsEmpty() then Outcome(dir, Some(NonEmptyLayoutDirectory))
    else Outcome(Dir(true, dir.folders + {BLOBS_FOLDER}, dir.files), None)
  }

  ghost function Exported(w: World, art: ArtifactSet, dir: Dir, tag: string): Outcome {
    var prepared := Prepare(dir);
    if prepared.error.Some? then prepared
    else if Trim(tag) == "" then Outcome(prepared.dir, Some(InvalidLayoutTag))
    else
      var written := WriteAll(prepared.dir, AllWrites(w, art));
      if written.error.Some? then written
      else
        var files := written.dir.files[INDEX_FILE := w.prettyIndex(LayoutIndex(w, art, tag))];
        Outcome(written.dir.(files := files[METADATA_FILE := w.metadata.write(LAYOUT_VERSION)]), None)
  }

  lemma {:induction false} WriteAppend(dir: Dir, a: Writes, b: Writes)
    ensures WriteAll(dir, a + b) ==
            if WriteAll(dir, a).error.Some? then WriteAll(dir, a) else WriteAll(WriteAll(dir, a).dir, b)
    decreases a
  {
    hide WriteBlob;
    if a == [] {
      Append(a, b);
    } else {
      assert (a + b)[0] == a[0] && (a + b)[1..] == a[1..] + b;
      var first := WriteBlob(dir, a[0].0, a[0].1);
      if first.error.None? {
        WriteAppend(first.dir, a[1..], b);
      }
    }
  }

  /** A directory on disk. */
  class LayoutDirectory {
    var dir: Dir

    constructor (dir: Dir)
      ensures this.dir == dir
    {
      this.dir := dir;
    }

    method PrepareLayout() returns (error: Option<Error>)
      modifies this
      ensures Outcome(dir, error) == Prepare(old(dir))
      ensures error.None? <==> !old(dir).exists' || old(dir).IsEmpty()
      ensures error.Some? ==> dir == old(dir) && error == Some(NonEmptyLayoutDirectory)
      ensures error.None? ==>
                dir.exists' && dir.files == old(dir).files
                && forall folder :: folder in dir.folders <==> folder in old(dir).folders || folder == ["blobs"]
    {
      if dir.exists' && !dir.IsEmpty() {
        return Some(NonEmptyLayoutDirectory);
      }
      dir := Dir(true, dir.folders + {BLOBS_FOLDER}, dir.files);
      return None;
    }

    method WriteLayoutBlob(digest: string, bytes: Bytes) returns (error: Option<Error>)
      modifies this
      ensures Outcome(dir, error) == WriteBlob(old(dir), digest, bytes)
      ensures error.None? <==> exists algorithm, value :: IsDigestOf(digest, algorithm, value)
      ensures error.Some? ==> dir == old(dir) && error == Some(InvalidDigest(digest))
      ensures forall algorithm, value :: IsDigestOf(digest, algorithm, value) ==>
                var path: Path := ["blobs", algorithm, value];
                && path in dir.files && dir.files[path] == bytes
                && dir.files - {path} == old(dir).files - {path}
    {
      WriteBlobEffect(dir, digest, bytes);
      var parts := SplitDigest(digest);
      if parts.Err? {
        return Some(parts.error);
      }
      dir := Dir(true, dir.folders + {["blobs", parts.value.0]}, dir.files[BlobPath(parts.value) := bytes]);
      return None;
    }

    method WriteManifests(w: World, manifests: map<string, ImageManifest>) returns (error: Option<Error>)
      modifies this
      ensures Outcome(dir, error) == WriteAll(old(dir), ManifestWrites(w, manifests, Sorted(manifests.Keys)))
    {
      hide WriteBlob;
      var keys := Keys(manifests.Keys);
      assert keys[0..] == keys;
      for i := 0 to |keys|
        invariant WriteAll(dir, ManifestWrites(w, manifests, keys[i..])) ==
                  WriteAll(old(dir), ManifestWrites(w, manifests, keys))
      {
        assert keys[i..][0] == keys[i] && keys[i..][1..] == keys[i + 1..];
        error := WriteLayoutBlob(keys[i], w.manifest.write(manifests[keys[i]]));
        if error.Some? {
          return;
        }
      }
      error := None;
    }

    method WriteReferrers(w: World, referrers: Referrers) returns (descriptors: seq<Descriptor>, error: Option<Error>)
      modifies this
      ensures Outcome(dir, error) == WriteAll(old(dir), ReferrerWrites(w, Flat(referrers, Sorted(referrers.Keys))))
      ensures error.None? ==> descriptors == ReferrerDescriptors(w, Flat(referrers, Sorted(referrers.Keys)))
    {
      hide WriteBlob, ReferrerWrites, ReferrerDescriptors, ReferrerDescriptor, WriteAll;
      var keys := Keys(referrers.Keys);
      descriptors := [];
      error := None;
      assert keys[0..] == keys;
      Append([], ReferrerDescriptors(w, Flat(referrers, keys)));
      for i := 0 to |keys|
        invariant error == None
        invariant WriteAll(dir, ReferrerWrites(w, Flat(referrers, keys[i..]))) ==
                  WriteAll(old(dir), ReferrerWrites(w, Flat(referrers, keys)))
        invariant descriptors + ReferrerDescriptors(w, Flat(referrers, keys[i..])) ==
                  ReferrerDescriptors(w, Flat(referrers, keys))
      {
        assert keys[i..][0] == keys[i] && keys[i..][1..] == keys[i + 1..];
        ReferrersStep(w, dir, referrers[keys[i]], Flat(referrers, keys[i + 1..]), descriptors);
        var more;
        more, error := WriteReferrersOf(w, referrers[keys[i]]);
        if error.Some? {
          return;
        }
        descriptors := descriptors + more;
      }
      assert keys[|keys|..] == [] && Flat(referrers, []) == [];
      NoReferrers(w, dir, descriptors);
    }

    /** The inner loop, over the referrers of one subject. */
    method WriteReferrersOf(w: World, ms: seq<ImageManifest>) returns (descriptors: seq<Descriptor>, error: Option<Error>)
      modifies this
      ensures Outcome(dir, error) == WriteAll(old(dir), ReferrerWrites(w, ms))
      ensures error.None? ==> descriptors == ReferrerDescriptors(w, ms)
    {
      hide WriteBlob, ReferrerWrites, ReferrerDescriptors, ReferrerDescriptor, WriteAll;
      descriptors := [];
      error := None;
      assert ms[0..] == ms;
      Append([], ReferrerDescriptors(w, ms));
      for i := 0 to |ms|
        invariant error == None
        invariant WriteAll(dir, ReferrerWrites(w, ms[i..])) == WriteAll(old(dir), ReferrerWrites(w, ms))
        invariant descriptors + ReferrerDescriptors(w, ms[i..]) == ReferrerDescriptors(w, ms)
      {
        assert ms[i..][0] == ms[i] && ms[i..][1..] == ms[i + 1..];
        ReferrerStep(w, dir, ms[i..], descriptors);
        var descriptor := ReferrerDescriptor(w, ms[i]);
        DigestOfReferrer(w, ms[i]);
        error := WriteLayoutBlob(descriptor.digest, w.manifest.write(ms[i]));
        if error.Some? {
          return;
        }
        descriptors := descriptors + [descriptor];
      }
      assert ms[|ms|..] == [];
      NoReferrers(w, dir, descriptors);
    }

    method WriteBlobs(blobs: map<string, Bytes>) returns (error: Option<Error>)
      modifies this
      ensures Outcome(dir, error) == WriteAll(old(dir), BlobWrites(blobs, Sorted(blobs.Keys)))
    {
      hide WriteBlob;
      var keys := Keys(blobs.Keys);
      assert keys[0..] == keys;
      for i := 0 to |keys|
        invariant WriteAll(dir, BlobWrites(blobs, keys[i..])) == WriteAll(old(dir), BlobWrites(blobs, keys))
      {
        assert keys[i..][0] == keys[i] && keys[i..][1..] == keys[i + 1..];
        error := WriteLayoutBlob(keys[i], blobs[keys[i]]);
        if error.Some? {
          return;
        }
      }
      error := None;
    }

    method ExportLayout(w: World, art: ArtifactSet, tag: string) returns (error: Option<Error>)
      modifies this
      ensures Outcome(dir, error) == Exported(w, art, old(dir), tag)
    {
      hide WriteAll, WriteBlob, Trim, ManifestWrites, ReferrerWrites, BlobWrites, RootDescriptor, ReferrerDescriptors, Digest, Prepare;
      error := PrepareLayout();
      if error.Some? {
        return;
      }
      if Trim(tag) == "" {
        return Some(InvalidLayoutTag);
      }
      var root := RootDescriptor(w, art, tag);
      DigestOfRoot(w, art, tag);
      WritesInParts(w, dir, art);
      error := WriteLayoutBlob(root.digest, w.index.write(art.index));
      if error.Some? {
        return;
      }
      error := WriteManifests(w, art.manifests);
      if error.Some? {
        return;
      }
      var referrers;
      referrers, error := WriteReferrers(w, art.referrers);
      if error.Some? {
        return;
      }
      error := WriteBlobs(art.blobs);
      if error.Some? {
        return;
      }
      var index := ImageIndex(2, INDEX_MEDIA_TYPE, None, [root] + art.index.manifests + referrers, map[]);
      dir := dir.(files := dir.files[INDEX_FILE := w.prettyIndex(index)]);
      dir := dir.(files := dir.files[METADATA_FILE := w.metadata.write(LAYOUT_VERSION)]);
    }
  }

  lemma DigestOfReferrer(w: World, m: ImageManifest)
    ensures ReferrerDescriptor(w, m).digest == Digest(w, w.manifest.write(m))
  {
  }

  lemma DigestOfRoot(w: World, art: ArtifactSet, tag: string)
    ensures RootDescriptor(w, art, tag).digest == Digest(w, w.index.write(art.index))
  {
  }

  /** The outcome of one more group of writes, unless an earlier one failed. */
  function Then(before: Outcome, writes: Writes): Outcome {
    if before.error.Some? then before else WriteAll(before.dir, writes)
  }

  lemma WritesInParts(w: World, dir: Dir, art: ArtifactSet)
    ensures WriteAll(dir, AllWrites(w, art)) ==
            Then(Then(Then(WriteBlob(dir, Digest(w, w.index.write(art.index)), w.index.write(art.index)),
                           ManifestWrites(w, art.manifests, Sorted(art.manifests.Keys))),
                      ReferrerWrites(w, AllReferrers(art))),
                 BlobWrites(art.blobs, Sorted(art.blobs.Keys)))
  {
    hide Digest, WriteBlob, ManifestWrites, ReferrerWrites, BlobWrites;
    var root := (Digest(w, w.index.write(art.index)), w.index.write(art.index));
    var a, b, c := ManifestWrites(w, art.manifests, Sorted(art.manifests.Keys)),
                   ReferrerWrites(w, AllReferrers(art)), BlobWrites(art.blobs, Sorted(art.blobs.Keys));
    WriteAppend(dir, [root] + a + b, c);
    WriteAppend(dir, [root] + a, b);
    WriteAppend(dir, [root], a);
    OneWrite(dir, root);
  }

  lemma OneWrite(dir: Dir, x: (string, Bytes))
    ensures WriteAll(dir, [x]) == WriteBlob(dir, x.0, x.1)
  {
    hide WriteBlob;
    assert [x][1..] == [];
  }

  lemma ReferrerStep(w: World, dir: Dir, ms: seq<ImageManifest>, descriptors: seq<Descriptor>)
    requires ms != []
    ensures var b := w.manifest.write(ms[0]);
            WriteAll(dir, ReferrerWrites(w, ms)) == Then(WriteBlob(dir, Digest(w, b), b), ReferrerWrites(w, ms[1..]))
    ensures descriptors + ReferrerDescriptors(w, ms) ==
            descriptors + [ReferrerDescriptor(w, ms[0])] + ReferrerDescriptors(w, ms[1..])
  {
    hide WriteBlob, Digest, ReferrerDescriptor;
    var b := w.manifest.write(ms[0]);
    WriteAppend(dir, [(Digest(w, b), b)], ReferrerWrites(w, ms[1..]));
    OneWrite(dir, (Digest(w, b), b));
    Associate(descriptors, [ReferrerDescriptor(w, ms[0])], ReferrerDescriptors(w, ms[1..]));
  }

  lemma ReferrersStep(w: World, dir: Dir, ms: seq<ImageManifest>, more: seq<ImageManifest>, descriptors: seq<Descriptor>)
    ensures WriteAll(dir, ReferrerWrites(w, ms + more)) == Then(WriteAll(dir, ReferrerWrites(w, ms)), ReferrerWrites(w, more))
    ensures descriptors + ReferrerDescriptors(w, ms + more) ==
            descriptors + ReferrerDescriptors(w, ms) + ReferrerDescriptors(w, more)
  {
    hide WriteBlob, Digest, ReferrerDescriptor, WriteAll;
    ReferrerWritesAppend(w, ms, more);
    WriteAppend(dir, ReferrerWrites(w, ms), ReferrerWrites(w, more));
    ReferrerDescriptorsAppend(w, ms, more);
    hide ReferrerDescriptors, ReferrerWrites;
    Associate(descriptors, ReferrerDescriptors(w, ms), ReferrerDescriptors(w, more));
  }

  lemma ReferrerDescriptorsAppend(w: World, a: seq<ImageManifest>, b: seq<ImageManifest>)
    ensures ReferrerDescriptors(w, a + b) == ReferrerDescriptors(w, a) + ReferrerDescriptors(w, b)
  {
    hide ReferrerDescriptor;
  }

  lemma {:induction false} ReferrerWritesAppend(w: World, a: seq<ImageManifest>, b: seq<ImageManifest>)
    ensures ReferrerWrites(w, a + b) == ReferrerWrites(w, a) + ReferrerWrites(w, b)
  {
    hide Digest;
    if a == [] {
      Append(a, b);
      Append([], ReferrerWrites(w, b));
    } else {
      assert (a + b)[0] == a[0] && (a + b)[1..] == a[1..] + b;
      ReferrerWritesAppend(w, a[1..], b);
      Associate([(Digest(w, w.manifest.write(a[0])), w.manifest.write(a[0]))], ReferrerWrites(w, a[1..]), ReferrerWrites(w, b));
    }
  }

  lemma NoReferrers(w: World, dir: Dir, descriptors: seq<Descriptor>)
    ensures WriteAll(dir, ReferrerWrites(w, [])) == Outcome(dir, None)
    ensures descriptors + ReferrerDescriptors(w, []) == descriptors
  {
  }

  // ---------------------------------------------------------------- importing

  function ReadFile(files: Files, path: Path): Result<Bytes, Error> {
    if path in files then Ok(files[path]) else Err(Io)
  }

  function ReadBlob(files: Files, digest: string): Result<Bytes, Error> {
    var parts :- SplitDigest(digest);
    ReadFile(files, BlobPath(parts))
  }

  function ReadManifest(w: World, files: Files, digest: string): Result<ImageManifest, Error> {
    var bytes :- ReadBlob(files, digest);
    Parsed(w.manifest.read(bytes))
  }

  type Blobs = map<string, Bytes>

  function LoadBlob(files: Files, digest: string, blobs: Blobs): Result<Blobs, Error> {
    if digest in blobs then Ok(blobs)
    else
      var bytes :- ReadBlob(files, digest);
      Ok(blobs[digest := bytes])
  }

  function LoadLayers(files: Files, layers: seq<Descriptor>, blobs: Blobs): Result<Blobs, Error> {
    if layers == [] then Ok(blobs)
    else
      var more :- LoadBlob(files, layers[0].digest, blobs);
      LoadLayers(files, layers[1..], more)
  }

  function LoadManifestBlobs(files: Files, m: ImageManifest, blobs: Blobs): Result<Blobs, Error> {
    var more :- LoadBlob(files, m.config.digest, blobs);
    LoadLayers(files, m.layers, more)
  }

  /** The manifests, referrers and blobs read so far. */
  datatype Loaded = Loaded(manifests: map<string, ImageManifest>, referrers: Referrers, blobs: Blobs)

  function LoadEntry(w: World, files: Files, digest: string, loaded: Loaded): Result<Loaded, Error> {
    var m :- ReadManifest(w, files, digest);
    var blobs :- LoadManifestBlobs(files, m, loaded.blobs);
    Ok(loaded.(blobs := blobs, manifests := loaded.manifests[digest := m]))
  }

  function LoadEntries(w: World, files: Files, ds: seq<Descriptor>, loaded: Loaded): Result<Loaded, Error>
    decreases ds
  {
    if ds == [] then Ok(loaded)
    else
      var more :- LoadEntry(w, files, ds[0].digest, loaded);
      LoadEntries(w, files, ds[1..], more)
  }

  /** Reads a descriptor of the layout, unless it is the root, an entry, or no referrer of an entry. */
  function LoadReferrer(w: World, files: Files, root: string, index: ImageIndex, d: Descriptor, loaded: Loaded): Result<Loaded, Error> {
    if d.digest == root || Lists(index.manifests, d.digest) || d.mediaType != MANIFEST_MEDIA_TYPE then Ok(loaded)
    else
      var m :- ReadManifest(w, files, d.digest);
      if m.subject.None? || !Lists(index.manifests, m.subject.value.digest) then Ok(loaded)
      else
        var blobs :- LoadManifestBlobs(files, m, loaded.blobs);
        Ok(loaded.(blobs := blobs, referrers := Refer(loaded.referrers, m.subject.value.digest, m)))
  }

  function LoadReferrers(w: World, files: Files, root: string, index: ImageIndex, ds: seq<Descriptor>, loaded: Loaded): Result<Loaded, Error>
    decreases ds
  {
    if ds == [] then Ok(loaded)
    else
      var more :- LoadReferrer(w, files, root, index, ds[0], loaded);
      LoadReferrers(w, files, root, index, ds[1..], more)
  }

  predicate IsRoot(d: Descriptor) {
    d.mediaType == INDEX_MEDIA_TYPE && d.artifactType == Some(MEDIA_TYPE_CATALOG)
  }

  function Roots(ds: seq<Descriptor>): seq<Descriptor> {
    if ds == [] then [] else (if IsRoot(ds[0]) then [ds[0]] else []) + Roots(ds[1..])
  }

  predicate IsNamed(d: Descriptor, name: string) {
    REF_NAME in d.annotations && d.annotations[REF_NAME] == name
  }

  function FindNamed(ds: seq<Descriptor>, name: string): Option<Descriptor> {
    if ds == [] then None
    else if IsNamed(ds[0], name) then Some(ds[0])
    else FindNamed(ds[1..], name)
  }

  function SelectRoot(index: ImageIndex, refName: Option<string>): Result<Descriptor, Error> {
    var roots := Roots(index.manifests);
    match refName
    case Some(name) =>
      (match FindNamed(roots, name)
       case Some(d) => Ok(d)
       case None => Err(MissingLayoutReference(name)))
    case None =>
      if |roots| == 1 then Ok(roots[0])
      else if roots == [] then Err(MissingLayoutReference("latest"))
      else Err(AmbiguousLayoutReference)
  }

  const NOTHING := Loaded(map[], map[], map[])

  function Imported(w: World, files: Files, refName: Option<string>): Result<ArtifactSet, Error> {
    var metadataBytes :- ReadFile(files, METADATA_FILE);
    var version :- Parsed(w.metadata.read(metadataBytes));
    if version != LAYOUT_VERSION then Err(UnsupportedLayoutVersion(version))
    else
      var indexBytes :- ReadFile(files, INDEX_FILE);
      var layout :- Parsed(w.index.read(indexBytes));
      var root :- SelectRoot(layout, refName);
      var rootBytes :- ReadBlob(files, root.digest);
      var index :- Parsed(w.index.read(rootBytes));
      var entries :- LoadEntries(w, files, index.manifests, NOTHING);
      var all :- LoadReferrers(w, files, root.digest, index, layout.manifests, entries);
      Ok(ArtifactSet(index, all.manifests, all.referrers, all.blobs))
  }

  method LoadBlobs(files: Files, m: ImageManifest, blobs: Blobs) returns (result: Result<Blobs, Error>)
    ensures result == LoadManifestBlobs(files, m, blobs)
  {
    var loaded :- LoadBlob(files, m.config.digest, blobs);
    hide LoadBlob;
    var layers := m.layers;
    assert layers[0..] == layers;
    for i := 0 to |layers|
      invariant LoadLayers(files, layers[i..], loaded) == LoadManifestBlobs(files, m, blobs)
    {
      assert layers[i..][0] == layers[i] && layers[i..][1..] == layers[i + 1..];
      loaded :- LoadBlob(files, layers[i].digest, loaded);
    }
    return Ok(loaded);
  }

  /** The first loop: the manifests that the root index lists. */
  method ImportEntries(w: World, files: Files, ds: seq<Descriptor>) returns (result: Result<Loaded, Error>)
    ensures result == LoadEntries(w, files, ds, NOTHING)
  {
    hide ReadManifest, LoadManifestBlobs;
    var loaded := NOTHING;
    assert ds[0..] == ds;
    for i := 0 to |ds|
      invariant LoadEntries(w, files, ds[i..], loaded) == LoadEntries(w, files, ds, NOTHING)
    {
      assert ds[i..][0] == ds[i] && ds[i..][1..] == ds[i + 1..];
      var manifest :- ReadManifest(w, files, ds[i].digest);
      var blobs :- LoadBlobs(files, manifest, loaded.blobs);
      loaded := loaded.(blobs := blobs, manifests := loaded.manifests[ds[i].digest := manifest]);
    }
    return Ok(loaded);
  }

  /** The second loop: the referrers of those manifests. */
  method ImportReferrers(w: World, files: Files, root: string, index: ImageIndex, ds: seq<Descriptor>, entries: Loaded)
    returns (result: Result<Loaded, Error>)
    ensures result == LoadReferrers(w, files, root, index, ds, entries)
  {
    hide ReadManifest, LoadManifestBlobs, Lists, Refer;
    var loaded := entries;
    assert ds[0..] == ds;
    for i := 0 to |ds|
      invariant LoadReferrers(w, files, root, index, ds[i..], loaded) == LoadReferrers(w, files, root, index, ds, entries)
    {
      assert ds[i..][0] == ds[i] && ds[i..][1..] == ds[i + 1..];
      var d := ds[i];
      if d.digest == root || Lists(index.manifests, d.digest) {
        continue;
      }
      if d.mediaType != MANIFEST_MEDIA_TYPE {
        continue;
      }
      var manifest :- ReadManifest(w, files, d.digest);
      if manifest.subject.None? {
        continue;
      }
      if !Lists(index.manifests, manifest.subject.value.digest) {
        continue;
      }
      var blobs :- LoadBlobs(files, manifest, loaded.blobs);
      loaded := loaded.(blobs := blobs, referrers := Refer(loaded.referrers, manifest.subject.value.digest, manifest));
    }
    return Ok(loaded);
  }

  method ImportLayout(w: World, files: Files, refName: Option<string>) returns (result: Result<ArtifactSet, Error>)
    ensures result == Imported(w, files, refName)
  {
    hide SelectRoot, ReadBlob, ReadFile, LoadEntries, LoadReferrers;
    var metadataBytes :- ReadFile(files, METADATA_FILE);
    var version :- Parsed(w.metadata.read(metadataBytes));
    if version != LAYOUT_VERSION {
      return Err(UnsupportedLayoutVersion(version));
    }
    var indexBytes :- ReadFile(files, INDEX_FILE);
    var layout :- Parsed(w.index.read(indexBytes));
    var root :- SelectRoot(layout, refName);
    var rootBytes :- ReadBlob(files, root.digest);
    var index :- Parsed(w.index.read(rootBytes));
    var entries :- ImportEntries(w, files, index.manifests);
    var all :- ImportReferrers(w, files, root.digest, index, layout.manifests, entries);
    return Ok(ArtifactSet(index, all.manifests, all.referrers, all.blobs));
  }
}
