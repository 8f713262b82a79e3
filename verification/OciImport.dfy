// What importing any layout directory gives: which root is selected, and which manifests,
// referrers and blobs are read. Nothing is assumed about who wrote the directory.

module OciImport {
  import opened Basics
  import opened OciModel
  import opened OciInvariant
  import opened OciLayout

  // ---------------------------------------------------------------- selecting the root

  /** A descriptor of a catalog index. */
  predicate IsRootAt(ds: seq<Descriptor>, i: int) {
    && 0 <= i < |ds|
    && ds[i].mediaType == "application/vnd.oci.image.index.v1+json" && ds[i].artifactType == Some("application/ai-catalog+json")
  }

  /** A descriptor of a catalog index that has the name. */
  predicate IsNamedAt(ds: seq<Descriptor>, i: int, name: string) {
    && IsRootAt(ds, i)
    && "org.opencontainers.image.ref.name" in ds[i].annotations && ds[i].annotations["org.opencontainers.image.ref.name"] == name
  }

  predicate IsFirstNamed(ds: seq<Descriptor>, i: int, name: string) {
    0 <= i < |ds| && IsNamedAt(ds, i, name) && forall j :: 0 <= j < i ==> !IsNamedAt(ds, j, name)
  }

  predicate IsOnlyRoot(ds: seq<Descriptor>, i: int) {
    0 <= i < |ds| && IsRootAt(ds, i) && forall j :: 0 <= j < |ds| && j != i ==> !IsRootAt(ds, j)
  }

  lemma RootsStep(ds: seq<Descriptor>)
    requires ds != []
    ensures Roots(ds) == (if IsRootAt(ds, 0) then [ds[0]] else []) + Roots(ds[1..])
    ensures forall i :: IsRootAt(ds[1..], i) <==> i >= 0 && IsRootAt(ds, i + 1)
    ensures forall i, name :: IsNamedAt(ds[1..], i, name) <==> i >= 0 && IsNamedAt(ds, i + 1, name)
  {
  }

  lemma {:induction false} FindNamedExact(ds: seq<Descriptor>, name: string)
    ensures FindNamed(Roots(ds), name).None? <==> forall i :: !IsNamedAt(ds, i, name)
    ensures forall i :: IsFirstNamed(ds, i, name) ==> FindNamed(Roots(ds), name) == Some(ds[i])
    ensures FindNamed(Roots(ds), name).Some? ==> exists i :: IsFirstNamed(ds, i, name)
  {
    hide IsNamedAt, IsRootAt;
    if ds == [] {
      assert forall i :: !IsNamedAt(ds, i, name) by { NoneNamed(name); }
    } else {
      RootsStep(ds);
      FindNamedExact(ds[1..], name);
      HeadNamed(ds, name);
      FirstNamedStep(ds, name);
      hide IsFirstNamed;
      if IsNamedAt(ds, 0, name) {
        assert IsFirstNamed(ds, 0, name);
      } else if i :| IsFirstNamed(ds[1..], i, name) {
        assert IsFirstNamed(ds, i + 1, name);
      }
    }
  }

  lemma FirstNamedStep(ds: seq<Descriptor>, name: string)
    requires ds != []
    ensures IsNamedAt(ds, 0, name) ==> forall i :: IsFirstNamed(ds, i, name) <==> i == 0
    ensures !IsNamedAt(ds, 0, name) ==> forall i :: IsFirstNamed(ds[1..], i, name) ==> IsFirstNamed(ds, i + 1, name)
    ensures !IsNamedAt(ds, 0, name) ==> forall i :: IsFirstNamed(ds, i, name) ==> i > 0 && IsFirstNamed(ds[1..], i - 1, name) && ds[1..][i - 1] == ds[i]
    ensures (forall i :: !IsNamedAt(ds, i, name)) <==> !IsNamedAt(ds, 0, name) && forall i :: !IsNamedAt(ds[1..], i, name)
  {
    RootsStep(ds);
    forall i ensures IsNamedAt(ds, i, name) ==> 0 <= i < |ds| && (i > 0 ==> IsNamedAt(ds[1..], i - 1, name)) {
    }
    hide IsNamedAt, Roots, IsRootAt;
    if !IsNamedAt(ds, 0, name) {
      forall i | IsFirstNamed(ds[1..], i, name) ensures IsFirstNamed(ds, i + 1, name) {
        forall j | 0 < j < i + 1 ensures !IsNamedAt(ds, j, name) {
          assert !IsNamedAt(ds[1..], j - 1, name);
        }
      }
      forall i | IsFirstNamed(ds, i, name) ensures i > 0 && IsFirstNamed(ds[1..], i - 1, name) {
        forall j | 0 <= j < i - 1 ensures !IsNamedAt(ds[1..], j, name) {
          assert !IsNamedAt(ds, j + 1, name);
        }
      }
    }
  }

  lemma NoneNamed(name: string)
    ensures forall i :: !IsNamedAt([], i, name)
  {
  }

  lemma HeadNamed(ds: seq<Descriptor>, name: string)
    requires ds != []
    ensures var rest := Roots(ds[1..]);
            FindNamed((if IsRootAt(ds, 0) then [ds[0]] else []) + rest, name) ==
            if IsNamedAt(ds, 0, name) then Some(ds[0]) else FindNamed(rest, name)
  {
    hide Roots;
    var rest := Roots(ds[1..]);
    Append([], rest);
    assert ([ds[0]] + rest)[1..] == rest;
  }

  /** Under a name, the root is the first catalog index of the layout that has the name. */
  lemma {:induction false} SelectNamedExact(index: ImageIndex, name: string, d: Descriptor)
    ensures SelectRoot(index, Some(name)) == Ok(d) <==> exists i :: IsFirstNamed(index.manifests, i, name) && index.manifests[i] == d
    ensures SelectRoot(index, Some(name)).Err? <==> SelectRoot(index, Some(name)) == Err(MissingLayoutReference(name))
    ensures SelectRoot(index, Some(name)).Err? <==> forall i :: !IsNamedAt(index.manifests, i, name)
  {
    FindNamedExact(index.manifests, name);
    hide IsNamedAt, Roots, FindNamed;
    if SelectRoot(index, Some(name)) == Ok(d) {
      var i :| IsFirstNamed(index.manifests, i, name);
      assert index.manifests[i] == d;
    }
  }

  lemma {:induction false} RootsExact(ds: seq<Descriptor>)
    ensures Roots(ds) == [] <==> forall i :: !IsRootAt(ds, i)
    ensures |Roots(ds)| >= 2 <==> exists i, j :: i < j && IsRootAt(ds, i) && IsRootAt(ds, j)
    ensures forall i :: IsOnlyRoot(ds, i) ==> Roots(ds) == [ds[i]]
    ensures |Roots(ds)| == 1 ==> exists i :: IsOnlyRoot(ds, i)
  {
    if ds != [] {
      hide IsRootAt, Roots;
      RootsStep(ds);
      RootsExact(ds[1..]);
      RootRange(ds);
      TwoRoots(ds);
      OneOfRoots(ds);
    }
  }

  lemma RootRange(ds: seq<Descriptor>)
    ensures forall i :: IsRootAt(ds, i) ==> 0 <= i < |ds|
  {
  }

  lemma TwoRoots(ds: seq<Descriptor>)
    requires ds != []
    ensures (exists i, j :: i < j && IsRootAt(ds, i) && IsRootAt(ds, j)) <==>
            || (exists i, j :: i < j && IsRootAt(ds[1..], i) && IsRootAt(ds[1..], j))
            || (IsRootAt(ds, 0) && exists j :: IsRootAt(ds[1..], j))
  {
    RootsStep(ds);
    RootRange(ds);
    hide IsRootAt, Roots;
    if i, j :| i < j && IsRootAt(ds, i) && IsRootAt(ds, j) {
      assert IsRootAt(ds[1..], j - 1);
      if i > 0 {
        assert IsRootAt(ds[1..], i - 1);
      }
    }
    if i, j :| i < j && IsRootAt(ds[1..], i) && IsRootAt(ds[1..], j) {
      assert IsRootAt(ds, i + 1) && IsRootAt(ds, j + 1);
    }
    if j :| IsRootAt(ds[1..], j) {
      assert IsRootAt(ds, j + 1);
    }
  }

  lemma OneOfRoots(ds: seq<Descriptor>)
    requires ds != []
    ensures forall i :: IsOnlyRoot(ds, i) ==>
              if i == 0 then IsRootAt(ds, 0) && forall j :: !IsRootAt(ds[1..], j)
              else !IsRootAt(ds, 0) && IsOnlyRoot(ds[1..], i - 1) && ds[1..][i - 1] == ds[i]
    ensures IsRootAt(ds, 0) && (forall j :: !IsRootAt(ds[1..], j)) ==> IsOnlyRoot(ds, 0)
    ensures !IsRootAt(ds, 0) ==> forall i :: IsOnlyRoot(ds[1..], i) ==> IsOnlyRoot(ds, i + 1)
  {
    RootsStep(ds);
    RootRange(ds);
    RootRange(ds[1..]);
    hide IsRootAt, Roots;
    forall i | IsOnlyRoot(ds, i)
      ensures if i == 0 then forall j :: !IsRootAt(ds[1..], j) else !IsRootAt(ds, 0) && IsOnlyRoot(ds[1..], i - 1) && ds[1..][i - 1] == ds[i]
    {
      if i == 0 {
        forall j ensures !IsRootAt(ds[1..], j) {
          assert IsRootAt(ds[1..], j) ==> IsRootAt(ds, j + 1);
        }
      } else {
        assert IsRootAt(ds[1..], i - 1);
        forall j | 0 <= j < |ds[1..]| && j != i - 1 ensures !IsRootAt(ds[1..], j) {
          assert !IsRootAt(ds, j + 1);
        }
      }
    }
    if IsRootAt(ds, 0) && forall j :: !IsRootAt(ds[1..], j) {
      forall j | 0 < j < |ds| ensures !IsRootAt(ds, j) {
        assert !IsRootAt(ds[1..], j - 1);
      }
    }
    if !IsRootAt(ds, 0) {
      forall i | IsOnlyRoot(ds[1..], i) ensures IsOnlyRoot(ds, i + 1) {
        forall j | 0 <= j < |ds| && j != i + 1 ensures !IsRootAt(ds, j) {
          if j > 0 {
            assert !IsRootAt(ds[1..], j - 1);
          }
        }
      }
    }
  }

  /** Under no name, the root is the only catalog index of the layout; none is missing, two are ambiguous. */
  lemma {:induction false} SelectOnlyExact(index: ImageIndex, d: Descriptor)
    ensures SelectRoot(index, None) == Ok(d) <==> exists i :: IsOnlyRoot(index.manifests, i) && index.manifests[i] == d
    ensures SelectRoot(index, None) == Err(MissingLayoutReference("latest")) <==> forall i :: !IsRootAt(index.manifests, i)
    ensures SelectRoot(index, None) == Err(AmbiguousLayoutReference) <==>
            exists i, j :: i < j && IsRootAt(index.manifests, i) && IsRootAt(index.manifests, j)
  {
    var ds := index.manifests;
    RootsExact(ds);
    hide IsRootAt, Roots;
    if SelectRoot(index, None) == Ok(d) {
      var i :| IsOnlyRoot(ds, i);
      assert ds[i] == d;
    }
  }

  // ---------------------------------------------------------------- blobs

  /** The directory has these bytes under the two parts of the digest. */
  ghost predicate StoresAt(files: Files, digest: string, bytes: Bytes) {
    exists algorithm, value :: IsDigestOf(digest, algorithm, value) && IsFile(files, ["blobs", algorithm, value], bytes)
  }

  predicate IsFile(files: Files, path: Path, bytes: Bytes) { path in files && files[path] == bytes }

  lemma StoredExact(files: Files, digest: string, bytes: Bytes)
    ensures ReadBlob(files, digest) == Ok(bytes) <==> StoresAt(files, digest, bytes)
  {
    if SplitDigest(digest).Ok? {
      var parts := SplitDigest(digest).value;
      SplitDigestExact(digest, parts.0, parts.1);
    }
    forall algorithm, value ensures IsDigestOf(digest, algorithm, value) ==> SplitDigest(digest) == Ok((algorithm, value)) {
      SplitDigestExact(digest, algorithm, value);
    }
    hide SplitDigest, IsDigestOf;
  }

  /** The directory has a manifest under the digest. */
  ghost predicate StoresManifest(w: World, files: Files, digest: string, m: ImageManifest) {
    exists bytes :: StoresAt(files, digest, bytes) && w.manifest.read(bytes) == Some(m)
  }

  lemma StoredManifestExact(w: World, files: Files, digest: string, m: ImageManifest)
    ensures ReadManifest(w, files, digest) == Ok(m) <==> StoresManifest(w, files, digest, m)
  {
    forall bytes ensures ReadBlob(files, digest) == Ok(bytes) <==> StoresAt(files, digest, bytes) {
      StoredExact(files, digest, bytes);
    }
    hide ReadBlob, StoresAt;
    if ReadManifest(w, files, digest) == Ok(m) {
      assert StoresAt(files, digest, ReadBlob(files, digest).value);
    }
  }

  /** What has been read is what the directory has. */
  predicate IsRead(files: Files, blobs: Blobs) {
    forall k :: k in blobs ==> ReadBlob(files, k) == Ok(blobs[k])
  }

  lemma ReadOne(files: Files, digest: string, blobs: Blobs)
    requires IsRead(files, blobs)
    ensures var r := LoadBlob(files, digest, blobs);
            && (r.Ok? <==> ReadBlob(files, digest).Ok?)
            && (r.Ok? ==> IsRead(files, r.value) && forall k :: k in r.value <==> k in blobs || k == digest)
  {
    hide ReadBlob;
  }

  lemma {:induction false} ReadLayers(files: Files, layers: seq<Descriptor>, blobs: Blobs)
    requires IsRead(files, blobs)
    ensures var r := LoadLayers(files, layers, blobs);
            && (r.Ok? <==> forall k :: Lists(layers, k) ==> ReadBlob(files, k).Ok?)
            && (r.Ok? ==> IsRead(files, r.value) && forall k :: k in r.value <==> k in blobs || Lists(layers, k))
  {
    hide ReadBlob, LoadBlob, IsRead;
    if layers != [] {
      ReadOne(files, layers[0].digest, blobs);
      forall k ensures Lists(layers, k) <==> k == layers[0].digest || Lists(layers[1..], k) {
        ListsStep(layers, k);
      }
      hide Lists;
      if LoadBlob(files, layers[0].digest, blobs).Ok? {
        ReadLayers(files, layers[1..], LoadBlob(files, layers[0].digest, blobs).value);
      }
      assert Lists(layers, layers[0].digest);
    }
  }

  /** Every blob that the manifest refers to can be read. */
  ghost predicate CanLoad(files: Files, m: ImageManifest) {
    forall k :: RefersTo(m, k) ==> ReadBlob(files, k).Ok?
  }

  lemma ReadManifestBlobs(files: Files, m: ImageManifest, blobs: Blobs)
    requires IsRead(files, blobs)
    ensures var r := LoadManifestBlobs(files, m, blobs);
            && (r.Ok? <==> CanLoad(files, m))
            && (r.Ok? ==> IsRead(files, r.value) && forall k :: k in r.value <==> k in blobs || RefersTo(m, k))
  {
    hide ReadBlob, LoadBlob, LoadLayers, IsRead;
    ReadOne(files, m.config.digest, blobs);
    forall k ensures RefersTo(m, k) <==> k == m.config.digest || Lists(m.layers, k) {
    }
    assert RefersTo(m, m.config.digest);
    hide RefersTo, Lists;
    if LoadBlob(files, m.config.digest, blobs).Ok? {
      ReadLayers(files, m.layers, LoadBlob(files, m.config.digest, blobs).value);
    }
  }

  // ---------------------------------------------------------------- entries

  /** The manifest under the digest can be read, with its blobs. */
  ghost predicate CanLoadAt(w: World, files: Files, digest: string) {
    ReadManifest(w, files, digest).Ok? && CanLoad(files, ReadManifest(w, files, digest).value)
  }

  ghost predicate ManifestRefersTo(w: World, files: Files, digest: string, k: string) {
    ReadManifest(w, files, digest).Ok? && RefersTo(ReadManifest(w, files, digest).value, k)
  }

  ghost predicate EntriesReferTo(w: World, files: Files, ds: seq<Descriptor>, k: string) {
    exists digest :: Lists(ds, digest) && ManifestRefersTo(w, files, digest, k)
  }

  ghost predicate ManifestsRead(w: World, files: Files, manifests: map<string, ImageManifest>) {
    forall k :: k in manifests ==> ReadManifest(w, files, k) == Ok(manifests[k])
  }

  lemma ReadEntry(w: World, files: Files, digest: string, loaded: Loaded)
    requires IsRead(files, loaded.blobs) && ManifestsRead(w, files, loaded.manifests)
    ensures var r := LoadEntry(w, files, digest, loaded);
            && (r.Ok? <==> CanLoadAt(w, files, digest))
            && (r.Ok? ==>
                  && IsRead(files, r.value.blobs) && ManifestsRead(w, files, r.value.manifests)
                  && r.value.referrers == loaded.referrers
                  && (forall k :: k in r.value.manifests <==> k in loaded.manifests || k == digest)
                  && (forall k :: k in r.value.blobs <==> k in loaded.blobs || ManifestRefersTo(w, files, digest, k)))
  {
    hide ReadManifest, LoadManifestBlobs, IsRead, RefersTo, CanLoad;
    if ReadManifest(w, files, digest).Ok? {
      ReadManifestBlobs(files, ReadManifest(w, files, digest).value, loaded.blobs);
    }
  }

  lemma {:induction false} ReadEntries(w: World, files: Files, ds: seq<Descriptor>, loaded: Loaded)
    requires IsRead(files, loaded.blobs) && ManifestsRead(w, files, loaded.manifests)
    ensures var r := LoadEntries(w, files, ds, loaded);
            && (r.Ok? <==> forall k :: Lists(ds, k) ==> CanLoadAt(w, files, k))
            && (r.Ok? ==>
                  && IsRead(files, r.value.blobs) && ManifestsRead(w, files, r.value.manifests)
                  && r.value.referrers == loaded.referrers
                  && (forall k :: k in r.value.manifests <==> k in loaded.manifests || Lists(ds, k))
                  && (forall k :: k in r.value.blobs <==> k in loaded.blobs || EntriesReferTo(w, files, ds, k)))
    decreases ds
  {
    hide LoadEntry, IsRead, ManifestsRead, CanLoadAt, ManifestRefersTo;
    if ds != [] {
      var first := ds[0].digest;
      ReadEntry(w, files, first, loaded);
      forall k ensures Lists(ds, k) <==> k == first || Lists(ds[1..], k) {
        ListsStep(ds, k);
      }
      assert Lists(ds, first);
      hide Lists;
      forall k ensures EntriesReferTo(w, files, ds, k) <==> ManifestRefersTo(w, files, first, k) || EntriesReferTo(w, files, ds[1..], k) {
      }
      hide EntriesReferTo;
      if LoadEntry(w, files, first, loaded).Ok? {
        ReadEntries(w, files, ds[1..], LoadEntry(w, files, first, loaded).value);
      }
    }
  }

  // ---------------------------------------------------------------- referrers

  /** A descriptor of a manifest that is neither the root nor an entry. */
  predicate IsOther(root: string, index: ImageIndex, d: Descriptor) {
    && d.digest != root && !Lists(index.manifests, d.digest)
    && d.mediaType == "application/vnd.oci.image.manifest.v1+json"
  }

  /** The manifest refers to an entry of the index. */
  predicate IsAboutEntry(index: ImageIndex, m: ImageManifest) {
    m.subject.Some? && Lists(index.manifests, m.subject.value.digest)
  }

  /** The manifest that the descriptor of another manifest leads to, if the entry `k` is its subject. */
  function FiledOne(w: World, files: Files, root: string, index: ImageIndex, d: Descriptor, k: string): seq<ImageManifest> {
    match ReadManifest(w, files, d.digest)
    case Ok(m) =>
      if IsOther(root, index, d) && IsAboutEntry(index, m) && m.subject.value.digest == k then [m] else []
    case Err(_) => []
  }

  /** The manifests that the descriptors of others lead to and that have the entry `k` as their subject, in order. */
  function Filed(w: World, files: Files, root: string, index: ImageIndex, ds: seq<Descriptor>, k: string): seq<ImageManifest>
    decreases ds
  {
    if ds == [] then [] else FiledOne(w, files, root, index, ds[0], k) + Filed(w, files, root, index, ds[1..], k)
  }

  /** What the descriptor of another manifest leads to can be read, with its blobs if it refers to an entry. */
  ghost predicate CanFile(w: World, files: Files, root: string, index: ImageIndex, d: Descriptor) {
    IsOther(root, index, d) ==>
      && ReadManifest(w, files, d.digest).Ok?
      && (IsAboutEntry(index, ReadManifest(w, files, d.digest).value) ==> CanLoad(files, ReadManifest(w, files, d.digest).value))
  }

  ghost predicate FiledRefersTo(w: World, files: Files, root: string, index: ImageIndex, d: Descriptor, k: string) {
    && IsOther(root, index, d) && ReadManifest(w, files, d.digest).Ok?
    && IsAboutEntry(index, ReadManifest(w, files, d.digest).value)
    && RefersTo(ReadManifest(w, files, d.digest).value, k)
  }

  ghost predicate OthersReferTo(w: World, files: Files, root: string, index: ImageIndex, ds: seq<Descriptor>, k: string) {
    exists i :: 0 <= i < |ds| && FiledRefersTo(w, files, root, index, ds[i], k)
  }

  lemma ReadReferrer(w: World, files: Files, root: string, index: ImageIndex, d: Descriptor, loaded: Loaded)
    requires IsRead(files, loaded.blobs)
    ensures var r := LoadReferrer(w, files, root, index, d, loaded);
            && (r.Ok? <==> CanFile(w, files, root, index, d))
            && (r.Ok? ==>
                  && IsRead(files, r.value.blobs) && r.value.manifests == loaded.manifests
                  && (forall k :: k in r.value.blobs <==> k in loaded.blobs || FiledRefersTo(w, files, root, index, d, k)))
  {
    hide ReadManifest, LoadManifestBlobs, IsRead, RefersTo, CanLoad, Lists, Refer;
    if ReadManifest(w, files, d.digest).Ok? {
      ReadManifestBlobs(files, ReadManifest(w, files, d.digest).value, loaded.blobs);
    }
  }

  lemma ReferrerFiled(w: World, files: Files, root: string, index: ImageIndex, d: Descriptor, loaded: Loaded, k: string)
    requires LoadReferrer(w, files, root, index, d, loaded).Ok?
    ensures var r := LoadReferrer(w, files, root, index, d, loaded).value.referrers;
            && Under(r, k) == Under(loaded.referrers, k) + FiledOne(w, files, root, index, d, k)
            && (k in r <==> k in loaded.referrers || FiledOne(w, files, root, index, d, k) != [])
  {
    hide ReadManifest, LoadManifestBlobs, Lists;
    Append(Under(loaded.referrers, k), []);
  }

  lemma {:induction false} ReadReferrers(w: World, files: Files, root: string, index: ImageIndex, ds: seq<Descriptor>, loaded: Loaded)
    requires IsRead(files, loaded.blobs)
    ensures var r := LoadReferrers(w, files, root, index, ds, loaded);
            && (r.Ok? <==> forall i :: 0 <= i < |ds| ==> CanFile(w, files, root, index, ds[i]))
            && (r.Ok? ==>
                  && IsRead(files, r.value.blobs) && r.value.manifests == loaded.manifests
                  && (forall k :: k in r.value.blobs <==> k in loaded.blobs || OthersReferTo(w, files, root, index, ds, k)))
    decreases ds
  {
    hide LoadReferrer, IsRead, CanFile, FiledRefersTo;
    if ds != [] {
      ReadReferrer(w, files, root, index, ds[0], loaded);
      forall k ensures OthersReferTo(w, files, root, index, ds, k) <==>
                       FiledRefersTo(w, files, root, index, ds[0], k) || OthersReferTo(w, files, root, index, ds[1..], k) {
        OthersStep(w, files, root, index, ds, k);
      }
      hide OthersReferTo;
      assert forall i :: 0 < i < |ds| ==> ds[i] == ds[1..][i - 1];
      assert forall i :: 0 <= i < |ds[1..]| ==> ds[1..][i] == ds[i + 1];
      if LoadReferrer(w, files, root, index, ds[0], loaded).Ok? {
        ReadReferrers(w, files, root, index, ds[1..], LoadReferrer(w, files, root, index, ds[0], loaded).value);
      }
    }
  }

  lemma OthersStep(w: World, files: Files, root: string, index: ImageIndex, ds: seq<Descriptor>, k: string)
    requires ds != []
    ensures OthersReferTo(w, files, root, index, ds, k) <==>
            FiledRefersTo(w, files, root, index, ds[0], k) || OthersReferTo(w, files, root, index, ds[1..], k)
  {
    hide FiledRefersTo;
    assert forall i :: 0 < i < |ds| ==> ds[i] == ds[1..][i - 1];
    assert forall i :: 0 <= i < |ds[1..]| ==> ds[1..][i] == ds[i + 1];
  }

  lemma {:induction false} ReferrersFiledUnder(w: World, files: Files, root: string, index: ImageIndex, ds: seq<Descriptor>, loaded: Loaded, k: string)
    requires LoadReferrers(w, files, root, index, ds, loaded).Ok?
    ensures var r := LoadReferrers(w, files, root, index, ds, loaded).value.referrers;
            && Under(r, k) == Under(loaded.referrers, k) + Filed(w, files, root, index, ds, k)
            && (k in r <==> k in loaded.referrers || Filed(w, files, root, index, ds, k) != [])
    decreases ds
  {
    hide LoadReferrer, ReadManifest, IsOther, IsAboutEntry, Under;
    if ds == [] {
      Append(Under(loaded.referrers, k), []);
    } else {
      var one := FiledOne(w, files, root, index, ds[0], k);
      ReferrerFiled(w, files, root, index, ds[0], loaded, k);
      ReferrersFiledUnder(w, files, root, index, ds[1..], LoadReferrer(w, files, root, index, ds[0], loaded).value, k);
      Associate(Under(loaded.referrers, k), one, Filed(w, files, root, index, ds[1..], k));
    }
  }

  lemma {:induction false} FiledMembers(w: World, files: Files, root: string, index: ImageIndex, ds: seq<Descriptor>, k: string, m: ImageManifest)
    ensures m in Filed(w, files, root, index, ds, k) <==>
            exists i :: 0 <= i < |ds| && FiledOne(w, files, root, index, ds[i], k) == [m]
  {
    hide FiledOne;
    if ds != [] {
      var one := FiledOne(w, files, root, index, ds[0], k);
      AtMostOne(w, files, root, index, ds[0], k);
      FiledMembers(w, files, root, index, ds[1..], k, m);
      assert forall i :: 0 < i < |ds| ==> ds[i] == ds[1..][i - 1];
      assert forall i :: 0 <= i < |ds[1..]| ==> ds[1..][i] == ds[i + 1];
      assert m in one <==> one == [m];
    }
  }

  lemma AtMostOne(w: World, files: Files, root: string, index: ImageIndex, d: Descriptor, k: string)
    ensures |FiledOne(w, files, root, index, d, k)| <= 1
  {
  }

  // ---------------------------------------------------------------- the whole import

  /** What an import yields from a layout whose root has been selected: the manifests that the index lists, the
      referrers of these in the order of the layout, and exactly the blobs they all refer to. */
  ghost predicate IsImport(w: World, files: Files, layout: ImageIndex, root: string, art: ArtifactSet) {
    && IsFiled(w, files, layout, root, art) && HasReferenced(art)
    && ManifestsStored(w, files, art.manifests)
    && BlobsStored(files, art.blobs)
    && OthersStored(w, files, layout, root, art.index)
  }

  ghost predicate IsFiled(w: World, files: Files, layout: ImageIndex, root: string, art: ArtifactSet) {
    && (forall k :: k in art.manifests <==> Lists(art.index.manifests, k))
    && (forall k :: k in art.referrers <==> Filed(w, files, root, art.index, layout.manifests, k) != [])
    && (forall k :: k in art.referrers ==> art.referrers[k] == Filed(w, files, root, art.index, layout.manifests, k))
  }

  ghost predicate HasReferenced(art: ArtifactSet) { forall k :: k in art.blobs <==> IsReferenced(art, k) }

  ghost predicate ManifestsStored(w: World, files: Files, manifests: map<string, ImageManifest>) {
    forall k :: k in manifests ==> StoresManifest(w, files, k, manifests[k])
  }

  ghost predicate BlobsStored(files: Files, blobs: Blobs) {
    forall k :: k in blobs ==> StoresAt(files, k, blobs[k])
  }

  ghost predicate HasManifest(w: World, files: Files, digest: string) {
    exists m :: StoresManifest(w, files, digest, m)
  }

  /** Every other manifest that the layout describes is there, whatever it refers to. */
  ghost predicate OthersStored(w: World, files: Files, layout: ImageIndex, root: string, index: ImageIndex) {
    forall i :: 0 <= i < |layout.manifests| && IsOther(root, index, layout.manifests[i]) ==>
      HasManifest(w, files, layout.manifests[i].digest)
  }

  /** The manifests and referrers of `art` are those that are read. */
  ghost predicate HasRead(w: World, files: Files, layout: ImageIndex, root: string, art: ArtifactSet) {
    IsFiled(w, files, layout, root, art) && ManifestsRead(w, files, art.manifests)
  }

  lemma EntriesReferenced(w: World, files: Files, layout: ImageIndex, root: string, art: ArtifactSet, k: string)
    requires HasRead(w, files, layout, root, art)
    ensures EntriesReferTo(w, files, art.index.manifests, k) <==> exists d :: d in art.manifests && RefersTo(art.manifests[d], k)
  {
    hide ReadManifest, Lists, RefersTo, Filed;
    if d :| d in art.manifests && RefersTo(art.manifests[d], k) {
      assert Lists(art.index.manifests, d) && ManifestRefersTo(w, files, d, k);
    }
  }

  lemma OthersReferenced(w: World, files: Files, layout: ImageIndex, root: string, art: ArtifactSet, k: string)
    requires HasRead(w, files, layout, root, art)
    ensures OthersReferTo(w, files, root, art.index, layout.manifests, k) <==>
            exists d, n :: d in art.referrers && 0 <= n < |art.referrers[d]| && RefersTo(art.referrers[d][n], k)
  {
    var ds := layout.manifests;
    hide ReadManifest, Lists, RefersTo, Filed, IsOther, IsAboutEntry;
    if i :| 0 <= i < |ds| && FiledRefersTo(w, files, root, art.index, ds[i], k) {
      var m := ReadManifest(w, files, ds[i].digest).value;
      assert IsAboutEntry(art.index, m);
      HasSubject(art.index, m);
      var d := m.subject.value.digest;
      assert FiledOne(w, files, root, art.index, ds[i], d) == [m];
      FiledMembers(w, files, root, art.index, ds, d, m);
      var n :| 0 <= n < |art.referrers[d]| && art.referrers[d][n] == m;
    }
    if d, n :| d in art.referrers && 0 <= n < |art.referrers[d]| && RefersTo(art.referrers[d][n], k) {
      FiledMembers(w, files, root, art.index, ds, d, art.referrers[d][n]);
      var i :| 0 <= i < |ds| && FiledOne(w, files, root, art.index, ds[i], d) == [art.referrers[d][n]];
      assert FiledRefersTo(w, files, root, art.index, ds[i], k);
    }
  }

  lemma HasSubject(index: ImageIndex, m: ImageManifest)
    requires IsAboutEntry(index, m)
    ensures m.subject.Some?
  {
  }

  lemma AllReferenced(w: World, files: Files, layout: ImageIndex, root: string, art: ArtifactSet)
    requires HasRead(w, files, layout, root, art)
    ensures forall k :: IsReferenced(art, k) <==>
              EntriesReferTo(w, files, art.index.manifests, k) || OthersReferTo(w, files, root, art.index, layout.manifests, k)
  {
    hide HasRead, EntriesReferTo, OthersReferTo, RefersTo;
    forall k ensures IsReferenced(art, k) <==>
                     EntriesReferTo(w, files, art.index.manifests, k) || OthersReferTo(w, files, root, art.index, layout.manifests, k) {
      EntriesReferenced(w, files, layout, root, art, k);
      OthersReferenced(w, files, layout, root, art, k);
    }
  }

  predicate OthersRead(w: World, files: Files, layout: ImageIndex, root: string, index: ImageIndex) {
    forall i :: 0 <= i < |layout.manifests| && IsOther(root, index, layout.manifests[i]) ==>
      ReadManifest(w, files, layout.manifests[i].digest).Ok?
  }

  lemma OthersStoredExact(w: World, files: Files, layout: ImageIndex, root: string, index: ImageIndex)
    ensures OthersStored(w, files, layout, root, index) <==> OthersRead(w, files, layout, root, index)
  {
    forall i | 0 <= i < |layout.manifests|
      ensures ReadManifest(w, files, layout.manifests[i].digest).Ok? <==> HasManifest(w, files, layout.manifests[i].digest)
    {
      HasManifestExact(w, files, layout.manifests[i].digest);
    }
    hide ReadManifest, HasManifest, IsOther;
  }

  lemma ImportIs(w: World, files: Files, layout: ImageIndex, root: string, art: ArtifactSet)
    ensures IsImport(w, files, layout, root, art) <==>
            && HasRead(w, files, layout, root, art) && IsRead(files, art.blobs) && HasReferenced(art)
            && OthersRead(w, files, layout, root, art.index)
  {
    ManifestsStoredExact(w, files, art.manifests);
    BlobsStoredExact(files, art.blobs);
    OthersStoredExact(w, files, layout, root, art.index);
    hide IsFiled, HasReferenced, IsRead, ManifestsRead, ManifestsStored, BlobsStored, OthersRead, OthersStored;
  }

  lemma ManifestsStoredExact(w: World, files: Files, manifests: map<string, ImageManifest>)
    ensures ManifestsStored(w, files, manifests) <==> ManifestsRead(w, files, manifests)
  {
    forall k | k in manifests
      ensures ReadManifest(w, files, k) == Ok(manifests[k]) <==> StoresManifest(w, files, k, manifests[k])
    {
      StoredManifestExact(w, files, k, manifests[k]);
    }
    hide ReadManifest, StoresManifest;
  }

  lemma BlobsStoredExact(files: Files, blobs: Blobs)
    ensures BlobsStored(files, blobs) <==> IsRead(files, blobs)
  {
    forall k | k in blobs ensures ReadBlob(files, k) == Ok(blobs[k]) <==> StoresAt(files, k, blobs[k]) {
      StoredExact(files, k, blobs[k]);
    }
    hide ReadBlob, StoresAt;
  }

  lemma HasManifestExact(w: World, files: Files, digest: string)
    ensures ReadManifest(w, files, digest).Ok? <==> HasManifest(w, files, digest)
  {
    var r := ReadManifest(w, files, digest);
    if r.Ok? {
      StoredManifestExact(w, files, digest, r.value);
    }
    if m :| StoresManifest(w, files, digest, m) {
      StoredManifestExact(w, files, digest, m);
    }
    hide ReadManifest, StoresManifest;
  }

  /** The loops of the import succeed exactly where `IsImport` can be met, and then meet it. */
  ghost predicate Loads(w: World, files: Files, layout: ImageIndex, root: string, art: ArtifactSet) {
    var entries := LoadEntries(w, files, art.index.manifests, NOTHING);
    && entries.Ok?
    && LoadReferrers(w, files, root, art.index, layout.manifests, entries.value) == Ok(Loaded(art.manifests, art.referrers, art.blobs))
  }

  lemma LoadsHasRead(w: World, files: Files, layout: ImageIndex, root: string, art: ArtifactSet)
    requires Loads(w, files, layout, root, art)
    ensures HasRead(w, files, layout, root, art) && IsRead(files, art.blobs)
    ensures forall k :: k in art.blobs <==>
              EntriesReferTo(w, files, art.index.manifests, k) || OthersReferTo(w, files, root, art.index, layout.manifests, k)
    ensures forall i :: 0 <= i < |layout.manifests| ==> CanFile(w, files, root, art.index, layout.manifests[i])
  {
    hide LoadEntries, LoadReferrers, ReadManifest, ReadBlob, Lists, Filed, EntriesReferTo, OthersReferTo, CanFile, CanLoadAt;
    ReadEntries(w, files, art.index.manifests, NOTHING);
    var entries := LoadEntries(w, files, art.index.manifests, NOTHING).value;
    ReadReferrers(w, files, root, art.index, layout.manifests, entries);
    forall k ensures Under(art.referrers, k) == Filed(w, files, root, art.index, layout.manifests, k)
             ensures k in art.referrers <==> Filed(w, files, root, art.index, layout.manifests, k) != [] {
      ReferrersFiledUnder(w, files, root, art.index, layout.manifests, entries, k);
      Append(Under(entries.referrers, k), Filed(w, files, root, art.index, layout.manifests, k));
    }
  }

  lemma CanBeLoaded(w: World, files: Files, layout: ImageIndex, root: string, art: ArtifactSet)
    requires HasRead(w, files, layout, root, art) && IsRead(files, art.blobs)
    requires forall k :: k in art.blobs <==>
               EntriesReferTo(w, files, art.index.manifests, k) || OthersReferTo(w, files, root, art.index, layout.manifests, k)
    requires OthersRead(w, files, layout, root, art.index)
    ensures forall k :: Lists(art.index.manifests, k) ==> CanLoadAt(w, files, k)
    ensures forall i :: 0 <= i < |layout.manifests| ==> CanFile(w, files, root, art.index, layout.manifests[i])
  {
    hide ReadManifest, ReadBlob, Lists, Filed, IsOther, IsAboutEntry, RefersTo;
    forall d | Lists(art.index.manifests, d) ensures CanLoadAt(w, files, d) {
      assert d in art.manifests;
      forall k | RefersTo(art.manifests[d], k) ensures ReadBlob(files, k).Ok? {
        assert ManifestRefersTo(w, files, d, k);
        assert EntriesReferTo(w, files, art.index.manifests, k);
        assert k in art.blobs;
      }
    }
    forall i | 0 <= i < |layout.manifests| ensures CanFile(w, files, root, art.index, layout.manifests[i]) {
      var d := layout.manifests[i];
      if IsOther(root, art.index, d) && IsAboutEntry(art.index, ReadManifest(w, files, d.digest).value) {
        forall k | RefersTo(ReadManifest(w, files, d.digest).value, k) ensures ReadBlob(files, k).Ok? {
          assert FiledRefersTo(w, files, root, art.index, layout.manifests[i], k);
          assert OthersReferTo(w, files, root, art.index, layout.manifests, k);
          assert k in art.blobs;
        }
      }
    }
  }

  /** There is no more than one import of a layout. */
  lemma OneImport(w: World, files: Files, layout: ImageIndex, root: string, a: ArtifactSet, b: ArtifactSet)
    requires IsImport(w, files, layout, root, a) && IsImport(w, files, layout, root, b) && a.index == b.index
    ensures a == b
  {
    ImportIs(w, files, layout, root, a);
    ImportIs(w, files, layout, root, b);
    AllReferenced(w, files, layout, root, a);
    AllReferenced(w, files, layout, root, b);
    hide IsImport, ReadManifest, ReadBlob, Lists, Filed, IsOther, EntriesReferTo, OthersReferTo, IsReferenced;
    assert forall k :: k in a.blobs <==> k in b.blobs;
    SameMaps(a.manifests, b.manifests);
    SameMaps(a.referrers, b.referrers);
    SameMaps(a.blobs, b.blobs);
  }

  lemma SameMaps<K, V>(m: map<K, V>, n: map<K, V>)
    requires forall k :: k in m <==> k in n
    requires forall k :: k in m ==> k in n && m[k] == n[k]
    ensures m == n
  {
  }

  lemma LoadsExact(w: World, files: Files, layout: ImageIndex, root: string, art: ArtifactSet)
    ensures Loads(w, files, layout, root, art) <==> IsImport(w, files, layout, root, art)
  {
    ImportIs(w, files, layout, root, art);
    if Loads(w, files, layout, root, art) {
      LoadsImports(w, files, layout, root, art);
    }
    if IsImport(w, files, layout, root, art) {
      AllReferenced(w, files, layout, root, art);
      CanBeLoaded(w, files, layout, root, art);
      ReadEntries(w, files, art.index.manifests, NOTHING);
      var entries := LoadEntries(w, files, art.index.manifests, NOTHING).value;
      ReadReferrers(w, files, root, art.index, layout.manifests, entries);
      var all := LoadReferrers(w, files, root, art.index, layout.manifests, entries).value;
      var other := ArtifactSet(art.index, all.manifests, all.referrers, all.blobs);
      hide *;
      assert Loads(w, files, layout, root, other) by { LoadsAs(w, files, layout, root, other); }
      LoadsImports(w, files, layout, root, other);
      OneImport(w, files, layout, root, art, other);
    }
  }

  lemma LoadsAs(w: World, files: Files, layout: ImageIndex, root: string, art: ArtifactSet)
    requires LoadEntries(w, files, art.index.manifests, NOTHING).Ok?
    requires LoadReferrers(w, files, root, art.index, layout.manifests, LoadEntries(w, files, art.index.manifests, NOTHING).value) ==
             Ok(Loaded(art.manifests, art.referrers, art.blobs))
    ensures Loads(w, files, layout, root, art)
  {
  }

  lemma LoadsImports(w: World, files: Files, layout: ImageIndex, root: string, art: ArtifactSet)
    requires Loads(w, files, layout, root, art)
    ensures IsImport(w, files, layout, root, art)
  {
    LoadsHasRead(w, files, layout, root, art);
    AllReferenced(w, files, layout, root, art);
    ImportIs(w, files, layout, root, art);
    hide Loads, HasRead, IsRead, IsReferenced, EntriesReferTo, OthersReferTo, ReadManifest, IsOther, IsImport;
  }

  /** The directory says that it is a layout of version 1.0.0 and holds this layout index. */
  ghost predicate IsLayout(w: World, files: Files, layout: ImageIndex) {
    && (exists bytes :: IsFile(files, ["oci-layout"], bytes) && w.metadata.read(bytes) == Some("1.0.0"))
    && (exists bytes :: IsFile(files, ["index.json"], bytes) && w.index.read(bytes) == Some(layout))
  }

  /** What importing a directory yields, and when: for any directory at all. */
  ghost predicate IsImported(w: World, files: Files, refName: Option<string>, layout: ImageIndex, root: Descriptor, art: ArtifactSet) {
    && IsLayout(w, files, layout)
    && SelectRoot(layout, refName) == Ok(root)
    && (exists bytes :: StoresAt(files, root.digest, bytes) && w.index.read(bytes) == Some(art.index))
    && IsImport(w, files, layout, root.digest, art)
  }

  lemma {:induction false} ImportExact(w: World, files: Files, refName: Option<string>, art: ArtifactSet)
    ensures Imported(w, files, refName) == Ok(art) <==> exists layout, root :: IsImported(w, files, refName, layout, root, art)
  {
    hide LoadEntries, LoadReferrers, IsImport, SelectRoot, StoresAt, ReadBlob;
    if Imported(w, files, refName) == Ok(art) {
      ImportSound(w, files, refName, art);
    }
    if layout, root :| IsImported(w, files, refName, layout, root, art) {
      ImportComplete(w, files, refName, layout, root, art);
    }
  }

  lemma ImportSound(w: World, files: Files, refName: Option<string>, art: ArtifactSet)
    requires Imported(w, files, refName) == Ok(art)
    ensures exists layout, root :: IsImported(w, files, refName, layout, root, art)
  {
    hide LoadEntries, LoadReferrers, IsImport, SelectRoot, StoresAt, ReadBlob;
    var metadata, index := files[METADATA_FILE], files[INDEX_FILE];
    var layout := w.index.read(index).value;
    var root := SelectRoot(layout, refName).value;
    var bytes := ReadBlob(files, root.digest).value;
    StoredExact(files, root.digest, bytes);
    LoadsExact(w, files, layout, root.digest, art);
    assert IsFile(files, ["oci-layout"], metadata) && IsFile(files, ["index.json"], index);
    assert IsImported(w, files, refName, layout, root, art);
  }

  lemma ImportComplete(w: World, files: Files, refName: Option<string>, layout: ImageIndex, root: Descriptor, art: ArtifactSet)
    requires IsImported(w, files, refName, layout, root, art)
    ensures Imported(w, files, refName) == Ok(art)
  {
    hide LoadEntries, LoadReferrers, IsImport, SelectRoot, StoresAt, ReadBlob;
    var bytes :| StoresAt(files, root.digest, bytes) && w.index.read(bytes) == Some(art.index);
    StoredExact(files, root.digest, bytes);
    LoadsExact(w, files, layout, root.digest, art);
  }

  /** A directory of another version, and one without the root that was asked for, are refused with that reason. */
  lemma {:induction false} ImportRefuses(w: World, files: Files, refName: Option<string>)
    ensures forall bytes, version :: IsFile(files, ["oci-layout"], bytes) && w.metadata.read(bytes) == Some(version) && version != "1.0.0" ==>
              Imported(w, files, refName) == Err(UnsupportedLayoutVersion(version))
    ensures forall layout :: IsLayout(w, files, layout) && SelectRoot(layout, refName).Err? ==>
              Imported(w, files, refName) == Err(SelectRoot(layout, refName).error)
  {
    hide LoadEntries, LoadReferrers, SelectRoot, ReadBlob;
  }
}
