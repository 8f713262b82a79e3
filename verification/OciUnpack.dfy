// When packing fails, what unpacking makes of any artifact set, and what an exported layout
// index says, each in terms of records, blobs and descriptors alone.

module OciUnpack {
  import opened Basics
  import opened JsonValue
  import opened Catalog
  import opened Trust
  import opened OciModel
  import opened OciInvariant
  import opened OciLayout
  import opened OciMaterial

  // ---------------------------------------------------------------- packing errors

  /** An entry has either a URL or data. */
  predicate HasEither(e: CatalogEntry) {
    (e.url.Some? && e.data.None?) || (e.url.None? && e.data.Some?)
  }

  /** The signed part of every trust manifest has a canonical form. */
  predicate CanBeSigned(w: World, e: CatalogEntry) {
    forall j :: 0 <= j < |e.trustManifests| ==> w.crypto.canonical(Strip(SigningJson(w.trust, e.trustManifests[j]))).Some?
  }

  predicate IsFirstBad(w: World, es: seq<CatalogEntry>, i: int) {
    && 0 <= i < |es| && !(HasEither(es[i]) && CanBeSigned(w, es[i]))
    && forall j :: 0 <= j < i ==> HasEither(es[j]) && CanBeSigned(w, es[j])
  }

  lemma EntryErrorExact(w: World, e: CatalogEntry)
    ensures EntryError(w, e) ==
            if !HasEither(e) then Some(InvalidEntryContent(e.identifier)) else if !CanBeSigned(w, e) then Some(Canonicalization) else None
  {
    hide Strip, SigningJson;
  }

  lemma {:induction false} FirstBadExact(w: World, es: seq<CatalogEntry>)
    ensures PackError(w, es) == None <==> forall i :: 0 <= i < |es| ==> HasEither(es[i]) && CanBeSigned(w, es[i])
    ensures forall i :: IsFirstBad(w, es, i) ==>
              PackError(w, es) == Some(if HasEither(es[i]) then Canonicalization else InvalidEntryContent(es[i].identifier))
  {
    hide HasEither, CanBeSigned, EntryError;
    if es != [] {
      EntryErrorExact(w, es[0]);
      FirstBadExact(w, es[1..]);
      assert forall i :: 0 < i < |es| ==> es[i] == es[1..][i - 1];
      assert forall i :: 0 <= i < |es[1..]| ==> es[1..][i] == es[i + 1];
      forall i | IsFirstBad(w, es, i) ensures i > 0 ==> IsFirstBad(w, es[1..], i - 1) && HasEither(es[0]) && CanBeSigned(w, es[0]) {
      }
    }
  }

  /** Packing succeeds exactly when every entry has either a URL or data and its trust can be signed; otherwise it reports
      the first entry for which this is not so. */
  lemma {:induction false} PackExact(w: World, c: AiCatalog)
    ensures Packed(w, c).Ok? <==> forall i :: 0 <= i < |c.entries| ==> HasEither(c.entries[i]) && CanBeSigned(w, c.entries[i])
    ensures forall i :: IsFirstBad(w, c.entries, i) ==>
              Packed(w, c) == Err(if HasEither(c.entries[i]) then Canonicalization else InvalidEntryContent(c.entries[i].identifier))
  {
    FirstBadExact(w, c.entries);
    hide HasEither, CanBeSigned, PackError, StoreAll, AddManifests, AddReferrers, IndexOf, IsFirstBad;
  }

  // ---------------------------------------------------------------- unpacking

  /** The annotation holds the value in serialized form, or there is neither. */
  predicate IsNoted<T(==)>(annotations: Annotations, key: string, read: string -> Option<T>, value: Option<T>) {
    if key in annotations then value.Some? && read(annotations[key]) == value else value.None?
  }

  /** The blob under the digest reads as the value. */
  predicate BlobReads<T(==)>(art: ArtifactSet, digest: string, read: Bytes -> Option<T>, value: T) {
    digest in art.blobs && read(art.blobs[digest]) == Some(value)
  }

  /** The referrers that are trust manifests. */
  function TrustTyped(rs: seq<ImageManifest>): seq<ImageManifest> {
    if rs == [] then []
    else (if rs[0].artifactType == Some(TRUST_ARTIFACT_TYPE) then [rs[0]] else []) + TrustTyped(rs[1..])
  }

  /** The trust manifest was read from the config of the referrer, and remembers the JSON that it was read from. */
  predicate IsTrustIn(w: World, art: ArtifactSet, r: ImageManifest, m: TrustManifest) {
    && r.config.digest in art.blobs && m.decoded.Some?
    && w.data.read(art.blobs[r.config.digest]) == m.decoded && w.trust.fromJson(m.decoded.value) == Some(m.fields)
  }

  /** These are the trust manifests of the referrers of that type, in order. */
  predicate AreTrustIn(w: World, art: ArtifactSet, rs: seq<ImageManifest>, ms: seq<TrustManifest>) {
    |ms| == |TrustTyped(rs)| && forall n :: 0 <= n < |ms| ==> IsTrustIn(w, art, TrustTyped(rs)[n], ms[n])
  }

  /** The type is that of the descriptor, or else of the manifest, or else empty. */
  predicate IsTypeOf(d: Descriptor, m: ImageManifest, entryType: string) {
    if d.artifactType.Some? then entryType == d.artifactType.value
    else if m.artifactType.Some? then entryType == m.artifactType.value
    else entryType == ""
  }

  /** The entry has the URL of its config, or else the data in the first layer. */
  predicate IsSourceOf(w: World, art: ArtifactSet, config: EntryConfig, m: ImageManifest, e: CatalogEntry) {
    && e.url == config.url
    && if config.url.Some? then e.data.None?
       else e.data.Some? && m.layers != [] && BlobReads(art, m.layers[0].digest, w.data.read, e.data.value)
  }

  /** What the descriptor of an entry leads to. */
  ghost predicate IsUnpackedEntry(w: World, art: ArtifactSet, d: Descriptor, e: CatalogEntry) {
    && d.digest in art.manifests
    && var m := art.manifests[d.digest];
       && IsTypeOf(d, m, e.entryType)
       && AreTrustIn(w, art, if d.digest in art.referrers then art.referrers[d.digest] else [], e.trustManifests)
       && exists config ::
            BlobReads(art, m.config.digest, w.config.read, config) && IsRecordOf(config, e) && IsSourceOf(w, art, config, m, e)
  }

  /** What an index leads to: its annotations are the catalog's own members, and its descriptors the entries. */
  ghost predicate IsUnpacked(w: World, art: ArtifactSet, c: AiCatalog) {
    var a := art.index.annotations;
    && art.index.artifactType == Some("application/ai-catalog+json")
    && "ai-catalog.specVersion" in a && a["ai-catalog.specVersion"] == c.specVersion
    && IsNoted(a, "ai-catalog.host", w.hostText.read, c.host)
    && IsNoted(a, "ai-catalog.extensions", w.extrasText.read, c.extensions)
    && IsNoted(a, "ai-catalog.signature", w.signatureText.read, c.signature)
    && IsNoted(a, "ai-catalog.additionalSignatures", w.valueText.read, c.additionalSignatures)
    && (if "ai-catalog.extraFields" in a then w.extrasText.read(a["ai-catalog.extraFields"]) == Some(c.extraFields) else c.extraFields == map[])
    && |c.entries| == |art.index.manifests|
    && forall i :: 0 <= i < |c.entries| ==> IsUnpackedEntry(w, art, art.index.manifests[i], c.entries[i])
  }

  lemma AnnotationExact<T>(annotations: Annotations, key: string, codec: Codec<T, string>, value: Option<T>)
    ensures Annotation(annotations, key, codec) == Ok(value) <==> IsNoted(annotations, key, codec.read, value)
  {
  }

  lemma ReadTrustExact(w: World, art: ArtifactSet, r: ImageManifest, m: TrustManifest)
    ensures r.config.digest in art.blobs && ReadTrust(w, art.blobs[r.config.digest]) == Some(m) <==> IsTrustIn(w, art, r, m)
  {
  }

  lemma {:induction false} TrustOfExact(w: World, art: ArtifactSet, rs: seq<ImageManifest>, ms: seq<TrustManifest>)
    ensures TrustOf(w, art, rs) == Ok(ms) <==> AreTrustIn(w, art, rs, ms)
  {
    hide IsTrustIn, ReadTrust;
    if rs != [] {
      if rs[0].artifactType != Some(TRUST_ARTIFACT_TYPE) {
        Append([], TrustTyped(rs[1..]));
        TrustOfExact(w, art, rs[1..], ms);
      } else {
        assert TrustTyped(rs)[0] == rs[0] && TrustTyped(rs)[1..] == TrustTyped(rs[1..]);
        if ms != [] {
          TrustOfExact(w, art, rs[1..], ms[1..]);
          ReadTrustExact(w, art, rs[0], ms[0]);
          assert ms == [ms[0]] + ms[1..];
          TrustStep(w, art, rs, ms);
        }
        FirstTrust(w, art, rs, ms);
      }
    }
  }

  lemma TrustStep(w: World, art: ArtifactSet, rs: seq<ImageManifest>, ms: seq<TrustManifest>)
    requires rs != [] && ms != [] && rs[0].artifactType == Some(TRUST_ARTIFACT_TYPE)
    ensures AreTrustIn(w, art, rs, ms) <==> IsTrustIn(w, art, rs[0], ms[0]) && AreTrustIn(w, art, rs[1..], ms[1..])
  {
    hide IsTrustIn;
    var more := TrustTyped(rs[1..]);
    assert TrustTyped(rs) == [rs[0]] + more;
    assert forall n :: 0 < n < |ms| ==> ms[n] == ms[1..][n - 1];
    assert forall n :: 0 <= n < |ms[1..]| ==> ms[1..][n] == ms[n + 1];
    if AreTrustIn(w, art, rs[1..], ms[1..]) && IsTrustIn(w, art, rs[0], ms[0]) {
      forall n | 0 <= n < |ms| ensures IsTrustIn(w, art, TrustTyped(rs)[n], ms[n]) {
        if n > 0 {
          assert IsTrustIn(w, art, more[n - 1], ms[1..][n - 1]);
        }
      }
    }
    if AreTrustIn(w, art, rs, ms) {
      forall n | 0 <= n < |ms[1..]| ensures IsTrustIn(w, art, more[n], ms[1..][n]) {
        assert IsTrustIn(w, art, TrustTyped(rs)[n + 1], ms[n + 1]);
      }
      assert IsTrustIn(w, art, TrustTyped(rs)[0], ms[0]);
    }
  }

  lemma FirstTrust(w: World, art: ArtifactSet, rs: seq<ImageManifest>, ms: seq<TrustManifest>)
    requires rs != [] && rs[0].artifactType == Some(TRUST_ARTIFACT_TYPE)
    ensures TrustOf(w, art, rs) == Ok(ms) <==>
            && ms != [] && rs[0].config.digest in art.blobs
            && ReadTrust(w, art.blobs[rs[0].config.digest]) == Some(ms[0]) && TrustOf(w, art, rs[1..]) == Ok(ms[1..])
  {
    hide ReadTrust;
    if ms != [] {
      assert ms == [ms[0]] + ms[1..];
    }
    if rs[0].config.digest in art.blobs && ReadTrust(w, art.blobs[rs[0].config.digest]).Some? && TrustOf(w, art, rs[1..]).Ok? {
      var m, more := ReadTrust(w, art.blobs[rs[0].config.digest]).value, TrustOf(w, art, rs[1..]).value;
      assert ([m] + more)[0] == m && ([m] + more)[1..] == more;
    }
  }

  lemma ContentExact(w: World, art: ArtifactSet, m: ImageManifest, config: EntryConfig, e: CatalogEntry)
    ensures ContentOf(w, art, m, config) == Ok(Content(e.url, e.data)) <==> IsSourceOf(w, art, config, m, e)
  {
  }

  lemma UnpackEntryExact(w: World, art: ArtifactSet, d: Descriptor, e: CatalogEntry)
    ensures UnpackEntry(w, art, d) == Ok(e) <==> IsUnpackedEntry(w, art, d, e)
  {
    if d.digest in art.manifests {
      var m := art.manifests[d.digest];
      TrustOfExact(w, art, Under(art.referrers, d.digest), e.trustManifests);
      hide TrustOf, AreTrustIn, ContentOf, IsSourceOf;
      forall config ensures ContentOf(w, art, m, config) == Ok(Content(e.url, e.data)) <==> IsSourceOf(w, art, config, m, e) {
        ContentExact(w, art, m, config, e);
      }
      if UnpackEntry(w, art, d) == Ok(e) {
        var config := w.config.read(art.blobs[m.config.digest]).value;
        assert BlobReads(art, m.config.digest, w.config.read, config);
      }
    }
  }

  lemma {:induction false} UnpackEntriesExact(w: World, art: ArtifactSet, ds: seq<Descriptor>, es: seq<CatalogEntry>)
    ensures UnpackEntries(w, art, ds) == Ok(es) <==>
            |es| == |ds| && forall i :: 0 <= i < |es| ==> UnpackEntry(w, art, ds[i]) == Ok(es[i])
  {
    hide UnpackEntry;
    if ds != [] {
      if es != [] {
        UnpackEntriesExact(w, art, ds[1..], es[1..]);
        assert es == [es[0]] + es[1..];
        assert forall i :: 0 < i < |es| ==> es[i] == es[1..][i - 1];
        assert forall i :: 0 <= i < |es[1..]| ==> es[1..][i] == es[i + 1];
        assert forall i :: 0 < i < |ds| ==> ds[i] == ds[1..][i - 1];
        assert forall i :: 0 <= i < |ds[1..]| ==> ds[1..][i] == ds[i + 1];
      }
      FirstEntry(w, art, ds, es);
      hide UnpackEntries;
    }
  }

  lemma FirstEntry(w: World, art: ArtifactSet, ds: seq<Descriptor>, es: seq<CatalogEntry>)
    requires ds != []
    ensures UnpackEntries(w, art, ds) == Ok(es) <==>
            es != [] && UnpackEntry(w, art, ds[0]) == Ok(es[0]) && UnpackEntries(w, art, ds[1..]) == Ok(es[1..])
  {
    hide UnpackEntry;
    if es != [] {
      assert es == [es[0]] + es[1..];
    }
    if UnpackEntry(w, art, ds[0]).Ok? && UnpackEntries(w, art, ds[1..]).Ok? {
      var e, more := UnpackEntry(w, art, ds[0]).value, UnpackEntries(w, art, ds[1..]).value;
      assert ([e] + more)[0] == e && ([e] + more)[1..] == more;
    }
  }

  /** What unpacking makes of any artifact set, whoever made it, and when it makes a catalog of it at all. */
  lemma {:induction false} UnpackExact(w: World, art: ArtifactSet, c: AiCatalog)
    ensures Unpacked(w, art) == Ok(c) <==> IsUnpacked(w, art, c)
  {
    var a := art.index.annotations;
    AnnotationExact(a, HOST, w.hostText, c.host);
    AnnotationExact(a, EXTENSIONS, w.extrasText, c.extensions);
    AnnotationExact(a, OciModel.SIGNATURE, w.signatureText, c.signature);
    AnnotationExact(a, OciModel.ADDITIONAL_SIGNATURES, w.valueText, c.additionalSignatures);
    UnpackEntriesExact(w, art, art.index.manifests, c.entries);
    forall i | 0 <= i < |c.entries| && |c.entries| == |art.index.manifests|
      ensures UnpackEntry(w, art, art.index.manifests[i]) == Ok(c.entries[i]) <==> IsUnpackedEntry(w, art, art.index.manifests[i], c.entries[i])
    {
      UnpackEntryExact(w, art, art.index.manifests[i], c.entries[i]);
    }
    hide UnpackEntry, IsUnpackedEntry, UnpackEntries;
    UnpackParts(w, art, c);
    hide Unpacked, Annotation;
    ExtraFieldsExact(w, a, c.extraFields);
    hide IsNoted;
  }

  lemma ExtraFieldsExact(w: World, a: Annotations, extraFields: Extras)
    ensures var r := Annotation(a, EXTRA_FIELDS, w.extrasText);
            (r == Ok(Some(extraFields)) || (r == Ok(None) && extraFields == map[])) <==>
            if "ai-catalog.extraFields" in a then w.extrasText.read(a["ai-catalog.extraFields"]) == Some(extraFields) else extraFields == map[]
  {
  }

  /** Unpacking reads the members one by one. */
  lemma UnpackParts(w: World, art: ArtifactSet, c: AiCatalog)
    ensures var a := art.index.annotations;
            var extra := Annotation(a, EXTRA_FIELDS, w.extrasText);
            Unpacked(w, art) == Ok(c) <==>
            && art.index.artifactType == Some(MEDIA_TYPE_CATALOG) && SPEC_VERSION in a && a[SPEC_VERSION] == c.specVersion
            && Annotation(a, HOST, w.hostText) == Ok(c.host)
            && Annotation(a, EXTENSIONS, w.extrasText) == Ok(c.extensions)
            && Annotation(a, OciModel.SIGNATURE, w.signatureText) == Ok(c.signature)
            && Annotation(a, OciModel.ADDITIONAL_SIGNATURES, w.valueText) == Ok(c.additionalSignatures)
            && (extra == Ok(Some(c.extraFields)) || (extra == Ok(None) && c.extraFields == map[]))
            && UnpackEntries(w, art, art.index.manifests) == Ok(c.entries)
  {
    hide Annotation, UnpackEntries;
  }

  /** Why an artifact set is refused before its entries are read. */
  lemma UnpackRefuses(w: World, art: ArtifactSet)
    ensures Unpacked(w, art) == Err(UnsupportedIndexArtifactType) <==> art.index.artifactType != Some("application/ai-catalog+json")
    ensures art.index.artifactType == Some("application/ai-catalog+json") && "ai-catalog.specVersion" !in art.index.annotations ==>
              Unpacked(w, art) == Err(MissingSpecVersion)
  {
    EntriesTyped(w, art, art.index.manifests);
    hide UnpackEntries;
  }

  lemma {:induction false} EntriesTyped(w: World, art: ArtifactSet, ds: seq<Descriptor>)
    ensures UnpackEntries(w, art, ds).Err? ==> UnpackEntries(w, art, ds).error != UnsupportedIndexArtifactType
  {
    if ds != [] {
      EntryTyped(w, art, ds[0]);
      EntriesTyped(w, art, ds[1..]);
      hide UnpackEntry;
    }
  }

  lemma {:induction false} EntryTyped(w: World, art: ArtifactSet, d: Descriptor)
    ensures UnpackEntry(w, art, d).Err? ==> UnpackEntry(w, art, d).error != UnsupportedIndexArtifactType
  {
    TrustTypedErrors(w, art, Under(art.referrers, d.digest));
    hide TrustOf;
  }

  lemma {:induction false} TrustTypedErrors(w: World, art: ArtifactSet, rs: seq<ImageManifest>)
    ensures TrustOf(w, art, rs).Err? ==> TrustOf(w, art, rs).error != UnsupportedIndexArtifactType
  {
    hide ReadTrust;
    if rs != [] {
      TrustTypedErrors(w, art, rs[1..]);
    }
  }

  // ---------------------------------------------------------------- the layout index

  /** The index of an exported layout lists the catalog index under the tag, then the entries as the catalog index lists
      them, then every referrer. */
  lemma {:induction false} LayoutIndexExact(w: World, art: ArtifactSet, tag: string)
    requires IndexTyped(art)
    ensures var layout, n := LayoutIndex(w, art, tag), |art.index.manifests|;
            && layout.mediaType == "application/vnd.oci.image.index.v1+json" && layout.annotations == map[] && layout.artifactType == None
            && |layout.manifests| == 1 + n + |AllReferrers(art)|
            && layout.manifests[0] ==
               Descriptor("application/vnd.oci.image.index.v1+json", Digest(w, w.index.write(art.index)), |w.index.write(art.index)|,
                          Some("application/ai-catalog+json"), map["org.opencontainers.image.ref.name" := tag])
            && (forall i :: 0 <= i < n ==> layout.manifests[1 + i] == art.index.manifests[i])
            && (forall i :: 0 <= i < |AllReferrers(art)| ==> Describes(w, layout.manifests[1 + n + i], AllReferrers(art)[i]))
  {
    var refs := AllReferrers(art);
    hide AllReferrers, Digest;
    var ds := ReferrerDescriptors(w, refs);
    forall i | 0 <= i < |refs| ensures Describes(w, ds[i], refs[i]) {
    }
    hide ReferrerDescriptors, Describes;
    assert LayoutIndex(w, art, tag).manifests == [RootDescriptor(w, art, tag)] + art.index.manifests + ds;
  }
}
