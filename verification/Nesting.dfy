// Nested catalogs: where their reports appear, and exactly when the limit is exceeded.

module Nesting {
  import opened Basics
  import opened JsonValue
  import opened Catalog
  import opened Trust
  import opened Identity
  import opened Validation
  import opened Validator

  ghost predicate Mentions(r: Report, code: Code) {
    exists i :: 0 <= i < |r.errors| && r.errors[i].code == code
  }

  lemma MentionsAnd(a: Report, b: Report, code: Code)
    ensures Mentions(a.And(b), code) <==> Mentions(a, code) || Mentions(b, code)
  {
    var r := a.And(b);
    if i :| 0 <= i < |a.errors| && a.errors[i].code == code {
      assert r.errors[i].code == code;
    }
    if i :| 0 <= i < |b.errors| && b.errors[i].code == code {
      assert r.errors[|a.errors| + i].code == code;
    }
  }

  lemma MentionsAt(path: string, r: Report, code: Code)
    ensures Mentions(At(path, r), code) <==> Mentions(r, code)
  {
    if i :| 0 <= i < |r.errors| && r.errors[i].code == code {
      assert At(path, r).errors[i].code == code;
    }
  }

  // ---------------------------------------------------------------- only one place mentions the limit

  /** A report without a NestedDepth error. */
  predicate Shallow(r: Report) { forall i :: 0 <= i < |r.errors| ==> r.errors[i].code != NestedDepth }

  /** Everything that reports are built from, except the error at the limit itself. */
  lemma ShallowParts()
    ensures Shallow(QUIET)
    ensures forall code {:trigger Fault(code)} :: code != NestedDepth ==> Shallow(Fault(code))
    ensures forall code {:trigger Concern(code)} :: Shallow(Concern(code))
    ensures forall a: Report, b {:trigger a.And(b)} :: Shallow(a) && Shallow(b) ==> Shallow(a.And(b))
    ensures forall path, r {:trigger At(path, r)} :: Shallow(r) ==> Shallow(At(path, r))
    ensures forall c, r {:trigger When(c, r)} :: Shallow(r) ==> Shallow(When(c, r))
  {
  }

  lemma DigestShallow(value: string)
    ensures Shallow(DigestReport(value))
  {
    ShallowParts();
    hide Shallow, Report.And, At, When, Fault, Concern, ParseDigest;
  }

  lemma {:induction false} KeysShallow(n: nat)
    ensures Shallow(Faults(n, ExtensionKey))
  {
    ShallowParts();
    hide Shallow, Report.And, At, When, Fault, Concern;
    if n > 0 {
      KeysShallow(n - 1);
    }
  }

  lemma JwsShallow(env: Env, jws: string, kind: Kind)
    ensures Shallow(JwsReport(env, jws, kind))
  {
    ShallowParts();
    hide Shallow, Report.And, At, When, Fault, Concern, IsDetached, ParseHeader, IsForbidden;
  }

  lemma SignatureShallow(env: Env, signature: Signature, kind: Kind)
    ensures Shallow(SignatureReport(env, signature, kind))
  {
    JwsShallow(env, signature.jws, kind);
    ShallowParts();
    hide Shallow, Report.And, At, When, Fault, Concern, JwsReport, IsAbsoluteUri;
  }

  lemma {:induction false} KeySourcesShallow(header: Header, names: seq<string>)
    ensures Shallow(KeySourceReport(header, names))
  {
    ShallowParts();
    hide Shallow, Report.And, At, When, Fault, Concern;
    if names != [] {
      KeySourcesShallow(header, names[..|names| - 1]);
    }
  }

  lemma ProfileShallow(env: Env, manifest: ManifestFields)
    ensures Shallow(ProfileReport(env, manifest))
  {
    if manifest.signature.Some? && SelectsProfile(env, manifest.signature.value) {
      KeySourcesShallow(ParseHeader(env.crypto, manifest.signature.value.jws).value, KEY_SOURCES);
    }
    ShallowParts();
    hide Shallow, Report.And, At, When, Fault, Concern, KeySourceReport, IsRootDidWeb, IsKeyOf, IsForbidden, SelectsProfile, ParseHeader, IsNotYetValid, IsExpired;
  }

  lemma {:induction false} MismatchShallow(members: seq<string>)
    ensures Shallow(MismatchReport(members))
  {
    ShallowParts();
    hide Shallow, Report.And, At, When, Fault, Concern;
    if members != [] {
      MismatchShallow(members[..|members| - 1]);
    }
  }

  lemma {:induction false} AttestationsShallow(attestations: seq<Attestation>)
    ensures Shallow(AttestationsReport(attestations))
  {
    ShallowParts();
    hide Shallow, Report.And, At, When, Fault, Concern, DigestReport, Item;
    if attestations != [] {
      var last := |attestations| - 1;
      AttestationsShallow(attestations[..last]);
      DigestShallow(Text(attestations[last].digest));
    }
  }

  lemma {:induction false} ProvenancesShallow(links: seq<ProvenanceLink>)
    ensures Shallow(ProvenancesReport(links))
  {
    ShallowParts();
    hide Shallow, Report.And, At, When, Fault, Concern, DigestReport, Item;
    if links != [] {
      var last := |links| - 1;
      ProvenancesShallow(links[..last]);
      DigestShallow(Text(links[last].sourceDigest));
    }
  }

  lemma ContributorShallow(contributor: string)
    ensures Shallow(ContributorReport(contributor))
  {
    ShallowParts();
    hide Shallow, Report.And, At, When, Fault, Concern, IsAbsoluteUri;
  }

  lemma SubjectShallow(subject: Subject)
    ensures Shallow(SubjectReport(subject))
  {
    DigestShallow(subject.digest);
    ShallowParts();
    hide Shallow, Report.And, At, When, Fault, Concern, DigestReport;
  }

  lemma TrustSchemaShallow(schema: TrustSchema)
    ensures Shallow(TrustSchemaReport(schema))
  {
    ShallowParts();
    hide Shallow, Report.And, At, When, Fault, Concern;
  }

  lemma KeyReportShallow(extensions: Option<Extras>)
    ensures Shallow(ExtensionKeysReport(extensions))
  {
    KeysShallow(|BadKeys(extensions)|);
    ShallowParts();
    hide Shallow, Report.And, At, When, Fault, Concern, BadKeys, Faults;
  }

  lemma ManifestSignatureShallow(env: Env, manifest: ManifestFields)
    ensures Shallow(ManifestSignatureReport(env, manifest))
  {
    ShallowParts();
    hide Shallow, Report.And, At, When, Fault, Concern, SignatureReport;
    if manifest.signature.Some? {
      SignatureShallow(env, manifest.signature.value, OfManifest);
    }
  }

  lemma ManifestShallow(env: Env, manifest: ManifestFields)
    ensures Shallow(ManifestReport(env, manifest))
  {
    ShallowParts();
    hide Shallow, Report.And, At, When, Fault, Concern, ExtensionKeysReport, ContributorReport, IsSubstantive, ManifestSignatureReport,
         SubjectReport, TrustSchemaReport, AttestationsReport, ProvenancesReport;
    KeyReportShallow(manifest.extensions);
    ContributorShallow(manifest.contributor);
    ManifestSignatureShallow(env, manifest);
    if manifest.subject.Some? {
      SubjectShallow(manifest.subject.value);
    }
    if manifest.trustSchema.Some? {
      TrustSchemaShallow(manifest.trustSchema.value);
    }
    AttestationsShallow(manifest.attestations);
    ProvenancesShallow(manifest.provenance);
  }

  lemma {:induction false} ManifestsShallow(env: Env, entry: CatalogEntry, manifests: seq<TrustManifest>)
    ensures Shallow(ManifestsReport(env, entry, manifests))
  {
    ShallowParts();
    hide Shallow, Report.And, At, When, Fault, Concern, ManifestReport, ProfileReport, Item, Mismatches, MismatchReport;
    if manifests != [] {
      var last := |manifests| - 1;
      var manifest := manifests[last].fields;
      ManifestsShallow(env, entry, manifests[..last]);
      ManifestShallow(env, manifest);
      ProfileShallow(env, manifest);
      if manifest.subject.Some? {
        MismatchShallow(Mismatches(entry, manifest.subject.value));
      }
    }
  }

  lemma EntryTrustShallow(env: Env, entry: CatalogEntry)
    ensures Shallow(EntryTrustReport(env, entry))
  {
    DigestShallow(Text(entry.digest));
    ManifestsShallow(env, entry, entry.trustManifests);
    ShallowParts();
    hide Shallow, Report.And, At, When, Fault, Concern, DigestReport, ManifestsReport, HasSigned;
  }

  lemma {:induction false} UniquenessShallow(entries: seq<CatalogEntry>, n: nat)
    requires n <= |entries|
    ensures Shallow(UniquenessUpTo(entries, n))
  {
    ShallowParts();
    hide Shallow, Report.And, At, When, Fault, Concern, Item, HasEarlier, HasEarlierUnversioned, HasEarlierVersion;
    if n > 0 {
      UniquenessShallow(entries, n - 1);
    }
  }

  // ---------------------------------------------------------------- the limit is exact

  /** Whether the catalog nested in `e` exceeds a limit of `limit` levels. */
  ghost predicate TooDeep(env: Env, e: CatalogEntry, limit: nat) {
    && e.IsNestedCatalog()
    && (limit == 0 ||
        (e.data.Some? && env.catalogOf(e.data.value).Some? &&
         Mentions(CatalogReport(env, env.catalogOf(e.data.value).value, limit - 1), NestedDepth)))
  }

  lemma NestedMentions(env: Env, e: CatalogEntry, limit: nat)
    ensures Mentions(NestedReport(env, e, limit), NestedDepth) <==> TooDeep(env, e, limit)
  {
    hide CatalogReport;
    if e.IsNestedCatalog() {
      if limit == 0 {
        assert At("", Fault(NestedDepth)).errors[0].code == NestedDepth;
      } else if e.data.Some? && env.catalogOf(e.data.value).Some? {
        MentionsAt(".data", CatalogReport(env, env.catalogOf(e.data.value).value, limit - 1), NestedDepth);
      }
    }
  }

  lemma ShallowMentions(r: Report)
    requires Shallow(r)
    ensures !Mentions(r, NestedDepth)
  {
  }

  /** All of an entry's report besides that of a nested catalog. */
  function EntryBefore(env: Env, e: CatalogEntry): Report {
    QUIET
      .And(When(e.identifier == "", At(".identifier", Fault(EntryMember))))
      .And(When(e.entryType == "", At(".type", Fault(EntryMember))))
      .And(When(!HasOneSource(e), At("", Fault(EntryArtifact))))
      .And(At(".updatedAt", TimestampReport(env, Text(e.updatedAt))))
      .And(At(".extensions", ExtensionKeysReport(e.extensions)))
      .And(At(".extensions", When(AreBadPolicyUrls(e.extensions), Fault(PolicyUrls))))
      .And(At(".publisher", PublisherReport(e.publisher)))
      .And(EntryTrustReport(env, e))
  }

  function EntryAfter(e: CatalogEntry): Report {
    When(e.identifier != "" && ':' !in e.identifier, At(".identifier", Concern(IdentifierNotUri)))
  }

  lemma EntryParts(env: Env, e: CatalogEntry, limit: nat)
    ensures EntryReport(env, e, limit) == EntryBefore(env, e).And(NestedReport(env, e, limit)).And(EntryAfter(e))
    ensures Shallow(EntryBefore(env, e)) && Shallow(EntryAfter(e))
  {
    ShallowParts();
    hide Shallow, Report.And, At, When, Fault, Concern, ExtensionKeysReport, EntryTrustReport, NestedReport, AreBadPolicyUrls, HasOneSource;
    KeyReportShallow(e.extensions);
    EntryTrustShallow(env, e);
  }

  lemma EntryMentions(env: Env, e: CatalogEntry, limit: nat)
    ensures Mentions(EntryReport(env, e, limit), NestedDepth) <==> TooDeep(env, e, limit)
  {
    EntryParts(env, e, limit);
    NestedMentions(env, e, limit);
    ShallowMentions(EntryBefore(env, e));
    ShallowMentions(EntryAfter(e));
    hide EntryReport, EntryBefore, EntryAfter, NestedReport, TooDeep, Mentions, Report.And, Shallow;
    MentionsAnd(EntryBefore(env, e), NestedReport(env, e, limit), NestedDepth);
    MentionsAnd(EntryBefore(env, e).And(NestedReport(env, e, limit)), EntryAfter(e), NestedDepth);
  }

  lemma {:induction false} EntriesMention(env: Env, entries: seq<CatalogEntry>, limit: nat)
    ensures Mentions(EntriesReport(env, entries, limit), NestedDepth) <==>
            exists i :: 0 <= i < |entries| && TooDeep(env, entries[i], limit)
  {
    hide EntryReport, TooDeep, Mentions, Report.And, Item, At;
    if entries == [] {
      assert Shallow(QUIET);
      ShallowMentions(QUIET);
    } else {
      var last := |entries| - 1;
      EntriesMention(env, entries[..last], limit);
      EntryMentions(env, entries[last], limit);
      MentionsAt(Item(".entries", last), EntryReport(env, entries[last], limit), NestedDepth);
      MentionsAnd(EntriesReport(env, entries[..last], limit), At(Item(".entries", last), EntryReport(env, entries[last], limit)), NestedDepth);
      if i :| 0 <= i < last && TooDeep(env, entries[i], limit) {
        assert entries[..last][i] == entries[i];
      }
    }
  }

  /** A catalog's report before its entries. */
  function CatalogBefore(env: Env, c: AiCatalog): Report {
    QUIET
      .And(At(".specVersion", When(!IsSpecVersion(c.specVersion), Fault(SpecVersion))))
      .And(At(".host", HostReport(c.host)))
      .And(if c.signature.Some? then At(".signature", SignatureReport(env, c.signature.value, OfCatalog)) else QUIET)
      .And(At(".extensions", ExtensionKeysReport(c.extensions)))
      .And(UniquenessReport(c.entries))
  }

  lemma CatalogParts(env: Env, c: AiCatalog, limit: nat)
    ensures CatalogReport(env, c, limit) == CatalogBefore(env, c).And(EntriesReport(env, c.entries, limit))
    ensures Shallow(CatalogBefore(env, c))
  {
    ShallowParts();
    hide Shallow, Report.And, At, When, Fault, Concern, ExtensionKeysReport, SignatureReport, UniquenessUpTo, EntriesReport, IsSpecVersion;
    KeyReportShallow(c.extensions);
    UniquenessShallow(c.entries, |c.entries|);
    if c.signature.Some? {
      SignatureShallow(env, c.signature.value, OfCatalog);
    }
  }

  lemma CatalogMentions(env: Env, c: AiCatalog, limit: nat)
    ensures Mentions(CatalogReport(env, c, limit), NestedDepth) <==>
            exists i :: 0 <= i < |c.entries| && TooDeep(env, c.entries[i], limit)
  {
    CatalogParts(env, c, limit);
    ShallowMentions(CatalogBefore(env, c));
    hide CatalogReport, CatalogBefore, EntriesReport, TooDeep, Mentions, Report.And, Shallow;
    EntriesMention(env, c.entries, limit);
    MentionsAnd(CatalogBefore(env, c), EntriesReport(env, c.entries, limit), NestedDepth);
  }

  /** Catalog-typed entries, each an entry of the catalog in the data of the one before. */
  ghost predicate IsChain(env: Env, c: AiCatalog, chain: seq<CatalogEntry>) {
    && chain != [] && chain[0] in c.entries
    && (forall i :: 0 <= i < |chain| ==> chain[i].IsNestedCatalog())
    && forall i :: 0 <= i < |chain| - 1 ==> NestedIn(env, chain[i]).Some? && chain[i + 1] in NestedIn(env, chain[i]).value.entries
  }

  lemma ChainTail(env: Env, c: AiCatalog, chain: seq<CatalogEntry>)
    requires IsChain(env, c, chain) && |chain| > 1
    ensures NestedIn(env, chain[0]).Some? && IsChain(env, NestedIn(env, chain[0]).value, chain[1..])
  {
    assert chain[1] in NestedIn(env, chain[0]).value.entries;
    forall i | 0 <= i < |chain[1..]| ensures chain[1..][i] == chain[i + 1] {
    }
  }

  lemma ChainCons(env: Env, c: AiCatalog, e: CatalogEntry, rest: seq<CatalogEntry>)
    requires e in c.entries && e.IsNestedCatalog() && NestedIn(env, e).Some? && IsChain(env, NestedIn(env, e).value, rest)
    ensures IsChain(env, c, [e] + rest)
  {
    var chain := [e] + rest;
    forall i | 0 <= i < |rest| ensures chain[i + 1] == rest[i] {
    }
  }

  /** Nesting is reported as too deep exactly when there is a chain of `limit + 1` nested catalogs. */
  lemma {:induction false} DepthExact(env: Env, c: AiCatalog, limit: nat)
    ensures Mentions(CatalogReport(env, c, limit), NestedDepth) <==>
            exists chain :: |chain| == limit + 1 && IsChain(env, c, chain)
    decreases limit
  {
    hide Mentions, CatalogReport, IsChain;
    CatalogMentions(env, c, limit);
    if i :| 0 <= i < |c.entries| && TooDeep(env, c.entries[i], limit) {
      var e := c.entries[i];
      if limit == 0 {
        LastLink(env, c, e);
      } else {
        var nested := NestedIn(env, e).value;
        DepthExact(env, nested, limit - 1);
        var rest :| |rest| == limit && IsChain(env, nested, rest);
        ChainCons(env, c, e, rest);
        assert |[e] + rest| == limit + 1;
      }
    }
    if chain :| |chain| == limit + 1 && IsChain(env, c, chain) {
      ChainHead(env, c, chain);
      var i :| 0 <= i < |c.entries| && c.entries[i] == chain[0];
      if limit > 0 {
        ChainTail(env, c, chain);
        DepthExact(env, NestedIn(env, chain[0]).value, limit - 1);
      }
      assert TooDeep(env, c.entries[i], limit);
    }
  }

  lemma LastLink(env: Env, c: AiCatalog, e: CatalogEntry)
    requires e in c.entries && e.IsNestedCatalog()
    ensures IsChain(env, c, [e]) && |[e]| == 1
  {
  }

  lemma ChainHead(env: Env, c: AiCatalog, chain: seq<CatalogEntry>)
    requires IsChain(env, c, chain)
    ensures chain != [] && chain[0] in c.entries && chain[0].IsNestedCatalog()
  {
  }

  // ---------------------------------------------------------------- validation commutes with nesting

  /** `part` is one contiguous piece of `r`. */
  ghost predicate Holds(r: Report, part: Report) {
    exists before: Report, after :: r == before.And(part).And(after)
  }

  lemma {:induction false} EntriesInPlace(env: Env, entries: seq<CatalogEntry>, limit: nat, i: nat)
    requires i < |entries|
    ensures Holds(EntriesReport(env, entries, limit), At(Item(".entries", i), EntryReport(env, entries[i], limit)))
  {
    hide EntryReport, Report.And, Item, At;
    var last := |entries| - 1;
    var own := At(Item(".entries", last), EntryReport(env, entries[last], limit));
    var init := EntriesReport(env, entries[..last], limit);
    AndQuiet(init.And(own));
    if i < last {
      EntriesInPlace(env, entries[..last], limit, i);
      var mine := At(Item(".entries", i), EntryReport(env, entries[i], limit));
      var before: Report, after :| init == before.And(mine).And(after);
      AndAssociates(before.And(mine), after, own);
      assert EntriesReport(env, entries, limit) == before.And(mine).And(after.And(own));
    } else {
      assert EntriesReport(env, entries, limit) == init.And(own).And(QUIET);
    }
  }

  /** What validating a nested catalog on its own reports, with one level less allowed, is reported in
      one piece by the enclosing catalog, under the path of the data that holds it. */
  lemma {:induction false} NestedInPlace(env: Env, c: AiCatalog, limit: nat, i: nat)
    requires i < |c.entries| && c.entries[i].IsNestedCatalog() && NestedIn(env, c.entries[i]).Some? && limit > 0
    ensures Holds(CatalogReport(env, c, limit),
                  At(Item(".entries", i) + ".data", CatalogReport(env, NestedIn(env, c.entries[i]).value, limit - 1)))
  {
    var e, nested := c.entries[i], NestedIn(env, c.entries[i]).value;
    var path := Item(".entries", i);
    CatalogParts(env, c, limit);
    EntryParts(env, e, limit);
    assert NestedReport(env, e, limit) == At(".data", CatalogReport(env, nested, limit - 1));
    hide EntryReport, CatalogReport, EntriesReport, NestedReport, Report.And, Item, At, CatalogBefore, EntryBefore, EntryAfter, Shallow;
    EntriesInPlace(env, c.entries, limit, i);
    var whole := At(path, EntryReport(env, e, limit));
    var before: Report, after :| EntriesReport(env, c.entries, limit) == before.And(whole).And(after);
    var a, b, d := EntryBefore(env, e), At(".data", CatalogReport(env, nested, limit - 1)), EntryAfter(e);
    AtAnd(path, a.And(b), d);
    AtAnd(path, a, b);
    AtAt(path, ".data", CatalogReport(env, nested, limit - 1));
    var start := CatalogBefore(env, c);
    Middle(start, before, At(path, a), At(path, b), At(path, d), after);
    assert CatalogReport(env, c, limit) ==
           start.And(before).And(At(path, a)).And(At(path + ".data", CatalogReport(env, nested, limit - 1))).And(At(path, d).And(after));
  }

  lemma Middle(start: Report, before: Report, a: Report, b: Report, d: Report, after: Report)
    ensures start.And(before.And(a.And(b).And(d)).And(after)) == start.And(before).And(a).And(b).And(d.And(after))
  {
    hide Report.And;
    AndAssociates(before, a.And(b).And(d), after);
    AndAssociates(start, before, a.And(b).And(d).And(after));
    AndAssociates(a.And(b), d, after);
    AndAssociates(a, b, d.And(after));
    AndAssociates(start.And(before), a, b.And(d.And(after)));
    AndAssociates(start.And(before).And(a), b, d.And(after));
  }
}
