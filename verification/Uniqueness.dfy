// The uniqueness rule of the validator, as a rule about pairs of entries, and what it
// means for packing: a catalog that obeys it is restored exactly.

module Uniqueness {
  import opened Basics
  import opened Catalog
  import opened Validation
  import opened OciModel
  import opened OciRoundTrip
  import opened OciInvariant
  import opened OciLayout
  import opened OciLayoutRoundTrip

  /** An error is reported at an entry exactly when it conflicts with an earlier one. */
  lemma DuplicateExact(entries: seq<CatalogEntry>, i: nat)
    requires i < |entries|
    ensures DuplicateReport(entries, i).errors != [] <==> exists j :: 0 <= j < i && Conflict(entries[j], entries[i])
    ensures DuplicateReport(entries, i).warnings == []
  {
    hide Item, Decimal;
    if j :| 0 <= j < i && Conflict(entries[j], entries[i]) {
      if !IsUnversioned(entries[i]) && Text(entries[j].version) != "" {
        assert HasEarlierVersion(entries, i);
      }
    }
  }

  /** No two entries conflict. */
  predicate NoConflict(entries: seq<CatalogEntry>) {
    forall i, j :: 0 <= i < j < |entries| ==> !Conflict(entries[i], entries[j])
  }

  lemma {:induction false} UniquenessUpToExact(entries: seq<CatalogEntry>, n: nat)
    requires n <= |entries|
    ensures UniquenessUpTo(entries, n).errors == [] <==>
            forall i, j :: 0 <= i < j < n ==> !Conflict(entries[i], entries[j])
  {
    hide Conflict, DuplicateReport;
    if n > 0 {
      UniquenessUpToExact(entries, n - 1);
      DuplicateExact(entries, n - 1);
    }
  }

  /** The three-set pass reports nothing exactly when no two entries conflict. */
  lemma UniquenessExact(entries: seq<CatalogEntry>)
    ensures UniquenessReport(entries).errors == [] <==> NoConflict(entries)
  {
    UniquenessUpToExact(entries, |entries|);
  }

  // ---------------------------------------------------------------- order does not matter

  lemma {:induction false} Twice(entries: seq<CatalogEntry>, e: CatalogEntry)
    ensures multiset(entries)[e] >= 2 <==> exists i, j :: 0 <= i < j < |entries| && entries[i] == e && entries[j] == e
  {
    if entries != [] {
      var rest := entries[1..];
      Twice(rest, e);
      assert entries == [entries[0]] + rest;
      if multiset(entries)[e] >= 2 && multiset(rest)[e] < 2 {
        assert entries[0] == e && e in rest;
        var j :| 0 <= j < |rest| && rest[j] == e;
        assert entries[0] == e && entries[j + 1] == e;
      }
      if i, j :| 0 <= i < j < |rest| && rest[i] == e && rest[j] == e {
        assert entries[i + 1] == e && entries[j + 1] == e;
      }
      if i, j :| 0 <= i < j < |entries| && entries[i] == e && entries[j] == e {
        assert rest[j - 1] == e;
        if i > 0 {
          assert rest[i - 1] == e;
        } else {
          assert e in rest;
        }
      }
    }
  }

  /** The rule for a collection of entries without an order. */
  ghost predicate NoConflictAmong(entries: multiset<CatalogEntry>) {
    forall a, b :: a in entries && b in entries && Conflict(a, b) ==> a == b && entries[a] == 1
  }

  lemma ConflictSymmetric(a: CatalogEntry, b: CatalogEntry)
    ensures Conflict(a, b) <==> Conflict(b, a)
    ensures Conflict(a, a)
  {
  }

  lemma NoConflictUnordered(entries: seq<CatalogEntry>)
    ensures NoConflict(entries) <==> NoConflictAmong(multiset(entries))
  {
    hide Conflict;
    if NoConflict(entries) {
      forall a, b | a in multiset(entries) && b in multiset(entries) && Conflict(a, b)
        ensures a == b && multiset(entries)[a] == 1
      {
        var i :| 0 <= i < |entries| && entries[i] == a;
        var j :| 0 <= j < |entries| && entries[j] == b;
        ConflictSymmetric(a, b);
        Twice(entries, a);
        ConflictSymmetric(a, a);
      }
    }
    if NoConflictAmong(multiset(entries)) {
      forall i, j | 0 <= i < j < |entries| ensures !Conflict(entries[i], entries[j]) {
        assert entries[i] in multiset(entries) && entries[j] in multiset(entries);
        Twice(entries, entries[i]);
      }
    }
  }

  /** Listing the same entries in another order is reported exactly when the first order is. */
  lemma OrderDoesNotMatter(entries: seq<CatalogEntry>, reordered: seq<CatalogEntry>)
    requires multiset(entries) == multiset(reordered)
    ensures UniquenessReport(entries).errors == [] <==> UniquenessReport(reordered).errors == []
  {
    hide NoConflict, NoConflictAmong, UniquenessReport;
    UniquenessExact(entries);
    UniquenessExact(reordered);
    NoConflictUnordered(entries);
    NoConflictUnordered(reordered);
  }

  // ---------------------------------------------------------------- packing

  /** Entries that obey the rule share no trust: equal releases would conflict. */
  lemma UniqueSharesNoTrust(entries: seq<CatalogEntry>)
    requires UniquenessReport(entries).errors == []
    ensures NoSharedTrust(entries)
  {
    UniquenessExact(entries);
    forall i, j | 0 <= i < j < |entries| ensures Release(entries[i]) == Release(entries[j]) ==> Conflict(entries[i], entries[j]) {
      SameReleaseConflicts(entries[i], entries[j]);
    }
    hide Release, Conflict, UniquenessReport;
  }

  lemma SameReleaseConflicts(a: CatalogEntry, b: CatalogEntry)
    ensures Release(a) == Release(b) ==> Conflict(a, b)
  {
    assert Release(a).identifier == a.identifier && Release(a).version == a.version;
    assert Release(b).identifier == b.identifier && Release(b).version == b.version;
  }

  /** A catalog that the uniqueness rule accepts and that packs is restored exactly: directly, and,
      with any verification material attached, through a layout directory. */
  lemma {:induction false} AcceptedIsRestored(w: World, c: AiCatalog, calls: seq<Attachment>, dir: Dir, tag: string, refName: Option<string>)
    requires Lawful(w) && Survives(w, c) && CollisionFree(w, RunBytes(w, c, calls)) && Packed(w, c).Ok?
    requires ExportCollisionFree(w, AttachedAll(w, Packed(w, c).value, calls))
    requires IsReal(dir) && IsVacant(dir) && Trim(tag) != "" && (refName == None || refName == Some(tag))
    requires UniquenessReport(c.entries).errors == []
    ensures Unpacked(w, Packed(w, c).value).Ok? && SameCatalog(Unpacked(w, Packed(w, c).value).value, c)
    ensures var final := AttachedAll(w, Packed(w, c).value, calls);
            var imported := Imported(w, Exported(w, final, dir, tag).dir.files, refName);
            && imported == Ok(final)
            && Unpacked(w, imported.value).Ok? && SameCatalog(Unpacked(w, imported.value).value, c)
  {
    assert forall b :: b in PackedBytes(w, c.entries) ==> b in RunBytes(w, c, calls);
    assert CollisionFree(w, PackedBytes(w, c.entries));
    hide *;
    UniqueSharesNoTrust(c.entries);
    RestoresExactly(w, c);
    SurvivesLayout(w, c, calls, dir, tag, refName);
  }
}
