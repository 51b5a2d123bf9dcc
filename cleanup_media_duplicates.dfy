/** `scripts/cleanupMediaDuplicates.ts`: among the media rows whose resource
    exists (or that name none), keep for each url the oldest row and delete
    the others in batches. Orphaned rows are left alone. */
module CleanupMediaDuplicates {
  import opened Wrappers
  import opened Seqs
  import opened Grouping
  import opened Schema
  import opened Database

  // ---------------------------------------------------------------------
  // The plan, as functions of the media table and the resource ids

  /** `urlGroups`: the valid media grouped by their raw url, in first-seen
      order. */
  function UrlGroups(ms: seq<Media>, ids: set<Id>): seq<Group<string, Media>> {
    GroupBy(ValidMedia(ms, ids), UrlOf)
  }

  /** `duplicateUrls`: the groups of more than one row, in the same order. */
  function DuplicateUrls(ms: seq<Media>, ids: set<Id>): seq<Group<string, Media>> {
    Duplicates(UrlGroups(ms, ids))
  }

  /** Each duplicate group sorted oldest first, minus its first row. */
  function Doomed(ms: seq<Media>, ids: set<Id>): seq<Media> {
    DropHeads(SortItems(DuplicateUrls(ms, ids), CreatedAt))
  }

  /** `itemsToDelete` */
  function ItemsToDelete(ms: seq<Media>, ids: set<Id>): seq<Id> {
    MediaIdList(Doomed(ms, ids))
  }

  /** Both tables after the job: only media rows are deleted. */
  function Dedup(db: Db): Db {
    Db(db.resources, DeleteMedia(db.media, ItemsToDelete(db.media, ResourceIds(db.resources))))
  }

  /** What the job reports. When no url has duplicates it stops after the
      first counts; otherwise it also reports the plan, the batches sent and
      the recount over the whole remaining table. */
  datatype Report =
    | NoDuplicates(orphans: nat, validMedia: nat)
    | Cleaned(
        orphans: nat,
        validMedia: nat,
        duplicateUrls: nat,
        totalDuplicates: int,
        itemsToDelete: seq<Id>,
        batches: seq<seq<Id>>,
        deletedCount: nat,
        remainingMedia: nat,
        remainingDuplicates: nat,
        remainingOrphans: nat)

  // ---------------------------------------------------------------------
  // The job on the database

  /** The `forEach` over `urlGroups` that keeps the groups of more than one
      row and adds up one less than each size. */
  method FindDuplicateUrls(urlGroups: seq<Group<string, Media>>)
    returns (duplicateUrls: seq<Group<string, Media>>, totalDuplicates: int)
    ensures duplicateUrls == Duplicates(urlGroups)
    ensures totalDuplicates == Surplus(duplicateUrls)
  {
    duplicateUrls := [];
    totalDuplicates := 0;
    for i := 0 to |urlGroups|
      invariant duplicateUrls == Duplicates(urlGroups[..i])
      invariant totalDuplicates == Surplus(duplicateUrls)
    {
      var items := urlGroups[i].items;
      DuplicatesStep(urlGroups, i);
      if |items| > 1 {
        duplicateUrls := duplicateUrls + [urlGroups[i]];
        totalDuplicates := totalDuplicates + |items| - 1;
      }
    }
    assert urlGroups[..|urlGroups|] == urlGroups;
  }

  /** The inner `forEach` that pushes the id of every row to delete. */
  method PushIds(itemsToDelete: seq<Id>, toDelete: seq<Media>) returns (r: seq<Id>)
    ensures r == itemsToDelete + MediaIdList(toDelete)
  {
    r := itemsToDelete;
    for j := 0 to |toDelete|
      invariant r == itemsToDelete + MediaIdList(toDelete[..j])
    {
      assert toDelete[..j + 1] == toDelete[..j] + [toDelete[j]];
      MediaIdListAppend(toDelete[..j], [toDelete[j]]);
      r := r + [toDelete[j].id];
    }
    assert toDelete[..|toDelete|] == toDelete;
  }

  /** One turn of the loop over the duplicate groups: the next group,
      sorted, adds the ids of all its rows but the first. */
  lemma DoomedPrefixStep(dups: seq<Group<string, Media>>, i: nat)
    requires i < |dups|
    ensures MediaIdList(DropHeads(SortItems(dups[..i + 1], CreatedAt)))
            == MediaIdList(DropHeads(SortItems(dups[..i], CreatedAt)))
               + MediaIdList(Tail(SortBy(dups[i].items, CreatedAt)))
  {
    var done := SortItems(dups[..i], CreatedAt);
    var toDelete := Tail(SortBy(dups[i].items, CreatedAt));
    assert dups[..i + 1] == dups[..i] + [dups[i]];
    SortItemsAppend(dups[..i], [dups[i]], CreatedAt);
    DropHeadsAppend(done, SortItems([dups[i]], CreatedAt));
    assert DropHeads(SortItems([dups[i]], CreatedAt)) == toDelete;
    MediaIdListAppend(DropHeads(done), toDelete);
  }

  /** The outer `forEach` over `duplicateUrls`: sort each group by creation
      time and mark all but the first for deletion. */
  method CollectItemsToDelete(duplicateUrls: seq<Group<string, Media>>) returns (itemsToDelete: seq<Id>)
    ensures itemsToDelete == MediaIdList(DropHeads(SortItems(duplicateUrls, CreatedAt)))
  {
    itemsToDelete := [];
    assert SortItems(duplicateUrls[..0], CreatedAt) == [];
    for i := 0 to |duplicateUrls|
      invariant itemsToDelete == MediaIdList(DropHeads(SortItems(duplicateUrls[..i], CreatedAt)))
    {
      var sortedItems := SortBy(duplicateUrls[i].items, CreatedAt);
      var toDelete := Tail(sortedItems);
      itemsToDelete := PushIds(itemsToDelete, toDelete);
      DoomedPrefixStep(duplicateUrls, i);
    }
    assert duplicateUrls[..|duplicateUrls|] == duplicateUrls;
  }

  /** `cleanupMediaDuplicates()` */
  method CleanupMediaDuplicates(store: Store) returns (report: Report)
    requires store.Valid()
    modifies store
    ensures store.Valid()
    ensures store.State() == Dedup(old(store.State()))
    ensures var ms := old(store.media);
      var ids := ResourceIds(old(store.resources));
      && report.orphans == |Orphans(ms, ids)|
      && report.validMedia == |ValidMedia(ms, ids)|
      && (report.NoDuplicates? <==> DuplicateUrls(ms, ids) == [])
      && (report.Cleaned? ==>
            && report.duplicateUrls == |DuplicateUrls(ms, ids)|
            && report.totalDuplicates == Surplus(DuplicateUrls(ms, ids))
            && report.itemsToDelete == ItemsToDelete(ms, ids)
            && report.batches == Batches(report.itemsToDelete, BatchSize)
            && report.deletedCount == |report.itemsToDelete|
            && report.remainingMedia == |store.media|
            && report.remainingDuplicates == |Duplicates(GroupBy(store.media, UrlOf))|
            && report.remainingOrphans == |Orphans(store.media, ids)|)
  {
    var allMedia := store.media;
    var allResources := store.resources;
    var validResourceIds := ResourceIds(allResources);
    var orphanedMedia := Orphans(allMedia, validResourceIds);
    var validMedia := ValidMedia(allMedia, validResourceIds);
    var urlGroups := BuildGroups(validMedia, UrlOf);
    var duplicateUrls, totalDuplicates := FindDuplicateUrls(urlGroups);

    if |duplicateUrls| == 0 {
      assert ItemsToDelete(allMedia, validResourceIds) == [];
      DeleteMediaNone(allMedia);
      return NoDuplicates(|orphanedMedia|, |validMedia|);
    }

    var itemsToDelete := CollectItemsToDelete(duplicateUrls);
    var batches: seq<seq<Id>> := [];
    var deletedCount := 0;
    if |itemsToDelete| > 0 {
      batches, deletedCount := store.DeleteMediaInBatches(itemsToDelete);
    } else {
      DeleteMediaNone(allMedia);
    }

    var remainingMedia := store.media;
    var remainingUrlGroups := BuildGroups(remainingMedia, UrlOf);
    var remainingDuplicates := Duplicates(remainingUrlGroups);
    var remainingOrphanedMedia := Orphans(remainingMedia, validResourceIds);
    report := Cleaned(|orphanedMedia|, |validMedia|, |duplicateUrls|, totalDuplicates,
                      itemsToDelete, batches, deletedCount,
                      |remainingMedia|, |remainingDuplicates|, |remainingOrphanedMedia|);
  }

  // ---------------------------------------------------------------------
  // What the job guarantees

  /** Only the duplicate groups lose rows: the planned deletions are those
      of sorting every url group and dropping its first row. */
  lemma DoomedOfAllGroups(ms: seq<Media>, ids: set<Id>)
    ensures Doomed(ms, ids) == DropHeads(SortItems(GroupBy(ValidMedia(ms, ids), UrlOf), CreatedAt))
  {
    SortItemsDuplicates(UrlGroups(ms, ids), CreatedAt);
  }

  /** Deletion is by id and ids identify rows: a row is deleted exactly
      when it is doomed. */
  lemma DeletedIffDoomed(db: Db, m: Media)
    requires Valid(db) && m in db.media
    ensures var ids := ResourceIds(db.resources);
      m in Dedup(db).media <==> m !in Doomed(db.media, ids)
  {
    var ids := ResourceIds(db.resources);
    var doomed := Doomed(db.media, ids);
    var del := ItemsToDelete(db.media, ids);
    DoomedOfAllGroups(db.media, ids);
    if m.id in del {
      var k :| 0 <= k < |doomed| && del[k] == m.id;
      SortedDroppedFromSource(ValidMedia(db.media, ids), UrlOf, CreatedAt, doomed[k]);
      assert doomed[k] == m;
    }
    if m in doomed {
      var k :| 0 <= k < |doomed| && doomed[k] == m;
      assert del[k] == m.id;
    }
  }

  /** A media row survives exactly when it is an orphan, or it is the first
      row, once the valid rows with its url are sorted by creation time. */
  lemma DedupKeepsOldestOfEachUrl(db: Db, m: Media)
    requires Valid(db) && m in db.media
    ensures var ids := ResourceIds(db.resources);
      var s := SortBy(Select(ValidMedia(db.media, ids), UrlOf, m.url), CreatedAt);
      m in Dedup(db).media <==> IsOrphan(m, ids) || (|s| > 0 && m == s[0])
  {
    var ids := ResourceIds(db.resources);
    var v := ValidMedia(db.media, ids);
    var dropped := DropHeads(SortItems(GroupBy(v, UrlOf), CreatedAt));
    DeletedIffDoomed(db, m);
    DoomedOfAllGroups(db.media, ids);
    assert m in Dedup(db).media <==> m !in dropped;
    if IsOrphan(m, ids) {
      assert m !in v;
      if m in dropped {
        SortedDroppedFromSource(v, UrlOf, CreatedAt, m);
      }
      assert m in Dedup(db).media;
    } else {
      assert m in v;
      ValidMediaDistinct(db.media, ids);
      MediaDistinct(v);
      SortedDroppedIffNotFirst(v, UrlOf, CreatedAt, m);
      var s := SortBy(Select(v, UrlOf, m.url), CreatedAt);
      SelectMembers(v, UrlOf, m.url, m);
      assert m in multiset(s);
      assert m in dropped <==> m != s[0];
    }
  }

  /** Afterwards no two valid rows share a url, so the grouping of valid
      rows has no duplicate group and a second run deletes nothing. */
  lemma DedupLeavesUniqueUrls(db: Db)
    requires Valid(db)
    ensures var ids := ResourceIds(db.resources);
      && UniqueKeys(ValidMedia(Dedup(db).media, ids), UrlOf)
      && DuplicateUrls(Dedup(db).media, ids) == []
  {
    var ids := ResourceIds(db.resources);
    var kept := Dedup(db).media;
    var w := ValidMedia(kept, ids);
    DeleteMediaDistinct(db.media, ItemsToDelete(db.media, ids));
    ValidMediaDistinct(kept, ids);
    forall i, j | 0 <= i < j < |w| ensures UrlOf(w[i]) != UrlOf(w[j]) {
      var a, b := w[i], w[j];
      assert a in kept && b in kept;
      DedupKeepsOldestOfEachUrl(db, a);
      DedupKeepsOldestOfEachUrl(db, b);
      assert a.id != b.id;
    }
    DuplicatesIffRepeatedKey(w, UrlOf);
  }

  /** With no two valid rows sharing a url the job returns early and
      changes nothing; the converse holds too. */
  lemma DedupFixedPoint(db: Db)
    ensures var ids := ResourceIds(db.resources);
      DuplicateUrls(db.media, ids) == [] <==> UniqueKeys(ValidMedia(db.media, ids), UrlOf)
    ensures UniqueKeys(ValidMedia(db.media, ResourceIds(db.resources)), UrlOf) ==> Dedup(db) == db
  {
    var ids := ResourceIds(db.resources);
    DuplicatesIffRepeatedKey(ValidMedia(db.media, ids), UrlOf);
    DeleteMediaNone(db.media);
  }

  lemma DedupIdempotent(db: Db)
    requires Valid(db)
    ensures Dedup(Dedup(db)) == Dedup(db)
  {
    DedupLeavesUniqueUrls(db);
    DedupFixedPoint(Dedup(db));
  }

  /** `totalDuplicates` is exactly the number of ids marked for deletion. */
  lemma DeletedCount(ms: seq<Media>, ids: set<Id>)
    ensures |ItemsToDelete(ms, ids)| == Surplus(DuplicateUrls(ms, ids))
  {
    var dups := DuplicateUrls(ms, ids);
    var sorted := SortItems(dups, CreatedAt);
    forall i | 0 <= i < |sorted| ensures sorted[i].items != [] {
      assert |sorted[i].items| == |dups[i].items| > 1;
    }
    DropHeadsLength(sorted);
    SurplusSortItems(dups, CreatedAt);
  }

  /** Deleting rows none of which is an orphan keeps the orphans as they
      were. */
  lemma {:induction false} OrphansUntouched(ms: seq<Media>, del: seq<Id>, ids: set<Id>)
    requires forall m :: m in ms && IsOrphan(m, ids) ==> m.id !in del
    ensures Orphans(DeleteMedia(ms, del), ids) == Orphans(ms, ids)
  {
    if |ms| > 0 {
      var m := ms[0];
      var rest := DeleteMedia(ms[1..], del);
      assert forall x :: x in ms[1..] ==> x in ms;
      OrphansUntouched(ms[1..], del, ids);
      if m.id in del {
        assert !IsOrphan(m, ids);
        assert DeleteMedia(ms, del) == rest;
      } else {
        assert DeleteMedia(ms, del) == [m] + rest;
        assert ([m] + rest)[1..] == rest;
      }
    }
  }

  /** The recount of orphans after the job finds exactly the orphans found
      before it. */
  lemma DedupKeepsOrphans(db: Db)
    requires Valid(db)
    ensures var ids := ResourceIds(db.resources);
      Orphans(Dedup(db).media, ids) == Orphans(db.media, ids)
  {
    var ids := ResourceIds(db.resources);
    var del := ItemsToDelete(db.media, ids);
    forall m | m in db.media && IsOrphan(m, ids) ensures m.id !in del {
      DedupKeepsOldestOfEachUrl(db, m);
      assert m in DeleteMedia(db.media, del);
    }
    OrphansUntouched(db.media, del, ids);
  }

  /** The final recount groups the whole table, orphans included, so an
      orphan sharing its url with a valid row makes the job report a
      remaining duplicate even though it left none among valid rows. */
  lemma OrphanSharingUrlStillReported(db: Db, a: Media, b: Media)
    requires Valid(db) && a in db.media && b in db.media && a.url == b.url
    requires !IsOrphan(a, ResourceIds(db.resources)) && IsOrphan(b, ResourceIds(db.resources))
    ensures Duplicates(GroupBy(Dedup(db).media, UrlOf)) != []
  {
    var ids := ResourceIds(db.resources);
    var v := ValidMedia(db.media, ids);
    var sel := Select(v, UrlOf, a.url);
    SelectMembers(v, UrlOf, a.url, a);
    var s := SortBy(sel, CreatedAt);
    assert a in multiset(s);
    var h := s[0];
    assert h in multiset(sel);
    SelectMembers(v, UrlOf, a.url, h);
    DedupKeepsOldestOfEachUrl(db, h);
    DedupKeepsOldestOfEachUrl(db, b);
    var kept := Dedup(db).media;
    var i :| 0 <= i < |kept| && kept[i] == h;
    var j :| 0 <= j < |kept| && kept[j] == b;
    assert h != b && i != j;
    if i < j {
      assert !UniqueKeys(kept, UrlOf);
    } else {
      assert !UniqueKeys(kept, UrlOf);
    }
    DuplicatesIffRepeatedKey(kept, UrlOf);
  }
}
