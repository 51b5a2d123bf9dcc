/** `scripts/cleanupOrphanedMedia.ts`: delete, in batches, every media row
    whose resourceId is set but names no resource. */
module CleanupOrphanedMedia {
  import opened Wrappers
  import opened Seqs
  import opened Grouping
  import opened Schema
  import opened Database

  /** How many of the largest groups the job lists. */
  const TopGroups: nat := 5

  // ---------------------------------------------------------------------
  // The plan, as functions of the media table and the resource ids

  /** The grouping key `mediaItem.resourceId || 'null'`. */
  function OrphanKey(m: Media): string {
    if IsLinked(m) then m.resourceId.value else "null"
  }

  /** `orphanedByResourceId`: the orphans grouped by the resource they
      name, in first-seen order. */
  function OrphanGroups(ms: seq<Media>, ids: set<Id>): seq<Group<string, Media>> {
    GroupBy(Orphans(ms, ids), OrphanKey)
  }

  /** `sortedOrphanedGroups`: the groups largest first, at most five. */
  function TopOrphanGroups(ms: seq<Media>, ids: set<Id>): seq<Group<string, Media>> {
    var sorted := SortBy(OrphanGroups(ms, ids), DescendingSize);
    sorted[..Min(TopGroups, |sorted|)]
  }

  /** Both tables after the job: the orphans' ids are deleted. */
  function Purge(db: Db): Db {
    Db(db.resources, DeleteMedia(db.media, MediaIdList(Orphans(db.media, ResourceIds(db.resources)))))
  }

  /** `remainingMedia.filter(m => !m.resourceId)` */
  function Unlinked(ms: seq<Media>): (r: seq<Media>)
    ensures forall x :: x in r <==> x in ms && !IsLinked(x)
  {
    if |ms| == 0 then []
    else (if !IsLinked(ms[0]) then [ms[0]] else []) + Unlinked(ms[1..])
  }

  /** What the job reports. Without orphans it stops at once; otherwise it
      reports the orphans, how many resources they name, the largest
      groups, the batches sent and the recount. */
  datatype Report =
    | NoOrphans
    | Purged(
        orphans: nat,
        orphanedResourceIds: nat,
        largestGroups: seq<Group<string, Media>>,
        itemsToDelete: seq<Id>,
        batches: seq<seq<Id>>,
        deletedCount: nat,
        remainingMedia: nat,
        remainingOrphans: nat,
        withoutResourceId: nat)

  // ---------------------------------------------------------------------
  // The job on the database

  /** `cleanupOrphanedMedia()` */
  method CleanupOrphanedMedia(store: Store) returns (report: Report)
    requires store.Valid()
    modifies store
    ensures store.Valid()
    ensures store.State() == Purge(old(store.State()))
    ensures var ms := old(store.media);
      var ids := ResourceIds(old(store.resources));
      && (report.NoOrphans? <==> Orphans(ms, ids) == [])
      && (report.Purged? ==>
            && report.orphans == |Orphans(ms, ids)|
            && report.orphanedResourceIds == |OrphanGroups(ms, ids)|
            && report.largestGroups == TopOrphanGroups(ms, ids)
            && report.itemsToDelete == MediaIdList(Orphans(ms, ids))
            && report.batches == Batches(report.itemsToDelete, BatchSize)
            && report.deletedCount == |report.itemsToDelete|
            && report.remainingMedia == |store.media|
            && report.remainingOrphans == |Orphans(store.media, ids)|
            && report.withoutResourceId == |Unlinked(store.media)|)
  {
    var allMedia := store.media;
    var allResources := store.resources;
    var validResourceIds := ResourceIds(allResources);
    var orphanedMedia := Orphans(allMedia, validResourceIds);

    if |orphanedMedia| == 0 {
      DeleteMediaNone(allMedia);
      return NoOrphans;
    }

    var orphanedByResourceId := BuildGroups(orphanedMedia, OrphanKey);
    var sortedGroups := SortBy(orphanedByResourceId, DescendingSize);
    var largestGroups := sortedGroups[..Min(TopGroups, |sortedGroups|)];
    var itemsToDelete := MediaIdList(orphanedMedia);

    var batches: seq<seq<Id>> := [];
    var deletedCount := 0;
    if |itemsToDelete| > 0 {
      batches, deletedCount := store.DeleteMediaInBatches(itemsToDelete);
    } else {
      DeleteMediaNone(allMedia);
    }

    var remainingMedia := store.media;
    var remainingOrphanedMedia := Orphans(remainingMedia, validResourceIds);
    var mediaWithNullResourceId := Unlinked(remainingMedia);
    report := Purged(|orphanedMedia|, |orphanedByResourceId|, largestGroups, itemsToDelete,
                     batches, deletedCount, |remainingMedia|, |remainingOrphanedMedia|,
                     |mediaWithNullResourceId|);
  }

  // ---------------------------------------------------------------------
  // What the job guarantees

  /** Deleting by a list that names exactly the orphans leaves exactly the
      valid rows, in table order. */
  lemma {:induction false} DeleteOrphanIds(ms: seq<Media>, ids: set<Id>, del: seq<Id>)
    requires forall x :: x in ms ==> (x.id in del <==> IsOrphan(x, ids))
    ensures DeleteMedia(ms, del) == ValidMedia(ms, ids)
  {
    if |ms| > 0 {
      assert ms[0] in ms;
      assert forall x :: x in ms[1..] ==> x in ms;
      DeleteOrphanIds(ms[1..], ids, del);
    }
  }

  /** The job deletes exactly the orphans: what remains is the valid media
      in table order, one row fewer per orphan. */
  lemma PurgeKeepsValidMedia(db: Db)
    requires Valid(db)
    ensures var ids := ResourceIds(db.resources);
      && Purge(db).media == ValidMedia(db.media, ids)
      && |Purge(db).media| == |db.media| - |Orphans(db.media, ids)|
  {
    var ms := db.media;
    var ids := ResourceIds(db.resources);
    var orphans := Orphans(ms, ids);
    var del := MediaIdList(orphans);
    forall x | x in ms ensures x.id in del <==> IsOrphan(x, ids) {
      if IsOrphan(x, ids) {
        var k :| 0 <= k < |orphans| && orphans[k] == x;
        assert del[k] == x.id;
      }
      if x.id in del {
        var k :| 0 <= k < |del| && del[k] == x.id;
        var y := orphans[k];
        assert y in ms && y.id == x.id;
        var a :| 0 <= a < |ms| && ms[a] == x;
        var b :| 0 <= b < |ms| && ms[b] == y;
        assert a == b;
      }
    }
    DeleteOrphanIds(ms, ids, del);
    OrphansPartition(ms, ids);
  }

  /** A table none of whose rows is an orphan has no orphans to list. */
  lemma {:induction false} OrphansEmpty(ms: seq<Media>, ids: set<Id>)
    requires forall x :: x in ms ==> !IsOrphan(x, ids)
    ensures Orphans(ms, ids) == []
  {
    if |ms| > 0 {
      assert ms[0] in ms;
      assert forall x :: x in ms[1..] ==> x in ms;
      OrphansEmpty(ms[1..], ids);
    }
  }

  /** The job's recount finds no orphan afterwards, whatever the ids. */
  lemma PurgeLeavesNoOrphans(db: Db)
    ensures Orphans(Purge(db).media, ResourceIds(db.resources)) == []
  {
    var ids := ResourceIds(db.resources);
    var orphans := Orphans(db.media, ids);
    var del := MediaIdList(orphans);
    assert forall x :: x in Purge(db).media ==> !IsOrphan(x, ids);
    OrphansEmpty(Purge(db).media, ids);
  }

  /** A second run finds nothing and returns early. */
  lemma PurgeIdempotent(db: Db)
    ensures Purge(Purge(db)) == Purge(db)
  {
    PurgeLeavesNoOrphans(db);
    DeleteMediaNone(Purge(db).media);
  }

  /** The groups partition the orphans, each keyed by the dangling
      resource id its rows name: the `'null'` fallback never applies. */
  lemma OrphanGroupsCover(ms: seq<Media>, ids: set<Id>)
    ensures SizeSum(OrphanGroups(ms, ids)) == |Orphans(ms, ids)|
    ensures var gs := OrphanGroups(ms, ids);
      forall i :: 0 <= i < |gs| ==>
        && gs[i].key !in ids
        && forall k :: 0 <= k < |gs[i].items| ==>
             gs[i].items[k] in ms && gs[i].items[k].resourceId == Some(gs[i].key)
  {
    var orphans := Orphans(ms, ids);
    var gs := OrphanGroups(ms, ids);
    GroupBySizes(orphans, OrphanKey);
    GroupByItems(orphans, OrphanKey);
    forall i, k | 0 <= i < |gs| && 0 <= k < |gs[i].items|
      ensures gs[i].items[k] in ms && gs[i].items[k].resourceId == Some(gs[i].key)
      ensures gs[i].key !in ids
    {
      var x := gs[i].items[k];
      SelectMembers(orphans, OrphanKey, gs[i].key, x);
    }
    forall i | 0 <= i < |gs| ensures gs[i].key !in ids {
      var x := gs[i].items[0];
      SelectMembers(orphans, OrphanKey, gs[i].key, x);
    }
  }

  /** The listed groups are at most five, largest first, drawn from the
      grouping, and no group left out is larger than any listed one. */
  lemma TopOrphanGroupsAreLargest(ms: seq<Media>, ids: set<Id>)
    ensures var top := TopOrphanGroups(ms, ids);
      var gs := OrphanGroups(ms, ids);
      && |top| == Min(TopGroups, |gs|)
      && (forall i, j :: 0 <= i < j < |top| ==> |top[i].items| >= |top[j].items|)
      && (forall i :: 0 <= i < |top| ==> top[i] in gs)
      && (forall g, i :: g in gs && g !in top && 0 <= i < |top| ==> |g.items| <= |top[i].items|)
  {
    var gs := OrphanGroups(ms, ids);
    var n := Min(TopGroups, |gs|);
    assert TopOrphanGroups(ms, ids) == SortBy(gs, DescendingSize)[..n];
    TopDescending(gs, n);
    TopDrawnFromGroups(gs, n);
    TopNoSmallerThanRest(gs, n);
  }

  lemma TopDescending(gs: seq<Group<string, Media>>, n: nat)
    requires n <= |gs|
    ensures var top := SortBy(gs, DescendingSize)[..n];
      && |top| == n
      && forall i, j :: 0 <= i < j < |top| ==> |top[i].items| >= |top[j].items|
  {
    var sorted := SortBy(gs, DescendingSize);
    forall i, j | 0 <= i < j < n ensures |sorted[i].items| >= |sorted[j].items| {
      assert DescendingSize(sorted[i]) <= DescendingSize(sorted[j]);
    }
  }

  lemma TopDrawnFromGroups(gs: seq<Group<string, Media>>, n: nat)
    requires n <= |gs|
    ensures var top := SortBy(gs, DescendingSize)[..n];
      forall i :: 0 <= i < |top| ==> top[i] in gs
  {
    var sorted := SortBy(gs, DescendingSize);
    forall i | 0 <= i < n ensures sorted[i] in gs {
      assert sorted[i] in multiset(sorted);
    }
  }

  lemma TopNoSmallerThanRest(gs: seq<Group<string, Media>>, n: nat)
    requires n <= |gs|
    ensures var top := SortBy(gs, DescendingSize)[..n];
      forall g, i :: g in gs && g !in top && 0 <= i < |top| ==> |g.items| <= |top[i].items|
  {
    var sorted := SortBy(gs, DescendingSize);
    var top := sorted[..n];
    forall g, i | g in gs && g !in top && 0 <= i < |top| ensures |g.items| <= |top[i].items| {
      assert g in multiset(sorted);
      var j :| 0 <= j < |sorted| && sorted[j] == g;
      assert j >= |top|;
      assert DescendingSize(sorted[i]) <= DescendingSize(sorted[j]);
    }
  }
}
