/** `scripts/cleanupDuplicates.ts`: collapse resources that share a trimmed
    url to the first of them in select order, deleting each other one's
    media before deleting it. */
module CleanupDuplicates {
  import opened Wrappers
  import opened Seqs
  import opened Grouping
  import opened Schema
  import opened Database

  // ---------------------------------------------------------------------
  // The plan, as functions of the resources table

  /** `urlGroups`: the resources that have a url, grouped by trimmed url in
      first-seen order. */
  function UrlGroups(rs: seq<Resource>): seq<Group<string, Resource>> {
    GroupBy(WithUrl(rs), UrlKey)
  }

  /** `duplicates`: the groups of more than one resource, largest first. */
  function DuplicateGroups(rs: seq<Resource>): seq<Group<string, Resource>> {
    SortBy(Duplicates(UrlGroups(rs)), DescendingSize)
  }

  /** Every member of a duplicate group but its first, in processing
      order. */
  function Doomed(rs: seq<Resource>): seq<Resource> {
    DropHeads(DuplicateGroups(rs))
  }

  /** Both tables after the job: the doomed resources are gone, and so is
      every media row that named one of them. */
  function Collapse(db: Db): Db {
    var ids := ResourceIdList(Doomed(db.resources));
    Db(DeleteResources(db.resources, ids), DeleteMediaOf(db.media, ids))
  }

  /** What the job reports: how many urls had duplicates, how many
      resources it deleted, and how many urls still have duplicates when it
      checks again. */
  datatype Report = Report(duplicateUrls: nat, totalDeleted: nat, remainingDuplicates: nat)

  // ---------------------------------------------------------------------
  // The job on the database

  /** The `forEach` that fills `urlGroups`, skipping resources whose url is
      absent or empty. */
  method GroupByTrimmedUrl(rs: seq<Resource>) returns (groups: seq<Group<string, Resource>>)
    ensures groups == UrlGroups(rs)
  {
    groups := [];
    for i := 0 to |rs|
      invariant groups == GroupBy(WithUrl(rs[..i]), UrlKey)
    {
      var resource := rs[i];
      WithUrlAppend(rs[..i], [resource]);
      assert rs[..i + 1] == rs[..i] + [resource];
      if HasUrl(resource) {
        GroupBySnoc(WithUrl(rs[..i]), resource, UrlKey);
        groups := PushTo(groups, UrlKey(resource), resource);
      } else {
        assert WithUrl(rs[..i + 1]) == WithUrl(rs[..i]);
      }
    }
    assert rs[..|rs|] == rs;
  }

  /** One duplicate: delete its media if it has any, then the resource. */
  method DeleteDuplicate(store: Store, id: Id)
    requires store.Valid()
    modifies store
    ensures store.Valid()
    ensures store.media == DeleteMediaOf(old(store.media), [id])
    ensures store.resources == DeleteResources(old(store.resources), [id])
  {
    var associatedMedia := MediaOf(store.media, id);
    if |associatedMedia| > 0 {
      store.DeleteMediaWhereResourceId(id);
    } else {
      DeleteMediaOfNothing(store.media, id);
    }
    DeleteMediaOfDistinct(old(store.media), [id]);
    store.DeleteResourceWhereId(id);
    DeleteResourcesDistinct(old(store.resources), [id]);
  }

  lemma ResourceIdListAppend(a: seq<Resource>, b: seq<Resource>)
    ensures ResourceIdList(a + b) == ResourceIdList(a) + ResourceIdList(b)
  {
  }

  /** The inner loop over `deleteResources`: each is deleted with its media
      and counted. */
  method DeleteGroupMembers(store: Store, deleteResources: seq<Resource>, totalDeleted: nat)
    returns (total: nat)
    requires store.Valid()
    modifies store
    ensures store.Valid()
    ensures total == totalDeleted + |deleteResources|
    ensures store.resources == DeleteResources(old(store.resources), ResourceIdList(deleteResources))
    ensures store.media == DeleteMediaOf(old(store.media), ResourceIdList(deleteResources))
  {
    total := totalDeleted;
    DeleteResourcesNone(store.resources);
    DeleteMediaOfNone(store.media);
    assert ResourceIdList(deleteResources[..0]) == [];
    for d := 0 to |deleteResources|
      invariant store.Valid()
      invariant total == totalDeleted + d
      invariant store.resources == DeleteResources(old(store.resources), ResourceIdList(deleteResources[..d]))
      invariant store.media == DeleteMediaOf(old(store.media), ResourceIdList(deleteResources[..d]))
    {
      var deleteResource := deleteResources[d];
      ghost var ids := ResourceIdList(deleteResources[..d]);
      DeleteDuplicate(store, deleteResource.id);
      total := total + 1;
      DeleteResourcesTwice(old(store.resources), ids, [deleteResource.id]);
      DeleteMediaOfTwice(old(store.media), ids, [deleteResource.id]);
      assert deleteResources[..d + 1] == deleteResources[..d] + [deleteResource];
      ResourceIdListAppend(deleteResources[..d], [deleteResource]);
      assert ResourceIdList(deleteResources[..d + 1]) == ids + [deleteResource.id];
    }
    assert deleteResources[..|deleteResources|] == deleteResources;
  }

  /** One turn of the loop over the duplicate groups: the next group's
      members but its first join the deleted ones. */
  lemma DoomedPrefixStep(duplicates: seq<Group<string, Resource>>, g: nat)
    requires g < |duplicates|
    ensures var tail := Tail(duplicates[g].items);
      && DropHeads(duplicates[..g + 1]) == DropHeads(duplicates[..g]) + tail
      && ResourceIdList(DropHeads(duplicates[..g + 1]))
         == ResourceIdList(DropHeads(duplicates[..g])) + ResourceIdList(tail)
  {
    assert duplicates[..g + 1] == duplicates[..g] + [duplicates[g]];
    DropHeadsAppend(duplicates[..g], [duplicates[g]]);
    assert DropHeads([duplicates[g]]) == Tail(duplicates[g].items);
    ResourceIdListAppend(DropHeads(duplicates[..g]), Tail(duplicates[g].items));
  }

  /** `cleanupDuplicates()` */
  method CleanupDuplicates(store: Store) returns (report: Report)
    requires store.Valid()
    modifies store
    ensures store.Valid()
    ensures store.State() == Collapse(old(store.State()))
    ensures report == Report(|DuplicateGroups(old(store.resources))|,
                             |Doomed(old(store.resources))|,
                             |Duplicates(UrlGroups(store.resources))|)
  {
    var allResources := store.resources;
    ghost var allMedia := store.media;
    var urlGroups := GroupByTrimmedUrl(allResources);
    var duplicates := SortBy(Duplicates(urlGroups), DescendingSize);
    var totalDeleted := 0;
    assert ResourceIdList(DropHeads(duplicates[..0])) == [];
    DeleteResourcesNone(allResources);
    DeleteMediaOfNone(allMedia);
    for g := 0 to |duplicates|
      invariant store.Valid()
      invariant totalDeleted == |DropHeads(duplicates[..g])|
      invariant store.resources == DeleteResources(allResources, ResourceIdList(DropHeads(duplicates[..g])))
      invariant store.media == DeleteMediaOf(allMedia, ResourceIdList(DropHeads(duplicates[..g])))
    {
      ghost var ids := ResourceIdList(DropHeads(duplicates[..g]));
      var deleteResources := Tail(duplicates[g].items);
      totalDeleted := DeleteGroupMembers(store, deleteResources, totalDeleted);
      DeleteResourcesTwice(allResources, ids, ResourceIdList(deleteResources));
      DeleteMediaOfTwice(allMedia, ids, ResourceIdList(deleteResources));
      DoomedPrefixStep(duplicates, g);
    }
    assert duplicates[..|duplicates|] == duplicates;

    var remainingGroups := GroupByTrimmedUrl(store.resources);
    var remainingDuplicates := Duplicates(remainingGroups);
    report := Report(|duplicates|, totalDeleted, |remainingDuplicates|);
  }

  // ---------------------------------------------------------------------
  // What the job guarantees

  /** The doomed resources are those of the unsorted grouping minus each
      group's first: processing the groups largest first changes only the
      order of deletion. */
  lemma DoomedMembers(rs: seq<Resource>, r: Resource)
    ensures r in Doomed(rs) <==> r in DropHeads(UrlGroups(rs))
  {
    var gs := UrlGroups(rs);
    DropHeadsSortBy(Duplicates(gs), DescendingSize);
    DropHeadsOfDuplicates(gs);
    assert r in Doomed(rs) <==> r in multiset(Doomed(rs));
    assert r in DropHeads(gs) <==> r in multiset(DropHeads(gs));
  }

  /** The doomed resources are rows of the table. */
  lemma DoomedFromTable(rs: seq<Resource>, x: Resource)
    requires x in Doomed(rs)
    ensures x in rs
  {
    DoomedMembers(rs, x);
    DroppedFromSource(WithUrl(rs), UrlKey, x);
  }

  /** Deletion is by id, and ids identify rows: a row of the table is
      deleted exactly when it is doomed. */
  lemma DeletedIffDoomed(db: Db, r: Resource)
    requires Valid(db) && r in db.resources
    ensures r in Collapse(db).resources <==> r !in Doomed(db.resources)
  {
    var rs := db.resources;
    var doomed := Doomed(rs);
    var ids := ResourceIdList(doomed);
    if r.id in ids {
      var k :| 0 <= k < |doomed| && ids[k] == r.id;
      DoomedFromTable(rs, doomed[k]);
      assert doomed[k] == r;
    }
    if r in doomed {
      var k :| 0 <= k < |doomed| && doomed[k] == r;
      assert ids[k] == r.id;
    }
  }

  /** A resource is deleted exactly when it has a url and is not the first
      resource in select order with its trimmed url. Resources without a url
      are never touched. */
  lemma CollapseKeepsFirstOfEachUrl(db: Db, r: Resource)
    requires Valid(db) && r in db.resources
    ensures var first := Select(WithUrl(db.resources), UrlKey, UrlKey(r));
      r in Collapse(db).resources <==> !HasUrl(r) || (|first| > 0 && r == first[0])
  {
    var rs := db.resources;
    var w := WithUrl(rs);
    var first := Select(w, UrlKey, UrlKey(r));
    DeletedIffDoomed(db, r);
    DoomedMembers(rs, r);
    assert UrlGroups(rs) == GroupBy(w, UrlKey);
    if HasUrl(r) {
      assert r in w;
      SelectMembers(w, UrlKey, UrlKey(r), r);
      WithUrlDistinct(rs);
      ResourcesDistinct(w);
      DroppedIffNotFirst(w, UrlKey, r);
      assert r in Collapse(db).resources <==> r == first[0];
    } else {
      assert r !in w;
      if r in DropHeads(GroupBy(w, UrlKey)) {
        DroppedFromSource(w, UrlKey, r);
      }
    }
  }

  /** Afterwards no two resources with a url share a trimmed url, so the
      job's own recheck finds no duplicate. */
  lemma CollapseLeavesUniqueUrls(db: Db)
    requires Valid(db)
    ensures UniqueKeys(WithUrl(Collapse(db).resources), UrlKey)
    ensures Duplicates(UrlGroups(Collapse(db).resources)) == []
  {
    var rs := db.resources;
    var kept := Collapse(db).resources;
    var w := WithUrl(kept);
    DeleteResourcesDistinct(rs, ResourceIdList(Doomed(rs)));
    WithUrlDistinct(kept);
    forall i, j | 0 <= i < j < |w| ensures UrlKey(w[i]) != UrlKey(w[j]) {
      var a, b := w[i], w[j];
      assert a in kept && b in kept;
      CollapseKeepsFirstOfEachUrl(db, a);
      CollapseKeepsFirstOfEachUrl(db, b);
      assert a.id != b.id;
    }
    DuplicatesIffRepeatedKey(w, UrlKey);
  }

  /** A table without two resources sharing a trimmed url is left as it is:
      a second run deletes nothing. */
  lemma CollapseFixedPoint(db: Db)
    requires UniqueKeys(WithUrl(db.resources), UrlKey)
    ensures Doomed(db.resources) == []
    ensures Collapse(db) == db
  {
    DuplicatesIffRepeatedKey(WithUrl(db.resources), UrlKey);
    DeleteResourcesNone(db.resources);
    DeleteMediaOfNone(db.media);
  }

  lemma CollapseIdempotent(db: Db)
    requires Valid(db)
    ensures Collapse(Collapse(db)) == Collapse(db)
  {
    CollapseLeavesUniqueUrls(db);
    CollapseFixedPoint(Collapse(db));
  }

  /** `totalDeleted` is the sum over the duplicate groups of one less than
      their size. */
  lemma DeletedCount(rs: seq<Resource>)
    ensures |Doomed(rs)| == Surplus(Duplicates(UrlGroups(rs)))
  {
    var gs := Duplicates(UrlGroups(rs));
    DropHeadsSortBy(gs, DescendingSize);
    assert |Doomed(rs)| == |multiset(Doomed(rs))| == |multiset(DropHeads(gs))|;
    GroupByItems(WithUrl(rs), UrlKey);
    DropHeadsLength(gs);
  }

  /** The cascade: a media row survives exactly when the resource it names,
      if any, survives. Media naming no resource are kept. */
  lemma CollapseCascade(db: Db, m: Media)
    requires Valid(db) && m in db.media
    ensures m in Collapse(db).media <==>
              forall r :: r in db.resources && m.resourceId == Some(r.id) ==> r in Collapse(db).resources
  {
    var rs := db.resources;
    var doomed := Doomed(rs);
    var ids := ResourceIdList(doomed);
    if m.resourceId.Some? && m.resourceId.value in ids {
      var k :| 0 <= k < |doomed| && ids[k] == m.resourceId.value;
      var r := doomed[k];
      DoomedFromTable(rs, r);
      DeletedIffDoomed(db, r);
      assert r in rs && m.resourceId == Some(r.id) && r !in Collapse(db).resources;
    }
  }

  /** Groups are processed largest first, and each has more than one
      member. */
  lemma DuplicateGroupsOrder(rs: seq<Resource>)
    ensures forall i, j :: 0 <= i < j < |DuplicateGroups(rs)| ==>
              |DuplicateGroups(rs)[i].items| >= |DuplicateGroups(rs)[j].items|
    ensures forall i :: 0 <= i < |DuplicateGroups(rs)| ==> |DuplicateGroups(rs)[i].items| > 1
  {
    var dg := DuplicateGroups(rs);
    var gs := Duplicates(UrlGroups(rs));
    forall i | 0 <= i < |dg| ensures |dg[i].items| > 1 {
      assert dg[i] in multiset(gs);
    }
  }
}
