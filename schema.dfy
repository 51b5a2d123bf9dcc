/** The two tables of the knowledge base and the row filters that the SQL
    statements of the jobs perform. `resources.url` and `media.resourceId`
    are nullable columns; `media.resourceId` names a resource by id but is
    not a foreign key, so it may dangle. */
module Schema {
  import opened Wrappers
  import opened Text
  import opened Seqs

  type Id = string

  datatype Resource = Resource(
    id: Id,
    url: Option<string>,
    title: string,
    description: string,
    content: string,
    source: string)

  datatype Media = Media(
    id: Id,
    url: string,
    mimeType: string,
    description: string,
    resourceId: Option<Id>,
    createdAt: int)

  /** A snapshot of both tables, rows in select order. */
  datatype Db = Db(resources: seq<Resource>, media: seq<Media>)

  /** JavaScript truthiness of `resource.url`: present and non-empty. */
  predicate HasUrl(r: Resource) {
    r.url.Some? && r.url.value != ""
  }

  /** The duplicate-detection key of a resource: its trimmed url. */
  function UrlKey(r: Resource): string {
    if r.url.Some? then Trim(r.url.value) else ""
  }

  function UrlOf(m: Media): string { m.url }

  function CreatedAt(m: Media): int { m.createdAt }

  /** JavaScript truthiness of `media.resourceId`: present and non-empty. */
  predicate IsLinked(m: Media) {
    m.resourceId.Some? && m.resourceId.value != ""
  }

  function ResourceIds(rs: seq<Resource>): set<Id> {
    set r | r in rs :: r.id
  }

  /** A media row whose resourceId is set but names no resource. */
  predicate IsOrphan(m: Media, ids: set<Id>) {
    IsLinked(m) && m.resourceId.value !in ids
  }

  function ResourceIdList(rs: seq<Resource>): (r: seq<Id>)
    ensures |r| == |rs| && forall i :: 0 <= i < |rs| ==> r[i] == rs[i].id
  {
    seq(|rs|, i requires 0 <= i < |rs| => rs[i].id)
  }

  function MediaIdList(ms: seq<Media>): (r: seq<Id>)
    ensures |r| == |ms| && forall i :: 0 <= i < |ms| ==> r[i] == ms[i].id
  {
    seq(|ms|, i requires 0 <= i < |ms| => ms[i].id)
  }

  /** Primary keys: no two rows of a table share an id. */
  predicate DistinctResourceIds(rs: seq<Resource>) {
    forall i, j :: 0 <= i < j < |rs| ==> rs[i].id != rs[j].id
  }

  predicate DistinctMediaIds(ms: seq<Media>) {
    forall i, j :: 0 <= i < j < |ms| ==> ms[i].id != ms[j].id
  }

  predicate Valid(db: Db) {
    DistinctResourceIds(db.resources) && DistinctMediaIds(db.media)
  }

  /** `select * from resources where url = $url` */
  function ResourcesWithUrl(rs: seq<Resource>, url: string): (r: seq<Resource>)
    ensures forall x :: x in r <==> x in rs && x.url == Some(url)
    ensures |r| <= |rs|
  {
    if |rs| == 0 then []
    else (if rs[0].url == Some(url) then [rs[0]] else []) + ResourcesWithUrl(rs[1..], url)
  }

  /** The lookup finds nothing when no row has the url. */
  lemma {:induction false} ResourcesWithUrlNone(rs: seq<Resource>, url: string)
    requires forall x :: x in rs ==> x.url != Some(url)
    ensures ResourcesWithUrl(rs, url) == []
  {
    if |rs| > 0 {
      assert rs[0] in rs;
      assert forall x :: x in rs[1..] ==> x in rs;
      ResourcesWithUrlNone(rs[1..], url);
    }
  }

  /** `select * from media where resourceId = $id` */
  function MediaOf(ms: seq<Media>, id: Id): (r: seq<Media>)
    ensures forall x :: x in r <==> x in ms && x.resourceId == Some(id)
    ensures forall x :: multiset(r)[x] == if x.resourceId == Some(id) then multiset(ms)[x] else 0
  {
    if |ms| == 0 then []
    else
      assert ms == [ms[0]] + ms[1..];
      (if ms[0].resourceId == Some(id) then [ms[0]] else []) + MediaOf(ms[1..], id)
  }

  /** The resources that have a url, in order (the `if (resource.url)` of
      the grouping loop). */
  function WithUrl(rs: seq<Resource>): (r: seq<Resource>)
    ensures forall x :: x in r <==> x in rs && HasUrl(x)
  {
    if |rs| == 0 then []
    else (if HasUrl(rs[0]) then [rs[0]] else []) + WithUrl(rs[1..])
  }

  lemma {:induction false} WithUrlAppend(a: seq<Resource>, b: seq<Resource>)
    ensures WithUrl(a + b) == WithUrl(a) + WithUrl(b)
  {
    if |a| == 0 {
      assert a + b == b;
    } else {
      assert (a + b)[1..] == a[1..] + b;
      WithUrlAppend(a[1..], b);
    }
  }

  /** Rows with distinct ids are distinct rows. */
  lemma ResourcesDistinct(rs: seq<Resource>)
    requires DistinctResourceIds(rs)
    ensures Distinct(rs)
  {
  }

  lemma MediaDistinct(ms: seq<Media>)
    requires DistinctMediaIds(ms)
    ensures Distinct(ms)
  {
  }

  /** `allMedia.filter(m => m.resourceId && !ids.has(m.resourceId))` */
  function Orphans(ms: seq<Media>, ids: set<Id>): (r: seq<Media>)
    ensures forall x :: x in r <==> x in ms && IsOrphan(x, ids)
    ensures |r| <= |ms|
  {
    if |ms| == 0 then []
    else (if IsOrphan(ms[0], ids) then [ms[0]] else []) + Orphans(ms[1..], ids)
  }

  /** `allMedia.filter(m => !m.resourceId || ids.has(m.resourceId))` */
  function ValidMedia(ms: seq<Media>, ids: set<Id>): (r: seq<Media>)
    ensures forall x :: x in r <==> x in ms && !IsOrphan(x, ids)
  {
    if |ms| == 0 then []
    else (if !IsOrphan(ms[0], ids) then [ms[0]] else []) + ValidMedia(ms[1..], ids)
  }

  /** The two filters split the table: every row is in exactly one. */
  lemma {:induction false} OrphansPartition(ms: seq<Media>, ids: set<Id>)
    ensures |Orphans(ms, ids)| + |ValidMedia(ms, ids)| == |ms|
  {
    if |ms| > 0 {
      OrphansPartition(ms[1..], ids);
    }
  }

  lemma MediaIdListAppend(a: seq<Media>, b: seq<Media>)
    ensures MediaIdList(a + b) == MediaIdList(a) + MediaIdList(b)
  {
  }

  lemma {:induction false} ValidMediaDistinct(ms: seq<Media>, ids: set<Id>)
    requires DistinctMediaIds(ms)
    ensures DistinctMediaIds(ValidMedia(ms, ids))
  {
    if |ms| > 0 {
      ValidMediaDistinct(ms[1..], ids);
      var t := ValidMedia(ms[1..], ids);
      forall x | x in t ensures x.id != ms[0].id {
        var k :| 1 <= k < |ms| && ms[k] == x;
      }
    }
  }

  /** `delete from resources where id in ids` */
  function DeleteResources(rs: seq<Resource>, ids: seq<Id>): (r: seq<Resource>)
    ensures forall x :: x in r <==> x in rs && x.id !in ids
  {
    if |rs| == 0 then []
    else (if rs[0].id !in ids then [rs[0]] else []) + DeleteResources(rs[1..], ids)
  }

  /** `delete from media where id in ids` */
  function DeleteMedia(ms: seq<Media>, ids: seq<Id>): (r: seq<Media>)
    ensures forall x :: x in r <==> x in ms && x.id !in ids
  {
    if |ms| == 0 then []
    else (if ms[0].id !in ids then [ms[0]] else []) + DeleteMedia(ms[1..], ids)
  }

  /** `delete from media where resourceId in ids` */
  function DeleteMediaOf(ms: seq<Media>, ids: seq<Id>): (r: seq<Media>)
    ensures forall x :: x in r <==> x in ms && !(x.resourceId.Some? && x.resourceId.value in ids)
  {
    if |ms| == 0 then []
    else (if !(ms[0].resourceId.Some? && ms[0].resourceId.value in ids) then [ms[0]] else [])
         + DeleteMediaOf(ms[1..], ids)
  }

  lemma {:induction false} DeleteResourcesTwice(rs: seq<Resource>, a: seq<Id>, b: seq<Id>)
    ensures DeleteResources(DeleteResources(rs, a), b) == DeleteResources(rs, a + b)
  {
    if |rs| > 0 {
      DeleteResourcesTwice(rs[1..], a, b);
      var t := DeleteResources(rs[1..], a);
      assert rs[0].id in a + b <==> rs[0].id in a || rs[0].id in b;
      if rs[0].id !in a {
        assert DeleteResources(rs, a) == [rs[0]] + t;
        assert ([rs[0]] + t)[1..] == t;
      } else {
        assert DeleteResources(rs, a) == t;
      }
    }
  }

  lemma {:induction false} DeleteMediaTwice(ms: seq<Media>, a: seq<Id>, b: seq<Id>)
    ensures DeleteMedia(DeleteMedia(ms, a), b) == DeleteMedia(ms, a + b)
  {
    if |ms| > 0 {
      DeleteMediaTwice(ms[1..], a, b);
      var t := DeleteMedia(ms[1..], a);
      assert ms[0].id in a + b <==> ms[0].id in a || ms[0].id in b;
      if ms[0].id !in a {
        assert DeleteMedia(ms, a) == [ms[0]] + t;
        assert ([ms[0]] + t)[1..] == t;
      } else {
        assert DeleteMedia(ms, a) == t;
      }
    }
  }

  lemma {:induction false} DeleteMediaOfTwice(ms: seq<Media>, a: seq<Id>, b: seq<Id>)
    ensures DeleteMediaOf(DeleteMediaOf(ms, a), b) == DeleteMediaOf(ms, a + b)
  {
    if |ms| > 0 {
      DeleteMediaOfTwice(ms[1..], a, b);
      var t := DeleteMediaOf(ms[1..], a);
      var m := ms[0];
      assert m.resourceId.Some? ==> (m.resourceId.value in a + b <==> m.resourceId.value in a || m.resourceId.value in b);
      if !(m.resourceId.Some? && m.resourceId.value in a) {
        assert DeleteMediaOf(ms, a) == [m] + t;
        assert ([m] + t)[1..] == t;
      } else {
        assert DeleteMediaOf(ms, a) == t;
      }
    }
  }

  /** Deleting by an empty id list, or where nothing matches, changes nothing. */
  lemma {:induction false} DeleteMediaOfNothing(ms: seq<Media>, id: Id)
    requires MediaOf(ms, id) == []
    ensures DeleteMediaOf(ms, [id]) == ms
  {
    if |ms| > 0 {
      DeleteMediaOfNothing(ms[1..], id);
    }
  }

  lemma {:induction false} DeleteMediaNone(ms: seq<Media>)
    ensures DeleteMedia(ms, []) == ms
  {
    if |ms| > 0 {
      DeleteMediaNone(ms[1..]);
    }
  }

  lemma {:induction false} DeleteResourcesNone(rs: seq<Resource>)
    ensures DeleteResources(rs, []) == rs
  {
    if |rs| > 0 {
      DeleteResourcesNone(rs[1..]);
    }
  }

  lemma {:induction false} DeleteMediaOfNone(ms: seq<Media>)
    ensures DeleteMediaOf(ms, []) == ms
  {
    if |ms| > 0 {
      DeleteMediaOfNone(ms[1..]);
    }
  }

  /** Deleting rows keeps the primary keys distinct. */
  lemma {:induction false} DeleteResourcesDistinct(rs: seq<Resource>, ids: seq<Id>)
    requires DistinctResourceIds(rs)
    ensures DistinctResourceIds(DeleteResources(rs, ids))
  {
    if |rs| > 0 {
      DeleteResourcesDistinct(rs[1..], ids);
      var t := DeleteResources(rs[1..], ids);
      forall x | x in t ensures x.id != rs[0].id {
        var k :| 1 <= k < |rs| && rs[k] == x;
      }
    }
  }

  lemma {:induction false} WithUrlDistinct(rs: seq<Resource>)
    requires DistinctResourceIds(rs)
    ensures DistinctResourceIds(WithUrl(rs))
  {
    if |rs| > 0 {
      WithUrlDistinct(rs[1..]);
      var t := WithUrl(rs[1..]);
      forall x | x in t ensures x.id != rs[0].id {
        var k :| 1 <= k < |rs| && rs[k] == x;
      }
    }
  }

  lemma {:induction false} DeleteMediaDistinct(ms: seq<Media>, ids: seq<Id>)
    requires DistinctMediaIds(ms)
    ensures DistinctMediaIds(DeleteMedia(ms, ids))
  {
    if |ms| > 0 {
      DeleteMediaDistinct(ms[1..], ids);
      var t := DeleteMedia(ms[1..], ids);
      forall x | x in t ensures x.id != ms[0].id {
        var k :| 1 <= k < |ms| && ms[k] == x;
      }
    }
  }

  lemma {:induction false} DeleteMediaOfDistinct(ms: seq<Media>, ids: seq<Id>)
    requires DistinctMediaIds(ms)
    ensures DistinctMediaIds(DeleteMediaOf(ms, ids))
  {
    if |ms| > 0 {
      DeleteMediaOfDistinct(ms[1..], ids);
      var t := DeleteMediaOf(ms[1..], ids);
      forall x | x in t ensures x.id != ms[0].id {
        var k :| 1 <= k < |ms| && ms[k] == x;
      }
    }
  }

  function LongestResourceId(rs: seq<Resource>): (n: nat)
    ensures forall r :: r in rs ==> |r.id| <= n
  {
    if |rs| == 0 then 0
    else var t := LongestResourceId(rs[1..]); if |rs[0].id| > t then |rs[0].id| else t
  }

  function LongestMediaId(ms: seq<Media>): (n: nat)
    ensures forall m :: m in ms ==> |m.id| <= n
    ensures forall m :: m in ms && m.resourceId.Some? ==> |m.resourceId.value| <= n
  {
    if |ms| == 0 then 0
    else
      var t := LongestMediaId(ms[1..]);
      var own := if ms[0].resourceId.Some? && |ms[0].resourceId.value| > |ms[0].id|
                 then |ms[0].resourceId.value| else |ms[0].id|;
      if own > t then own else t
  }

  /** The identifier the database assigns to a new row: one that no row
      uses, neither as its own id nor as a media row's resourceId. */
  function FreshId(db: Db): (id: Id)
    ensures id != ""
    ensures forall r :: r in db.resources ==> r.id != id
    ensures forall m :: m in db.media ==> m.id != id && m.resourceId != Some(id)
  {
    var a := LongestResourceId(db.resources);
    var b := LongestMediaId(db.media);
    seq(if a > b then a + 1 else b + 1, _ => 'r')
  }
}
