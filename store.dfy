/** The database handle shared by the scripts: two tables updated in place. */
module Database {
  import opened Wrappers
  import opened Seqs
  import opened Schema

  /** `inArray` batches of at most this many ids per delete statement. */
  const BatchSize: nat := 100

  class Store {
    var resources: seq<Resource>
    var media: seq<Media>

    constructor (db: Db)
      ensures resources == db.resources && media == db.media
    {
      resources := db.resources;
      media := db.media;
    }

    function State(): Db
      reads this
    {
      Db(resources, media)
    }

    predicate Valid()
      reads this
    {
      Schema.Valid(State())
    }

    /** `insert into resources values (row)` */
    method InsertResource(row: Resource)
      modifies this
      ensures resources == old(resources) + [row] && media == old(media)
    {
      resources := resources + [row];
    }

    /** `insert into media values (row)` */
    method InsertMedia(row: Media)
      modifies this
      ensures media == old(media) + [row] && resources == old(resources)
    {
      media := media + [row];
    }

    /** `delete from media where resourceId = id`: afterwards no media row
        refers to `id`. */
    method DeleteMediaWhereResourceId(id: Id)
      modifies this
      ensures media == DeleteMediaOf(old(media), [id]) && resources == old(resources)
      ensures forall m :: m in media ==> m.resourceId != Some(id)
    {
      media := DeleteMediaOf(media, [id]);
    }

    /** `delete from resources where id = id` */
    method DeleteResourceWhereId(id: Id)
      modifies this
      ensures resources == DeleteResources(old(resources), [id]) && media == old(media)
    {
      resources := DeleteResources(resources, [id]);
    }

    /** `delete from media where id in batch` */
    method DeleteMediaWhereIdIn(batch: seq<Id>)
      modifies this
      ensures media == DeleteMedia(old(media), batch) && resources == old(resources)
    {
      media := DeleteMedia(media, batch);
    }

    /** The batch loop of both media repair jobs: deletes `ids` with one
        statement per slice of `BatchSize` ids and counts what it sent. */
    method DeleteMediaInBatches(ids: seq<Id>) returns (batches: seq<seq<Id>>, deletedCount: nat)
      requires Valid()
      modifies this
      ensures Valid()
      ensures batches == Batches(ids, BatchSize)
      ensures deletedCount == |ids|
      ensures media == DeleteMedia(old(media), ids) && resources == old(resources)
    {
      batches := [];
      deletedCount := 0;
      DeleteMediaNone(media);
      var i := 0;
      while i < |ids|
        invariant 0 <= i
        invariant Batches(ids, BatchSize) == batches + Batches(ids[Min(i, |ids|)..], BatchSize)
        invariant Flatten(batches) == ids[..Min(i, |ids|)]
        invariant deletedCount == Min(i, |ids|)
        invariant media == DeleteMedia(old(media), Flatten(batches)) && resources == old(resources)
        invariant Valid()
        decreases |ids| - i
      {
        var batch := ids[i..Min(i + BatchSize, |ids|)];
        BatchesAdvance(ids, BatchSize, batches, i);
        DeleteMediaDistinct(media, batch);
        DeleteMediaTwice(old(media), Flatten(batches), batch);
        DeleteMediaWhereIdIn(batch);
        deletedCount := deletedCount + |batch|;
        batches := batches + [batch];
        i := i + BatchSize;
      }
      assert ids[..|ids|] == ids;
    }
  }
}
