/** The ingestion run of `scripts/scrap.ts`: every url of a newline-separated
    list is either reconciled (its resource exists, so the resource's `.png`
    images are described and stored as media) or scraped and stored as a new
    resource. The scraper, `createResource`, the image-url extraction and the
    describe collaborators are oracles in `Env`. */
module Scrap {
  import opened Wrappers
  import opened Text
  import opened Schema
  import opened DescribeImages
  import opened Database

  /** The `source` column of every resource the run creates. */
  const Source: string := "ableton_docs_v12"

  const NoResourcesMessage: string := "No resources found in the database"

  // ---------------------------------------------------------------------
  // The url list

  /** A line that names a url: non-empty and not a `#` comment. The line is
      not trimmed first. */
  predicate IsUrlLine(line: string) {
    |line| > 0 && line[0] != '#'
  }

  /** The order-preserving filter of the url lines. */
  function KeepUrlLines(lines: seq<string>): (r: seq<string>)
    ensures forall l :: l in r <==> l in lines && IsUrlLine(l)
    ensures |r| <= |lines|
  {
    if |lines| == 0 then []
    else (if IsUrlLine(lines[0]) then [lines[0]] else []) + KeepUrlLines(lines[1..])
  }

  /** `data.split('\n').filter(url => !url.startsWith('#') && url.length > 0)` */
  function ParseUrlList(data: string): seq<string>
  {
    KeepUrlLines(Split(data, '\n'))
  }

  /** The filter keeps file order: the lines of a concatenation are the lines
      of each part, one after the other. */
  lemma {:induction false} KeepUrlLinesAppend(a: seq<string>, b: seq<string>)
    ensures KeepUrlLines(a + b) == KeepUrlLines(a) + KeepUrlLines(b)
  {
    if |a| == 0 {
      assert a + b == b;
    } else {
      assert (a + b)[1..] == a[1..] + b;
      KeepUrlLinesAppend(a[1..], b);
    }
  }

  /** The parsed lines are exactly the `\n`-separated pieces that are url
      lines; none of them contains a newline, and none is trimmed (a piece
      ending in `\r` is kept with it). */
  lemma ParseUrlListLines(data: string)
    ensures forall l :: l in ParseUrlList(data) <==> l in Split(data, '\n') && IsUrlLine(l)
    ensures forall l :: l in ParseUrlList(data) ==> '\n' !in l
  {
    var pieces := Split(data, '\n');
    forall l | l in ParseUrlList(data) ensures '\n' !in l {
      var k :| 0 <= k < |pieces| && pieces[k] == l;
    }
  }

  // ---------------------------------------------------------------------
  // The collaborators

  datatype PageMetadata = PageMetadata(title: Option<string>, description: Option<string>)

  /** The fields of Firecrawl's `ScrapeResponse` the run reads. */
  datatype ScrapeResponse = ScrapeResponse(
    success: bool,
    error: Option<string>,
    markdown: Option<string>,
    title: Option<string>,
    description: Option<string>,
    metadata: Option<PageMetadata>)

  /** The argument of `createResource`. */
  datatype NewResourceParams = NewResourceParams(
    url: string,
    content: string,
    title: string,
    description: string,
    source: string)

  /** `scrape(url)`; `createResource(params)`, true unless it throws; the
      image urls the regex finds in a resource's content, in order; the
      describe collaborators; and the clock that stamps `createdAt`. */
  datatype Env = Env(
    scrape: string -> ScrapeResponse,
    createResource: NewResourceParams -> bool,
    extractImageUrls: string -> seq<string>,
    describe: Collaborators,
    now: int)

  /** `a || b || ''` on optional strings. */
  function FirstTruthy(a: Option<string>, b: Option<string>): (r: string)
    ensures Truthy(a) ==> r == a.value
    ensures !Truthy(a) && Truthy(b) ==> r == b.value
    ensures !Truthy(a) && !Truthy(b) ==> r == ""
  {
    if Truthy(a) then a.value else if Truthy(b) then b.value else ""
  }

  function PageTitle(s: ScrapeResponse): string {
    FirstTruthy(s.title, if s.metadata.Some? then s.metadata.value.title else None)
  }

  function PageDescription(s: ScrapeResponse): string {
    FirstTruthy(s.description, if s.metadata.Some? then s.metadata.value.description else None)
  }

  /** The message of the error thrown for an unsuccessful scrape; an absent
      `error` field prints as `undefined`. */
  function CrawlFailedMessage(error: Option<string>): string {
    "Failed to crawl: " + (if error.Some? then error.value else "undefined")
  }

  /** The describe errors the reconciliation swallows. */
  predicate IsRecoverable(message: string) {
    || message == SvgMessage
    || message == TooLargeMessage
    || message == GifMessage
    || message == FetchFailedMessage
  }

  // ---------------------------------------------------------------------
  // The run, as functions of the tables

  /** How one iteration of the url loop ends: go on with the next line, leave
      the loop (`break`), or throw out of the run. */
  datatype Step = Next(db: Db) | Break(db: Db) | Throw(db: Db, message: string)

  datatype Outcome = Completed | Failed(message: string)

  /** `allResourceMedia.find(media => media.url === imageUrl)` succeeds. */
  predicate HasMediaUrl(known: seq<Media>, url: string) {
    exists m :: m in known && m.url == url
  }

  /** The row `createResource` stores. */
  function NewResource(db: Db, p: NewResourceParams): Resource {
    Resource(FreshId(db), Some(p.url), p.title, p.description, p.content, p.source)
  }

  /** The row `insert into media` stores for a described image of `owner`. */
  function NewMedia(db: Db, url: string, d: Description, owner: Resource, now: int): Media {
    Media(FreshId(db), url, d.mimeType, d.description, Some(owner.id), now)
  }

  function AddResource(db: Db, r: Resource): Db { Db(db.resources + [r], db.media) }

  function AddMedia(db: Db, m: Media): Db { Db(db.resources, db.media + [m]) }

  /** The inner loop over the extracted image urls of `owner`. `known` is the
      media of `owner` as selected before the loop; it is not refreshed. */
  function ReconcileImages(db: Db, owner: Resource, known: seq<Media>, urls: seq<string>, env: Env): (r: Step)
    ensures r.Next? || r.Throw?
    ensures r.Throw? ==> !IsRecoverable(r.message)
    decreases |urls|
  {
    if |urls| == 0 then Next(db)
    else if HasMediaUrl(known, urls[0]) then ReconcileImages(db, owner, known, urls[1..], env)
    else
      match DescribeImageFromUrl(env.describe, urls[0], owner.title, owner.description)
      case Success(d) =>
        ReconcileImages(AddMedia(db, NewMedia(db, urls[0], d, owner, env.now)), owner, known, urls[1..], env)
      case Failure(m) =>
        if IsRecoverable(m) then ReconcileImages(db, owner, known, urls[1..], env)
        else Throw(db, m)
  }

  /** One iteration of the url loop. */
  function ScrapLine(db: Db, line: string, env: Env): Step
  {
    var found := ResourcesWithUrl(db.resources, Trim(line));
    if |found| > 0 then
      var owner := found[0];
      var urls := env.extractImageUrls(owner.content);
      if |urls| == 0 then Next(db)
      else
        var known := MediaOf(db.media, owner.id);
        if |urls| == |known| then Next(db)
        else ReconcileImages(db, owner, known, urls, env)
    else
      var s := env.scrape(line);
      if !s.success then Throw(db, CrawlFailedMessage(s.error))
      else if !Truthy(s.markdown) then Next(db)
      else
        var p := NewResourceParams(line, s.markdown.value, PageTitle(s), PageDescription(s), Source);
        if !env.createResource(p) then Break(db)
        else Next(AddResource(db, NewResource(db, p)))
  }

  /** The url loop over the remaining lines. */
  function ScrapLines(db: Db, lines: seq<string>, env: Env): (Outcome, Db)
    decreases |lines|
  {
    if |lines| == 0 then (Completed, db)
    else
      match ScrapLine(db, lines[0], env)
      case Next(d) => ScrapLines(d, lines[1..], env)
      case Break(d) => (Completed, d)
      case Throw(d, m) => (Failed(m), d)
  }

  /** `scrap()` given the contents of the url file. */
  function Run(db: Db, data: string, env: Env): (Outcome, Db)
  {
    if |db.resources| == 0 then (Failed(NoResourcesMessage), db)
    else ScrapLines(db, ParseUrlList(data), env)
  }

  // ---------------------------------------------------------------------
  // The run on the database

  /** The inner loop over `urls`, the image urls extracted from `owner`'s
      content; `known` is `owner`'s media as selected before it. Returns how
      the loop ends, holding the store's new state. */
  method ReconcileMedia(store: Store, owner: Resource, known: seq<Media>, urls: seq<string>, env: Env)
    returns (step: Step)
    modifies store
    ensures step == ReconcileImages(old(store.State()), owner, known, urls, env)
    ensures store.State() == step.db
  {
    var j := 0;
    while j < |urls|
      invariant 0 <= j <= |urls|
      invariant ReconcileImages(store.State(), owner, known, urls[j..], env)
                == ReconcileImages(old(store.State()), owner, known, urls, env)
    {
      assert urls[j..][1..] == urls[j + 1..];
      var imageUrl := urls[j];
      if HasMediaUrl(known, imageUrl) {
        j := j + 1;
        continue;
      }
      var described := DescribeImageFromUrl(env.describe, imageUrl, owner.title, owner.description);
      if described.Success? {
        store.InsertMedia(NewMedia(store.State(), imageUrl, described.value, owner, env.now));
      } else if !IsRecoverable(described.error) {
        return Throw(store.State(), described.error);
      }
      j := j + 1;
    }
    return Next(store.State());
  }

  /** One iteration of the url loop on the store: reconcile the images of
      the resource the trimmed line names, or scrape the raw line and create
      its resource. */
  method ScrapUrl(store: Store, url: string, env: Env) returns (step: Step)
    modifies store
    ensures step == ScrapLine(old(store.State()), url, env)
    ensures store.State() == step.db
  {
    var normalizedUrl := Trim(url);
    var found := ResourcesWithUrl(store.resources, normalizedUrl);
    if |found| > 0 {
      var owner := found[0];
      var extractedUrls := env.extractImageUrls(owner.content);
      if |extractedUrls| > 0 {
        var allResourceMedia := MediaOf(store.media, owner.id);
        if |extractedUrls| == |allResourceMedia| {
          return Next(store.State());
        }
        step := ReconcileMedia(store, owner, allResourceMedia, extractedUrls, env);
        return;
      }
      return Next(store.State());
    }
    var scrapeResult := env.scrape(url);
    if !scrapeResult.success {
      return Throw(store.State(), CrawlFailedMessage(scrapeResult.error));
    }
    if Truthy(scrapeResult.markdown) {
      var params := NewResourceParams(url, scrapeResult.markdown.value, PageTitle(scrapeResult),
                                      PageDescription(scrapeResult), Source);
      if !env.createResource(params) {
        return Break(store.State());
      }
      store.InsertResource(NewResource(store.State(), params));
    }
    return Next(store.State());
  }

  /** One turn of the url loop from line `i`. */
  lemma ScrapLinesUnfold(db: Db, lines: seq<string>, i: nat, env: Env)
    requires i < |lines|
    ensures ScrapLines(db, lines[i..], env) ==
      match ScrapLine(db, lines[i], env)
      case Next(d) => ScrapLines(d, lines[i + 1..], env)
      case Break(d) => (Completed, d)
      case Throw(d, m) => (Failed(m), d)
  {
    assert lines[i..][0] == lines[i];
    assert lines[i..][1..] == lines[i + 1..];
  }

  /** `scrap()`: the url loop with its `continue`s, `break` and throws,
      writing to the store as it goes. Nothing follows the loop but a log
      line, so the `break` returns at once. */
  method Scrap(store: Store, data: string, env: Env) returns (outcome: Outcome)
    modifies store
    ensures (outcome, store.State()) == Run(old(store.State()), data, env)
  {
    var lines := ParseUrlList(data);
    if |store.resources| == 0 {
      return Failed(NoResourcesMessage);
    }
    var i := 0;
    while i < |lines|
      invariant 0 <= i <= |lines|
      invariant ScrapLines(store.State(), lines[i..], env) == Run(old(store.State()), data, env)
    {
      ScrapLinesUnfold(store.State(), lines, i, env);
      var step := ScrapUrl(store, lines[i], env);
      if step.Throw? {
        return Failed(step.message);
      }
      if step.Break? {
        return Completed;
      }
      i := i + 1;
    }
    return Completed;
  }

  // ---------------------------------------------------------------------
  // Properties of the run

  /** `b` holds the rows of `a`, in place, and possibly more after them. */
  predicate Extends(a: Db, b: Db) {
    a.resources <= b.resources && a.media <= b.media
  }

  /** A media row the run may add: it belongs to a resource of `rs` whose
      content mentions its url. */
  predicate Attached(m: Media, rs: seq<Resource>, env: Env) {
    exists o :: o in rs && m.resourceId == Some(o.id) && m.url in env.extractImageUrls(o.content)
  }

  /** Every media row `after` holds beyond the rows of `before` is attached
      to a resource of `rs`. */
  predicate AddedAttached(before: Db, after: Db, rs: seq<Resource>, env: Env) {
    forall k :: |before.media| <= k < |after.media| ==> Attached(after.media[k], rs, env)
  }

  lemma AddMediaValid(db: Db, url: string, d: Description, owner: Resource, now: int)
    requires Valid(db)
    ensures Valid(AddMedia(db, NewMedia(db, url, d, owner, now)))
  {
    var ms := db.media + [NewMedia(db, url, d, owner, now)];
    forall i, j | 0 <= i < j < |ms| ensures ms[i].id != ms[j].id {
      if j == |db.media| {
        assert ms[i] in db.media;
      }
    }
  }

  lemma AddResourceValid(db: Db, p: NewResourceParams)
    requires Valid(db)
    ensures Valid(AddResource(db, NewResource(db, p)))
  {
    var rs := db.resources + [NewResource(db, p)];
    forall i, j | 0 <= i < j < |rs| ensures rs[i].id != rs[j].id {
      if j == |db.resources| {
        assert rs[i] in db.resources;
      }
    }
  }

  /** Reconciling only appends media rows of `owner`, each for an extracted
      url that `owner` had no media for, and keeps ids distinct. */
  lemma {:induction false} ReconcileImagesEffect(db: Db, owner: Resource, known: seq<Media>, urls: seq<string>, env: Env)
    ensures var d := ReconcileImages(db, owner, known, urls, env).db;
      && d.resources == db.resources
      && db.media <= d.media
      && forall k :: |db.media| <= k < |d.media| ==>
           && d.media[k].resourceId == Some(owner.id)
           && d.media[k].url in urls
           && !HasMediaUrl(known, d.media[k].url)
    ensures Valid(db) ==> Valid(ReconcileImages(db, owner, known, urls, env).db)
    decreases |urls|
  {
    if |urls| > 0 && !HasMediaUrl(known, urls[0]) {
      var described := DescribeImageFromUrl(env.describe, urls[0], owner.title, owner.description);
      if described.Success? {
        var next := AddMedia(db, NewMedia(db, urls[0], described.value, owner, env.now));
        ReconcileImagesEffect(next, owner, known, urls[1..], env);
        if Valid(db) {
          AddMediaValid(db, urls[0], described.value, owner, env.now);
        }
        var d := ReconcileImages(next, owner, known, urls[1..], env).db;
        forall k | |next.media| <= k < |d.media| ensures d.media[k].url in urls {
          assert d.media[k].url in urls[1..];
        }
      } else if IsRecoverable(described.error) {
        ReconcileImagesEffect(db, owner, known, urls[1..], env);
      }
    } else if |urls| > 0 {
      ReconcileImagesEffect(db, owner, known, urls[1..], env);
    }
  }

  /** An extracted url that aborts the image loop: `owner` has no media for
      it, and describing it fails with a message outside the four the loop
      swallows. */
  predicate FatalAt(owner: Resource, known: seq<Media>, url: string, env: Env) {
    && !HasMediaUrl(known, url)
    && var r := DescribeImageFromUrl(env.describe, url, owner.title, owner.description);
       r.Failure? && !IsRecoverable(r.error)
  }

  /** An extracted url the image loop stores: `owner` has no media for it,
      and describing it succeeds. */
  predicate StoredAt(owner: Resource, known: seq<Media>, url: string, env: Env) {
    && !HasMediaUrl(known, url)
    && DescribeImageFromUrl(env.describe, url, owner.title, owner.description).Success?
  }

  /** The position of the first url that aborts the loop, or `|urls|` when
      none does. */
  function FirstFatal(owner: Resource, known: seq<Media>, urls: seq<string>, env: Env): (i: nat)
    ensures i <= |urls|
    ensures i < |urls| ==> FatalAt(owner, known, urls[i], env)
    ensures forall j :: 0 <= j < i ==> !FatalAt(owner, known, urls[j], env)
    decreases |urls|
  {
    if |urls| == 0 then 0
    else if FatalAt(owner, known, urls[0], env) then 0
    else 1 + FirstFatal(owner, known, urls[1..], env)
  }

  /** The urls that are stored, in order and with repetitions: the reference
      filter the image loop is compared with. */
  function StoredUrls(owner: Resource, known: seq<Media>, urls: seq<string>, env: Env): (r: seq<string>)
    ensures forall u :: u in r <==> u in urls && StoredAt(owner, known, u, env)
    ensures |r| <= |urls|
    decreases |urls|
  {
    if |urls| == 0 then []
    else (if StoredAt(owner, known, urls[0], env) then [urls[0]] else []) + StoredUrls(owner, known, urls[1..], env)
  }

  /** A describe failure outside the four recoverable messages is rethrown:
      the loop throws exactly when some url `owner` has no media for fails
      that way, and it throws the first such failure's message. */
  lemma {:induction false} ReconcileImagesAbortsOnFatal(db: Db, owner: Resource, known: seq<Media>, urls: seq<string>, env: Env)
    ensures var r := ReconcileImages(db, owner, known, urls, env);
            var i := FirstFatal(owner, known, urls, env);
      && (r.Throw? <==> exists j :: 0 <= j < |urls| && FatalAt(owner, known, urls[j], env))
      && (r.Throw? <==> i < |urls|)
      && (r.Throw? ==> r.message == DescribeImageFromUrl(env.describe, urls[i], owner.title, owner.description).error)
    decreases |urls|
  {
    if |urls| > 0 && !FatalAt(owner, known, urls[0], env) {
      var described := DescribeImageFromUrl(env.describe, urls[0], owner.title, owner.description);
      var next := if !HasMediaUrl(known, urls[0]) && described.Success?
                  then AddMedia(db, NewMedia(db, urls[0], described.value, owner, env.now))
                  else db;
      assert ReconcileImages(db, owner, known, urls, env) == ReconcileImages(next, owner, known, urls[1..], env);
      ReconcileImagesAbortsOnFatal(next, owner, known, urls[1..], env);
      assert urls[1..][FirstFatal(owner, known, urls[1..], env)..] == urls[FirstFatal(owner, known, urls, env)..];
    }
  }

  /** The urls stored before the first fatal one are those of the first url
      and those stored before the first fatal one of the rest. */
  lemma StoredBeforeFatalStep(owner: Resource, known: seq<Media>, urls: seq<string>, env: Env)
    requires |urls| > 0 && !FatalAt(owner, known, urls[0], env)
    ensures var rest := urls[1..];
      StoredUrls(owner, known, urls[..FirstFatal(owner, known, urls, env)], env)
      == (if StoredAt(owner, known, urls[0], env) then [urls[0]] else [])
         + StoredUrls(owner, known, rest[..FirstFatal(owner, known, rest, env)], env)
  {
    var rest := urls[1..];
    var pre := urls[..FirstFatal(owner, known, urls, env)];
    assert pre[0] == urls[0];
    assert pre[1..] == rest[..FirstFatal(owner, known, rest, env)];
  }

  /** `after` extends the media of `before` by one row per url of `added`,
      in order. */
  predicate AppendsUrls(before: Db, after: Db, added: seq<string>) {
    && before.media <= after.media
    && |after.media| == |before.media| + |added|
    && forall k :: 0 <= k < |added| ==> after.media[|before.media| + k].url == added[k]
  }

  lemma AppendsUrlsCons(db: Db, m: Media, d: Db, added: seq<string>)
    requires AppendsUrls(AddMedia(db, m), d, added)
    ensures AppendsUrls(db, d, [m.url] + added)
  {
    var next := AddMedia(db, m);
    assert d.media[|db.media|] == next.media[|db.media|];
    forall k | 0 < k < |added| + 1 ensures d.media[|db.media| + k].url == ([m.url] + added)[k] {
      assert d.media[|next.media| + (k - 1)].url == added[k - 1];
    }
  }

  /** Every url before the first fatal one that `owner` has no media for and
      that is described successfully gets one row, in order, and no other
      url does: the appended rows' urls are exactly `StoredUrls` of that
      prefix. */
  lemma {:induction false} ReconcileImagesStoresDescribed(db: Db, owner: Resource, known: seq<Media>, urls: seq<string>, env: Env)
    ensures AppendsUrls(db, ReconcileImages(db, owner, known, urls, env).db,
                        StoredUrls(owner, known, urls[..FirstFatal(owner, known, urls, env)], env))
    decreases |urls|
  {
    if |urls| > 0 && !FatalAt(owner, known, urls[0], env) {
      StoredBeforeFatalStep(owner, known, urls, env);
      var rest := urls[1..];
      var restStored := StoredUrls(owner, known, rest[..FirstFatal(owner, known, rest, env)], env);
      if StoredAt(owner, known, urls[0], env) {
        var described := DescribeImageFromUrl(env.describe, urls[0], owner.title, owner.description);
        var m := NewMedia(db, urls[0], described.value, owner, env.now);
        assert ReconcileImages(db, owner, known, urls, env) == ReconcileImages(AddMedia(db, m), owner, known, rest, env);
        ReconcileImagesStoresDescribed(AddMedia(db, m), owner, known, rest, env);
        AppendsUrlsCons(db, m, ReconcileImages(AddMedia(db, m), owner, known, rest, env).db, restStored);
      } else {
        assert ReconcileImages(db, owner, known, urls, env) == ReconcileImages(db, owner, known, rest, env);
        ReconcileImagesStoresDescribed(db, owner, known, rest, env);
      }
    } else if |urls| > 0 {
      assert urls[..FirstFatal(owner, known, urls, env)] == [];
    }
  }

  /** On a normal end every stored url has its row: the appended rows' urls
      are `urls` filtered by `StoredAt`, in order. */
  lemma ReconcileImagesCompletes(db: Db, owner: Resource, known: seq<Media>, urls: seq<string>, env: Env)
    requires ReconcileImages(db, owner, known, urls, env).Next?
    ensures var d := ReconcileImages(db, owner, known, urls, env).db;
            var stored := StoredUrls(owner, known, urls, env);
      && |d.media| == |db.media| + |stored|
      && forall k :: 0 <= k < |stored| ==> d.media[|db.media| + k].url == stored[k]
  {
    ReconcileImagesAbortsOnFatal(db, owner, known, urls, env);
    ReconcileImagesStoresDescribed(db, owner, known, urls, env);
    assert urls[..|urls|] == urls;
  }

  /** Each appended row holds what describing its url returned, names
      `owner`, and is stamped with the clock's time. */
  lemma {:induction false} ReconcileImagesRowContents(db: Db, owner: Resource, known: seq<Media>, urls: seq<string>, env: Env)
    ensures var d := ReconcileImages(db, owner, known, urls, env).db;
      && db.media <= d.media
      && forall k :: |db.media| <= k < |d.media| ==>
           var m := d.media[k];
           var described := DescribeImageFromUrl(env.describe, m.url, owner.title, owner.description);
           && described.Success?
           && m.mimeType == described.value.mimeType
           && m.description == described.value.description
           && m.resourceId == Some(owner.id)
           && m.createdAt == env.now
    decreases |urls|
  {
    if |urls| > 0 && !HasMediaUrl(known, urls[0]) {
      var described := DescribeImageFromUrl(env.describe, urls[0], owner.title, owner.description);
      if described.Success? {
        var next := AddMedia(db, NewMedia(db, urls[0], described.value, owner, env.now));
        ReconcileImagesRowContents(next, owner, known, urls[1..], env);
        var d := ReconcileImages(next, owner, known, urls[1..], env).db;
        assert d.media[|db.media|] == next.media[|db.media|];
      } else if IsRecoverable(described.error) {
        ReconcileImagesRowContents(db, owner, known, urls[1..], env);
      }
    } else if |urls| > 0 {
      ReconcileImagesRowContents(db, owner, known, urls[1..], env);
    }
  }

  /** When the trimmed line already names a resource, nothing is scraped or
      created: the step does not depend on those two collaborators, keeps the
      resources, and only appends media rows of the first such resource, for
      urls extracted from its content that it has no media for. */
  lemma ExistingResourceOnlyAddsItsMedia(db: Db, line: string, env: Env,
                                         scrape: string -> ScrapeResponse,
                                         create: NewResourceParams -> bool)
    requires ResourcesWithUrl(db.resources, Trim(line)) != []
    ensures var r := ScrapLine(db, line, env);
      && (r.Next? || r.Throw?)
      && r == ScrapLine(db, line, env.(scrape := scrape, createResource := create))
    ensures var owner := ResourcesWithUrl(db.resources, Trim(line))[0];
            var d := ScrapLine(db, line, env).db;
      && d.resources == db.resources
      && db.media <= d.media
      && forall k :: |db.media| <= k < |d.media| ==>
           && d.media[k].resourceId == Some(owner.id)
           && d.media[k].url in env.extractImageUrls(owner.content)
           && !HasMediaUrl(MediaOf(db.media, owner.id), d.media[k].url)
  {
    var owner := ResourcesWithUrl(db.resources, Trim(line))[0];
    var env' := env.(scrape := scrape, createResource := create);
    var urls := env.extractImageUrls(owner.content);
    var known := MediaOf(db.media, owner.id);
    if |urls| == 0 || |urls| == |known| {
      assert ScrapLine(db, line, env) == Next(db) == ScrapLine(db, line, env');
    } else {
      assert ScrapLine(db, line, env) == ReconcileImages(db, owner, known, urls, env);
      assert ScrapLine(db, line, env') == ReconcileImages(db, owner, known, urls, env');
      ReconcileImagesEffect(db, owner, known, urls, env);
      ReconcileIgnoresScrapeAndCreate(db, owner, known, urls, env, env');
    }
  }

  lemma {:induction false} ReconcileIgnoresScrapeAndCreate(db: Db, owner: Resource, known: seq<Media>, urls: seq<string>,
                                                           env: Env, env': Env)
    requires env'.describe == env.describe && env'.now == env.now
    ensures ReconcileImages(db, owner, known, urls, env) == ReconcileImages(db, owner, known, urls, env')
    decreases |urls|
  {
    if |urls| > 0 {
      var described := DescribeImageFromUrl(env.describe, urls[0], owner.title, owner.description);
      if !HasMediaUrl(known, urls[0]) && described.Success? {
        ReconcileIgnoresScrapeAndCreate(AddMedia(db, NewMedia(db, urls[0], described.value, owner, env.now)),
                                        owner, known, urls[1..], env, env');
      } else {
        ReconcileIgnoresScrapeAndCreate(db, owner, known, urls[1..], env, env');
      }
    }
  }

  /** Reconciliation is skipped on a count: when no image url is extracted,
      or when as many are extracted as the resource has media, nothing
      changes, even if some extracted url has no media row. */
  lemma SkipWhenCountsMatch(db: Db, line: string, env: Env)
    requires ResourcesWithUrl(db.resources, Trim(line)) != []
    requires var owner := ResourcesWithUrl(db.resources, Trim(line))[0];
             var urls := env.extractImageUrls(owner.content);
             |urls| == 0 || |urls| == |MediaOf(db.media, owner.id)|
    ensures ScrapLine(db, line, env) == Next(db)
  {
  }

  /** `allResourceMedia` is not refreshed: an image url that occurs twice in
      a page and is not yet stored is described and inserted twice. */
  lemma RepeatedImageInsertedTwice(db: Db, owner: Resource, known: seq<Media>, url: string, env: Env)
    requires !HasMediaUrl(known, url)
    requires DescribeImageFromUrl(env.describe, url, owner.title, owner.description).Success?
    ensures var r := ReconcileImages(db, owner, known, [url, url], env);
      && r.Next?
      && |r.db.media| == |db.media| + 2
      && r.db.media[|db.media|].url == url
      && r.db.media[|db.media| + 1].url == url
  {
    var d := DescribeImageFromUrl(env.describe, url, owner.title, owner.description).value;
    var once := AddMedia(db, NewMedia(db, url, d, owner, env.now));
    assert [url, url][1..] == [url];
    assert ReconcileImages(db, owner, known, [url, url], env) == ReconcileImages(once, owner, known, [url], env);
    var twice := AddMedia(once, NewMedia(once, url, d, owner, env.now));
    assert ReconcileImages(once, owner, known, [url], env) == ReconcileImages(twice, owner, known, [], env);
  }

  /** The four guard messages are distinct from the two fatal ones. */
  lemma FatalMessages()
    ensures !IsRecoverable(MissingKeyMessage)
    ensures !IsRecoverable(GenerationFailedMessage)
    ensures IsRecoverable(SvgMessage) && IsRecoverable(GifMessage)
    ensures IsRecoverable(TooLargeMessage) && IsRecoverable(FetchFailedMessage)
  {
    assert |MissingKeyMessage| == 39 && |GenerationFailedMessage| == 30;
    assert |FetchFailedMessage| == 28 && |TooLargeMessage| == 14 && |SvgMessage| == 17 && |GifMessage| == 17;
  }

  /** Which describe failures the reconciliation swallows: exactly those
      raised by the checks on a fetched response, and thrown fetch or model
      errors that happen to carry one of the four messages. A missing key
      and empty generated text abort the run. */
  lemma RecoverableDescribeErrors(env: Collaborators, url: string, title: string, description: string)
    requires DescribeImageFromUrl(env, url, title, description).Failure?
    ensures var m := DescribeImageFromUrl(env, url, title, description).error;
            var fetched := env.fetch(url);
      IsRecoverable(m) <==>
        && Truthy(env.apiKey)
        && (|| (fetched.Response? && CheckResponse(fetched).Failure?)
            || (fetched.FetchThrew? && IsRecoverable(fetched.message))
            || (&& CheckResponse(fetched).Success?
                && var g := env.generate(GenRequest(CheckResponse(fetched).value, url, title, description));
                   g.GenThrew? && IsRecoverable(g.message)))
  {
    FatalMessages();
  }

  /** An unsuccessful scrape of a new url aborts the run, with nothing
      written by that line. */
  lemma ScrapeFailureAborts(db: Db, line: string, rest: seq<string>, env: Env)
    requires ResourcesWithUrl(db.resources, Trim(line)) == []
    requires !env.scrape(line).success
    ensures ScrapLines(db, [line] + rest, env) == (Failed(CrawlFailedMessage(env.scrape(line).error)), db)
  {
    assert ScrapLine(db, line, env) == Throw(db, CrawlFailedMessage(env.scrape(line).error));
    assert ([line] + rest)[0] == line;
  }

  /** A failing `createResource` ends the url loop and the run completes:
      the remaining lines are not visited. */
  lemma CreateFailureEndsLoop(db: Db, line: string, rest: seq<string>, env: Env)
    requires ResourcesWithUrl(db.resources, Trim(line)) == []
    requires var s := env.scrape(line);
      && s.success && Truthy(s.markdown)
      && !env.createResource(NewResourceParams(line, s.markdown.value, PageTitle(s), PageDescription(s), Source))
    ensures ScrapLines(db, [line] + rest, env) == (Completed, db)
  {
    assert ScrapLine(db, line, env) == Break(db);
    assert ([line] + rest)[0] == line;
  }

  /** A new url with markdown creates exactly one resource: stored under the
      untrimmed line, with the page's markdown and the fixed source, and no
      media; without markdown nothing is written. */
  lemma NewUrlCreatesOneResource(db: Db, line: string, env: Env)
    requires ResourcesWithUrl(db.resources, Trim(line)) == []
    requires env.scrape(line).success
    ensures !Truthy(env.scrape(line).markdown) ==> ScrapLine(db, line, env) == Next(db)
    ensures var s := env.scrape(line);
      Truthy(s.markdown) ==>
        var p := NewResourceParams(line, s.markdown.value, PageTitle(s), PageDescription(s), Source);
        env.createResource(p) ==>
        && ScrapLine(db, line, env).Next?
        && var d := ScrapLine(db, line, env).db;
        && d.media == db.media
        && |d.resources| == |db.resources| + 1
        && d.resources[..|db.resources|] == db.resources
        && var r := d.resources[|db.resources|];
        && r.url == Some(line)
        && r.source == Source
        && r.content == s.markdown.value
        && r.id !in ResourceIds(db.resources)
  {
    var s := env.scrape(line);
    if Truthy(s.markdown) {
      var p := NewResourceParams(line, s.markdown.value, PageTitle(s), PageDescription(s), Source);
      var r := NewResource(db, p);
      assert (db.resources + [r])[..|db.resources|] == db.resources;
    }
  }

  /** A line ending in a carriage return is stored untrimmed but looked up
      trimmed, so the resource created for it is not found by its own line:
      the next run scrapes and creates it again. */
  lemma UntrimmedLineNotFoundAgain(db: Db, line: string, env: Env)
    requires |line| > 0 && line[|line| - 1] == '\r'
    requires ResourcesWithUrl(db.resources, Trim(line)) == []
    requires ScrapLine(db, line, env).Next?
    ensures ResourcesWithUrl(ScrapLine(db, line, env).db.resources, Trim(line)) == []
  {
    TrimDropsCarriageReturn(line);
    var s := env.scrape(line);
    var p := NewResourceParams(line, if s.markdown.Some? then s.markdown.value else "",
                               PageTitle(s), PageDescription(s), Source);
    if s.success && Truthy(s.markdown) && env.createResource(p) {
      var r := NewResource(db, p);
      assert ScrapLine(db, line, env).db == AddResource(db, r);
      NotFoundAfterAdd(db.resources, r, Trim(line));
    } else {
      assert ScrapLine(db, line, env).db == db;
    }
  }

  lemma NotFoundAfterAdd(rs: seq<Resource>, r: Resource, url: string)
    requires ResourcesWithUrl(rs, url) == []
    requires r.url != Some(url)
    ensures ResourcesWithUrl(rs + [r], url) == []
  {
    forall x | x in rs + [r] ensures x.url != Some(url) {
      if x in rs {
        assert x !in ResourcesWithUrl(rs, url);
      }
    }
    ResourcesWithUrlNone(rs + [r], url);
  }

  /** A trimmed line that created its resource finds it afterwards, so a
      repeated line in the list reconciles instead of creating again. */
  lemma TrimmedLineFoundAfterCreate(db: Db, line: string, env: Env)
    requires IsTrimmed(line)
    requires ResourcesWithUrl(db.resources, Trim(line)) == []
    requires var s := env.scrape(line);
      && s.success && Truthy(s.markdown)
      && env.createResource(NewResourceParams(line, s.markdown.value, PageTitle(s), PageDescription(s), Source))
    ensures ResourcesWithUrl(ScrapLine(db, line, env).db.resources, Trim(line)) != []
  {
    var s := env.scrape(line);
    var p := NewResourceParams(line, s.markdown.value, PageTitle(s), PageDescription(s), Source);
    var r := NewResource(db, p);
    assert ScrapLine(db, line, env) == Next(AddResource(db, r));
    TrimOfTrimmed(line);
    FoundAfterAdd(db.resources, r, Trim(line));
  }

  lemma FoundAfterAdd(rs: seq<Resource>, r: Resource, url: string)
    requires r.url == Some(url)
    ensures ResourcesWithUrl(rs + [r], url) != []
  {
    assert r in rs + [r];
  }

  /** One iteration only adds rows, keeps ids distinct, and every media row
      it adds is attached to a resource that mentions its url. */
  lemma ScrapLineEffect(db: Db, line: string, env: Env)
    ensures Extends(db, ScrapLine(db, line, env).db)
    ensures Valid(db) ==> Valid(ScrapLine(db, line, env).db)
    ensures AddedAttached(db, ScrapLine(db, line, env).db, db.resources, env)
  {
    if ResourcesWithUrl(db.resources, Trim(line)) != [] {
      ExistingLineEffect(db, line, env);
    } else {
      NewLineEffect(db, line, env);
    }
  }

  lemma ExistingLineEffect(db: Db, line: string, env: Env)
    requires ResourcesWithUrl(db.resources, Trim(line)) != []
    ensures Extends(db, ScrapLine(db, line, env).db)
    ensures Valid(db) ==> Valid(ScrapLine(db, line, env).db)
    ensures AddedAttached(db, ScrapLine(db, line, env).db, db.resources, env)
  {
    var owner := ResourcesWithUrl(db.resources, Trim(line))[0];
    assert owner in db.resources;
    var urls := env.extractImageUrls(owner.content);
    var known := MediaOf(db.media, owner.id);
    if |urls| == 0 || |urls| == |known| {
      assert ScrapLine(db, line, env) == Next(db);
    } else {
      assert ScrapLine(db, line, env) == ReconcileImages(db, owner, known, urls, env);
      ReconcileImagesEffect(db, owner, known, urls, env);
      var d := ReconcileImages(db, owner, known, urls, env).db;
      forall k | |db.media| <= k < |d.media| ensures Attached(d.media[k], db.resources, env) {
        assert d.media[k].resourceId == Some(owner.id) && d.media[k].url in urls;
      }
    }
  }

  lemma NewLineEffect(db: Db, line: string, env: Env)
    requires ResourcesWithUrl(db.resources, Trim(line)) == []
    ensures ScrapLine(db, line, env).db.media == db.media
    ensures Extends(db, ScrapLine(db, line, env).db)
    ensures Valid(db) ==> Valid(ScrapLine(db, line, env).db)
  {
    var s := env.scrape(line);
    if s.success && Truthy(s.markdown) {
      var p := NewResourceParams(line, s.markdown.value, PageTitle(s), PageDescription(s), Source);
      if env.createResource(p) {
        assert ScrapLine(db, line, env) == Next(AddResource(db, NewResource(db, p)));
        if Valid(db) {
          AddResourceValid(db, p);
        }
      } else {
        assert ScrapLine(db, line, env) == Break(db);
      }
    } else if s.success {
      assert ScrapLine(db, line, env) == Next(db);
    } else {
      assert ScrapLine(db, line, env) == Throw(db, CrawlFailedMessage(s.error));
    }
  }

  /** The whole url loop only adds rows and keeps ids distinct. */
  lemma {:induction false} ScrapLinesGrows(db: Db, lines: seq<string>, env: Env)
    ensures Extends(db, ScrapLines(db, lines, env).1)
    ensures Valid(db) ==> Valid(ScrapLines(db, lines, env).1)
    decreases |lines|
  {
    if |lines| > 0 {
      ScrapLineEffect(db, lines[0], env);
      var step := ScrapLine(db, lines[0], env);
      if step.Next? {
        assert ScrapLines(db, lines, env) == ScrapLines(step.db, lines[1..], env);
        ScrapLinesGrows(step.db, lines[1..], env);
      }
    }
  }

  /** Every media row the url loop adds is attached to a resource whose
      content mentions its url. */
  lemma {:induction false} ScrapLinesAttached(db: Db, lines: seq<string>, env: Env)
    ensures var d := ScrapLines(db, lines, env).1;
      AddedAttached(db, d, d.resources, env)
    decreases |lines|
  {
    if |lines| > 0 {
      ScrapLineEffect(db, lines[0], env);
      var step := ScrapLine(db, lines[0], env);
      var mid := step.db;
      if step.Next? {
        assert ScrapLines(db, lines, env) == ScrapLines(mid, lines[1..], env);
        var d := ScrapLines(mid, lines[1..], env).1;
        ScrapLinesGrows(mid, lines[1..], env);
        ScrapLinesAttached(mid, lines[1..], env);
        AttachedCarriedOver(db, mid, d, env);
      } else {
        assert ScrapLines(db, lines, env).1 == mid;
        AttachedCarriedOver(db, mid, mid, env);
      }
    }
  }

  /** Rows attached in `mid` stay attached in any extension `d` of it. */
  lemma AttachedCarriedOver(db: Db, mid: Db, d: Db, env: Env)
    requires Extends(db, mid) && Extends(mid, d)
    requires AddedAttached(db, mid, db.resources, env)
    requires AddedAttached(mid, d, d.resources, env)
    ensures AddedAttached(db, d, d.resources, env)
  {
    forall k | |db.media| <= k < |mid.media| ensures Attached(d.media[k], d.resources, env) {
      assert d.media[k] == mid.media[k];
      var o :| o in db.resources && mid.media[k].resourceId == Some(o.id)
               && mid.media[k].url in env.extractImageUrls(o.content);
      assert o in d.resources;
    }
  }

  /** The lookup in the snapshot taken before the loop can never find a url
      that the lookup in the table misses, because the table only grows from
      that snapshot on: the "found in the snapshot but not by the where
      clause" error cannot be raised. */
  lemma SnapshotGuardUnreachable(snapshot: Db, lines: seq<string>, env: Env, i: nat, url: string)
    requires i <= |lines|
    requires ScrapLines(snapshot, lines[..i], env).0 == Completed
    requires ResourcesWithUrl(ScrapLines(snapshot, lines[..i], env).1.resources, url) == []
    ensures forall r :: r in snapshot.resources ==> r.url != Some(url)
  {
    ScrapLinesGrows(snapshot, lines[..i], env);
    var current := ScrapLines(snapshot, lines[..i], env).1;
    forall r | r in snapshot.resources ensures r.url != Some(url) {
      assert r in current.resources;
    }
  }

  /** A run over lines whose resources all exist and whose extracted image
      count matches their media count writes nothing. */
  lemma {:induction false} ReconciledRunIsNoOp(db: Db, lines: seq<string>, env: Env)
    requires forall l :: l in lines ==>
      && ResourcesWithUrl(db.resources, Trim(l)) != []
      && var owner := ResourcesWithUrl(db.resources, Trim(l))[0];
         var urls := env.extractImageUrls(owner.content);
         |urls| == 0 || |urls| == |MediaOf(db.media, owner.id)|
    ensures ScrapLines(db, lines, env) == (Completed, db)
    decreases |lines|
  {
    if |lines| > 0 {
      SkipWhenCountsMatch(db, lines[0], env);
      assert forall l :: l in lines[1..] ==> l in lines;
      ReconciledRunIsNoOp(db, lines[1..], env);
    }
  }

  /** With an empty resources table the run throws before any line and
      writes nothing; otherwise it is the url loop over the parsed lines,
      which only adds rows and keeps ids distinct. */
  lemma RunEffect(db: Db, data: string, env: Env)
    ensures |db.resources| == 0 ==> Run(db, data, env) == (Failed(NoResourcesMessage), db)
    ensures Extends(db, Run(db, data, env).1)
    ensures Valid(db) ==> Valid(Run(db, data, env).1)
  {
    ScrapLinesGrows(db, ParseUrlList(data), env);
  }
}
