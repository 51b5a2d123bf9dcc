/** `lib/actions/media.ts`: the descriptions of the stored images named by
    a list of urls, matched after dropping each url's query string. The
    lookup only reads the media table. */
module MediaLookup {
  import opened Text
  import opened Schema

  datatype MediaDescription = MediaDescription(url: string, description: string)

  /** `url.split('?')[0]`: the url without its query string. */
  function StripQuery(url: string): (r: string)
    ensures r <= url && '?' !in r
  {
    Split(url, '?')[0]
  }

  /** The stripped url is the longest prefix without a `?`: it stops at
      the first `?`, or runs to the end. */
  lemma StripQueryStopsAtFirstMark(url: string)
    ensures var p := StripQuery(url);
      |p| < |url| ==> url[|p|] == '?'
  {
    SplitFirstPiece(url, '?');
  }

  /** A url without `?` is left as it is, and only such a url. */
  lemma StripQueryUnchanged(url: string)
    ensures StripQuery(url) == url <==> '?' !in url
  {
    var p := StripQuery(url);
    StripQueryStopsAtFirstMark(url);
    assert |p| < |url| ==> url[|p|] in url;
  }

  lemma StripQueryIdempotent(url: string)
    ensures StripQuery(StripQuery(url)) == StripQuery(url)
  {
    StripQueryUnchanged(StripQuery(url));
  }

  /** A query string appended to a `?`-free url is dropped whatever it
      holds, including further `?`. */
  lemma {:induction false} StripQueryDropsQuery(base: string, query: string)
    requires '?' !in base
    ensures StripQuery(base + ['?'] + query) == base
  {
    var s := base + ['?'] + query;
    if |base| > 0 {
      assert s[1..] == base[1..] + ['?'] + query;
      StripQueryDropsQuery(base[1..], query);
      assert base == [base[0]] + base[1..];
    }
  }

  /** `urls.map(url => url.split('?')[0])` */
  function StripAll(urls: seq<string>): (r: seq<string>)
    ensures |r| == |urls| && forall i :: 0 <= i < |urls| ==> r[i] == StripQuery(urls[i])
  {
    seq(|urls|, i requires 0 <= i < |urls| => StripQuery(urls[i]))
  }

  /** `select * from media where url in wanted`: the matching rows in table
      order, each as often as it occurs. */
  function MediaWithUrlIn(ms: seq<Media>, wanted: seq<string>): (r: seq<Media>)
    ensures forall x :: x in r <==> x in ms && x.url in wanted
    ensures forall x :: multiset(r)[x] == if x.url in wanted then multiset(ms)[x] else 0
  {
    if |ms| == 0 then []
    else
      assert ms == [ms[0]] + ms[1..];
      (if ms[0].url in wanted then [ms[0]] else []) + MediaWithUrlIn(ms[1..], wanted)
  }

  /** `medias.map(media => ({ url: media.url, description: media.description }))` */
  function Describe(ms: seq<Media>): (r: seq<MediaDescription>)
    ensures |r| == |ms| && forall i :: 0 <= i < |ms| ==> r[i] == MediaDescription(ms[i].url, ms[i].description)
  {
    if |ms| == 0 then []
    else [MediaDescription(ms[0].url, ms[0].description)] + Describe(ms[1..])
  }

  /** `getMediasDescriptionFromUrl(urls)` over the media table. */
  function GetMediasDescriptionFromUrl(ms: seq<Media>, urls: seq<string>): (r: seq<MediaDescription>)
    // every entry names a stored image by a stripped input url
    ensures forall e :: e in r ==> e.url in StripAll(urls) && '?' !in e.url
    // one entry per matching row
    ensures |r| == |MediaWithUrlIn(ms, StripAll(urls))|
  {
    Describe(MediaWithUrlIn(ms, StripAll(urls)))
  }

  /** An entry is exactly the url and description of a row whose url is a
      stripped input url. */
  lemma LookupFindsExactlyMatches(ms: seq<Media>, urls: seq<string>, e: MediaDescription)
    ensures e in GetMediasDescriptionFromUrl(ms, urls) <==>
              exists m :: m in ms && m.url in StripAll(urls) && e == MediaDescription(m.url, m.description)
  {
    if e in GetMediasDescriptionFromUrl(ms, urls) {
      EntryHasMatch(ms, urls, e);
    }
    if exists m :: m in ms && m.url in StripAll(urls) && e == MediaDescription(m.url, m.description) {
      var m :| m in ms && m.url in StripAll(urls) && e == MediaDescription(m.url, m.description);
      MatchHasEntry(ms, urls, m);
    }
  }

  lemma EntryHasMatch(ms: seq<Media>, urls: seq<string>, e: MediaDescription)
    requires e in GetMediasDescriptionFromUrl(ms, urls)
    ensures exists m :: m in ms && m.url in StripAll(urls) && e == MediaDescription(m.url, m.description)
  {
    var found := MediaWithUrlIn(ms, StripAll(urls));
    var r := Describe(found);
    var i :| 0 <= i < |r| && r[i] == e;
    var m := found[i];
    assert m in found;
    assert m in ms && m.url in StripAll(urls) && e == MediaDescription(m.url, m.description);
  }

  lemma MatchHasEntry(ms: seq<Media>, urls: seq<string>, m: Media)
    requires m in ms && m.url in StripAll(urls)
    ensures MediaDescription(m.url, m.description) in GetMediasDescriptionFromUrl(ms, urls)
  {
    var found := MediaWithUrlIn(ms, StripAll(urls));
    var r := Describe(found);
    assert m in found;
    var i :| 0 <= i < |found| && found[i] == m;
    assert r[i] == MediaDescription(m.url, m.description);
  }

  /** A url carrying a query string finds the rows stored under the url
      without it: the query string never matters. */
  lemma QueryStringIgnored(ms: seq<Media>, base: string, query: string)
    requires '?' !in base
    ensures GetMediasDescriptionFromUrl(ms, [base + ['?'] + query]) == GetMediasDescriptionFromUrl(ms, [base])
  {
    StripQueryDropsQuery(base, query);
    StripQueryUnchanged(base);
    assert StripAll([base + ['?'] + query]) == [base] == StripAll([base]);
  }

  /** A stored url that holds a `?` is never found. */
  lemma StoredQueryNeverFound(ms: seq<Media>, urls: seq<string>, m: Media)
    requires m in ms && '?' in m.url
    ensures MediaDescription(m.url, m.description) !in GetMediasDescriptionFromUrl(ms, urls)
  {
  }

  lemma {:induction false} MediaWithUrlInUnmatched(ms: seq<Media>, wanted: seq<string>, u: string)
    requires forall m :: m in ms ==> m.url != u
    ensures MediaWithUrlIn(ms, wanted + [u]) == MediaWithUrlIn(ms, wanted)
  {
    if |ms| > 0 {
      assert ms[0] in ms;
      assert ms[0].url in wanted + [u] <==> ms[0].url in wanted;
      assert forall m :: m in ms[1..] ==> m in ms;
      MediaWithUrlInUnmatched(ms[1..], wanted, u);
    }
  }

  /** An input url that matches no row adds no entry and no error. */
  lemma UnmatchedUrlAddsNothing(ms: seq<Media>, urls: seq<string>, u: string)
    requires forall m :: m in ms ==> m.url != StripQuery(u)
    ensures GetMediasDescriptionFromUrl(ms, urls + [u]) == GetMediasDescriptionFromUrl(ms, urls)
  {
    assert StripAll(urls + [u]) == StripAll(urls) + [StripQuery(u)];
    MediaWithUrlInUnmatched(ms, StripAll(urls), StripQuery(u));
  }

  /** Row `m` gives entry `e`: its url is wanted, and `e` is its url and
      description. */
  predicate Yields(m: Media, wanted: seq<string>, e: MediaDescription) {
    m.url in wanted && MediaDescription(m.url, m.description) == e
  }

  /** Each entry is returned once per matching row: as often as there are
      rows, distinct or not, whose url is a stripped input url and whose
      url and description are the entry's. */
  lemma EntryCountIsMatchingRows(ms: seq<Media>, urls: seq<string>, e: MediaDescription)
    ensures multiset(GetMediasDescriptionFromUrl(ms, urls))[e]
            == |set i | 0 <= i < |ms| && Yields(ms[i], StripAll(urls), e)|
  {
    EntryCountIsYieldCount(ms, StripAll(urls), e);
    YieldingIndicesCount(ms, StripAll(urls), e);
  }

  /** The number of rows of `xs` that yield `e`. */
  function YieldCount(xs: seq<Media>, wanted: seq<string>, e: MediaDescription): nat {
    if |xs| == 0 then 0
    else (if Yields(xs[0], wanted, e) then 1 else 0) + YieldCount(xs[1..], wanted, e)
  }

  lemma {:induction false} EntryCountIsYieldCount(xs: seq<Media>, wanted: seq<string>, e: MediaDescription)
    ensures multiset(Describe(MediaWithUrlIn(xs, wanted)))[e] == YieldCount(xs, wanted, e)
  {
    if |xs| > 0 {
      EntryCountIsYieldCount(xs[1..], wanted, e);
      var found := MediaWithUrlIn(xs, wanted);
      var rest := MediaWithUrlIn(xs[1..], wanted);
      if xs[0].url in wanted {
        assert found == [xs[0]] + rest;
        assert found[1..] == rest;
        DescribeHeadCount(found, e);
      } else {
        assert found == rest;
      }
    }
  }

  /** The indices of the rows of `xs` that yield `e` number `YieldCount`. */
  lemma YieldingIndicesCount(xs: seq<Media>, wanted: seq<string>, e: MediaDescription)
    ensures |set i | 0 <= i < |xs| && Yields(xs[i], wanted, e)| == YieldCount(xs, wanted, e)
  {
    YieldingIndicesFrom(xs, wanted, e, 0);
    assert xs[0..] == xs;
    assert YieldingFrom(xs, wanted, e, 0) == set i | 0 <= i < |xs| && Yields(xs[i], wanted, e);
  }

  /** The indices from `lo` on of the rows that yield `e`. */
  ghost function YieldingFrom(xs: seq<Media>, wanted: seq<string>, e: MediaDescription, lo: nat): set<int> {
    set i | lo <= i < |xs| && Yields(xs[i], wanted, e)
  }

  lemma {:induction false} YieldingIndicesFrom(xs: seq<Media>, wanted: seq<string>, e: MediaDescription, lo: nat)
    requires lo <= |xs|
    ensures |YieldingFrom(xs, wanted, e, lo)| == YieldCount(xs[lo..], wanted, e)
    decreases |xs| - lo
  {
    if lo == |xs| {
      assert YieldingFrom(xs, wanted, e, lo) == {};
    } else {
      YieldingIndicesFrom(xs, wanted, e, lo + 1);
      assert xs[lo..][1..] == xs[lo + 1..];
      var first: set<int> := if Yields(xs[lo], wanted, e) then {lo} else {};
      assert YieldingFrom(xs, wanted, e, lo) == first + YieldingFrom(xs, wanted, e, lo + 1);
    }
  }

  lemma HeadCount<T>(s: seq<T>, y: T)
    requires |s| > 0
    ensures multiset(s)[y] == multiset(s[1..])[y] + (if s[0] == y then 1 else 0)
  {
    assert s == [s[0]] + s[1..];
    assert multiset(s) == multiset{s[0]} + multiset(s[1..]);
  }

  lemma DescribeHeadCount(ms: seq<Media>, dm: MediaDescription)
    requires |ms| > 0
    ensures multiset(Describe(ms))[dm] ==
      multiset(Describe(ms[1..]))[dm] + (if MediaDescription(ms[0].url, ms[0].description) == dm then 1 else 0)
  {
    var r := Describe(ms);
    assert r[1..] == Describe(ms[1..]);
    HeadCount(r, dm);
  }
}
