/**
 * Change detection and sync: for one page, compare the page's timestamp
 * with the stored watermark and, when the page is newer, fetch and store
 * every sub-page image and then advance the watermark; for the whole
 * service, walk the chain of pages by their `nextpg` links.
 *
 * Each operation records the calls it makes to the API and to the bucket,
 * in order, so that call counts and ordering can be stated.
 */
module Updater {
  import opened Wrappers
  import opened Text
  import opened TeletextClient
  import opened ImageStorage

  /** The page a walk starts at by default. */
  const StartAtPage: nat := 100

  /** A call to the teletext API or to the bucket. */
  datatype Call =
    | FetchPageData(pageNr: nat)
    | FindLastStoredTimestamp(pageNr: nat)
    | FetchPageImage(pageNr: nat, subpageNr: nat)
    | StoreTeletextImage(pageNr: nat, subpageNr: nat, timestamp: nat, imageData: Bytes)
    | StoreLastTimestamp(pageNr: nat, timestamp: nat)

  predicate IsPageDataFetch(c: Call) { c.FetchPageData? }
  predicate IsWatermarkRead(c: Call) { c.FindLastStoredTimestamp? }
  predicate IsImageFetch(c: Call) { c.FetchPageImage? }
  predicate IsImageStore(c: Call) { c.StoreTeletextImage? }
  predicate IsWatermarkStore(c: Call) { c.StoreLastTimestamp? }

  /** The calls of one kind, in the order they were made. */
  function Filter(calls: seq<Call>, keep: Call -> bool): (r: seq<Call>)
    ensures |r| <= |calls|
    ensures forall i :: 0 <= i < |r| ==> keep(r[i])
  {
    if calls == [] then []
    else (if keep(calls[0]) then [calls[0]] else []) + Filter(calls[1..], keep)
  }

  lemma {:induction false} FilterAppend(a: seq<Call>, b: seq<Call>, keep: Call -> bool)
    ensures Filter(a + b, keep) == Filter(a, keep) + Filter(b, keep)
  {
    if a == [] {
      assert a + b == b;
    } else {
      assert (a + b)[0] == a[0];
      assert (a + b)[1..] == a[1..] + b;
      FilterAppend(a[1..], b, keep);
    }
  }

  /** `!lastStoredAt || timestamp > lastStoredAt`: no (or a falsy) watermark, or an older one. */
  predicate IsNewer(timestamp: nat, lastStoredAt: Option<ParsedInt>) {
    lastStoredAt.None? || !lastStoredAt.value.Truthy() || timestamp > lastStoredAt.value.value
  }

  /** The outcome of syncing: the calls made, the bucket's contents afterwards and the error thrown, if any. */
  datatype SyncResult = SyncResult(calls: seq<Call>, objects: map<string, Bytes>, failure: Option<ClientError>)

  /**
   * Sub-pages `subpageNr` to `lastSubpage`, one after the other: fetch the
   * image, store it under the page's timestamp; a failed fetch ends the loop.
   */
  function StoreSubpagesFrom(remote: Remote, objects: map<string, Bytes>, pageNr: nat, timestamp: nat,
                             subpageNr: nat, lastSubpage: int): SyncResult
    decreases lastSubpage - subpageNr
  {
    if subpageNr > lastSubpage then SyncResult([], objects, None)
    else match PageImage(remote, pageNr, subpageNr)
      case Failure(e) => SyncResult([FetchPageImage(pageNr, subpageNr)], objects, Some(e))
      case Success(data) =>
        var rest := StoreSubpagesFrom(remote, objects[TeletextImageStorageKey(pageNr, subpageNr, timestamp) := data],
                                      pageNr, timestamp, subpageNr + 1, lastSubpage);
        SyncResult([FetchPageImage(pageNr, subpageNr), StoreTeletextImage(pageNr, subpageNr, timestamp, data)] + rest.calls,
                   rest.objects, rest.failure)
  }

  /** What `storeTeletextImagesIfNewer(pageNr, timestamp, lastSubpage)` does to a bucket. */
  function Sync(remote: Remote, objects: map<string, Bytes>, pageNr: nat, timestamp: nat, lastSubpage: int): SyncResult {
    var read := [FindLastStoredTimestamp(pageNr)];
    if !IsNewer(timestamp, StoredWatermark(objects, pageNr)) then SyncResult(read, objects, None)
    else
      var images := StoreSubpagesFrom(remote, objects, pageNr, timestamp, 1, lastSubpage);
      if images.failure.Some? then SyncResult(read + images.calls, images.objects, images.failure)
      else SyncResult(read + images.calls + [StoreLastTimestamp(pageNr, timestamp)],
                      images.objects[LastTimestampFileName(pageNr) := WatermarkBody(timestamp)], None)
  }

  /**
   * `storeTeletextImagesIfNewer`: reads the watermark; if the page is newer,
   * fetches and stores sub-pages `1..lastSubpage` in order and then stores
   * the new watermark. A failed image fetch throws before the watermark is
   * stored; the snapshots stored before it stay.
   */
  method StoreTeletextImagesIfNewer(bucket: Bucket, remote: Remote, pageNr: nat, timestamp: nat, lastSubpage: int)
    returns (calls: seq<Call>, failure: Option<ClientError>)
    modifies bucket
    ensures Sync(remote, old(bucket.objects), pageNr, timestamp, lastSubpage) == SyncResult(calls, bucket.objects, failure)
  {
    var lastStoredAt := bucket.FindLastStoredTimestamp(pageNr);
    calls := [FindLastStoredTimestamp(pageNr)];
    failure := None;
    if IsNewer(timestamp, lastStoredAt) {
      ghost var all := StoreSubpagesFrom(remote, bucket.objects, pageNr, timestamp, 1, lastSubpage);
      var imageCalls := [];
      var subpageNr := 1;
      while subpageNr <= lastSubpage
        invariant 1 <= subpageNr
        invariant var rest := StoreSubpagesFrom(remote, bucket.objects, pageNr, timestamp, subpageNr, lastSubpage);
          all == SyncResult(imageCalls + rest.calls, rest.objects, rest.failure)
        decreases lastSubpage - subpageNr
      {
        var imgResponse := PageImage(remote, pageNr, subpageNr);
        if imgResponse.Failure? {
          calls := calls + imageCalls + [FetchPageImage(pageNr, subpageNr)];
          failure := Some(imgResponse.error);
          return;
        }
        ghost var before := bucket.objects;
        bucket.StoreTeletextImage(pageNr, subpageNr, timestamp, imgResponse.value);
        var step := [FetchPageImage(pageNr, subpageNr), StoreTeletextImage(pageNr, subpageNr, timestamp, imgResponse.value)];
        ghost var rest := StoreSubpagesFrom(remote, bucket.objects, pageNr, timestamp, subpageNr + 1, lastSubpage);
        assert StoreSubpagesFrom(remote, before, pageNr, timestamp, subpageNr, lastSubpage)
            == SyncResult(step + rest.calls, rest.objects, rest.failure);
        assert imageCalls + (step + rest.calls) == (imageCalls + step) + rest.calls;
        imageCalls := imageCalls + step;
        subpageNr := subpageNr + 1;
      }
      assert imageCalls + [] == imageCalls;
      bucket.StoreLastTimestamp(pageNr, timestamp);
      calls := calls + imageCalls + [StoreLastTimestamp(pageNr, timestamp)];
    }
  }

  /** Every sub-page from `first` to `last` of the page has an image the API serves. */
  predicate AllImagesServed(remote: Remote, pageNr: nat, first: nat, last: int) {
    forall s: nat :: first <= s <= last ==> (pageNr, s) in remote.images && remote.images[(pageNr, s)].Answered?
  }

  /** The image the API serves for a sub-page (empty when it serves none). */
  function ServedImage(remote: Remote, pageNr: nat, subpageNr: nat): Bytes {
    if (pageNr, subpageNr) in remote.images && remote.images[(pageNr, subpageNr)].Answered?
    then remote.images[(pageNr, subpageNr)].body else []
  }

  /** The number of sub-pages from `first` to `last`. */
  function Count(first: nat, last: int): nat {
    if last < first then 0 else last - first + 1
  }

  /** The image fetches of sub-pages `first..last`, in ascending order. */
  function ImageFetches(pageNr: nat, first: nat, last: int): (r: seq<Call>)
    ensures |r| == Count(first, last)
    ensures forall i :: 0 <= i < |r| ==> r[i] == FetchPageImage(pageNr, first + i)
    decreases last - first
  {
    if first > last then [] else [FetchPageImage(pageNr, first)] + ImageFetches(pageNr, first + 1, last)
  }

  /** The snapshot writes of sub-pages `first..last`, each with the image the API serves, in ascending order. */
  function ImageStores(remote: Remote, pageNr: nat, timestamp: nat, first: nat, last: int): (r: seq<Call>)
    ensures |r| == Count(first, last)
    ensures forall i :: 0 <= i < |r| ==> r[i] == StoreTeletextImage(pageNr, first + i, timestamp, ServedImage(remote, pageNr, first + i))
    decreases last - first
  {
    if first > last then []
    else [StoreTeletextImage(pageNr, first, timestamp, ServedImage(remote, pageNr, first))]
         + ImageStores(remote, pageNr, timestamp, first + 1, last)
  }

  /** The sub-page loop never reads or writes a watermark, and leaves every watermark as it was. */
  lemma {:induction false} SubpagesKeepWatermarks(remote: Remote, objects: map<string, Bytes>, pageNr: nat, timestamp: nat,
                                                  first: nat, last: int, q: nat)
    ensures var r := StoreSubpagesFrom(remote, objects, pageNr, timestamp, first, last);
      && Filter(r.calls, IsWatermarkRead) == []
      && Filter(r.calls, IsWatermarkStore) == []
      && Filter(r.calls, IsPageDataFetch) == []
      && StoredWatermark(r.objects, q) == StoredWatermark(objects, q)
    decreases last - first
  {
    if first <= last && PageImage(remote, pageNr, first).Success? {
      var data := PageImage(remote, pageNr, first).value;
      var objects' := objects[TeletextImageStorageKey(pageNr, first, timestamp) := data];
      StoringImageKeepsWatermarks(objects, q, pageNr, first, timestamp, data);
      SubpagesKeepWatermarks(remote, objects', pageNr, timestamp, first + 1, last, q);
      var rest := StoreSubpagesFrom(remote, objects', pageNr, timestamp, first + 1, last);
      var head := [FetchPageImage(pageNr, first), StoreTeletextImage(pageNr, first, timestamp, data)];
      FilterAppend(head, rest.calls, IsWatermarkRead);
      FilterAppend(head, rest.calls, IsWatermarkStore);
      FilterAppend(head, rest.calls, IsPageDataFetch);
    }
  }

  /**
   * When every image is served, the loop does not fail and fetches
   * sub-pages `first..last` in ascending order, each once.
   */
  lemma {:induction false} SubpagesAllFetched(remote: Remote, objects: map<string, Bytes>, pageNr: nat, timestamp: nat,
                                              first: nat, last: int)
    requires AllImagesServed(remote, pageNr, first, last)
    ensures var r := StoreSubpagesFrom(remote, objects, pageNr, timestamp, first, last);
      && r.failure.None?
      && Filter(r.calls, IsImageFetch) == ImageFetches(pageNr, first, last)
    decreases last - first
  {
    if first <= last {
      var data := remote.images[(pageNr, first)].body;
      assert PageImage(remote, pageNr, first) == Success(data);
      var objects' := objects[TeletextImageStorageKey(pageNr, first, timestamp) := data];
      SubpagesAllFetched(remote, objects', pageNr, timestamp, first + 1, last);
      var rest := StoreSubpagesFrom(remote, objects', pageNr, timestamp, first + 1, last);
      var head := [FetchPageImage(pageNr, first), StoreTeletextImage(pageNr, first, timestamp, data)];
      FilterAppend(head, rest.calls, IsImageFetch);
      assert Filter(head, IsImageFetch) == [FetchPageImage(pageNr, first)];
    }
  }

  /**
   * When every image is served, the loop stores each sub-page's image under
   * `(pageNr, s, timestamp)`, in ascending order of `s`, each once.
   */
  lemma {:induction false} SubpagesAllStored(remote: Remote, objects: map<string, Bytes>, pageNr: nat, timestamp: nat,
                                             first: nat, last: int)
    requires AllImagesServed(remote, pageNr, first, last)
    ensures Filter(StoreSubpagesFrom(remote, objects, pageNr, timestamp, first, last).calls, IsImageStore)
         == ImageStores(remote, pageNr, timestamp, first, last)
    decreases last - first
  {
    if first <= last {
      var data := remote.images[(pageNr, first)].body;
      assert PageImage(remote, pageNr, first) == Success(data);
      assert ServedImage(remote, pageNr, first) == data;
      var objects' := objects[TeletextImageStorageKey(pageNr, first, timestamp) := data];
      SubpagesAllStored(remote, objects', pageNr, timestamp, first + 1, last);
      var rest := StoreSubpagesFrom(remote, objects', pageNr, timestamp, first + 1, last);
      var head := [FetchPageImage(pageNr, first), StoreTeletextImage(pageNr, first, timestamp, data)];
      FilterAppend(head, rest.calls, IsImageStore);
      assert Filter(head, IsImageStore) == [StoreTeletextImage(pageNr, first, timestamp, data)];
    }
  }

  /** When every image is served, afterwards the bucket holds each sub-page's image under its snapshot key. */
  lemma {:induction false} SubpagesAllInBucket(remote: Remote, objects: map<string, Bytes>, pageNr: nat, timestamp: nat,
                                               first: nat, last: int)
    requires AllImagesServed(remote, pageNr, first, last)
    ensures var r := StoreSubpagesFrom(remote, objects, pageNr, timestamp, first, last);
      forall s: nat :: first <= s <= last ==>
        TeletextImageStorageKey(pageNr, s, timestamp) in r.objects
        && r.objects[TeletextImageStorageKey(pageNr, s, timestamp)] == remote.images[(pageNr, s)].body
    decreases last - first
  {
    var r := StoreSubpagesFrom(remote, objects, pageNr, timestamp, first, last);
    if first <= last {
      var data := remote.images[(pageNr, first)].body;
      assert PageImage(remote, pageNr, first) == Success(data);
      var key := TeletextImageStorageKey(pageNr, first, timestamp);
      var objects' := objects[key := data];
      SubpagesAllInBucket(remote, objects', pageNr, timestamp, first + 1, last);
      forall s': nat | first + 1 <= s' <= last
        ensures key != TeletextImageStorageKey(pageNr, s', timestamp)
      {
        if key == TeletextImageStorageKey(pageNr, s', timestamp) {
          StorageKeyInjective(pageNr, first, timestamp, pageNr, s', timestamp);
        }
      }
      SubpagesKeepKey(remote, objects', pageNr, timestamp, first + 1, last, key);
    }
  }

  /** The loop only writes snapshot keys of sub-pages `first..last`; any other key keeps its body. */
  lemma {:induction false} SubpagesKeepKey(remote: Remote, objects: map<string, Bytes>, pageNr: nat, timestamp: nat,
                                           first: nat, last: int, key: string)
    requires forall s: nat :: first <= s <= last ==> key != TeletextImageStorageKey(pageNr, s, timestamp)
    ensures var r := StoreSubpagesFrom(remote, objects, pageNr, timestamp, first, last);
      (key in r.objects <==> key in objects) && (key in objects ==> r.objects[key] == objects[key])
    decreases last - first
  {
    if first <= last && PageImage(remote, pageNr, first).Success? {
      var data := PageImage(remote, pageNr, first).value;
      SubpagesKeepKey(remote, objects[TeletextImageStorageKey(pageNr, first, timestamp) := data], pageNr, timestamp,
                      first + 1, last, key);
    }
  }

  /** The watermark is read exactly once per sync, as the first call. */
  lemma SyncReadsWatermarkOnce(remote: Remote, objects: map<string, Bytes>, pageNr: nat, timestamp: nat, lastSubpage: int)
    ensures var r := Sync(remote, objects, pageNr, timestamp, lastSubpage);
      && |r.calls| >= 1 && r.calls[0] == FindLastStoredTimestamp(pageNr)
      && Filter(r.calls, IsWatermarkRead) == [FindLastStoredTimestamp(pageNr)]
  {
    var r := Sync(remote, objects, pageNr, timestamp, lastSubpage);
    var read := [FindLastStoredTimestamp(pageNr)];
    if IsNewer(timestamp, StoredWatermark(objects, pageNr)) {
      var images := StoreSubpagesFrom(remote, objects, pageNr, timestamp, 1, lastSubpage);
      SubpagesKeepWatermarks(remote, objects, pageNr, timestamp, 1, lastSubpage, pageNr);
      FilterAppend(read, images.calls, IsWatermarkRead);
      if images.failure.None? {
        FilterAppend(read + images.calls, [StoreLastTimestamp(pageNr, timestamp)], IsWatermarkRead);
      }
    }
  }

  /**
   * Idempotence: with a watermark present and the page not newer than it,
   * a sync reads the watermark and does nothing else.
   */
  lemma SyncUpToDateIsNoOp(remote: Remote, objects: map<string, Bytes>, pageNr: nat, timestamp: nat, lastSubpage: int)
    requires var w := StoredWatermark(objects, pageNr); w.Some? && w.value.Truthy() && timestamp <= w.value.value
    ensures Sync(remote, objects, pageNr, timestamp, lastSubpage) == SyncResult([FindLastStoredTimestamp(pageNr)], objects, None)
  {
  }

  /**
   * A page synced at a non-zero timestamp is up to date afterwards: syncing
   * it again at the same timestamp fetches and writes nothing. (A timestamp
   * of 0 is stored as "0", which is falsy, so that page would be synced
   * again.)
   */
  lemma SyncTwiceIsNoOp(remote: Remote, objects: map<string, Bytes>, pageNr: nat, timestamp: nat, lastSubpage: int)
    requires timestamp != 0
    requires Sync(remote, objects, pageNr, timestamp, lastSubpage).failure.None?
    ensures var once := Sync(remote, objects, pageNr, timestamp, lastSubpage);
      Sync(remote, once.objects, pageNr, timestamp, lastSubpage) == SyncResult([FindLastStoredTimestamp(pageNr)], once.objects, None)
  {
    var once := Sync(remote, objects, pageNr, timestamp, lastSubpage);
    if IsNewer(timestamp, StoredWatermark(objects, pageNr)) {
      var images := StoreSubpagesFrom(remote, objects, pageNr, timestamp, 1, lastSubpage);
      WatermarkRoundTrip(images.objects, pageNr, timestamp);
    }
  }

  /**
   * A newer page whose images are all served: the sync does not fail and
   * makes exactly `lastSubpage` image fetches, of sub-pages `1..lastSubpage`
   * in ascending order.
   */
  lemma SyncNewerFetchesEverySubpage(remote: Remote, objects: map<string, Bytes>, pageNr: nat, timestamp: nat, lastSubpage: int)
    requires IsNewer(timestamp, StoredWatermark(objects, pageNr))
    requires AllImagesServed(remote, pageNr, 1, lastSubpage)
    ensures var r := Sync(remote, objects, pageNr, timestamp, lastSubpage);
      && r.failure.None?
      && Filter(r.calls, IsImageFetch) == ImageFetches(pageNr, 1, lastSubpage)
  {
    var read := [FindLastStoredTimestamp(pageNr)];
    var images := StoreSubpagesFrom(remote, objects, pageNr, timestamp, 1, lastSubpage);
    var write := [StoreLastTimestamp(pageNr, timestamp)];
    SubpagesAllFetched(remote, objects, pageNr, timestamp, 1, lastSubpage);
    assert Sync(remote, objects, pageNr, timestamp, lastSubpage).calls == read + images.calls + write;
    FilterAppend(read, images.calls, IsImageFetch);
    FilterAppend(read + images.calls, write, IsImageFetch);
  }

  /**
   * A newer page whose images are all served: exactly `lastSubpage` snapshot
   * writes, each keyed `(pageNr, s, timestamp)` with sub-page `s`'s image,
   * in ascending order of `s`; afterwards the bucket holds each of them.
   */
  lemma SyncNewerStoresEverySubpage(remote: Remote, objects: map<string, Bytes>, pageNr: nat, timestamp: nat, lastSubpage: int)
    requires IsNewer(timestamp, StoredWatermark(objects, pageNr))
    requires AllImagesServed(remote, pageNr, 1, lastSubpage)
    ensures var r := Sync(remote, objects, pageNr, timestamp, lastSubpage);
      && Filter(r.calls, IsImageStore) == ImageStores(remote, pageNr, timestamp, 1, lastSubpage)
      && forall s: nat :: 1 <= s <= lastSubpage ==>
           TeletextImageStorageKey(pageNr, s, timestamp) in r.objects
           && r.objects[TeletextImageStorageKey(pageNr, s, timestamp)] == remote.images[(pageNr, s)].body
  {
    var read := [FindLastStoredTimestamp(pageNr)];
    var images := StoreSubpagesFrom(remote, objects, pageNr, timestamp, 1, lastSubpage);
    var write := [StoreLastTimestamp(pageNr, timestamp)];
    SubpagesAllFetched(remote, objects, pageNr, timestamp, 1, lastSubpage);
    SubpagesAllStored(remote, objects, pageNr, timestamp, 1, lastSubpage);
    SubpagesAllInBucket(remote, objects, pageNr, timestamp, 1, lastSubpage);
    assert Sync(remote, objects, pageNr, timestamp, lastSubpage)
        == SyncResult(read + images.calls + write, images.objects[LastTimestampFileName(pageNr) := WatermarkBody(timestamp)], None);
    FilterAppend(read, images.calls, IsImageStore);
    FilterAppend(read + images.calls, write, IsImageStore);
    forall s: nat | 1 <= s <= lastSubpage
      ensures TeletextImageStorageKey(pageNr, s, timestamp) != LastTimestampFileName(pageNr)
    {
      WatermarkKeyIsNotStorageKey(pageNr, pageNr, s, timestamp);
    }
  }

  /**
   * A newer page whose images are all served: exactly one watermark write,
   * as the last call, after which the stored watermark is `timestamp`.
   */
  lemma SyncNewerStoresWatermarkLast(remote: Remote, objects: map<string, Bytes>, pageNr: nat, timestamp: nat, lastSubpage: int)
    requires IsNewer(timestamp, StoredWatermark(objects, pageNr))
    requires AllImagesServed(remote, pageNr, 1, lastSubpage)
    ensures var r := Sync(remote, objects, pageNr, timestamp, lastSubpage);
      && Filter(r.calls, IsWatermarkStore) == [StoreLastTimestamp(pageNr, timestamp)]
      && r.calls[|r.calls| - 1] == StoreLastTimestamp(pageNr, timestamp)
      && StoredWatermark(r.objects, pageNr) == Some(Int(timestamp))
  {
    var read := [FindLastStoredTimestamp(pageNr)];
    var images := StoreSubpagesFrom(remote, objects, pageNr, timestamp, 1, lastSubpage);
    var write := [StoreLastTimestamp(pageNr, timestamp)];
    SubpagesAllFetched(remote, objects, pageNr, timestamp, 1, lastSubpage);
    SubpagesKeepWatermarks(remote, objects, pageNr, timestamp, 1, lastSubpage, pageNr);
    WatermarkRoundTrip(images.objects, pageNr, timestamp);
    assert Sync(remote, objects, pageNr, timestamp, lastSubpage)
        == SyncResult(read + images.calls + write, images.objects[LastTimestampFileName(pageNr) := WatermarkBody(timestamp)], None);
    FilterAppend(read, images.calls, IsWatermarkStore);
    FilterAppend(read + images.calls, write, IsWatermarkStore);
  }

  /**
   * A sync whose image fetch fails never writes the watermark: the stored
   * watermark is the one before the sync, and the failure is the one the
   * last call, an image fetch, threw.
   */
  lemma SyncFailureKeepsWatermark(remote: Remote, objects: map<string, Bytes>, pageNr: nat, timestamp: nat, lastSubpage: int)
    requires Sync(remote, objects, pageNr, timestamp, lastSubpage).failure.Some?
    ensures var r := Sync(remote, objects, pageNr, timestamp, lastSubpage);
      && Filter(r.calls, IsWatermarkStore) == []
      && StoredWatermark(r.objects, pageNr) == StoredWatermark(objects, pageNr)
      && r.calls[|r.calls| - 1].FetchPageImage?
      && PageImage(remote, pageNr, r.calls[|r.calls| - 1].subpageNr) == Failure(r.failure.value)
  {
    var read := [FindLastStoredTimestamp(pageNr)];
    var images := StoreSubpagesFrom(remote, objects, pageNr, timestamp, 1, lastSubpage);
    SubpagesKeepWatermarks(remote, objects, pageNr, timestamp, 1, lastSubpage, pageNr);
    FilterAppend(read, images.calls, IsWatermarkStore);
    SubpagesFailureIsLastFetch(remote, objects, pageNr, timestamp, 1, lastSubpage);
  }

  lemma {:induction false} SubpagesFailureIsLastFetch(remote: Remote, objects: map<string, Bytes>, pageNr: nat, timestamp: nat,
                                                      first: nat, last: int)
    requires StoreSubpagesFrom(remote, objects, pageNr, timestamp, first, last).failure.Some?
    ensures var r := StoreSubpagesFrom(remote, objects, pageNr, timestamp, first, last);
      && |r.calls| >= 1 && r.calls[|r.calls| - 1].FetchPageImage?
      && r.calls[|r.calls| - 1].pageNr == pageNr
      && PageImage(remote, pageNr, r.calls[|r.calls| - 1].subpageNr) == Failure(r.failure.value)
    decreases last - first
  {
    if PageImage(remote, pageNr, first).Success? {
      var data := PageImage(remote, pageNr, first).value;
      SubpagesFailureIsLastFetch(remote, objects[TeletextImageStorageKey(pageNr, first, timestamp) := data], pageNr, timestamp,
                                 first + 1, last);
    }
  }

  /**
   * The watermark only moves forward: after a sync it is either unchanged or
   * `timestamp`, and it changes only when the page was newer than it.
   */
  lemma SyncWatermarkOnlyAdvances(remote: Remote, objects: map<string, Bytes>, pageNr: nat, timestamp: nat, lastSubpage: int)
    ensures var before := StoredWatermark(objects, pageNr);
      var after := StoredWatermark(Sync(remote, objects, pageNr, timestamp, lastSubpage).objects, pageNr);
      after == before || (after == Some(Int(timestamp)) && IsNewer(timestamp, before))
  {
    var r := Sync(remote, objects, pageNr, timestamp, lastSubpage);
    if IsNewer(timestamp, StoredWatermark(objects, pageNr)) {
      var images := StoreSubpagesFrom(remote, objects, pageNr, timestamp, 1, lastSubpage);
      SubpagesKeepWatermarks(remote, objects, pageNr, timestamp, 1, lastSubpage, pageNr);
      if images.failure.None? {
        WatermarkRoundTrip(images.objects, pageNr, timestamp);
      }
    }
  }

  /** A sync of one page leaves every other page's watermark as it was. */
  lemma SyncKeepsOtherWatermarks(remote: Remote, objects: map<string, Bytes>, pageNr: nat, timestamp: nat, lastSubpage: int, q: nat)
    requires q != pageNr
    ensures StoredWatermark(Sync(remote, objects, pageNr, timestamp, lastSubpage).objects, q) == StoredWatermark(objects, q)
  {
    if IsNewer(timestamp, StoredWatermark(objects, pageNr)) {
      var images := StoreSubpagesFrom(remote, objects, pageNr, timestamp, 1, lastSubpage);
      SubpagesKeepWatermarks(remote, objects, pageNr, timestamp, 1, lastSubpage, q);
      if images.failure.None? {
        StoringWatermarkKeepsOtherPages(images.objects, q, pageNr, timestamp);
      }
    }
  }

  /** A call that writes to the bucket: a snapshot or a watermark. */
  predicate IsWrite(c: Call) { c.StoreTeletextImage? || c.StoreLastTimestamp? }

  /** The sub-page loop writes only snapshots of its own page, at its own timestamp. */
  lemma {:induction false} SubpagesWriteOwnPage(remote: Remote, objects: map<string, Bytes>, pageNr: nat, timestamp: nat,
                                                first: nat, last: int)
    ensures forall c :: c in StoreSubpagesFrom(remote, objects, pageNr, timestamp, first, last).calls && IsWrite(c) ==>
      c.StoreTeletextImage? && c.pageNr == pageNr && c.timestamp == timestamp
    decreases last - first
  {
    if first <= last && PageImage(remote, pageNr, first).Success? {
      var data := PageImage(remote, pageNr, first).value;
      var objects' := objects[TeletextImageStorageKey(pageNr, first, timestamp) := data];
      SubpagesWriteOwnPage(remote, objects', pageNr, timestamp, first + 1, last);
    }
  }

  /**
   * A sync writes only to its own page, only at the page's timestamp, and
   * only when the page was newer than the watermark it read.
   */
  lemma SyncWritesOnlyWhenNewer(remote: Remote, objects: map<string, Bytes>, pageNr: nat, timestamp: nat, lastSubpage: int)
    ensures forall c :: c in Sync(remote, objects, pageNr, timestamp, lastSubpage).calls && IsWrite(c) ==>
      c.pageNr == pageNr && c.timestamp == timestamp && IsNewer(timestamp, StoredWatermark(objects, pageNr))
  {
    if IsNewer(timestamp, StoredWatermark(objects, pageNr)) {
      SubpagesWriteOwnPage(remote, objects, pageNr, timestamp, 1, lastSubpage);
    }
  }

  /** `parseInt(pageInfo.subpagecount)` as a loop bound: `s <= NaN` is false, so `NaN` runs no iteration. */
  function LastSubpage(meta: PageMeta): int {
    var n := ParseInt(meta.subpagecount);
    if n.NaN? then 0 else n.value
  }

  /**
   * The walk from `pageNr` ends within `fuel` pages: a page whose metadata
   * fetch fails, or whose `nextpg` parses as falsy, ends it.
   */
  predicate ChainEndsWithin(remote: Remote, pageNr: nat, fuel: nat)
    decreases fuel
  {
    fuel > 0 &&
    match PageData(remote, pageNr)
    case Failure(_) => true
    case Success(meta) =>
      var next := ParseInt(meta.nextpg);
      !next.Truthy() || ChainEndsWithin(remote, next.value, fuel - 1)
  }

  /** The pages the walk requests, in order. */
  function Chain(remote: Remote, pageNr: nat, fuel: nat): seq<nat>
    requires ChainEndsWithin(remote, pageNr, fuel)
    decreases fuel
  {
    match PageData(remote, pageNr)
    case Failure(_) => [pageNr]
    case Success(meta) =>
      var next := ParseInt(meta.nextpg);
      if !next.Truthy() then [pageNr] else [pageNr] + Chain(remote, next.value, fuel - 1)
  }

  /** The chain from a page does not depend on the bound it was proved to end within. */
  lemma {:induction false} ChainFuelIrrelevant(remote: Remote, pageNr: nat, fuel: nat, fuel': nat)
    requires ChainEndsWithin(remote, pageNr, fuel) && ChainEndsWithin(remote, pageNr, fuel')
    ensures Chain(remote, pageNr, fuel) == Chain(remote, pageNr, fuel')
    decreases fuel
  {
    match PageData(remote, pageNr)
    case Failure(_) =>
    case Success(meta) =>
      var next := ParseInt(meta.nextpg);
      if next.Truthy() {
        ChainFuelIrrelevant(remote, next.value, fuel - 1, fuel' - 1);
      }
  }

  /** From any of its pages on, a chain is the chain from that page. */
  lemma {:induction false} ChainSuffix(remote: Remote, pageNr: nat, fuel: nat, i: nat) returns (fuel': nat)
    requires ChainEndsWithin(remote, pageNr, fuel) && i < |Chain(remote, pageNr, fuel)|
    ensures ChainEndsWithin(remote, Chain(remote, pageNr, fuel)[i], fuel')
    ensures Chain(remote, Chain(remote, pageNr, fuel)[i], fuel') == Chain(remote, pageNr, fuel)[i..]
    decreases fuel
  {
    var chain := Chain(remote, pageNr, fuel);
    if i == 0 {
      assert chain[0..] == chain;
      return fuel;
    }
    match PageData(remote, pageNr)
    case Failure(_) =>
      assert false;
    case Success(meta) =>
      var next := ParseInt(meta.nextpg);
      if !next.Truthy() {
        assert false;
      } else {
        var rest := Chain(remote, next.value, fuel - 1);
        assert chain == [pageNr] + rest;
        fuel' := ChainSuffix(remote, next.value, fuel - 1, i - 1);
        assert chain[i] == rest[i - 1] && chain[i..] == rest[i - 1..];
      }
  }

  /** A chain that ends visits no page twice: a repeated page would make it go round forever. */
  lemma {:induction false} ChainDistinct(remote: Remote, pageNr: nat, fuel: nat)
    requires ChainEndsWithin(remote, pageNr, fuel)
    ensures forall i, j :: 0 <= i < j < |Chain(remote, pageNr, fuel)| ==>
      Chain(remote, pageNr, fuel)[i] != Chain(remote, pageNr, fuel)[j]
  {
    var chain := Chain(remote, pageNr, fuel);
    forall i, j | 0 <= i < j < |chain|
      ensures chain[i] != chain[j]
    {
      var fi := ChainSuffix(remote, pageNr, fuel, i);
      var fj := ChainSuffix(remote, pageNr, fuel, j);
      if chain[i] == chain[j] {
        ChainFuelIrrelevant(remote, chain[i], fi, fj);
        assert false;
      }
    }
  }

  /** The pages of the chain whose metadata the API returned: the pages the walk syncs. */
  function SyncedPages(remote: Remote, pageNr: nat, fuel: nat): seq<nat>
    requires ChainEndsWithin(remote, pageNr, fuel)
    decreases fuel
  {
    match PageData(remote, pageNr)
    case Failure(_) => []
    case Success(meta) =>
      var next := ParseInt(meta.nextpg);
      if !next.Truthy() then [pageNr] else [pageNr] + SyncedPages(remote, next.value, fuel - 1)
  }

  /** The outcome of a walk: the calls made, the bucket's contents afterwards and the errors thrown, in chain order. */
  datatype WalkResult = WalkResult(calls: seq<Call>, objects: map<string, Bytes>, failures: seq<ClientError>)

  /** What `findAndStoreNewTeletextImages(pageNr)` does to a bucket, with each page's sync run before the walk goes on. */
  function Walk(remote: Remote, objects: map<string, Bytes>, pageNr: nat, fuel: nat): WalkResult
    requires ChainEndsWithin(remote, pageNr, fuel)
    decreases fuel
  {
    match PageData(remote, pageNr)
    case Failure(e) => WalkResult([FetchPageData(pageNr)], objects, [e])
    case Success(meta) =>
      var sync := Sync(remote, objects, pageNr, meta.time, LastSubpage(meta));
      var here := [FetchPageData(pageNr)] + sync.calls;
      var failed := if sync.failure.Some? then [sync.failure.value] else [];
      var next := ParseInt(meta.nextpg);
      if !next.Truthy() then WalkResult(here, sync.objects, failed)
      else
        var rest := Walk(remote, sync.objects, next.value, fuel - 1);
        WalkResult(here + rest.calls, rest.objects, failed + rest.failures)
  }

  /**
   * `findAndStoreNewTeletextImages`: fetches the page's metadata, syncs the
   * page, and follows `nextpg` until it parses as falsy. There is no cycle
   * guard: the chain must end, which the ghost `fuel` bounds.
   */
  method FindAndStoreNewTeletextImages(bucket: Bucket, remote: Remote, pageNr: nat, ghost fuel: nat)
    returns (calls: seq<Call>, failures: seq<ClientError>)
    requires ChainEndsWithin(remote, pageNr, fuel)
    modifies bucket
    ensures Walk(remote, old(bucket.objects), pageNr, fuel) == WalkResult(calls, bucket.objects, failures)
    decreases fuel
  {
    var pageResponse := PageData(remote, pageNr);
    if pageResponse.Failure? {
      return [FetchPageData(pageNr)], [pageResponse.error];
    }
    var pageInfo := pageResponse.value;
    var syncCalls, syncFailure := StoreTeletextImagesIfNewer(bucket, remote, pageNr, pageInfo.time, LastSubpage(pageInfo));
    calls := [FetchPageData(pageNr)] + syncCalls;
    failures := if syncFailure.Some? then [syncFailure.value] else [];
    var nextPageNr := ParseInt(pageInfo.nextpg);
    if !nextPageNr.Truthy() {
      return;
    }
    var restCalls, restFailures := FindAndStoreNewTeletextImages(bucket, remote, nextPageNr.value, fuel - 1);
    calls := calls + restCalls;
    failures := failures + restFailures;
  }

  /** The metadata requests for `pages`, in order. */
  function PageDataFetches(pages: seq<nat>): (r: seq<Call>)
    ensures |r| == |pages|
  {
    if pages == [] then [] else [FetchPageData(pages[0])] + PageDataFetches(pages[1..])
  }

  /** The watermark reads for `pages`, in order. */
  function WatermarkReads(pages: seq<nat>): (r: seq<Call>)
    ensures |r| == |pages|
  {
    if pages == [] then [] else [FindLastStoredTimestamp(pages[0])] + WatermarkReads(pages[1..])
  }

  /** The walk requests the metadata of exactly the chain's pages, in order, once each. */
  lemma {:induction false} WalkFetchesChain(remote: Remote, objects: map<string, Bytes>, pageNr: nat, fuel: nat)
    requires ChainEndsWithin(remote, pageNr, fuel)
    ensures Filter(Walk(remote, objects, pageNr, fuel).calls, IsPageDataFetch) == PageDataFetches(Chain(remote, pageNr, fuel))
    decreases fuel
  {
    var chain := Chain(remote, pageNr, fuel);
    match PageData(remote, pageNr)
    case Failure(e) =>
      assert chain == [pageNr];
    case Success(meta) =>
      var sync := Sync(remote, objects, pageNr, meta.time, LastSubpage(meta));
      var here := [FetchPageData(pageNr)] + sync.calls;
      SyncMakesNoPageDataFetch(remote, objects, pageNr, meta.time, LastSubpage(meta));
      FilterAppend([FetchPageData(pageNr)], sync.calls, IsPageDataFetch);
      assert Filter(here, IsPageDataFetch) == [FetchPageData(pageNr)];
      var next := ParseInt(meta.nextpg);
      if !next.Truthy() {
        assert chain == [pageNr];
      } else {
        var rest := Walk(remote, sync.objects, next.value, fuel - 1);
        var chain' := Chain(remote, next.value, fuel - 1);
        assert Walk(remote, objects, pageNr, fuel).calls == here + rest.calls;
        WalkFetchesChain(remote, sync.objects, next.value, fuel - 1);
        FilterAppend(here, rest.calls, IsPageDataFetch);
        assert chain == [pageNr] + chain';
        assert chain[1..] == chain';
      }
  }

  /** The walk reads the watermark of exactly the pages whose metadata arrived, in chain order, once each. */
  lemma {:induction false} WalkReadsSyncedPages(remote: Remote, objects: map<string, Bytes>, pageNr: nat, fuel: nat)
    requires ChainEndsWithin(remote, pageNr, fuel)
    ensures Filter(Walk(remote, objects, pageNr, fuel).calls, IsWatermarkRead) == WatermarkReads(SyncedPages(remote, pageNr, fuel))
    decreases fuel
  {
    var synced := SyncedPages(remote, pageNr, fuel);
    match PageData(remote, pageNr)
    case Failure(e) =>
      assert synced == [];
      assert Filter([FetchPageData(pageNr)], IsWatermarkRead) == [];
    case Success(meta) =>
      var sync := Sync(remote, objects, pageNr, meta.time, LastSubpage(meta));
      var here := [FetchPageData(pageNr)] + sync.calls;
      SyncReadsWatermarkOnce(remote, objects, pageNr, meta.time, LastSubpage(meta));
      FilterAppend([FetchPageData(pageNr)], sync.calls, IsWatermarkRead);
      assert Filter([FetchPageData(pageNr)], IsWatermarkRead) == [];
      assert Filter(here, IsWatermarkRead) == [FindLastStoredTimestamp(pageNr)];
      var next := ParseInt(meta.nextpg);
      if !next.Truthy() {
        assert synced == [pageNr];
      } else {
        var rest := Walk(remote, sync.objects, next.value, fuel - 1);
        var synced' := SyncedPages(remote, next.value, fuel - 1);
        assert Walk(remote, objects, pageNr, fuel).calls == here + rest.calls;
        WalkReadsSyncedPages(remote, sync.objects, next.value, fuel - 1);
        FilterAppend(here, rest.calls, IsWatermarkRead);
        assert synced == [pageNr] + synced';
        assert synced[1..] == synced';
      }
  }

  lemma SyncMakesNoPageDataFetch(remote: Remote, objects: map<string, Bytes>, pageNr: nat, timestamp: nat, lastSubpage: int)
    ensures Filter(Sync(remote, objects, pageNr, timestamp, lastSubpage).calls, IsPageDataFetch) == []
  {
    var read := [FindLastStoredTimestamp(pageNr)];
    if IsNewer(timestamp, StoredWatermark(objects, pageNr)) {
      var images := StoreSubpagesFrom(remote, objects, pageNr, timestamp, 1, lastSubpage);
      SubpagesKeepWatermarks(remote, objects, pageNr, timestamp, 1, lastSubpage, pageNr);
      FilterAppend(read, images.calls, IsPageDataFetch);
      if images.failure.None? {
        FilterAppend(read + images.calls, [StoreLastTimestamp(pageNr, timestamp)], IsPageDataFetch);
      }
    }
  }
  /** The pages the walk syncs are pages of its chain. */
  lemma {:induction false} SyncedPagesInChain(remote: Remote, pageNr: nat, fuel: nat)
    requires ChainEndsWithin(remote, pageNr, fuel)
    ensures forall q :: q in SyncedPages(remote, pageNr, fuel) ==> q in Chain(remote, pageNr, fuel)
    decreases fuel
  {
    match PageData(remote, pageNr)
    case Failure(_) =>
    case Success(meta) =>
      var next := ParseInt(meta.nextpg);
      if next.Truthy() {
        SyncedPagesInChain(remote, next.value, fuel - 1);
      }
  }

  /** The first page of a chain does not come back later in it. */
  lemma FirstPageNotRevisited(remote: Remote, pageNr: nat, fuel: nat, meta: PageMeta, next: nat)
    requires ChainEndsWithin(remote, pageNr, fuel)
    requires PageData(remote, pageNr) == Success(meta) && ParseInt(meta.nextpg) == Int(next) && next != 0
    ensures ChainEndsWithin(remote, next, fuel - 1)
    ensures pageNr !in Chain(remote, next, fuel - 1)
  {
    var chain, rest := Chain(remote, pageNr, fuel), Chain(remote, next, fuel - 1);
    assert chain == [pageNr] + rest;
    if pageNr in rest {
      var i :| 0 <= i < |rest| && rest[i] == pageNr;
      assert chain[i + 1] == rest[i] && chain[0] == pageNr;
      ChainDistinct(remote, pageNr, fuel);
      assert false;
    }
  }

  /**
   * Over the whole walk, every snapshot or watermark write is for a page
   * the walk synced, carries that page's own timestamp, and happens only
   * when that timestamp is newer than the watermark the page had before
   * the walk began.
   */
  lemma {:induction false} WalkWritesOnlyNewerPages(remote: Remote, objects: map<string, Bytes>, pageNr: nat, fuel: nat)
    requires ChainEndsWithin(remote, pageNr, fuel)
    ensures forall c :: c in Walk(remote, objects, pageNr, fuel).calls && IsWrite(c) ==>
      && c.pageNr in SyncedPages(remote, pageNr, fuel)
      && PageData(remote, c.pageNr).Success? && c.timestamp == PageData(remote, c.pageNr).value.time
      && IsNewer(c.timestamp, StoredWatermark(objects, c.pageNr))
    decreases fuel, 1
  {
    var calls := Walk(remote, objects, pageNr, fuel).calls;
    match PageData(remote, pageNr)
    case Failure(_) =>
      assert calls == [FetchPageData(pageNr)];
    case Success(meta) =>
      var sync := Sync(remote, objects, pageNr, meta.time, LastSubpage(meta));
      var here := [FetchPageData(pageNr)] + sync.calls;
      var next := ParseInt(meta.nextpg);
      assert pageNr in SyncedPages(remote, pageNr, fuel);
      forall c | c in sync.calls && IsWrite(c)
        ensures c.pageNr == pageNr && c.timestamp == meta.time && IsNewer(c.timestamp, StoredWatermark(objects, c.pageNr))
      {
        SyncWritesOnlyWhenNewer(remote, objects, pageNr, meta.time, LastSubpage(meta));
      }
      if !next.Truthy() {
        assert calls == here;
      } else {
        var rest := Walk(remote, sync.objects, next.value, fuel - 1);
        assert calls == here + rest.calls;
        assert SyncedPages(remote, pageNr, fuel) == [pageNr] + SyncedPages(remote, next.value, fuel - 1);
        WalkRestWritesOnlyNewerPages(remote, objects, pageNr, fuel, meta, next.value);
      }
  }

  /** The step of `WalkWritesOnlyNewerPages` for the rest of the walk after the first page's sync. */
  lemma {:induction false} WalkRestWritesOnlyNewerPages(remote: Remote, objects: map<string, Bytes>, pageNr: nat, fuel: nat,
                                                        meta: PageMeta, next: nat)
    requires ChainEndsWithin(remote, pageNr, fuel)
    requires PageData(remote, pageNr) == Success(meta) && ParseInt(meta.nextpg) == Int(next) && next != 0
    ensures ChainEndsWithin(remote, next, fuel - 1)
    ensures var sync := Sync(remote, objects, pageNr, meta.time, LastSubpage(meta));
      forall c :: c in Walk(remote, sync.objects, next, fuel - 1).calls && IsWrite(c) ==>
        && c.pageNr in SyncedPages(remote, next, fuel - 1)
        && PageData(remote, c.pageNr).Success? && c.timestamp == PageData(remote, c.pageNr).value.time
        && IsNewer(c.timestamp, StoredWatermark(objects, c.pageNr))
    decreases fuel, 0
  {
    var sync := Sync(remote, objects, pageNr, meta.time, LastSubpage(meta));
    FirstPageNotRevisited(remote, pageNr, fuel, meta, next);
    SyncedPagesInChain(remote, next, fuel - 1);
    WalkWritesOnlyNewerPages(remote, sync.objects, next, fuel - 1);
    forall c | c in Walk(remote, sync.objects, next, fuel - 1).calls && IsWrite(c)
      ensures StoredWatermark(sync.objects, c.pageNr) == StoredWatermark(objects, c.pageNr)
    {
      SyncKeepsOtherWatermarks(remote, objects, pageNr, meta.time, LastSubpage(meta), c.pageNr);
    }
  }

  /**
   * After a walk, every page's watermark is as it was, or it is the time of
   * a page the walk synced that was newer than the watermark before.
   */
  lemma {:induction false} WalkWatermarksOnlyAdvance(remote: Remote, objects: map<string, Bytes>, pageNr: nat, fuel: nat, q: nat)
    requires ChainEndsWithin(remote, pageNr, fuel)
    ensures var before := StoredWatermark(objects, q);
      var after := StoredWatermark(Walk(remote, objects, pageNr, fuel).objects, q);
      after == before || (q in SyncedPages(remote, pageNr, fuel) && PageData(remote, q).Success?
        && after == Some(Int(PageData(remote, q).value.time)) && IsNewer(PageData(remote, q).value.time, before))
    decreases fuel
  {
    match PageData(remote, pageNr)
    case Failure(_) =>
    case Success(meta) =>
      var sync := Sync(remote, objects, pageNr, meta.time, LastSubpage(meta));
      if q == pageNr {
        SyncWatermarkOnlyAdvances(remote, objects, pageNr, meta.time, LastSubpage(meta));
      } else {
        SyncKeepsOtherWatermarks(remote, objects, pageNr, meta.time, LastSubpage(meta), q);
      }
      var next := ParseInt(meta.nextpg);
      if next.Truthy() {
        WalkWatermarksOnlyAdvance(remote, sync.objects, next.value, fuel - 1, q);
        if q == pageNr {
          FirstPageNotRevisited(remote, pageNr, fuel, meta, next.value);
          SyncedPagesInChain(remote, next.value, fuel - 1);
        }
      }
  }

  /**
   * A step of the walk that goes on to page `next`, seen through a filter
   * that drops metadata fetches: the page's sync calls, then the rest of the
   * walk's; the page's sync failure, then the rest of the walk's.
   */
  lemma WalkStepOn(remote: Remote, objects: map<string, Bytes>, pageNr: nat, fuel: nat, keep: Call -> bool,
                   meta: PageMeta, next: nat)
    requires ChainEndsWithin(remote, pageNr, fuel)
    requires PageData(remote, pageNr) == Success(meta) && ParseInt(meta.nextpg) == Int(next) && next != 0
    requires !keep(FetchPageData(pageNr))
    ensures ChainEndsWithin(remote, next, fuel - 1)
    ensures var sync := Sync(remote, objects, pageNr, meta.time, LastSubpage(meta));
      var r := Walk(remote, objects, pageNr, fuel);
      var rest := Walk(remote, sync.objects, next, fuel - 1);
      && Filter(r.calls, keep) == Filter(sync.calls, keep) + Filter(rest.calls, keep)
      && r.failures == (if sync.failure.Some? then [sync.failure.value] else []) + rest.failures
  {
    var sync := Sync(remote, objects, pageNr, meta.time, LastSubpage(meta));
    var here := [FetchPageData(pageNr)] + sync.calls;
    var rest := Walk(remote, sync.objects, next, fuel - 1);
    FilterAppend([FetchPageData(pageNr)], sync.calls, keep);
    assert Filter([FetchPageData(pageNr)], keep) == [];
    assert Filter(here, keep) == Filter(sync.calls, keep);
    assert Walk(remote, objects, pageNr, fuel).calls == here + rest.calls;
    FilterAppend(here, rest.calls, keep);
  }

  /** The last step of the walk, seen through a filter that drops metadata fetches: the page's sync. */
  lemma WalkStepLast(remote: Remote, objects: map<string, Bytes>, pageNr: nat, fuel: nat, keep: Call -> bool, meta: PageMeta)
    requires ChainEndsWithin(remote, pageNr, fuel)
    requires PageData(remote, pageNr) == Success(meta) && !ParseInt(meta.nextpg).Truthy()
    requires !keep(FetchPageData(pageNr))
    ensures var sync := Sync(remote, objects, pageNr, meta.time, LastSubpage(meta));
      var r := Walk(remote, objects, pageNr, fuel);
      && Filter(r.calls, keep) == Filter(sync.calls, keep)
      && r.failures == (if sync.failure.Some? then [sync.failure.value] else [])
  {
    var sync := Sync(remote, objects, pageNr, meta.time, LastSubpage(meta));
    FilterAppend([FetchPageData(pageNr)], sync.calls, keep);
    assert Filter([FetchPageData(pageNr)], keep) == [];
  }

  /** The chain of the three-page example. */
  lemma ExampleChain(remote: Remote, t100: nat, t101: nat, t102: nat)
    requires PageData(remote, 100) == Success(PageMeta(t100, "4", "101"))
    requires PageData(remote, 101) == Success(PageMeta(t101, "4", "102"))
    requires PageData(remote, 102) == Success(PageMeta(t102, "3", ""))
    ensures ChainEndsWithin(remote, 100, 3)
    ensures ParseInt("101") == Int(101) && ParseInt("102") == Int(102) && ParseInt("") == NaN
    ensures LastSubpage(PageMeta(t100, "4", "101")) == 4 && LastSubpage(PageMeta(t101, "4", "102")) == 4
    ensures LastSubpage(PageMeta(t102, "3", "")) == 3
  {
    ParseExampleNumbers();
    assert ChainEndsWithin(remote, 102, 1);
    assert ChainEndsWithin(remote, 101, 2);
  }

  /**
   * The three-page example: pages 100, 101 and 102 chained by `nextpg`, the
   * last with no next page; every page has a stored watermark `w`; pages 100
   * and 102 are newer than it and page 101 is not.
   */
  predicate ExampleSetting(remote: Remote, objects: map<string, Bytes>, w: nat, t100: nat, t101: nat, t102: nat) {
    && PageData(remote, 100) == Success(PageMeta(t100, "4", "101"))
    && PageData(remote, 101) == Success(PageMeta(t101, "4", "102"))
    && PageData(remote, 102) == Success(PageMeta(t102, "3", ""))
    && AllImagesServed(remote, 100, 1, 4) && AllImagesServed(remote, 102, 1, 3)
    && StoredWatermark(objects, 100) == Some(Int(w)) && StoredWatermark(objects, 101) == Some(Int(w))
    && StoredWatermark(objects, 102) == Some(Int(w))
    && 0 < w && t101 <= w < t100 && w < t102
  }

  /** In the three-page example the walk reads the three watermarks, in chain order. */
  lemma WalkExampleReads(remote: Remote, objects: map<string, Bytes>, w: nat, t100: nat, t101: nat, t102: nat)
    requires ExampleSetting(remote, objects, w, t100, t101, t102)
    ensures ChainEndsWithin(remote, StartAtPage, 3)
    ensures Filter(Walk(remote, objects, StartAtPage, 3).calls, IsWatermarkRead)
         == [FindLastStoredTimestamp(100), FindLastStoredTimestamp(101), FindLastStoredTimestamp(102)]
  {
    ExampleChain(remote, t100, t101, t102);
    WalkReadsSyncedPages(remote, objects, 100, 3);
    ExampleSyncedPages(remote, t100, t101, t102);
    WatermarkReadsOfThree(100, 101, 102);
  }

  /** Every page of the three-page example's chain is synced. */
  lemma ExampleSyncedPages(remote: Remote, t100: nat, t101: nat, t102: nat)
    requires PageData(remote, 100) == Success(PageMeta(t100, "4", "101"))
    requires PageData(remote, 101) == Success(PageMeta(t101, "4", "102"))
    requires PageData(remote, 102) == Success(PageMeta(t102, "3", ""))
    ensures ChainEndsWithin(remote, 100, 3)
    ensures SyncedPages(remote, 100, 3) == [100, 101, 102]
  {
    ExampleChain(remote, t100, t101, t102);
    assert SyncedPages(remote, 102, 1) == [102];
    assert SyncedPages(remote, 101, 2) == [101] + [102];
    assert SyncedPages(remote, 100, 3) == [100] + [101, 102];
  }

  lemma WatermarkReadsOfThree(a: nat, b: nat, c: nat)
    ensures WatermarkReads([a, b, c]) == [FindLastStoredTimestamp(a), FindLastStoredTimestamp(b), FindLastStoredTimestamp(c)]
  {
    assert [c][1..] == [];
    assert WatermarkReads([c]) == [FindLastStoredTimestamp(c)];
    assert [b, c][1..] == [c];
    assert WatermarkReads([b, c]) == [FindLastStoredTimestamp(b), FindLastStoredTimestamp(c)];
    assert [a, b, c][1..] == [b, c];
  }

  /** In the three-page example the walk stores 4 + 3 = 7 snapshots. */
  lemma WalkExampleStores(remote: Remote, objects: map<string, Bytes>, w: nat, t100: nat, t101: nat, t102: nat)
    requires ExampleSetting(remote, objects, w, t100, t101, t102)
    ensures ChainEndsWithin(remote, StartAtPage, 3)
    ensures |Filter(Walk(remote, objects, StartAtPage, 3).calls, IsImageStore)| == 7
  {
    ExampleChain(remote, t100, t101, t102);
    var s1 := Sync(remote, objects, 100, t100, 4);
    var s2 := Sync(remote, s1.objects, 101, t101, 4);
    ExampleSync101(remote, objects, w, t100, t101, t102);
    assert |Filter(Walk(remote, s1.objects, 102, 1).calls, IsImageStore)| == 3 by {
      ExampleSync102(remote, objects, w, t100, t101, t102);
      WalkStepLast(remote, s1.objects, 102, 1, IsImageStore, PageMeta(t102, "3", ""));
    }
    assert |Filter(Walk(remote, s1.objects, 101, 2).calls, IsImageStore)| == 3 by {
      WalkStepOn(remote, s1.objects, 101, 2, IsImageStore, PageMeta(t101, "4", "102"), 102);
    }
    assert |Filter(Walk(remote, objects, 100, 3).calls, IsImageStore)| == 4 + 3 by {
      ExampleSync100(remote, objects, w, t100, t101, t102);
      WalkStepOn(remote, objects, 100, 3, IsImageStore, PageMeta(t100, "4", "101"), 101);
    }
  }

  /** In the three-page example the walk advances the watermarks of pages 100 and 102 only. */
  lemma WalkExampleWatermarks(remote: Remote, objects: map<string, Bytes>, w: nat, t100: nat, t101: nat, t102: nat)
    requires ExampleSetting(remote, objects, w, t100, t101, t102)
    ensures ChainEndsWithin(remote, StartAtPage, 3)
    ensures Filter(Walk(remote, objects, StartAtPage, 3).calls, IsWatermarkStore)
         == [StoreLastTimestamp(100, t100), StoreLastTimestamp(102, t102)]
  {
    ExampleChain(remote, t100, t101, t102);
    var s1 := Sync(remote, objects, 100, t100, 4);
    var s2 := Sync(remote, s1.objects, 101, t101, 4);
    var w100, w102 := StoreLastTimestamp(100, t100), StoreLastTimestamp(102, t102);
    ExampleSync101(remote, objects, w, t100, t101, t102);
    assert Filter(Walk(remote, s1.objects, 102, 1).calls, IsWatermarkStore) == [w102] by {
      ExampleSync102(remote, objects, w, t100, t101, t102);
      WalkStepLast(remote, s1.objects, 102, 1, IsWatermarkStore, PageMeta(t102, "3", ""));
    }
    assert Filter(Walk(remote, s1.objects, 101, 2).calls, IsWatermarkStore) == [] + [w102] by {
      WalkStepOn(remote, s1.objects, 101, 2, IsWatermarkStore, PageMeta(t101, "4", "102"), 102);
    }
    assert Filter(Walk(remote, objects, 100, 3).calls, IsWatermarkStore) == [w100, w102] by {
      ExampleSync100(remote, objects, w, t100, t101, t102);
      WalkStepOn(remote, objects, 100, 3, IsWatermarkStore, PageMeta(t100, "4", "101"), 101);
      ConsOntoLast(w100, w102);
    }
  }

  /** In the three-page example nothing fails. */
  lemma WalkExampleSucceeds(remote: Remote, objects: map<string, Bytes>, w: nat, t100: nat, t101: nat, t102: nat)
    requires ExampleSetting(remote, objects, w, t100, t101, t102)
    ensures ChainEndsWithin(remote, StartAtPage, 3)
    ensures Walk(remote, objects, StartAtPage, 3).failures == []
  {
    ExampleChain(remote, t100, t101, t102);
    var s1 := Sync(remote, objects, 100, t100, 4);
    var s2 := Sync(remote, s1.objects, 101, t101, 4);
    ExampleSync101(remote, objects, w, t100, t101, t102);
    assert Walk(remote, s1.objects, 102, 1).failures == [] by {
      ExampleSync102(remote, objects, w, t100, t101, t102);
      WalkStepLast(remote, s1.objects, 102, 1, IsWatermarkStore, PageMeta(t102, "3", ""));
    }
    assert Walk(remote, s1.objects, 101, 2).failures == [] by {
      WalkStepOn(remote, s1.objects, 101, 2, IsWatermarkStore, PageMeta(t101, "4", "102"), 102);
    }
    assert Walk(remote, objects, 100, 3).failures == [] by {
      ExampleSync100(remote, objects, w, t100, t101, t102);
      WalkStepOn(remote, objects, 100, 3, IsWatermarkStore, PageMeta(t100, "4", "101"), 101);
    }
  }

  /** The example's first sync: page 100 is newer, so all four sub-pages and the watermark are stored. */
  lemma ExampleSync100(remote: Remote, objects: map<string, Bytes>, w: nat, t100: nat, t101: nat, t102: nat)
    requires ExampleSetting(remote, objects, w, t100, t101, t102)
    ensures var s1 := Sync(remote, objects, 100, t100, 4);
      && SyncedAll(s1, 100, t100, 4)
      && StoredWatermark(s1.objects, 101) == Some(Int(w))
      && StoredWatermark(s1.objects, 102) == Some(Int(w))
  {
    NewerSyncCounts(remote, objects, 100, t100, 4);
    SyncKeepsOtherWatermarks(remote, objects, 100, t100, 4, 101);
    SyncKeepsOtherWatermarks(remote, objects, 100, t100, 4, 102);
  }

  /** The example's second sync: page 101 is up to date, so only its watermark is read. */
  lemma ExampleSync101(remote: Remote, objects: map<string, Bytes>, w: nat, t100: nat, t101: nat, t102: nat)
    requires ExampleSetting(remote, objects, w, t100, t101, t102)
    ensures var s1 := Sync(remote, objects, 100, t100, 4);
      SyncedNothing(Sync(remote, s1.objects, 101, t101, 4), s1.objects, 101)
  {
    var s1 := Sync(remote, objects, 100, t100, 4);
    ExampleSync100(remote, objects, w, t100, t101, t102);
    SyncUpToDateIsNoOp(remote, s1.objects, 101, t101, 4);
    UpToDateSyncCounts(101);
  }

  /** The example's third sync: page 102 is newer, so all three sub-pages and the watermark are stored. */
  lemma ExampleSync102(remote: Remote, objects: map<string, Bytes>, w: nat, t100: nat, t101: nat, t102: nat)
    requires ExampleSetting(remote, objects, w, t100, t101, t102)
    ensures var s1 := Sync(remote, objects, 100, t100, 4);
      SyncedAll(Sync(remote, s1.objects, 102, t102, 3), 102, t102, 3)
  {
    var s1 := Sync(remote, objects, 100, t100, 4);
    ExampleSync100(remote, objects, w, t100, t101, t102);
    NewerSyncCounts(remote, s1.objects, 102, t102, 3);
  }

  lemma ConsOntoLast<T>(x: T, y: T)
    ensures [x] + ([] + [y]) == [x, y]
  {
  }

  /** The calls of a sync that finds the page up to date, by kind. */
  lemma UpToDateSyncCounts(pageNr: nat)
    ensures var calls := [FindLastStoredTimestamp(pageNr)];
      && Filter(calls, IsWatermarkRead) == calls
      && Filter(calls, IsImageStore) == []
      && Filter(calls, IsWatermarkStore) == []
  {
  }

  /** A sync that read the watermark once and did nothing else. */
  predicate SyncedNothing(r: SyncResult, objects: map<string, Bytes>, pageNr: nat) {
    && r.failure.None?
    && r.objects == objects
    && Filter(r.calls, IsWatermarkRead) == [FindLastStoredTimestamp(pageNr)]
    && Filter(r.calls, IsImageStore) == []
    && Filter(r.calls, IsWatermarkStore) == []
  }

  /** A sync that read the watermark once, stored `n` snapshots and then the watermark, and did not fail. */
  predicate SyncedAll(r: SyncResult, pageNr: nat, timestamp: nat, n: nat) {
    && r.failure.None?
    && Filter(r.calls, IsWatermarkRead) == [FindLastStoredTimestamp(pageNr)]
    && |Filter(r.calls, IsImageStore)| == n
    && Filter(r.calls, IsWatermarkStore) == [StoreLastTimestamp(pageNr, timestamp)]
  }

  /** The counts of a sync of a newer page whose images are all served. */
  lemma NewerSyncCounts(remote: Remote, objects: map<string, Bytes>, pageNr: nat, timestamp: nat, lastSubpage: nat)
    requires IsNewer(timestamp, StoredWatermark(objects, pageNr))
    requires AllImagesServed(remote, pageNr, 1, lastSubpage)
    ensures SyncedAll(Sync(remote, objects, pageNr, timestamp, lastSubpage), pageNr, timestamp, lastSubpage)
  {
    SyncNewerFetchesEverySubpage(remote, objects, pageNr, timestamp, lastSubpage);
    SyncNewerStoresEverySubpage(remote, objects, pageNr, timestamp, lastSubpage);
    SyncNewerStoresWatermarkLast(remote, objects, pageNr, timestamp, lastSubpage);
    SyncReadsWatermarkOnce(remote, objects, pageNr, timestamp, lastSubpage);
  }

  /** `parseInt` of the example's page fields. */
  lemma ParseExampleNumbers()
    ensures ParseInt("101") == Int(101) && ParseInt("102") == Int(102)
    ensures ParseInt("4") == Int(4) && ParseInt("3") == Int(3) && ParseInt("") == NaN
  {
    ParseIntOfNatToString(101, []);
    ParseIntOfNatToString(102, []);
    ParseIntOfNatToString(4, []);
    ParseIntOfNatToString(3, []);
    assert NatToString(1) == "1";
    assert NatToString(10) == "10";
    assert NatToString(101) + [] == "101";
    assert NatToString(102) + [] == "102";
    assert NatToString(4) + [] == "4";
    assert NatToString(3) + [] == "3";
  }
}
