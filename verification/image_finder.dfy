/**
 * The point-in-time resolver: given a sub-page and a target time, the
 * public URL of the snapshot that was current at that time, that is the
 * latest stored timestamp not after the target.
 */
module ImageFinder {
  import opened Wrappers
  import opened Text
  import opened ImageStorage

  /**
   * The position of a listed timestamp in the order the resolver sorts by
   * (`(a, b) => b - a`, largest first); `NaN` ranks below every number.
   */
  function Rank(x: ParsedInt): int {
    if x.NaN? then -1 else x.value
  }

  predicate SortedDescending(s: seq<ParsedInt>) {
    forall i, j :: 0 <= i < j < |s| ==> Rank(s[i]) >= Rank(s[j])
  }

  /** `timestamp <= targetTimestamp`; a comparison with `NaN` is false. */
  predicate AtMost(x: ParsedInt, target: int) {
    x.Int? && x.value <= target
  }

  /**
   * The latest timestamp in `ts` that is not after `target`: the maximum of
   * `{t in ts | t <= target}`, or `None` when that set is empty.
   */
  function LatestAtOrBefore(ts: seq<ParsedInt>, target: int): (r: Option<nat>)
    ensures r.Some? ==> Int(r.value) in ts && r.value <= target
    ensures r.Some? ==> forall i :: 0 <= i < |ts| && AtMost(ts[i], target) ==> ts[i].value <= r.value
    ensures r.None? <==> forall i :: 0 <= i < |ts| ==> !AtMost(ts[i], target)
  {
    if ts == [] then None
    else
      var rest := LatestAtOrBefore(ts[1..], target);
      if !AtMost(ts[0], target) then rest
      else if rest.Some? && rest.value > ts[0].value then rest
      else Some(ts[0].value)
  }

  /** The latest timestamp depends only on which timestamps are available, not on their order or repetition. */
  lemma LatestAtOrBeforeIgnoresOrder(a: seq<ParsedInt>, b: seq<ParsedInt>, target: int)
    requires forall x :: x in a <==> x in b
    ensures LatestAtOrBefore(a, target) == LatestAtOrBefore(b, target)
  {
    var ra, rb := LatestAtOrBefore(a, target), LatestAtOrBefore(b, target);
    if ra.Some? {
      var i :| 0 <= i < |b| && b[i] == Int(ra.value);
      assert AtMost(b[i], target);
    }
    if rb.Some? {
      var i :| 0 <= i < |a| && a[i] == Int(rb.value);
      assert AtMost(a[i], target);
    }
  }

  /**
   * `find((t) => t <= target)`: the first timestamp not after the target.
   * On a list sorted largest first, that is the latest one.
   */
  function FindFirstAtMost(s: seq<ParsedInt>, target: int): (r: Option<nat>)
    ensures r.None? <==> forall i :: 0 <= i < |s| ==> !AtMost(s[i], target)
    ensures SortedDescending(s) ==> r == LatestAtOrBefore(s, target)
  {
    if s == [] then None
    else if AtMost(s[0], target) then Some(s[0].value)
    else FindFirstAtMost(s[1..], target)
  }

  /**
   * The resolver's answer for a selected timestamp. A selected timestamp of
   * `0` is falsy in `if (!timestampToFetch)` and reads as not found.
   */
  function SelectedUrl(hostname: string, pageNr: nat, subpageNr: nat, selected: Option<nat>): (url: Option<string>)
    ensures url.Some? <==> selected.Some? && selected.value != 0
    ensures url.Some? ==> KeyTimestamp(url.value) == Int(selected.value)
  {
    if selected.None? || selected.value == 0 then None
    else
      PublicUrlRoundTrip(hostname, pageNr, subpageNr, selected.value);
      Some(ImagePublicUrl(hostname, pageNr, subpageNr, selected.value))
  }

  /** Swaps two elements of the array. */
  method Swap(a: array<ParsedInt>, i: nat, j: nat)
    requires i < a.Length && j < a.Length
    modifies a
    ensures a[..] == old(a[..])[i := old(a[j])][j := old(a[i])]
    ensures multiset(a[..]) == old(multiset(a[..]))
  {
    a[i], a[j] := a[j], a[i];
  }

  /** `sort((a, b) => b - a)`, in place: largest first, a permutation of the input. */
  method SortDescending(a: array<ParsedInt>)
    modifies a
    ensures SortedDescending(a[..])
    ensures multiset(a[..]) == old(multiset(a[..]))
  {
    var i := 0;
    while i < a.Length
      invariant 0 <= i <= a.Length
      invariant SortedDescending(a[..i])
      invariant multiset(a[..]) == old(multiset(a[..]))
    {
      var j := i;
      while j > 0 && Rank(a[j - 1]) < Rank(a[j])
        invariant 0 <= j <= i
        invariant forall x, y :: 0 <= x < y <= i && y != j ==> Rank(a[x]) >= Rank(a[y])
        invariant 0 < j < i ==> Rank(a[j - 1]) >= Rank(a[j + 1])
        invariant multiset(a[..]) == old(multiset(a[..]))
      {
        Swap(a, j - 1, j);
        j := j - 1;
      }
      i := i + 1;
    }
  }

  /**
   * The part of `resolveTeletextPageImageUrlAt` after the listing: sorts the
   * timestamps largest first, takes the first one not after the target and
   * returns its public URL, or nothing.
   */
  method SelectFromTimestamps(available: seq<ParsedInt>, hostname: string, pageNr: nat, subpageNr: nat, targetTimestamp: int)
    returns (url: Option<string>)
    ensures url == SelectedUrl(hostname, pageNr, subpageNr, LatestAtOrBefore(available, targetTimestamp))
  {
    var a := new ParsedInt[|available|](i requires 0 <= i < |available| => available[i]);
    assert a[..] == available;
    SortDescending(a);
    var timestampToFetch := FindFirstAtMost(a[..], targetTimestamp);
    LatestAtOrBeforeIgnoresOrder(a[..], available, targetTimestamp) by {
      assert forall x :: x in a[..] <==> x in multiset(a[..]);
      assert forall x :: x in available <==> x in multiset(available);
    }
    if timestampToFetch.None? || timestampToFetch.value == 0 {
      return None;
    }
    url := Some(ImagePublicUrl(hostname, pageNr, subpageNr, timestampToFetch.value));
  }

  /**
   * `resolveTeletextPageImageUrlAt` as written: lists under `<p>/<s>`, which
   * also matches the sub-pages whose number starts with `s`, then selects.
   * The listing the call saw is returned as a ghost.
   */
  method ResolveTeletextPageImageUrlAt(bucket: Bucket, hostname: string, pageNr: nat, subpageNr: nat, targetTimestamp: int)
    returns (url: Option<string>, ghost keys: seq<string>)
    ensures IsListing(bucket.objects, TargetDirectoryName(pageNr, subpageNr), keys)
    ensures url == SelectedUrl(hostname, pageNr, subpageNr, LatestAtOrBefore(ListedTimestamps(keys), targetTimestamp))
  {
    var available;
    available, keys := bucket.FetchAvailableTimestamps(pageNr, subpageNr);
    assert available == ListedTimestamps(keys);
    url := SelectFromTimestamps(available, hostname, pageNr, subpageNr, targetTimestamp);
  }

  /**
   * The resolver with the corrected listing under `<p>/<s>/`, which holds
   * only the requested sub-page's snapshots.
   */
  method ResolveSnapshotUrlAt(bucket: Bucket, hostname: string, pageNr: nat, subpageNr: nat, targetTimestamp: int)
    returns (url: Option<string>, ghost keys: seq<string>)
    ensures IsListing(bucket.objects, SnapshotDirectoryPrefix(pageNr, subpageNr), keys)
    ensures url == SelectedUrl(hostname, pageNr, subpageNr, LatestAtOrBefore(ListedTimestamps(keys), targetTimestamp))
  {
    var available;
    available, keys := bucket.FetchSnapshotTimestamps(pageNr, subpageNr);
    assert available == ListedTimestamps(keys);
    url := SelectFromTimestamps(available, hostname, pageNr, subpageNr, targetTimestamp);
  }

  /** Every listing of the same bucket and prefix gives the same selection: the store's listing order does not matter. */
  lemma ResolutionIgnoresListingOrder(objects: map<string, Bytes>, prefix: string, target: int,
                                      keys: seq<string>, keys': seq<string>)
    requires IsListing(objects, prefix, keys)
    requires IsListing(objects, prefix, keys')
    ensures LatestAtOrBefore(ListedTimestamps(keys), target) == LatestAtOrBefore(ListedTimestamps(keys'), target)
  {
    ListingsArePermutations(objects, prefix, keys, keys');
    ListedTimestampsPermutation(keys, keys');
    var a, b := ListedTimestamps(keys), ListedTimestamps(keys');
    assert forall x :: x in a <==> x in multiset(a);
    assert forall x :: x in b <==> x in multiset(b);
    LatestAtOrBeforeIgnoresOrder(a, b, target);
  }

  /**
   * Why the sort's placement of `NaN` matters: the comparator `b - a` gives
   * `NaN` against a `NaN` entry, which an engine may read as "equal", leaving
   * `[3, NaN, 5]` as it is. `find` on that order stops at 3, while the
   * latest timestamp not after 10 is 5.
   */
  lemma UnsortedNaNListingMissesLatest()
    ensures !SortedDescending([Int(3), NaN, Int(5)])
    ensures FindFirstAtMost([Int(3), NaN, Int(5)], 10) == Some(3)
    ensures LatestAtOrBefore([Int(3), NaN, Int(5)], 10) == Some(5)
  {
    assert Rank([Int(3), NaN, Int(5)][0]) < Rank([Int(3), NaN, Int(5)][2]);
    LatestAtOrBeforeIsTheMaximum([Int(3), NaN, Int(5)], 10, 2);
  }

  /** Conversely, an available timestamp not after the target and not below any other such is the one selected. */
  lemma LatestAtOrBeforeIsTheMaximum(ts: seq<ParsedInt>, target: int, i: nat)
    requires i < |ts| && AtMost(ts[i], target)
    requires forall j :: 0 <= j < |ts| && AtMost(ts[j], target) ==> ts[j].value <= ts[i].value
    ensures LatestAtOrBefore(ts, target) == Some(ts[i].value)
  {
    var r := LatestAtOrBefore(ts, target);
    var k :| 0 <= k < |ts| && ts[k] == Int(r.value);
  }

  /** The resolutions of the examples, with snapshots listed at 100, 200, 300, 400 and 500: exact matches are selected. */
  lemma ResolutionExamplesFound(ts: seq<ParsedInt>)
    requires ts == [Int(100), Int(200), Int(300), Int(400), Int(500)]
    ensures LatestAtOrBefore(ts, 501) == Some(500)
    ensures LatestAtOrBefore(ts, 500) == Some(500)
    ensures LatestAtOrBefore(ts, 499) == Some(400)
    ensures LatestAtOrBefore(ts, 100) == Some(100)
  {
    assert LatestAtOrBefore(ts, 501) == Some(500) by { LatestAtOrBeforeIsTheMaximum(ts, 501, 4); }
    assert LatestAtOrBefore(ts, 500) == Some(500) by { LatestAtOrBeforeIsTheMaximum(ts, 500, 4); }
    assert LatestAtOrBefore(ts, 499) == Some(400) by { LatestAtOrBeforeIsTheMaximum(ts, 499, 3); }
    assert LatestAtOrBefore(ts, 100) == Some(100) by { LatestAtOrBeforeIsTheMaximum(ts, 100, 0); }
  }

  /** A target older than every snapshot resolves to nothing. */
  lemma ResolutionExampleNotFound(ts: seq<ParsedInt>)
    requires ts == [Int(100), Int(200), Int(300), Int(400), Int(500)]
    ensures LatestAtOrBefore(ts, 99) == None
  {
  }

  /** A bucket holding only what textyle writes: snapshots and watermarks. */
  ghost predicate OnlySnapshotsAndWatermarks(objects: map<string, Bytes>) {
    forall k :: k in objects ==>
      (exists p, s, t :: k == TeletextImageStorageKey(p, s, t)) || (exists q :: k == LastTimestampFileName(q))
  }

  /**
   * The listing as written, under `100/1`, also lists the snapshots of
   * sub-page 12: with only a snapshot of sub-page 12 taken at 1700 in the
   * bucket, a lookup of sub-page 1 at 2000 returns the URL of a sub-page 1
   * snapshot at 1700, which does not exist.
   */
  lemma AsWrittenListingSelectsOtherSubpage(objects: map<string, Bytes>, hostname: string, data: Bytes, keys: seq<string>)
    requires objects == map[TeletextImageStorageKey(100, 12, 1700) := data]
    requires IsListing(objects, TargetDirectoryName(100, 1), keys)
    ensures OnlySnapshotsAndWatermarks(objects)
    ensures SelectedUrl(hostname, 100, 1, LatestAtOrBefore(ListedTimestamps(keys), 2000)) == Some(ImagePublicUrl(hostname, 100, 1, 1700))
    ensures TeletextImageStorageKey(100, 1, 1700) !in objects
  {
    var key := TeletextImageStorageKey(100, 12, 1700);
    assert ListedTimestamps(keys) == [Int(1700)] by {
      ListingPrefixAlsoMatchesLongerSubpages(100, 1, 2, 1700);
      ListingOfOneObject(objects, TargetDirectoryName(100, 1), key, data, keys);
      StorageKeyRoundTrip(100, 12, 1700);
    }
    LatestAtOrBeforeIsTheMaximum([Int(1700)], 2000, 0);
    assert TeletextImageStorageKey(100, 1, 1700) != key by {
      if TeletextImageStorageKey(100, 1, 1700) == key {
        StorageKeyInjective(100, 1, 1700, 100, 12, 1700);
      }
    }
  }

  /** A bucket with one object whose key has the prefix lists exactly that key. */
  lemma ListingOfOneObject(objects: map<string, Bytes>, prefix: string, key: string, data: Bytes, keys: seq<string>)
    requires objects == map[key := data] && HasPrefix(prefix, key)
    requires IsListing(objects, prefix, keys)
    ensures keys == [key]
  {
    assert key in MatchingKeys(objects, prefix);
    assert key in keys;
    forall i | 0 <= i < |keys|
      ensures keys[i] == key
    {
      assert keys[i] in MatchingKeys(objects, prefix);
    }
    DistinctMultiset(keys);
    assert multiset(keys) == multiset{key};
  }

  /**
   * With the listing under the sub-page's directory and its trailing `/`, a
   * bucket holding only snapshots and watermarks resolves to a snapshot of
   * the requested sub-page that exists.
   */
  lemma ResolvedSnapshotExists(objects: map<string, Bytes>, pageNr: nat, subpageNr: nat, target: int, keys: seq<string>)
    requires OnlySnapshotsAndWatermarks(objects)
    requires IsListing(objects, SnapshotDirectoryPrefix(pageNr, subpageNr), keys)
    ensures var selected := LatestAtOrBefore(ListedTimestamps(keys), target);
      selected.Some? ==> TeletextImageStorageKey(pageNr, subpageNr, selected.value) in objects
  {
    var ts := ListedTimestamps(keys);
    var selected := LatestAtOrBefore(ts, target);
    if selected.Some? {
      var i :| 0 <= i < |ts| && ts[i] == Int(selected.value);
      assert keys[i] in MatchingKeys(objects, SnapshotDirectoryPrefix(pageNr, subpageNr));
      var t := ListedKeyIsSnapshot(objects, pageNr, subpageNr, keys[i]);
      StorageKeyRoundTrip(pageNr, subpageNr, t);
    }
  }

  /** In such a bucket, every key under a sub-page's directory with its trailing `/` is a snapshot of that sub-page. */
  lemma ListedKeyIsSnapshot(objects: map<string, Bytes>, pageNr: nat, subpageNr: nat, k: string) returns (t: nat)
    requires OnlySnapshotsAndWatermarks(objects)
    requires k in objects && HasPrefix(SnapshotDirectoryPrefix(pageNr, subpageNr), k)
    ensures k == TeletextImageStorageKey(pageNr, subpageNr, t)
  {
    if exists q :: k == LastTimestampFileName(q) {
      var q :| k == LastTimestampFileName(q);
      WatermarkNotUnderSnapshotPrefix(pageNr, subpageNr, q);
      assert false;
    }
    var p', s', t' :| k == TeletextImageStorageKey(p', s', t');
    SnapshotPrefixSeparatesSubpages(pageNr, subpageNr, p', s', t');
    t := t';
  }
}
