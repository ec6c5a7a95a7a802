/**
 * Snapshot storage: the deterministic object keys of sub-page snapshots and
 * of per-page watermarks, the public URL of a snapshot, and the bucket
 * operations (store an image, store and read a watermark, list the
 * timestamps stored for a sub-page), with the bucket modelled as a map from
 * object key to body.
 */
module ImageStorage {
  import opened Wrappers
  import opened Text

  /** The last path segment of a page's watermark object. */
  const LastTimestampKey := "LAST_TS"

  /** `${pageNr}/${subpageNr}`: the directory of a sub-page's snapshots, also the listing prefix. */
  function TargetDirectoryName(pageNr: nat, subpageNr: nat): string {
    NatToString(pageNr) + "/" + NatToString(subpageNr)
  }

  /** The sub-page's directory with its trailing `/`: a listing prefix no other sub-page shares. */
  function SnapshotDirectoryPrefix(pageNr: nat, subpageNr: nat): string {
    TargetDirectoryName(pageNr, subpageNr) + "/"
  }

  /** `teletextImageStorageKey`: the key of the snapshot of a sub-page taken at `timestamp`. */
  function TeletextImageStorageKey(pageNr: nat, subpageNr: nat, timestamp: nat): string {
    TargetDirectoryName(pageNr, subpageNr) + "/" + NatToString(timestamp) + ".png"
  }

  /** `lastTimestampFileName`: the key of a page's watermark object. */
  function LastTimestampFileName(pageNr: nat): string {
    NatToString(pageNr) + "/" + LastTimestampKey
  }

  /** `imagePublicUrl`: where a snapshot is served from the bucket's public host. */
  function ImagePublicUrl(hostname: string, pageNr: nat, subpageNr: nat, timestamp: nat): string {
    "https://" + hostname + "/" + TeletextImageStorageKey(pageNr, subpageNr, timestamp)
  }

  /**
   * The timestamp read back from a listed key: the last `/` segment, cut at
   * its first `.`, then `parseInt`. Unparsable names give `NaN`.
   */
  function KeyTimestamp(key: string): ParsedInt {
    ParseInt(FirstSegment(LastSegment(key, '/'), '.'))
  }

  /** `key.startsWith(prefix)`, the filter of a prefix listing. */
  predicate HasPrefix(prefix: string, key: string) {
    |prefix| <= |key| && key[..|prefix|] == prefix
  }

  lemma StorageKeyShape(pageNr: nat, subpageNr: nat, timestamp: nat)
    ensures TeletextImageStorageKey(pageNr, subpageNr, timestamp)
      == TargetDirectoryName(pageNr, subpageNr) + ['/'] + (NatToString(timestamp) + ['.'] + "png")
  {
  }

  /**
   * A snapshot key is listed under its sub-page's prefix and its name parses
   * back to the timestamp it was written with.
   */
  lemma StorageKeyRoundTrip(pageNr: nat, subpageNr: nat, timestamp: nat)
    ensures HasPrefix(TargetDirectoryName(pageNr, subpageNr), TeletextImageStorageKey(pageNr, subpageNr, timestamp))
    ensures KeyTimestamp(TeletextImageStorageKey(pageNr, subpageNr, timestamp)) == Int(timestamp)
  {
    var digits := NatToString(timestamp);
    StorageKeyShape(pageNr, subpageNr, timestamp);
    assert '/' !in digits + ['.'] + "png" by {
      assert forall i :: 0 <= i < |digits| ==> digits[i] != '/';
    }
    LastSegmentAfterSeparator(TargetDirectoryName(pageNr, subpageNr), '/', digits + ['.'] + "png");
    assert '.' !in digits by {
      assert forall i :: 0 <= i < |digits| ==> digits[i] != '.';
    }
    FirstSegmentBeforeSeparator(digits, '.', "png");
    ParseIntOfNatToString(timestamp, []);
    assert digits + [] == digits;
  }

  /** A key without an extension parses too: `100/1/200` gives 200. */
  lemma KeyWithoutExtensionExample()
    ensures KeyTimestamp("100/1/200") == Int(200)
  {
    assert "100/1/200" == "100/1" + ['/'] + "200";
    LastSegmentAfterSeparator("100/1", '/', "200");
    assert FirstSegment("200", '.') == "200";
    assert NatToString(200) == "200" by {
      assert NatToString(2) == "2";
      assert NatToString(20) == "20";
    }
    ParseIntOfNatToString(200, []);
    assert "200" + [] == "200";
  }

  /** Different (page, sub-page, timestamp) triples never share a snapshot key. */
  lemma StorageKeyInjective(p: nat, s: nat, t: nat, p': nat, s': nat, t': nat)
    requires TeletextImageStorageKey(p, s, t) == TeletextImageStorageKey(p', s', t')
    ensures p == p' && s == s' && t == t'
  {
    var np, ns, nt := NatToString(p), NatToString(s), NatToString(t);
    var np', ns', nt' := NatToString(p'), NatToString(s'), NatToString(t');
    var tail, tail' := nt + ".png", nt' + ".png";
    assert np == np' && ns + ['/'] + tail == ns' + ['/'] + tail' by {
      assert TeletextImageStorageKey(p, s, t) == np + ['/'] + (ns + ['/'] + tail);
      assert TeletextImageStorageKey(p', s', t') == np' + ['/'] + (ns' + ['/'] + tail');
      NoCharInDigits(np, '/');
      NoCharInDigits(np', '/');
      SplitAtFirstSeparator(np, ns + ['/'] + tail, np', ns' + ['/'] + tail', '/');
    }
    assert ns == ns' && tail == tail' by {
      NoCharInDigits(ns, '/');
      NoCharInDigits(ns', '/');
      SplitAtFirstSeparator(ns, tail, ns', tail', '/');
    }
    assert nt == nt' by {
      assert nt == tail[..|nt|] && nt' == tail'[..|nt'|];
    }
    NatToStringInjective(p, p');
    NatToStringInjective(s, s');
    NatToStringInjective(t, t');
  }

  /** The watermark key is never a snapshot key: it ends in `LAST_TS`, a snapshot key in `.png`. */
  lemma WatermarkKeyIsNotStorageKey(p: nat, q: nat, s: nat, t: nat)
    ensures LastTimestampFileName(p) != TeletextImageStorageKey(q, s, t)
  {
    var w, k := LastTimestampFileName(p), TeletextImageStorageKey(q, s, t);
    assert w[|w| - 1] == 'S';
    assert k[|k| - 1] == 'g';
  }

  /** Distinct pages have distinct watermark keys. */
  lemma WatermarkKeyInjective(p: nat, q: nat)
    requires LastTimestampFileName(p) == LastTimestampFileName(q)
    ensures p == q
  {
    NoCharInDigits(NatToString(p), '/');
    NoCharInDigits(NatToString(q), '/');
    SplitAtFirstSeparator(NatToString(p), LastTimestampKey, NatToString(q), LastTimestampKey, '/');
    NatToStringInjective(p, q);
  }

  /**
   * The listing prefix has no trailing `/`: for a sub-page `s >= 1`, the
   * snapshots of sub-pages `10 * s` to `10 * s + 9` are listed under `s`'s
   * prefix too.
   */
  lemma ListingPrefixAlsoMatchesLongerSubpages(p: nat, s: nat, d: nat, t: nat)
    requires 1 <= s && d < 10
    ensures HasPrefix(TargetDirectoryName(p, s), TeletextImageStorageKey(p, 10 * s + d, t))
  {
    assert NatToString(10 * s + d) == NatToString(s) + [DigitChar(d)];
    var prefix := TargetDirectoryName(p, s);
    var key := TeletextImageStorageKey(p, 10 * s + d, t);
    assert key == prefix + ([DigitChar(d)] + "/" + NatToString(t) + ".png");
    assert key[..|prefix|] == prefix;
  }

  /**
   * Listing under the directory with its trailing `/` separates sub-pages: a
   * snapshot key has that prefix exactly when it is a snapshot of that page
   * and sub-page.
   */
  lemma SnapshotPrefixSeparatesSubpages(p: nat, s: nat, p': nat, s': nat, t: nat)
    ensures HasPrefix(SnapshotDirectoryPrefix(p, s), TeletextImageStorageKey(p', s', t)) <==> p == p' && s == s'
  {
    SnapshotPrefixOfOwnKey(p, s, t);
    if HasPrefix(SnapshotDirectoryPrefix(p, s), TeletextImageStorageKey(p', s', t)) {
      SnapshotPrefixOnlyOwnKeys(p, s, p', s', t);
    }
  }

  lemma SnapshotPrefixOfOwnKey(p: nat, s: nat, t: nat)
    ensures HasPrefix(SnapshotDirectoryPrefix(p, s), TeletextImageStorageKey(p, s, t))
  {
    assert TeletextImageStorageKey(p, s, t) == SnapshotDirectoryPrefix(p, s) + (NatToString(t) + ".png");
  }

  lemma SnapshotPrefixOnlyOwnKeys(p: nat, s: nat, p': nat, s': nat, t: nat)
    requires HasPrefix(SnapshotDirectoryPrefix(p, s), TeletextImageStorageKey(p', s', t))
    ensures p == p' && s == s'
  {
    var prefix := SnapshotDirectoryPrefix(p, s);
    var key := TeletextImageStorageKey(p', s', t);
    var np, ns, np', ns' := NatToString(p), NatToString(s), NatToString(p'), NatToString(s');
    var tail := NatToString(t) + ".png";
    var rest := key[|prefix|..];
    assert np + ['/'] + (ns + ['/'] + rest) == np' + ['/'] + (ns' + ['/'] + tail) by {
      assert key == np' + ['/'] + (ns' + ['/'] + tail);
      assert key == prefix + rest;
      assert prefix + rest == np + ['/'] + (ns + ['/'] + rest);
    }
    assert np == np' && ns + ['/'] + rest == ns' + ['/'] + tail by {
      NoCharInDigits(np, '/');
      NoCharInDigits(np', '/');
      SplitAtFirstSeparator(np, ns + ['/'] + rest, np', ns' + ['/'] + tail, '/');
    }
    assert ns == ns' by {
      NoCharInDigits(ns, '/');
      NoCharInDigits(ns', '/');
      SplitAtFirstSeparator(ns, rest, ns', tail, '/');
    }
    NatToStringInjective(p, p');
    NatToStringInjective(s, s');
  }

  /** No watermark key is listed under a sub-page's directory with its trailing `/`. */
  lemma WatermarkNotUnderSnapshotPrefix(p: nat, s: nat, q: nat)
    ensures !HasPrefix(SnapshotDirectoryPrefix(p, s), LastTimestampFileName(q))
  {
    var prefix := SnapshotDirectoryPrefix(p, s);
    var mark := LastTimestampFileName(q);
    if HasPrefix(prefix, mark) {
      var np, ns, nq := NatToString(p), NatToString(s), NatToString(q);
      var rest := mark[|prefix|..];
      NoCharInDigits(np, '/');
      NoCharInDigits(nq, '/');
      assert np + ['/'] + (ns + ['/'] + rest) == nq + ['/'] + LastTimestampKey by {
        assert mark == prefix + rest;
        assert prefix + rest == np + ['/'] + (ns + ['/'] + rest);
      }
      assert (ns + ['/'] + rest)[0] == ns[0];
      SplitAtFirstSeparator(np, ns + ['/'] + rest, nq, LastTimestampKey, '/');
      assert false;
    }
  }

  /** The public URL is the bucket host followed by the snapshot key, and its file name parses back to the timestamp. */
  lemma PublicUrlRoundTrip(hostname: string, pageNr: nat, subpageNr: nat, timestamp: nat)
    ensures var url := ImagePublicUrl(hostname, pageNr, subpageNr, timestamp);
      var key := TeletextImageStorageKey(pageNr, subpageNr, timestamp);
      && HasPrefix("https://" + hostname + "/", url)
      && url[|"https://" + hostname + "/"|..] == key
      && KeyTimestamp(url) == Int(timestamp)
  {
    var key := TeletextImageStorageKey(pageNr, subpageNr, timestamp);
    var digits := NatToString(timestamp);
    var url := ImagePublicUrl(hostname, pageNr, subpageNr, timestamp);
    StorageKeyShape(pageNr, subpageNr, timestamp);
    assert url == ("https://" + hostname + "/" + TargetDirectoryName(pageNr, subpageNr)) + ['/'] + (digits + ['.'] + "png");
    NoCharInDigits(digits, '/');
    NoCharInDigits(digits, '.');
    LastSegmentAfterSeparator("https://" + hostname + "/" + TargetDirectoryName(pageNr, subpageNr), '/', digits + ['.'] + "png");
    FirstSegmentBeforeSeparator(digits, '.', "png");
    ParseIntOfNatToString(timestamp, []);
    assert digits + [] == digits;
  }

  /** The snapshot key of the examples: sub-page 1 of page 100 at 1000. */
  lemma StorageKeyExample()
    ensures TeletextImageStorageKey(100, 1, 1000) == "100/1/1000.png"
  {
    DecimalExamples();
    assert TargetDirectoryName(100, 1) == "100/1";
  }

  /** The watermark key of page 100. */
  lemma WatermarkKeyExample()
    ensures LastTimestampFileName(100) == "100/LAST_TS"
  {
    DecimalExamples();
  }

  /** The public URL of sub-page 1 of page 100 at 500, on host `qux`. */
  lemma PublicUrlExample()
    ensures ImagePublicUrl("qux", 100, 1, 500) == "https://qux/100/1/500.png"
  {
    DecimalExamples();
    assert TeletextImageStorageKey(100, 1, 500) == "100/1/500.png" by {
      assert TargetDirectoryName(100, 1) == "100/1";
    }
  }

  /** The body a watermark is stored with: `timestamp.toString()` as text. */
  function WatermarkBody(timestamp: nat): Bytes {
    DigitsAreAscii(NatToString(timestamp));
    EncodeAscii(NatToString(timestamp))
  }

  /**
   * What `findLastStoredTimestamp` returns for a bucket's contents: `None`
   * (JavaScript's `undefined`) when the watermark object is missing or its
   * body is empty, and otherwise `parseInt` of its text.
   */
  function StoredWatermark(objects: map<string, Bytes>, pageNr: nat): (r: Option<ParsedInt>)
    ensures r.None? <==> LastTimestampFileName(pageNr) !in objects || objects[LastTimestampFileName(pageNr)] == []
    ensures r.Some? ==> (LastTimestampFileName(pageNr) in objects
      && r.value == ParseInt(DecodeBytes(objects[LastTimestampFileName(pageNr)])))
  {
    var key := LastTimestampFileName(pageNr);
    if key !in objects then None
    else
      var text := DecodeBytes(objects[key]);
      if text == "" then None else Some(ParseInt(text))
  }

  /** Storing a watermark and reading it back gives the stored timestamp. */
  lemma WatermarkRoundTrip(objects: map<string, Bytes>, pageNr: nat, timestamp: nat)
    ensures StoredWatermark(objects[LastTimestampFileName(pageNr) := WatermarkBody(timestamp)], pageNr)
      == Some(Int(timestamp))
  {
    var text := NatToString(timestamp);
    DigitsAreAscii(text);
    DecodeEncodeAscii(text);
    ParseIntOfNatToString(timestamp, []);
    assert text + [] == text;
  }

  /** Storing a snapshot leaves every page's watermark as it was. */
  lemma StoringImageKeepsWatermarks(objects: map<string, Bytes>, pageNr: nat, q: nat, s: nat, t: nat, data: Bytes)
    ensures StoredWatermark(objects[TeletextImageStorageKey(q, s, t) := data], pageNr) == StoredWatermark(objects, pageNr)
  {
    WatermarkKeyIsNotStorageKey(pageNr, q, s, t);
  }

  /** Storing one page's watermark leaves the other pages' watermarks as they were. */
  lemma StoringWatermarkKeepsOtherPages(objects: map<string, Bytes>, pageNr: nat, q: nat, t: nat)
    requires pageNr != q
    ensures StoredWatermark(objects[LastTimestampFileName(q) := WatermarkBody(t)], pageNr) == StoredWatermark(objects, pageNr)
  {
    if LastTimestampFileName(q) == LastTimestampFileName(pageNr) {
      WatermarkKeyInjective(q, pageNr);
    }
  }

  /** The keys a prefix listing of the bucket returns. */
  ghost function MatchingKeys(objects: map<string, Bytes>, prefix: string): set<string> {
    set k | k in objects && HasPrefix(prefix, k)
  }

  /** `keys` lists every key with the prefix exactly once, in some order. */
  ghost predicate IsListing(objects: map<string, Bytes>, prefix: string, keys: seq<string>) {
    && (forall i, j :: 0 <= i < j < |keys| ==> keys[i] != keys[j])
    && (forall k :: k in keys <==> k in MatchingKeys(objects, prefix))
  }

  /** Two listings of the same keys differ at most in their order. */
  lemma ListingsArePermutations(objects: map<string, Bytes>, prefix: string, keys: seq<string>, keys': seq<string>)
    requires IsListing(objects, prefix, keys) && IsListing(objects, prefix, keys')
    ensures multiset(keys) == multiset(keys')
  {
    DistinctMultiset(keys);
    DistinctMultiset(keys');
    assert forall k :: k in keys <==> k in keys';
  }

  lemma {:induction false} DistinctMultiset(keys: seq<string>)
    requires forall i, j :: 0 <= i < j < |keys| ==> keys[i] != keys[j]
    ensures forall k :: multiset(keys)[k] == if k in keys then 1 else 0
  {
    if keys != [] {
      var last := keys[|keys| - 1];
      var init := keys[..|keys| - 1];
      assert keys == init + [last];
      DistinctMultiset(init);
      assert last !in init;
      forall k ensures multiset(keys)[k] == if k in keys then 1 else 0 {
        assert multiset(keys) == multiset(init) + multiset{last};
        assert k in keys <==> k in init || k == last;
      }
    }
  }

  /** The timestamps read back from a listing, one per key, in listing order. */
  function ListedTimestamps(keys: seq<string>): (ts: seq<ParsedInt>)
    ensures |ts| == |keys|
  {
    MapSeq(keys, KeyTimestamp)
  }

  /** Listings that are permutations of each other give timestamps that are too. */
  lemma ListedTimestampsPermutation(keys: seq<string>, keys': seq<string>)
    requires multiset(keys) == multiset(keys')
    ensures multiset(ListedTimestamps(keys)) == multiset(ListedTimestamps(keys'))
  {
    MapSeqPermutation(keys, keys', KeyTimestamp);
  }

  /** `f` applied to each element of `xs`, in order. */
  function MapSeq<A, B>(xs: seq<A>, f: A -> B): (ys: seq<B>)
    ensures |ys| == |xs|
  {
    seq(|xs|, i requires 0 <= i < |xs| => f(xs[i]))
  }

  lemma {:induction false} MapSeqPermutation<A, B>(xs: seq<A>, ys: seq<A>, f: A -> B)
    requires multiset(xs) == multiset(ys)
    ensures multiset(MapSeq(xs, f)) == multiset(MapSeq(ys, f))
    decreases |xs|
  {
    if xs != [] {
      var x := xs[0];
      assert x in multiset(ys);
      var j :| 0 <= j < |ys| && ys[j] == x;
      var rest, rest' := xs[1..], ys[..j] + ys[j + 1..];
      RemoveOne(xs, ys, j);
      MapSeqPermutation(rest, rest', f);
      assert multiset(MapSeq(xs, f)) == multiset{f(x)} + multiset(MapSeq(rest, f)) by {
        MapSeqRemove(xs, 0, f);
        assert xs[..0] + xs[1..] == rest;
      }
      assert multiset(MapSeq(ys, f)) == multiset{f(x)} + multiset(MapSeq(rest', f)) by {
        MapSeqRemove(ys, j, f);
      }
    } else {
      assert |ys| == |multiset(ys)| == 0;
    }
  }

  lemma MapSeqRemove<A, B>(xs: seq<A>, j: nat, f: A -> B)
    requires j < |xs|
    ensures multiset(MapSeq(xs, f)) == multiset{f(xs[j])} + multiset(MapSeq(xs[..j] + xs[j + 1..], f))
  {
    var t := MapSeq(xs, f);
    MapSeqAppend(xs[..j], xs[j + 1..], f);
    MapSeqSlice(xs, 0, j, f);
    MapSeqSlice(xs, j + 1, |xs|, f);
    assert xs[0..j] == xs[..j] && xs[j + 1..|xs|] == xs[j + 1..];
    assert t[0..j] == t[..j] && t[j + 1..|xs|] == t[j + 1..];
    MultisetWithout(t, j);
  }

  lemma MapSeqSlice<A, B>(xs: seq<A>, i: nat, j: nat, f: A -> B)
    requires i <= j <= |xs|
    ensures MapSeq(xs, f)[i..j] == MapSeq(xs[i..j], f)
  {
    var l, r := MapSeq(xs, f)[i..j], MapSeq(xs[i..j], f);
    forall k | 0 <= k < j - i ensures l[k] == r[k] {
      assert xs[i..j][k] == xs[i + k];
    }
  }

  lemma MapSeqAppend<A, B>(a: seq<A>, b: seq<A>, f: A -> B)
    ensures MapSeq(a + b, f) == MapSeq(a, f) + MapSeq(b, f)
  {
    var l, r := MapSeq(a + b, f), MapSeq(a, f) + MapSeq(b, f);
    assert |l| == |r|;
    forall i | 0 <= i < |l| ensures l[i] == r[i] {
      if i < |a| {
        assert (a + b)[i] == a[i];
      } else {
        assert (a + b)[i] == b[i - |a|];
      }
    }
  }

  lemma MultisetWithout<T>(s: seq<T>, j: nat)
    requires j < |s|
    ensures multiset(s) == multiset{s[j]} + multiset(s[..j] + s[j + 1..])
  {
    assert s == s[..j] + [s[j]] + s[j + 1..];
  }

  lemma RemoveOne<T>(xs: seq<T>, ys: seq<T>, j: nat)
    requires xs != [] && j < |ys| && ys[j] == xs[0]
    requires multiset(xs) == multiset(ys)
    ensures multiset(xs[1..]) == multiset(ys[..j] + ys[j + 1..])
  {
    var x := xs[0];
    var rest := ys[..j] + ys[j + 1..];
    assert xs == [x] + xs[1..];
    assert ys == ys[..j] + [x] + ys[j + 1..];
    assert multiset(xs) == multiset{x} + multiset(xs[1..]);
    assert multiset(ys) == multiset(ys[..j]) + multiset{x} + multiset(ys[j + 1..]);
    assert multiset(rest) == multiset(ys[..j]) + multiset(ys[j + 1..]);
    forall y ensures multiset(xs[1..])[y] == multiset(rest)[y] {
      assert multiset(xs)[y] == multiset{x}[y] + multiset(xs[1..])[y];
      assert multiset(ys)[y] == multiset{x}[y] + multiset(rest)[y];
    }
  }

  /** The S3 bucket that holds the snapshots and watermarks. */
  class Bucket {
    var objects: map<string, Bytes>

    constructor (objects: map<string, Bytes>)
      ensures this.objects == objects
    {
      this.objects := objects;
    }

    /** `storeTeletextImage`: writes the image under its snapshot key. */
    method StoreTeletextImage(pageNr: nat, subpageNr: nat, timestamp: nat, imageData: Bytes)
      modifies this
      ensures objects == old(objects)[TeletextImageStorageKey(pageNr, subpageNr, timestamp) := imageData]
    {
      objects := objects[TeletextImageStorageKey(pageNr, subpageNr, timestamp) := imageData];
    }

    /** `storeLastTimestamp`: writes the page's watermark. */
    method StoreLastTimestamp(pageNr: nat, timestamp: nat)
      modifies this
      ensures objects == old(objects)[LastTimestampFileName(pageNr) := WatermarkBody(timestamp)]
      ensures StoredWatermark(objects, pageNr) == Some(Int(timestamp))
    {
      objects := objects[LastTimestampFileName(pageNr) := WatermarkBody(timestamp)];
      WatermarkRoundTrip(old(objects), pageNr, timestamp);
    }

    /** `findLastStoredTimestamp`: the page's watermark, `None` when never stored or empty. */
    method FindLastStoredTimestamp(pageNr: nat) returns (r: Option<ParsedInt>)
      ensures r.None? <==> LastTimestampFileName(pageNr) !in objects || objects[LastTimestampFileName(pageNr)] == []
      ensures r == StoredWatermark(objects, pageNr)
    {
      var key := LastTimestampFileName(pageNr);
      if key !in objects {
        return None;
      }
      var text := DecodeBytes(objects[key]);
      if text == "" {
        return None;
      }
      return Some(ParseInt(text));
    }

    /** A prefix listing (`ListObjectsV2`): every key with the prefix, once each, in an order the model leaves open. */
    method ListObjects(prefix: string) returns (keys: seq<string>)
      ensures IsListing(objects, prefix, keys)
    {
      var remaining := set k | k in objects && HasPrefix(prefix, k);
      keys := [];
      while remaining != {}
        invariant forall k :: k in keys || k in remaining <==> k in MatchingKeys(objects, prefix)
        invariant forall k :: k in keys ==> k !in remaining
        invariant forall i, j :: 0 <= i < j < |keys| ==> keys[i] != keys[j]
        decreases remaining
      {
        var k :| k in remaining;
        keys := keys + [k];
        remaining := remaining - {k};
      }
    }

    /**
     * One parsed timestamp per object listed under `prefix`, in listing
     * order; nothing listed gives the empty sequence. The listing seen is
     * returned as a ghost.
     */
    method ListTimestamps(prefix: string) returns (timestamps: seq<ParsedInt>, ghost keys: seq<string>)
      ensures IsListing(objects, prefix, keys)
      ensures |timestamps| == |keys|
      ensures forall i :: 0 <= i < |keys| ==> timestamps[i] == KeyTimestamp(keys[i])
      ensures timestamps == [] <==> MatchingKeys(objects, prefix) == {}
    {
      var contents := ListObjects(prefix);
      keys := contents;
      if contents == [] {
        return [], keys;
      }
      timestamps := ListedTimestamps(contents);
      assert contents[0] in MatchingKeys(objects, prefix);
    }

    /**
     * `fetchAvailableTimestamps` as written: lists under `${pageNr}/${subpageNr}`,
     * a prefix that sub-pages `10 * subpageNr + d` share.
     */
    method FetchAvailableTimestamps(pageNr: nat, subpageNr: nat) returns (timestamps: seq<ParsedInt>, ghost keys: seq<string>)
      ensures IsListing(objects, TargetDirectoryName(pageNr, subpageNr), keys)
      ensures |timestamps| == |keys|
      ensures forall i :: 0 <= i < |keys| ==> timestamps[i] == KeyTimestamp(keys[i])
      ensures timestamps == [] <==> MatchingKeys(objects, TargetDirectoryName(pageNr, subpageNr)) == {}
    {
      timestamps, keys := ListTimestamps(TargetDirectoryName(pageNr, subpageNr));
    }

    /** `fetchAvailableTimestamps` listing the sub-page's directory only, under `${pageNr}/${subpageNr}/`. */
    method FetchSnapshotTimestamps(pageNr: nat, subpageNr: nat) returns (timestamps: seq<ParsedInt>, ghost keys: seq<string>)
      ensures IsListing(objects, SnapshotDirectoryPrefix(pageNr, subpageNr), keys)
      ensures |timestamps| == |keys|
      ensures forall i :: 0 <= i < |keys| ==> timestamps[i] == KeyTimestamp(keys[i])
      ensures timestamps == [] <==> MatchingKeys(objects, SnapshotDirectoryPrefix(pageNr, subpageNr)) == {}
    {
      timestamps, keys := ListTimestamps(SnapshotDirectoryPrefix(pageNr, subpageNr));
    }
  }
}
