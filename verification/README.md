# textyle: teletext snapshot sync and point-in-time lookup

textyle keeps a history of the Finnish broadcaster Yle's teletext pages. A
periodic job walks the chain of teletext pages through Yle's external API,
starting at page 100 and following each page's `nextpg` link. For each page
it compares the page's last-edit timestamp with a per-page *watermark* stored
in an S3 bucket under `<page>/LAST_TS`. When the page is newer, it downloads
the PNG image of every sub-page and stores it under
`<page>/<subpage>/<timestamp>.png`, then writes the new watermark. A lookup
lists the stored snapshots of a sub-page and returns the public URL of the
latest one taken at or before a requested point in time.

The Dafny project models the four core files:

- `teletext_client.dfy` (module `TeletextClient`) models the API client.
  - It builds the page-data and image URLs, which always carry the
    `app_id`/`app_key` credentials.
  - It models the error hierarchy and the three-way classification of a
    failed request: no HTTP status rethrows the failure; 404 gives
    `TeletextPageNotFoundError`; any other status gives
    `TeletextPageAPIError`.
  - The remote API is a value (`Remote`): what each page and sub-page request
    answers. A request that is not in the map fails with 404.
- `image_storage.dfy` (module `ImageStorage`) models the bucket.
  - Key layout, the public URL, the watermark's encoding, and parsing
    timestamps back out of listed keys.
  - A `Bucket` class holds the bucket's objects as a `map` that its methods
    update.
  - Listing returns the matching keys in an unspecified order.
  - Listing a sub-page's snapshots is modelled twice. One version uses the
    source's prefix `<p>/<s>`, which also matches sub-pages `10s..10s+9`. The
    other uses the corrected prefix `<p>/<s>/` (see Findings).
- `image_finder.dfy` (module `ImageFinder`) models the point-in-time lookup.
  - The listed timestamps are copied into an array, sorted in place in
    descending order and scanned for the first one not after the target.
  - It is proved to return the maximum such timestamp, whatever order the
    listing came in. The model's sort puts `NaN` last; when a listed filename
    parses to `NaN`, the source's sort order is engine-defined and its
    selection can miss the maximum (see Left out).
  - `ResolveTeletextPageImageUrlAt` lists under the source's prefix, as
    written. `ResolveSnapshotUrlAt` lists under the corrected prefix, and
    with it the selected snapshot is proved to exist.
- `updater.dfy` (module `Updater`) models the sync.
  - `StoreTeletextImagesIfNewer` syncs one page.
  - `FindAndStoreNewTeletextImages` walks the chain of pages.
  - Both record every API and bucket call they make, in order, so that call
    counts and ordering can be stated. They are proved equal to the
    specification functions `Sync` and `Walk`, and the properties are proved
    about those functions.
- `text.dfy` (module `Text`) holds the JavaScript string behaviour the core
  relies on:
  - decimal printing of numbers;
  - `parseInt` on a leading run of digits, with `NaN` and truthiness;
  - `split(sep).pop()` and `split(sep)[0]`;
  - ASCII encoding of bodies.
- `wrappers.dfy` holds `Option` and `Result`.

## Model

| member | source | states |
|---|---|---|
| `Text.ParseInt` | src/yle_teletext_image_storage.ts:87 | `parseInt` gives `NaN` exactly when the string is empty or does not start with a digit |
| `Text.ParseIntOfNatToString` | src/yle_teletext_image_storage.ts:61-87 | parsing a number's decimal text gives the number back, even when a non-digit suffix such as `.png` follows |
| `Text.NatToStringInjective` | src/yle_teletext_image_storage.ts:16-19 | different numbers have different decimal texts |
| `Text.LastSegment` | src/yle_teletext_image_storage.ts:115 | `split(sep).pop()` is the suffix after the last separator and holds no separator |
| `Text.FirstSegment` | src/yle_teletext_image_storage.ts:116 | `split(sep)[0]` is the prefix before the first separator and holds no separator |
| `Text.LastSegmentAfterSeparator` | src/yle_teletext_image_storage.ts:115 | the last segment of `a + sep + b` is `b` when `b` has no separator |
| `Text.FirstSegmentBeforeSeparator` | src/yle_teletext_image_storage.ts:116 | the first segment of `a + sep + b` is `a` when `a` has no separator |
| `Text.DecodeEncodeAscii` | src/yle_teletext_image_storage.ts:83 | decoding the bytes of an ASCII text gives the text back |
| `TeletextClient.YleApiUrl` | src/yle_teletext_client.ts:16-22 | the URL keeps the path and origin and carries `app_id` and `app_key` set to the credentials |
| `TeletextClient.PageDataUrlCarriesCredentials` | src/yle_teletext_client.ts:84-86 | a page's metadata URL is on the API origin, at `/v1/teletext/pages/<p>.json`, with both credentials |
| `TeletextClient.PageImageUrlCarriesCredentials` | src/yle_teletext_client.ts:94-96 | a sub-page's image URL is on the API origin, at `/v1/teletext/images/<p>/<s>.png`, with both credentials |
| `TeletextClient.UrlExamples` | src/yle_teletext_client.ts:26-27 | page 100's data URL path is `/v1/teletext/pages/100.json` and its sub-page 1 image path is `/v1/teletext/images/100/1.png` |
| `TeletextClient.PageImageUrlInjective` | src/yle_teletext_client.ts:94-96 | two image URLs are equal only for the same page and sub-page |
| `TeletextClient.RecordedSubpage` | src/yle_teletext_client.ts:63-65 | an error records a sub-page number only when one is given and it is truthy (non-zero) |
| `TeletextClient.ClassifyPageDataFailure` | src/yle_teletext_client.ts:107-117 | a failure with no (or zero) status is rethrown unchanged; otherwise it becomes a `TeletextPageAPIError` for the page, which is a `TeletextPageNotFoundError` exactly when the status is 404, with the URL; the message names the page and, for other statuses, the HTTP status, word for word as the source builds it |
| `TeletextClient.ClassifyPageImageFailure` | src/yle_teletext_client.ts:130-140 | the same classification for a sub-page image request, recording page and sub-page in the error and naming both, and the status, in the source's message |
| `TeletextClient.ImageNotFoundExample` | src/yle_teletext_client.ts:136-137 | a 404 for page 100 sub-page 1 is a `TeletextPageNotFoundError` naming page 100 and sub-page 1 |
| `TeletextClient.PageData` | src/yle_teletext_client.ts:103-118 | an answered page request returns its metadata; a failed one fails with the error `ClassifyPageDataFailure` gives for its failure; a page the API does not know fails with `TeletextPageNotFoundError` |
| `TeletextClient.PageImage` | src/yle_teletext_client.ts:126-141 | an answered image request returns its bytes; a failed one fails with the error `ClassifyPageImageFailure` gives for its failure; an unknown sub-page fails with `TeletextPageNotFoundError` |
| `ImageStorage.StorageKeyShape` | src/yle_teletext_image_storage.ts:16-19 | a snapshot key is `<page>/<subpage>/<timestamp>.png`, inside the sub-page's directory |
| `ImageStorage.StorageKeyRoundTrip` | src/yle_teletext_image_storage.ts:102-116 | a snapshot key starts with its sub-page's listing prefix, and the listing's filename parsing recovers its timestamp |
| `ImageStorage.KeyWithoutExtensionExample` | src/yle_teletext_image_storage.ts:116 | a listed key without an extension, `100/1/200`, still parses to 200 |
| `ImageStorage.StorageKeyInjective` | src/yle_teletext_image_storage.ts:16-19 | different page, sub-page or timestamp give different snapshot keys |
| `ImageStorage.WatermarkKeyIsNotStorageKey` | src/yle_teletext_image_storage.ts:27-29 | no watermark key is ever a snapshot key |
| `ImageStorage.WatermarkKeyInjective` | src/yle_teletext_image_storage.ts:27-29 | different pages have different watermark keys |
| `ImageStorage.ListingPrefixAlsoMatchesLongerSubpages` | src/yle_teletext_image_storage.ts:103-106 | the listing prefix `<p>/<s>` also matches the snapshots of sub-page `10s + d` (see Findings) |
| `ImageStorage.SnapshotPrefixSeparatesSubpages` | src/yle_teletext_image_storage.ts:16-19 | under the corrected prefix `<p>/<s>/` a snapshot key is listed exactly when it belongs to page `p`, sub-page `s` (see Findings) |
| `ImageStorage.WatermarkNotUnderSnapshotPrefix` | src/yle_teletext_image_storage.ts:27-29 | no watermark key is listed under the corrected prefix `<p>/<s>/` |
| `ImageStorage.PublicUrlRoundTrip` | src/yle_teletext_image_storage.ts:119-122 | the public URL is `https://<host>/` followed by the snapshot key, and its last path segment parses back to the timestamp |
| `ImageStorage.StorageKeyExample` | src/yle_teletext_image_storage.ts:16-19 | sub-page 1 of page 100 at 1000 is stored under `100/1/1000.png` |
| `ImageStorage.WatermarkKeyExample` | src/yle_teletext_image_storage.ts:27-29 | page 100's watermark is stored under `100/LAST_TS` |
| `ImageStorage.PublicUrlExample` | src/yle_teletext_image_storage.ts:119-122 | sub-page 1 of page 100 at 500 is served from `https://qux/100/1/500.png` on host `qux` |
| `ImageStorage.StoredWatermark` | src/yle_teletext_image_storage.ts:72-94 | there is no watermark exactly when the watermark object is missing or empty; otherwise it is the object's body, decoded as text and parsed by `parseInt` |
| `ImageStorage.WatermarkRoundTrip` | src/yle_teletext_image_storage.ts:57-87 | after storing timestamp `t` as the watermark, reading it gives `t` |
| `ImageStorage.StoringImageKeepsWatermarks` | src/yle_teletext_image_storage.ts:40-49 | storing a snapshot leaves every page's watermark as it was |
| `ImageStorage.StoringWatermarkKeepsOtherPages` | src/yle_teletext_image_storage.ts:57-64 | storing one page's watermark leaves every other page's watermark as it was |
| `ImageStorage.ListingsArePermutations` | src/yle_teletext_image_storage.ts:103-110 | any two listings of the same prefix hold the same keys, so they differ only in order |
| `ImageStorage.ListedTimestampsPermutation` | src/yle_teletext_image_storage.ts:115-116 | listings that are permutations of each other give timestamp lists that are permutations of each other |
| `ImageStorage.Bucket.constructor` | src/yle_teletext_image_storage.ts:4-7 | a bucket starts with the given objects |
| `ImageStorage.Bucket.StoreTeletextImage` | src/yle_teletext_image_storage.ts:40-49 | the image is put under its snapshot key and nothing else changes |
| `ImageStorage.Bucket.StoreLastTimestamp` | src/yle_teletext_image_storage.ts:57-64 | the page's watermark object becomes the timestamp's decimal text, and reading it back gives the timestamp |
| `ImageStorage.Bucket.FindLastStoredTimestamp` | src/yle_teletext_image_storage.ts:72-94 | returns nothing exactly when the watermark is missing or empty, otherwise its parsed value; the bucket is unchanged |
| `ImageStorage.Bucket.ListObjects` | src/yle_teletext_image_storage.ts:103-110 | returns every key with the prefix exactly once, in some order |
| `ImageStorage.Bucket.ListTimestamps` | src/yle_teletext_image_storage.ts:103-116 | lists the keys under a prefix and returns one parsed timestamp per listed key, in listing order; empty exactly when no key matches |
| `ImageStorage.Bucket.FetchAvailableTimestamps` | src/yle_teletext_image_storage.ts:102-117 | as written: one parsed timestamp per key listed under `<p>/<s>`, in listing order; empty exactly when no key matches |
| `ImageStorage.Bucket.FetchSnapshotTimestamps` | src/yle_teletext_image_storage.ts:102-117 | corrected: the same under `<p>/<s>/`, so only the sub-page's own snapshots are listed (see Findings) |
| `ImageFinder.LatestAtOrBefore` | src/yle_teletext_image_finder.ts:17-21 | the result is a listed timestamp not after the target and no smaller than any other such; none exactly when every listed value is after the target or `NaN` |
| `ImageFinder.LatestAtOrBeforeIgnoresOrder` | src/yle_teletext_image_finder.ts:19-21 | the selection depends only on which timestamps are listed, not on their order |
| `ImageFinder.LatestAtOrBeforeIsTheMaximum` | src/yle_teletext_image_finder.ts:21 | the maximum listed timestamp not after the target is the selection |
| `ImageFinder.FindFirstAtMost` | src/yle_teletext_image_finder.ts:21 | `find` fails exactly when no element is at most the target; on a descending list it finds the latest one not after the target |
| `ImageFinder.SelectedUrl` | src/yle_teletext_image_finder.ts:22-27 | a URL exists exactly when a non-zero timestamp was selected, and its filename parses back to that timestamp |
| `ImageFinder.Swap` | src/yle_teletext_image_finder.ts:19 | exchanges two elements of the array; the elements are kept as a multiset |
| `ImageFinder.SortDescending` | src/yle_teletext_image_finder.ts:19 | sorts the array in place, largest first with `NaN` last, keeping it a permutation of its old contents |
| `ImageFinder.UnsortedNaNListingMissesLatest` | src/yle_teletext_image_finder.ts:19-21 | left unsorted, as a `NaN` between them can leave it, `[3, NaN, 5]` makes `find` stop at 3 although 5 is the latest timestamp not after 10 |
| `ImageFinder.SelectFromTimestamps` | src/yle_teletext_image_finder.ts:19-27 | from listed timestamps, in any order, returns the public URL of the latest one not after the target, or nothing when there is none or it is 0 |
| `ImageFinder.ResolveTeletextPageImageUrlAt` | src/yle_teletext_image_finder.ts:17-28 | as written: lists under the source's prefix `<p>/<s>` and returns the public URL of the latest listed timestamp not after the target, or nothing |
| `ImageFinder.ResolveSnapshotUrlAt` | src/yle_teletext_image_finder.ts:17-28 | corrected: the same lookup over the listing under `<p>/<s>/` (see Findings) |
| `ImageFinder.ResolutionIgnoresListingOrder` | src/yle_teletext_image_finder.ts:18-21 | any two listings of the same bucket under the same prefix give the same selection |
| `ImageFinder.ResolutionExamplesFound` | src/yle_teletext_image_finder.test.ts:16-34 | with snapshots 100 to 500, targets 501, 500, 499 and 100 select 500, 500, 400 and 100 |
| `ImageFinder.ResolutionExampleNotFound` | src/yle_teletext_image_finder.test.ts:36-39 | with snapshots 100 to 500, target 99 selects nothing |
| `ImageFinder.AsWrittenListingSelectsOtherSubpage` | src/yle_teletext_image_storage.ts:105 | with the prefix as written, a bucket holding only a snapshot of sub-page 12 taken at 1700 makes a lookup of sub-page 1 at 2000 return the URL of a sub-page 1 snapshot at 1700, which does not exist |
| `ImageFinder.ResolvedSnapshotExists` | src/yle_teletext_image_finder.ts:18-27 | with the corrected prefix, in a bucket that holds only snapshots and watermarks, a selected timestamp is always one at which a snapshot of the requested sub-page exists |
| `ImageFinder.ListedKeyIsSnapshot` | src/yle_teletext_image_storage.ts:103-106 | every key listed under the corrected prefix of such a bucket is a snapshot key of the requested sub-page |
| `Updater.StoreTeletextImagesIfNewer` | src/yle_teletext_updater.ts:15-27 | the calls made, the bucket afterwards and the failure thrown are those of `Sync` |
| `Updater.SubpagesKeepWatermarks` | src/yle_teletext_updater.ts:19-23 | the sub-page loop reads no watermark, writes none, fetches no page data and leaves every watermark as it was |
| `Updater.SubpagesAllFetched` | src/yle_teletext_updater.ts:19-23 | when every image is served, the loop does not fail and fetches the sub-pages in ascending order, each once |
| `Updater.SubpagesAllStored` | src/yle_teletext_updater.ts:19-23 | when every image is served, the loop stores each sub-page's image under `(page, sub-page, timestamp)`, in ascending order, each once |
| `Updater.SubpagesAllInBucket` | src/yle_teletext_updater.ts:19-23 | when every image is served, afterwards the bucket holds each sub-page's image under its snapshot key |
| `Updater.SubpagesKeepKey` | src/yle_teletext_updater.ts:22 | the loop changes no key other than the snapshot keys of its sub-pages |
| `Updater.SubpagesFailureIsLastFetch` | src/yle_teletext_updater.ts:20 | a failed loop ends with the image fetch that threw the failure |
| `Updater.SubpagesWriteOwnPage` | src/yle_teletext_updater.ts:19-23 | every write the sub-page loop makes is a snapshot of its own page at its own timestamp |
| `Updater.SyncWritesOnlyWhenNewer` | src/yle_teletext_updater.ts:16-24 | every write a sync makes is for its own page, at the page's timestamp, and only when that timestamp was newer than the watermark read |
| `Updater.SyncReadsWatermarkOnce` | src/yle_teletext_updater.ts:16 | a sync reads the page's watermark exactly once, as its first call |
| `Updater.SyncUpToDateIsNoOp` | src/yle_teletext_updater.ts:18 | with a truthy watermark not older than the page, a sync reads the watermark and does nothing else |
| `Updater.SyncTwiceIsNoOp` | src/yle_teletext_updater.ts:15-27 | after a successful sync at a non-zero timestamp, syncing again at that timestamp fetches and writes nothing |
| `Updater.SyncNewerFetchesEverySubpage` | src/yle_teletext_updater.ts:18-21 | a newer page with all images served: the sync does not fail and fetches sub-pages `1..n`, in ascending order, each once |
| `Updater.SyncNewerStoresEverySubpage` | src/yle_teletext_updater.ts:18-23 | a newer page with all images served: sub-pages `1..n` stored in ascending order under the page's timestamp, each with its image, and all of them in the bucket afterwards |
| `Updater.SyncNewerStoresWatermarkLast` | src/yle_teletext_updater.ts:18-24 | a newer page with all images served: one watermark write, as the last call, after which the watermark reads back as the timestamp |
| `Updater.SyncFailureKeepsWatermark` | src/yle_teletext_updater.ts:19-24 | when an image fetch fails the watermark is never written and keeps its old value, and the failure is the one the last image fetch threw |
| `Updater.SyncWatermarkOnlyAdvances` | src/yle_teletext_updater.ts:16-24 | after a sync the watermark is unchanged or is the page's timestamp, and it changes only if the page was newer |
| `Updater.SyncKeepsOtherWatermarks` | src/yle_teletext_updater.ts:15-27 | syncing a page leaves every other page's watermark as it was |
| `Updater.SyncMakesNoPageDataFetch` | src/yle_teletext_updater.ts:15-27 | a sync never requests page metadata |
| `Updater.FindAndStoreNewTeletextImages` | src/yle_teletext_updater.ts:35-47 | the calls made, the bucket afterwards and the failures thrown are those of `Walk` |
| `Updater.ChainDistinct` | src/yle_teletext_updater.ts:35-47 | a chain of `nextpg` links that ends holds no page twice, so the walk visits each page once |
| `Updater.ChainFuelIrrelevant` | src/yle_teletext_updater.ts:35-47 | the pages the walk visits from a page do not depend on the bound its chain is known to end within |
| `Updater.ChainSuffix` | src/yle_teletext_updater.ts:42-46 | from any page of a chain on, the rest of the chain is the chain from that page |
| `Updater.WalkFetchesChain` | src/yle_teletext_updater.ts:35-47 | the walk requests the metadata of exactly the chain's pages, in order, one request per page (distinct by `ChainDistinct`) |
| `Updater.WalkReadsSyncedPages` | src/yle_teletext_updater.ts:35-47 | the walk reads the watermark of exactly the pages whose metadata arrived, in chain order, one read per page |
| `Updater.SyncedPagesInChain` | src/yle_teletext_updater.ts:35-47 | every page the walk syncs is a page of its chain |
| `Updater.FirstPageNotRevisited` | src/yle_teletext_updater.ts:42-46 | the walk's first page does not come back in the chain from its `nextpg` |
| `Updater.WalkWritesOnlyNewerPages` | src/yle_teletext_updater.ts:35-47 | over every chain, each snapshot or watermark write is for a synced page, carries that page's own time, and happens only when that time is newer than the page's watermark before the walk |
| `Updater.WalkRestWritesOnlyNewerPages` | src/yle_teletext_updater.ts:42-46 | the same for the rest of the walk after the first page's sync, judged against the watermarks before that sync |
| `Updater.WalkWatermarksOnlyAdvance` | src/yle_teletext_updater.ts:35-47 | after a walk, each page's watermark is unchanged, or it is the time of a synced page that was newer than the watermark before |
| `Updater.WalkStepOn` | src/yle_teletext_updater.ts:40-46 | for a page whose `nextpg` is truthy, the walk's calls of a kind are the page's sync calls then those of the rest of the walk |
| `Updater.WalkStepLast` | src/yle_teletext_updater.ts:42-44 | a page whose `nextpg` is falsy ends the walk after its sync |
| `Updater.ExampleChain` | src/yle_teletext_updater.test.ts:102-133 | the three-page chain 100, 101, 102 ends within three pages, with 4, 4 and 3 sub-pages |
| `Updater.ExampleSync100` | src/yle_teletext_updater.test.ts:95-133 | in the example, page 100 is synced in full and the other pages' watermarks stay |
| `Updater.ExampleSync101` | src/yle_teletext_updater.test.ts:95-133 | in the example, page 101 is up to date: its watermark is read and nothing else happens |
| `Updater.ExampleSync102` | src/yle_teletext_updater.test.ts:95-133 | in the example, page 102 is synced in full |
| `Updater.ExampleSyncedPages` | src/yle_teletext_updater.test.ts:102-133 | every page of the example chain is synced: pages 100, 101 and 102, in that order |
| `Updater.NewerSyncCounts` | src/yle_teletext_updater.test.ts:48-65 | a newer page with `n` served sub-pages: one watermark read, `n` snapshot writes and one watermark write |
| `Updater.WalkExampleReads` | src/yle_teletext_updater.test.ts:137-140 | the example walk reads the watermarks of pages 100, 101 and 102, in that order |
| `Updater.WalkExampleStores` | src/yle_teletext_updater.test.ts:142-151 | the example walk stores seven snapshots |
| `Updater.WalkExampleWatermarks` | src/yle_teletext_updater.test.ts:164-166 | the example walk writes the watermarks of pages 100 and 102 only, in that order |
| `Updater.WalkExampleSucceeds` | src/yle_teletext_updater.test.ts:135 | nothing fails in the example walk |

## Left out

- HTTP transport, the keep-alive agent and axios response objects are not modelled. The API is a value, `Remote`, that says what each request answers; `PageMeta` holds only the three fields the updater reads.
- The credentials module is not part of this model. The credentials are a parameter of every URL builder.
- URL serialisation is not modelled: `href`, percent-encoding, and `new URL` resolving a relative path. An `ApiUrl` is origin, path and query parameters.
- `YleAPIError` and `TeletextPageAPIError` instances built directly, not through the client's catch blocks, are modelled only through their constructors. Stack traces and the `Error` prototype are not.
- `TeletextClient.ClassifyPageDataFailure`, `TeletextClient.ClassifyPageImageFailure`: the status is an integer. A non-numeric truthy status, which axios never produces, is not modelled.
- S3 is the `Bucket` class over a `map` from key to bytes.
  - Writes always succeed and bucket names are fixed. In the source a snapshot put that rejects does not stop the watermark write, because the puts are pushed without being awaited (src/yle_teletext_updater.ts:22-24). The watermark can then advance past a snapshot that was never stored, and that snapshot is not retried; the model cannot show this.
  - A missing key and the `NoSuchKey` error are the same case.
  - Other S3 read errors, which the source rethrows, are not modelled.
- `ImageStorage.Bucket.ListObjects`: listing is not limited to 1000 results. The source marks that limit as unimplemented paging, so a sub-page with more than 1000 snapshots would be under-reported.
- `Text.ParseInt` covers a leading run of decimal digits, which is every input that textyle's own keys and watermarks produce. The following are not modelled: leading whitespace, a sign, `0x` prefixes, and precision loss beyond 2^53.
- Watermark bodies are decoded one byte to one character. This is exact for the ASCII digits that textyle writes. UTF-8 decoding of other bodies is not modelled.
- Timestamps are natural numbers. `Date.parse(time) / 1000`, which can give a fraction or `NaN`, is not modelled. A page's `time` is its timestamp in seconds.
- Page and sub-page numbers are natural numbers too. The source's functions take any `number`, and its HTTP handler passes `parseInt` results, so a negative page such as `-100` (truthy) can reach the lookup and the key builders; negative, fractional and `NaN` page or sub-page numbers are not modelled.
- A missing `nextpg` field is modelled as the empty string. Both parse to `NaN`, which ends the walk.
- `ImageFinder.SortDescending`: the source sorts with the comparator `b - a`, which gives `NaN` when a listed filename parses to `NaN`. Engines read that as "equal", so the comparator is not consistent and the order of such a list is engine-defined: `[3, NaN, 5]` can stay as it is, and `find` then selects 3 although 5 is the latest timestamp not after the target (`ImageFinder.UnsortedNaNListingMissesLatest`). The model always sorts with `NaN` last and so always selects the maximum. Such a listing needs an object textyle does not write, such as `100/1/3/x.png` listed between `100/1/3.png` and `100/1/5.png`.
- Concurrency is modelled sequentially: the call log is one sequentialization of the source's calls, not the order in which the source issues them.
  - The source pushes snapshot writes without awaiting them, runs each page's sync alongside the rest of the walk, and joins with `Promise.all`.
  - In the source, a page's sync suspends at its watermark read, and the walk then requests the next page's metadata at once, before any of the page's image fetches.
  - The model instead runs each write when it is issued and each page's whole sync before the next metadata request.
  - Orders that are the source's: metadata requests in chain order, watermark reads in chain order, and, within one page, the watermark read, then the image fetches in ascending sub-page order, then the watermark write issued last.
  - Orders that belong to the model only: the position of a page's sync calls relative to later pages' metadata requests, and across pages the order of image fetches, snapshot writes and watermark writes. `Updater.WalkStepOn` and the "in that order" of `Updater.WalkExampleWatermarks` state those model orders.
  - The bucket's contents afterwards do not depend on the interleaving in the cases the model covers: the chain visits each page once (`Updater.ChainDistinct`), and a page's sync writes only that page's keys.
  - `Promise.all` rejects with the first failure in time. The model collects every failure in chain order instead.
- `Updater.FindAndStoreNewTeletextImages`: the source has no cycle guard, so a chain that loops never ends. The model requires a bound (`ChainEndsWithin`, a ghost `fuel`) on the chain's length.
- The HTTP handler, the scheduled function wrapper and the environment checks in the other source files are not part of this model.

## Findings

| source | as written | input that shows it | evidently intended | confidence | as-written member | corrected member |
|---|---|---|---|---|---|---|
| src/yle_teletext_image_storage.ts:105 | snapshots are listed under the prefix `${pageNr}/${subpageNr}`, without a trailing `/`, which the directories of sub-pages 10 to 19 (and so on) share | a bucket holding only `100/12/1700.png`; looking up page 100, sub-page 1 at 2000 returns `https://<host>/100/1/1700.png`, which does not exist | list under `${pageNr}/${subpageNr}/` | not executed | `ImageFinder.ResolveTeletextPageImageUrlAt`, `ImageFinder.AsWrittenListingSelectsOtherSubpage` | `ImageFinder.ResolveSnapshotUrlAt`, `ImageFinder.ResolvedSnapshotExists` |
