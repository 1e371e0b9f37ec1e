# Frequently viewed documents: a Dafny model

This project models the "frequently viewed documents" tracker of the documentation
site's client. The tracker keeps a list of visit records, one per document URL, in
the browser's local storage. On every read it does four things:

- it migrates legacy records, which held a single `timestamp` and a `visitCount`, to a list of `timestamps`;
- it numbers records that have no `serial`;
- it drops visits older than thirty days;
- it drops records left with no visits.

Each time its page-view effect runs (after every render of the page that hosts it) it
records a visit, then writes the list back ranked. The ranking
puts the most recent visit first, then the most visits. For the "Frequently Viewed
Articles" collection it keeps the records visited at least twice, ranks them, and
returns the first `limit + offset` of them.

The stored list is a value. The list read from storage is an input (`seq<StoredEntry>`).
The list written back is an output (`Option<seq<Entry>>`, where `None` means nothing is
written). The clock is an integer parameter `now`, in milliseconds.

Modules, one per concern of `client/src/plus/collections/frequently-viewed.tsx`:

- `Wrappers`: `Option`, which stands for a field that is `undefined`.
- `Seqs`: order-preserving `Filter`, the subsequence relation it satisfies, and distinctness of a key (a serial, a URL) under deletion and reordering. Both `Serials.SerialsDistinct` and `FrequentlyViewed.UrlsDistinct` are instances of `KeysDistinct`.
- `Entries`: the record types `StoredEntry` (as parsed) and `Entry` (after migration), `Doc`, the thirty-day window, and the order visits are kept in (`RecentFirst`, most recent first).
- `Migration`: the legacy-record upgrade.
- `Serials`: `getNextFrequentlyViewedSerial` and the left-to-right numbering of unnumbered records.
- `Retention`: `filterFrequentlyViewed`.
- `Ranking`: `sortByTimestampThenVistsDesc`, and sorting by it (an insertion sort proved sorted and a permutation).
- `FrequentlyViewed`: reading the list (`getFrequentlyViewed`), recording a visit (`useIncrementFrequentlyViewed`) and the collection (`useFrequentlyViewed`).
- `Scenarios`: small concrete lists and what the model proves about each.

Points about the code that the model makes explicit:

- Serials can be reused. A new record gets one past the largest serial still in the
  list, so once the highest-numbered record ages out, its serial is handed out again
  (`Scenarios.SerialReusedAfterExpiry`).
- A visit instant counts only when it is a valid JavaScript `Date`, within 8.64e15
  milliseconds of the epoch. Any other number makes an invalid `Date`, which fails the
  window test, so such a visit is dropped and such a legacy record is not expanded
  (`Scenarios.OutOfRangeVisitDropped`).
- The collection's description text says "more than 2 times". The code keeps records
  with at least two visits (`timestamps.length >= 2`), and so does the model.
- The "end" signal is only ever raised: the code calls `setEnd(true)` and never
  `setEnd(false)`. `ViewResult.reachedEnd` is true exactly when the signal is raised.
  It is raised even when the collection is null.
- The comparator reads `timestamps[0]` as the most recent visit, which holds only
  because the list is kept most recent first. The model proves that order is kept:
  migration expands a legacy record into equal copies, the filter keeps order,
  `unshift` puts the new instant in front, and a new record has one visit. The one
  assumption is a clock that does not run backwards, stated as "no visit is later than
  `now`" (`Entries.StoredOrdered`, `FrequentlyViewed.Increment`). On records in that
  order the comparator ranks by the largest visit (`Ranking.CompareByMostRecent`).
- The comparator is modelled on every record, including one with no visits. Such a
  record reads `undefined` as its latest visit, every comparison with `undefined` is
  false, so it ranks last by visit count.

## Model

| member | source | states |
|---|---|---|
| Entries.WithinLastThirtyDays | client/src/plus/collections/frequently-viewed.tsx:22-26 | The window is inclusive: a visit exactly thirty days old counts, one a millisecond older does not. An instant outside the range of a `Date` never counts. |
| Migration.Migrate | client/src/plus/collections/frequently-viewed.tsx:44-57 | A record without `timestamps` whose legacy `timestamp` is non-zero and within thirty days gets `max(0, visitCount)` copies of it and loses the legacy field. Any other legacy record gets no visits and keeps its legacy field. A record that has `timestamps` reads back exactly as stored. Identity and metadata are copied. |
| Migration.MigrateKeepsOrder | client/src/plus/collections/frequently-viewed.tsx:44-57 | A stored record whose visits are most recent first and no later than `now` migrates to a record with the same two properties: current visits are kept, and a legacy record becomes equal copies of an instant no later than `now`. |
| Migration.MigrateOnce | client/src/plus/collections/frequently-viewed.tsx:43-57 | Migration happens once: a migrated record, written back and read at any later time, migrates to itself. |
| Migration.Repeat | client/src/plus/collections/frequently-viewed.tsx:49-51 | The push loop yields `max(0, n)` visits, all equal to the legacy timestamp. |
| Serials.MaxSerial | client/src/plus/collections/frequently-viewed.tsx:105-108 | The maximum of 0 and every numeric serial: at least each of them, and attained by one of them unless it is 0. |
| Serials.NextSerial | client/src/plus/collections/frequently-viewed.tsx:100-110 | The next serial is at least 1 and exceeds every numeric serial. It is the least such number: either 1, or one past a serial in the list. With no serials it is 1. |
| Serials.AssignSerials | client/src/plus/collections/frequently-viewed.tsx:59-65 | Every record ends up numbered. Numbered records are unchanged. An unnumbered record changes in its serial only. Fresh serials exceed every pre-existing serial and increase in list order, so they are pairwise distinct. Distinct serials stay distinct. |
| Serials.AssignSerialsClosedForm | client/src/plus/collections/frequently-viewed.tsx:59-65 | The left-to-right walk, where each allocation sees the serials assigned before it, gives the k-th unnumbered record (counting from 0) the serial `NextSerial + k`. |
| Retention.RecentTimestamps | client/src/plus/collections/frequently-viewed.tsx:202-204 | Every kept visit is at most thirty days old (`ts >= now - 30*24*60*60*1000`, the window of lines 22-26). |
| Retention.RecentTimestampsExact | client/src/plus/collections/frequently-viewed.tsx:202-204 | The kept visits are an order-preserving subsequence of the input. Every in-window occurrence is kept and every stale one is dropped. |
| Retention.Trim | client/src/plus/collections/frequently-viewed.tsx:199-205 | Only `timestamps` changes. It becomes a subsequence of the old visits, all within the window. |
| Retention.Retain | client/src/plus/collections/frequently-viewed.tsx:195-208 | No output record is empty. Every remaining visit is within the window. The list does not grow. |
| Retention.RetainExact | client/src/plus/collections/frequently-viewed.tsx:195-208 | The output is an order-preserving subsequence of the trimmed records. It holds exactly the trimmed records that still have visits, with multiplicity. Each output record is an input record with only its visits trimmed. |
| Retention.SubseqKeepsOrder | client/src/plus/collections/frequently-viewed.tsx:202-204 | Deleting visits from a most-recent-first list, none later than `now`, leaves a list with both properties. |
| Retention.TrimKeepsOrder | client/src/plus/collections/frequently-viewed.tsx:199-205 | Trimming a record whose visits are in order and not after `now` keeps both properties. |
| Retention.RetainKeepsOrder | client/src/plus/collections/frequently-viewed.tsx:195-208 | When every input record's visits are in order and not after `now`, so are every retained record's. |
| Retention.RetainIdempotent | client/src/plus/collections/frequently-viewed.tsx:195-208 | Filtering a filtered list again at the same instant changes nothing. |
| Retention.RecentTimestampsNone | client/src/plus/collections/frequently-viewed.tsx:202-204 | A list of stale visits is emptied. |
| Ranking.Compare | client/src/plus/collections/frequently-viewed.tsx:88-98 | The comparator returns only -1, 0 or 1. It returns 0 exactly when the latest visits and the numbers of visits (`timestamps` lengths) agree. For records with visits it is negative exactly when the first's latest visit is later, or equal with more visits (`timestamps` entries). |
| Ranking.MostRecent | client/src/plus/collections/frequently-viewed.tsx:92 | The most recent visit of a non-empty list, independent of position: at least every visit, and one of them. |
| Ranking.LatestIsMostRecent | client/src/plus/collections/frequently-viewed.tsx:92-94 | For a record kept most recent first, the head of `timestamps` that the comparator reads is its most recent visit. |
| Ranking.CompareByMostRecent | client/src/plus/collections/frequently-viewed.tsx:88-98 | On records kept most recent first, with visits, the comparator puts `a` first exactly when its most recent visit is later, or equal with more visits. |
| Ranking.CompareAntisymmetric | client/src/plus/collections/frequently-viewed.tsx:88-98 | `Compare(a, b) == -Compare(b, a)`. |
| Ranking.CompareTransitive | client/src/plus/collections/frequently-viewed.tsx:88-98 | "Ranks no lower than" is transitive, and so is its strict form. |
| Ranking.CompareEmptyLast | client/src/plus/collections/frequently-viewed.tsx:93-96 | A record with visits ranks before one without, through the visit-count comparison. |
| Ranking.PrecedesTotalPreorder | client/src/plus/collections/frequently-viewed.tsx:88-98 | "Ranks no lower than" is a total preorder: reflexive, transitive, and any two records are comparable. |
| Ranking.Insert | client/src/plus/collections/frequently-viewed.tsx:189-190 | Inserting into a ranked list keeps it ranked and adds exactly the inserted record. |
| Ranking.Sort | client/src/plus/collections/frequently-viewed.tsx:189-190 | The sorted list is ranked by the comparator and is a permutation of the input. |
| Ranking.SortSorted | client/src/plus/collections/frequently-viewed.tsx:189-190 | Sorting an already ranked list leaves it unchanged. |
| FrequentlyViewed.Normalize | client/src/plus/collections/frequently-viewed.tsx:43-67 | The list read from storage has every record numbered and non-empty. Every visit is within thirty days. Serials that were distinct in storage stay distinct, and so do URLs. |
| FrequentlyViewed.RetainKeepsSerials | client/src/plus/collections/frequently-viewed.tsx:66-67 | The retention filter keeps every record numbered and keeps serials distinct. |
| FrequentlyViewed.NormalizeKeepsUrlsDistinct | client/src/plus/collections/frequently-viewed.tsx:43-67 | Migration, numbering and retention change no URL and only drop records, so a stored list with one record per URL reads back with one record per URL. |
| FrequentlyViewed.NormalizeKeepsOrder | client/src/plus/collections/frequently-viewed.tsx:43-67 | A stored list whose records are in order and not after `now` reads back as records whose visits are in order and not after `now`. |
| FrequentlyViewed.FindIndex | client/src/plus/collections/frequently-viewed.tsx:166-168 | The result is the first position whose URL matches, or none when no record matches. |
| FrequentlyViewed.NewEntry | client/src/plus/collections/frequently-viewed.tsx:173-180 | A first visit creates a record with the given serial, the document's URL, title and parents, `visitCount` 1, and the single visit `[now]`. It is live but not yet frequent, and its visits are trivially in order. |
| FrequentlyViewed.VisitKeepsOrder | client/src/plus/collections/frequently-viewed.tsx:171 | Putting `now` in front of visits that are in order and not after `now` keeps both properties, and `now` becomes the head. |
| FrequentlyViewed.IncrementList | client/src/plus/collections/frequently-viewed.tsx:166-191 | The result is ranked. With the URL present, it is a permutation of the list in which only the first matching record changed, gaining `now` before its old visits, and the length is unchanged. With the URL absent, exactly one record is added (serial `NextSerial`, `timestamps == [now]`, `visitCount == 1`, the document's metadata), and the length grows by one. |
| FrequentlyViewed.IncrementListRecordsVisit | client/src/plus/collections/frequently-viewed.tsx:170-180 | The written list has a record for the document whose latest visit is `now`. |
| FrequentlyViewed.IncrementListKeepsInvariant | client/src/plus/collections/frequently-viewed.tsx:170-191 | Recording a visit keeps every record numbered and non-empty, and keeps distinct serials distinct. |
| FrequentlyViewed.IncrementListKeepsUrlsDistinct | client/src/plus/collections/frequently-viewed.tsx:166-187 | A visit updates the record found by URL or adds one only when the URL is absent, so a list with one record per URL keeps one record per URL. |
| FrequentlyViewed.IncrementListKeepsOrder | client/src/plus/collections/frequently-viewed.tsx:166-191 | Recording a visit at `now` in a list whose records are in order and not after `now` keeps every record so. |
| FrequentlyViewed.Increment | client/src/plus/collections/frequently-viewed.tsx:158-193 | With no document nothing is written. Otherwise the written list is ranked, numbered and non-empty, and records the visit at `now`. It has distinct serials when storage had them, and one record per URL when storage had one. When storage was written most recent first with no visit after `now`, every written record is so too. |
| FrequentlyViewed.IsFrequent | client/src/plus/collections/frequently-viewed.tsx:119 | A record is frequent with at least two visits. A frequent record always has a visit, and a single visit is not frequent. |
| FrequentlyViewed.FrequentRecords | client/src/plus/collections/frequently-viewed.tsx:118-119 | The records read from storage with at least two visits, with exact multiplicities. Each one is numbered and has a visit, and every visit is within thirty days. |
| FrequentlyViewed.FrequentRecordsInOrder | client/src/plus/collections/frequently-viewed.tsx:118-119 | The frequent records are an order-preserving subsequence of the list read from storage. |
| FrequentlyViewed.SliceLength | client/src/plus/collections/frequently-viewed.tsx:131 | `slice(0, end)` takes `min(end, length)` elements for a non-negative end, and `max(length + end, 0)` for a negative one. It never takes more than the array holds. |
| FrequentlyViewed.Page | client/src/plus/collections/frequently-viewed.tsx:129-131 | The page has the length `slice` gives. It is ranked, drawn from the list, and ranks no lower than any record left out. |
| FrequentlyViewed.CollectionOf | client/src/plus/collections/frequently-viewed.tsx:120-146 | The end flag is set exactly when `limit + offset` exceeds the count. The result is null exactly when the count is 0. Otherwise the id is `frequently-viewed` and `articleCount` is the count. The items are the `Page` of the frequent records: `min(limit + offset, count)` of them, or `slice`'s count from the end for a negative window. They are ranked, drawn from the frequent records, and rank no lower than any frequent record left out. These facts together are the predicate `IsViewOf`. |
| FrequentlyViewed.PagedIsTop | client/src/plus/collections/frequently-viewed.tsx:129-131 | A prefix of a ranked list is ranked, is part of the list, and ranks no lower than the rest. |
| FrequentlyViewed.View | client/src/plus/collections/frequently-viewed.tsx:117-148 | Over `FrequentRecords`, the end flag, the null case, `articleCount`, the page length and the top-ranked property of `CollectionOf` (`IsViewOf`) all hold. Every item has at least two visits and a serial, and every one of its visits is within thirty days. |
| Scenarios.TwoVisitsShowInCollection | client/src/plus/collections/frequently-viewed.tsx:117-146 | A record visited now and a day ago, with limit 5 and offset 0, forms a collection of itself with `article_count` 1. |
| Scenarios.StaleRecordDropped | client/src/plus/collections/frequently-viewed.tsx:195-208 | A record whose visits are all older than thirty days is absent after reading, and the collection is null. |
| Scenarios.SerialReusedAfterExpiry | client/src/plus/collections/frequently-viewed.tsx:100-110 | After the record with serial 2 ages out, the next serial is 2 again. |
| Scenarios.LegacyRecordMigrated | client/src/plus/collections/frequently-viewed.tsx:44-67 | A legacy record with `visitCount` 3 from yesterday reads back with three visits at that instant. |
| Scenarios.OutOfRangeVisitDropped | client/src/plus/collections/frequently-viewed.tsx:195-208 | A stored visit at 9e15 ms, beyond the range of a `Date`, leaves nothing after reading. A legacy record with that timestamp gets no visits. |

## Left out

- Local storage access, `JSON.parse`/`JSON.stringify` and the warning paths of lines 28-41 and 70-86 are browser I/O. The stored list is an input, and the list to write is an output. A failed read is not modelled separately; the source then parses `"[]"`, which is the empty input.
- React hooks (`useState`, `useEffect`), the `updated` flag and the `setEnd` callback are UI lifecycle. The end signal is a returned boolean, and one call of `View` is one run of the effect.
- `new Date()`, `toISOString()`, and the `created_at`/`updated_at` strings of lines 135-144 are clock and date formatting. They are not fields of `Collection`.
- FrequentlyViewed.Normalize: one `now` serves a whole read. The source reads the clock again for every window test.
- FrequentlyViewed.Increment: the visit instant is the same `now` as the read. The source reads the clock again for the visit (lines 171 and 179).
- Ranking.Sort: the engine's sort algorithm is not modelled. The contract states only "ranked and a permutation", so the order among records that compare equal is not stated.
- Serials.NextSerial: serials at or above 2^53 are not modelled. There `1 + Math.max(0, ...)` is inexact in a JavaScript number (a stored `serial` of 1e16 yields 1e16 again), so "exceeds every serial" and the distinctness of fresh serials in `Serials.AssignSerials` hold only below that bound. The model's `int` is unbounded.
- NaN, `undefined` beyond `Option`, and non-integer numbers are not modelled. `serial`, `timestamp`, `visitCount` and the visits are integers. The range of a `Date` is modelled (`Entries.IsTimeValue`). A legacy `timestamp` of 0 is falsy in the source and reads as absent here too.
- Concurrent read-modify-write from several browser tabs (last write wins) is concurrency and is not modelled.
- `client/src/homepage/static-page/index.tsx` (data fetching and page layout) and `client/src/ui/atoms/search/index.tsx` (an input widget) hold no tracker logic and are not part of this model.
