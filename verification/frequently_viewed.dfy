/** The frequently-viewed tracker: reading the stored list, recording a visit,
    and deriving the ranked, paged collection. Storage is a value here: the
    stored list is an input and the list to be written is an output. */
module FrequentlyViewed {
  import opened Wrappers
  import opened Seqs
  import opened Entries
  import opened Migration
  import opened Serials
  import opened Retention
  import opened Ranking

  /** The list as read from storage at `now`: legacy records migrated, unnumbered
      records numbered, stale visits and visit-less records removed. */
  function Normalize(stored: seq<StoredEntry>, now: int): (r: seq<Entry>)
    ensures |r| <= |stored|
    ensures forall i :: 0 <= i < |r| ==> r[i].serial.Some? && HasVisits(r[i])
    ensures forall i, k :: 0 <= i < |r| && 0 <= k < |r[i].timestamps| ==>
      WithinLastThirtyDays(now, r[i].timestamps[k])
    ensures SerialsDistinct(MigrateAll(stored, now)) ==> SerialsDistinct(r)
    ensures StoredUrlsDistinct(stored) ==> UrlsDistinct(r)
  {
    var numbered := AssignSerials(MigrateAll(stored, now));
    var r := Retain(numbered, now);
    RetainKeepsSerials(numbered, now);
    assert StoredUrlsDistinct(stored) ==> UrlsDistinct(r) by {
      if StoredUrlsDistinct(stored) {
        NormalizeKeepsUrlsDistinct(stored, now);
      }
    }
    r
  }

  /** One record per URL: the URL is the key `findIndex` looks records up by. */
  predicate UrlsDistinct(s: seq<Entry>) {
    KeysDistinct((e: Entry) => true, (e: Entry) => e.url, s)
  }

  /** One stored record per URL. */
  predicate StoredUrlsDistinct(s: seq<StoredEntry>) {
    KeysDistinct((e: StoredEntry) => true, (e: StoredEntry) => e.url, s)
  }

  /** Migration, numbering and retention change no URL and only drop records, so a
      stored list with one record per URL reads back as one. */
  lemma NormalizeKeepsUrlsDistinct(stored: seq<StoredEntry>, now: int)
    requires StoredUrlsDistinct(stored)
    ensures UrlsDistinct(Retain(AssignSerials(MigrateAll(stored, now)), now))
  {
    var numbered := AssignSerials(MigrateAll(stored, now));
    assert forall i :: 0 <= i < |numbered| ==> numbered[i].url == stored[i].url;
    var trimmed := TrimAll(numbered, now);
    forall i, j | 0 <= i < j < |trimmed| ensures trimmed[i].url != trimmed[j].url {
      assert trimmed[i].url == stored[i].url && trimmed[j].url == stored[j].url;
    }
    RetainExact(numbered, now);
    SubseqKeysDistinct((e: Entry) => true, (e: Entry) => e.url, Retain(numbered, now), trimmed);
  }

  /** The retention filter neither removes serials nor makes two records share one. */
  lemma RetainKeepsSerials(es: seq<Entry>, now: int)
    requires forall i :: 0 <= i < |es| ==> es[i].serial.Some?
    ensures forall i :: 0 <= i < |Retain(es, now)| ==> Retain(es, now)[i].serial.Some?
    ensures SerialsDistinct(es) ==> SerialsDistinct(Retain(es, now))
  {
    var r := Retain(es, now);
    RetainExact(es, now);
    forall i | 0 <= i < |r| ensures r[i].serial.Some? {
      var j :| 0 <= j < |es| && r[i] == Trim(es[j], now);
    }
    if SerialsDistinct(es) {
      TrimAllKeepsDistinct(es, now);
      SubseqKeysDistinct((e: Entry) => e.serial.Some?, (e: Entry) => e.serial, r, TrimAll(es, now));
    }
  }

  /** Trimming visits leaves every serial where it was. */
  lemma TrimAllKeepsDistinct(es: seq<Entry>, now: int)
    requires SerialsDistinct(es)
    ensures SerialsDistinct(TrimAll(es, now))
  {
    var trimmed := TrimAll(es, now);
    forall i, j | 0 <= i < j < |trimmed| && trimmed[i].serial.Some? && trimmed[j].serial.Some?
      ensures trimmed[i].serial != trimmed[j].serial
    {
      assert trimmed[i].serial == es[i].serial && trimmed[j].serial == es[j].serial;
    }
  }

  /** Position of the first record at `from` or later whose URL is `url`. */
  function FindFrom(list: seq<Entry>, url: string, from: nat): (r: Option<nat>)
    requires from <= |list|
    ensures r.Some? ==> from <= r.value < |list| && list[r.value].url == url
    ensures r.Some? ==> forall j :: from <= j < r.value ==> list[j].url != url
    ensures r.None? ==> forall j :: from <= j < |list| ==> list[j].url != url
    decreases |list| - from
  {
    if from == |list| then None
    else if list[from].url == url then Some(from)
    else FindFrom(list, url, from + 1)
  }

  /** Position of the first record whose URL is `url`, if any. */
  function FindIndex(list: seq<Entry>, url: string): (r: Option<nat>)
    ensures r.Some? ==> r.value < |list| && list[r.value].url == url
    ensures r.Some? ==> forall j :: 0 <= j < r.value ==> list[j].url != url
    ensures r.None? ==> forall j :: 0 <= j < |list| ==> list[j].url != url
  {
    FindFrom(list, url, 0)
  }

  /** The record created on a first visit to `doc`. */
  function NewEntry(doc: Doc, serial: int, now: int): (e: Entry)
    // one visit, at `now`: a live record, not yet a frequent one
    ensures Live(e) && e.timestamps == [now] && e.visitCount == 1 && !IsFrequent(e)
    // numbered as given, described by the document, with no legacy timestamp or summary
    ensures e.serial == Some(serial) && e.url == doc.mdnUrl && e.title == doc.title && e.parents == doc.parents
    ensures e.timestamp.None? && e.summary.None?
    // its one visit is trivially in order and not later than `now`
    ensures Ordered(e, now)
  {
    Entry(Some(serial), doc.mdnUrl, doc.title, doc.parents, None, None, [now], 1)
  }

  /** A record with one more visit, at `now`, in front of its earlier ones. */
  function Visit(e: Entry, now: int): Entry {
    e.(timestamps := [now] + e.timestamps)
  }

  /** Putting `now` in front keeps visits most recent first when none is later. */
  lemma VisitKeepsOrder(e: Entry, now: int)
    requires Ordered(e, now)
    ensures Ordered(Visit(e, now), now)
    ensures Visit(e, now).timestamps[0] == now
  {
    var ts := Visit(e, now).timestamps;
    forall i, j | 0 <= i < j < |ts| ensures ts[i] >= ts[j] {
      assert ts[j] == e.timestamps[j - 1];
      if i > 0 {
        assert ts[i] == e.timestamps[i - 1];
      }
    }
  }

  /** Reading a list written in order gives records whose visits are in order. */
  lemma NormalizeKeepsOrder(stored: seq<StoredEntry>, now: int)
    requires forall i :: 0 <= i < |stored| ==> StoredOrdered(stored[i], now)
    ensures forall i :: 0 <= i < |Normalize(stored, now)| ==> Ordered(Normalize(stored, now)[i], now)
  {
    var numbered := AssignSerials(MigrateAll(stored, now));
    forall i | 0 <= i < |numbered| ensures Ordered(numbered[i], now) {
      MigrateKeepsOrder(stored[i], now);
      assert numbered[i].timestamps == Migrate(stored[i], now).timestamps;
    }
    RetainKeepsOrder(numbered, now);
  }

  /** Recording a visit at `now` keeps every record's visits in order. */
  lemma IncrementListKeepsOrder(list: seq<Entry>, doc: Doc, now: int)
    requires forall i :: 0 <= i < |list| ==> Ordered(list[i], now)
    ensures forall i :: 0 <= i < |IncrementList(list, doc, now)| ==> Ordered(IncrementList(list, doc, now)[i], now)
  {
    var r := IncrementList(list, doc, now);
    match FindIndex(list, doc.mdnUrl)
    case Some(i) =>
      var before := list[i := Visit(list[i], now)];
      VisitKeepsOrder(list[i], now);
      assert forall k :: 0 <= k < |before| ==> Ordered(before[k], now);
      SubmultisetAll(e => Ordered(e, now), before, r);
    case None =>
      var before := [NewEntry(doc, NextSerial(list), now)] + list;
      assert multiset(r) == multiset(before);
      assert forall k :: 0 <= k < |before| ==> Ordered(before[k], now);
      SubmultisetAll(e => Ordered(e, now), before, r);
  }

  /** Records a visit to `doc` at `now` in an already normalized list and returns
      the list to be written back, ranked. */
  function IncrementList(list: seq<Entry>, doc: Doc, now: int): (r: seq<Entry>)
    ensures Sorted(r)
    // a known URL: its first record gains the visit, nothing else changes
    ensures FindIndex(list, doc.mdnUrl).Some? ==>
      var i := FindIndex(list, doc.mdnUrl).value;
      |r| == |list| && multiset(r) == multiset(list[i := Visit(list[i], now)])
    // a new URL: exactly one record is added, numbered after every existing one
    ensures FindIndex(list, doc.mdnUrl).None? ==>
      |r| == |list| + 1 && multiset(r) == multiset(list) + multiset{NewEntry(doc, NextSerial(list), now)}
  {
    match FindIndex(list, doc.mdnUrl)
    case Some(i) =>
      Sort(list[i := Visit(list[i], now)])
    case None =>
      var e := NewEntry(doc, NextSerial(list), now);
      if |list| == 0 then [e]
      else Sort([e] + list)
  }

  /** The visited document has a record whose latest visit is `now`. */
  lemma IncrementListRecordsVisit(list: seq<Entry>, doc: Doc, now: int)
    ensures exists k :: && 0 <= k < |IncrementList(list, doc, now)|
                        && IncrementList(list, doc, now)[k].url == doc.mdnUrl
                        && Latest(IncrementList(list, doc, now)[k]) == Some(now)
  {
    var r := IncrementList(list, doc, now);
    var x := match FindIndex(list, doc.mdnUrl)
      case Some(i) => Visit(list[i], now)
      case None => NewEntry(doc, NextSerial(list), now);
    match FindIndex(list, doc.mdnUrl)
    case Some(i) =>
      assert list[i := Visit(list[i], now)][i] == x;
      assert x in multiset(r);
    case None =>
      assert x in multiset(r);
  }

  /** A record as every read and write leaves it: numbered and with a visit. */
  predicate Live(e: Entry) {
    e.serial.Some? && HasVisits(e)
  }

  /** Recording a visit keeps the list's invariants: every record numbered, with a
      visit, and no serial shared. */
  lemma IncrementListKeepsInvariant(list: seq<Entry>, doc: Doc, now: int)
    requires forall i :: 0 <= i < |list| ==> Live(list[i])
    ensures var r := IncrementList(list, doc, now);
      && (forall i :: 0 <= i < |r| ==> Live(r[i]))
      && (SerialsDistinct(list) ==> SerialsDistinct(r))
  {
    match FindIndex(list, doc.mdnUrl)
    case Some(i) => RevisitKeepsInvariant(list, doc, now, i);
    case None => FirstVisitKeepsInvariant(list, doc, now);
  }

  lemma RevisitKeepsInvariant(list: seq<Entry>, doc: Doc, now: int, i: nat)
    requires forall i :: 0 <= i < |list| ==> Live(list[i])
    requires FindIndex(list, doc.mdnUrl) == Some(i)
    ensures var r := IncrementList(list, doc, now);
      && (forall i :: 0 <= i < |r| ==> Live(r[i]))
      && (SerialsDistinct(list) ==> SerialsDistinct(r))
  {
    var r := IncrementList(list, doc, now);
    var before := list[i := Visit(list[i], now)];
    if SerialsDistinct(list) {
      assert SerialsDistinct(before);
      PermutationKeysDistinct((e: Entry) => e.serial.Some?, (e: Entry) => e.serial, before, r);
    }
    SubmultisetAll(Live, before, r);
  }

  lemma FirstVisitKeepsInvariant(list: seq<Entry>, doc: Doc, now: int)
    requires forall i :: 0 <= i < |list| ==> Live(list[i])
    requires FindIndex(list, doc.mdnUrl).None?
    ensures var r := IncrementList(list, doc, now);
      && (forall i :: 0 <= i < |r| ==> Live(r[i]))
      && (SerialsDistinct(list) ==> SerialsDistinct(r))
  {
    var r := IncrementList(list, doc, now);
    var e := NewEntry(doc, NextSerial(list), now);
    var before := [e] + list;
    assert multiset(r) == multiset(before);
    if SerialsDistinct(list) {
      FreshFirstKeepsDistinct(list, e);
      PermutationKeysDistinct((e: Entry) => e.serial.Some?, (e: Entry) => e.serial, before, r);
    }
    SubmultisetAll(Live, before, r);
  }

  /** A record numbered with the next serial shares it with no record of the list. */
  lemma FreshFirstKeepsDistinct(list: seq<Entry>, e: Entry)
    requires e.serial == Some(NextSerial(list)) && SerialsDistinct(list)
    ensures SerialsDistinct([e] + list)
  {
    var before := [e] + list;
    forall i, j | 0 <= i < j < |before| && before[i].serial.Some? && before[j].serial.Some?
      ensures before[i].serial != before[j].serial
    {
      assert before[j] == list[j - 1];
      if i > 0 {
        assert before[i] == list[i - 1];
      }
    }
  }

  /** A visit adds a record only for a URL the list lacks, so the list keeps one
      record per URL. */
  lemma IncrementListKeepsUrlsDistinct(list: seq<Entry>, doc: Doc, now: int)
    requires UrlsDistinct(list)
    ensures UrlsDistinct(IncrementList(list, doc, now))
  {
    var r := IncrementList(list, doc, now);
    match FindIndex(list, doc.mdnUrl)
    case Some(i) =>
      var before := list[i := Visit(list[i], now)];
      assert UrlsDistinct(before);
      PermutationKeysDistinct((e: Entry) => true, (e: Entry) => e.url, before, r);
    case None =>
      var e := NewEntry(doc, NextSerial(list), now);
      var before := [e] + list;
      assert multiset(r) == multiset(before);
      NewUrlFirstKeepsDistinct(list, e);
      PermutationKeysDistinct((e: Entry) => true, (e: Entry) => e.url, before, r);
  }

  /** A record for a URL the list lacks shares its URL with no record of the list. */
  lemma NewUrlFirstKeepsDistinct(list: seq<Entry>, e: Entry)
    requires UrlsDistinct(list)
    requires forall j :: 0 <= j < |list| ==> list[j].url != e.url
    ensures UrlsDistinct([e] + list)
  {
    var before := [e] + list;
    forall i, j | 0 <= i < j < |before| ensures before[i].url != before[j].url {
      assert before[j] == list[j - 1];
      if i > 0 {
        assert before[i] == list[i - 1];
      }
    }
  }

  /** One run of the page-view effect: with no document nothing is written (`None`);
      otherwise the stored list is read at `now`, the visit is recorded, and the
      ranked list to write back is returned. */
  function Increment(stored: seq<StoredEntry>, doc: Option<Doc>, now: int): (w: Option<seq<Entry>>)
    ensures w.None? <==> doc.None?
    ensures w.Some? ==> Sorted(w.value)
    ensures w.Some? ==> forall i :: 0 <= i < |w.value| ==> Live(w.value[i])
    ensures w.Some? ==> exists k :: && 0 <= k < |w.value|
                                    && w.value[k].url == doc.value.mdnUrl
                                    && Latest(w.value[k]) == Some(now)
    ensures w.Some? && SerialsDistinct(MigrateAll(stored, now)) ==> SerialsDistinct(w.value)
    ensures w.Some? && StoredUrlsDistinct(stored) ==> UrlsDistinct(w.value)
    // a list written in order, with no visit after `now`, is written back in order
    ensures w.Some? && (forall i :: 0 <= i < |stored| ==> StoredOrdered(stored[i], now)) ==>
      forall i :: 0 <= i < |w.value| ==> Ordered(w.value[i], now)
  {
    match doc
    case None => None
    case Some(d) =>
      var list := Normalize(stored, now);
      IncrementListRecordsVisit(list, d, now);
      IncrementListKeepsInvariant(list, d, now);
      assert UrlsDistinct(list) ==> UrlsDistinct(IncrementList(list, d, now)) by {
        if UrlsDistinct(list) {
          IncrementListKeepsUrlsDistinct(list, d, now);
        }
      }
      assert (forall i :: 0 <= i < |stored| ==> StoredOrdered(stored[i], now)) ==>
        forall i :: 0 <= i < |IncrementList(list, d, now)| ==> Ordered(IncrementList(list, d, now)[i], now) by {
        if forall i :: 0 <= i < |stored| ==> StoredOrdered(stored[i], now) {
          NormalizeKeepsOrder(stored, now);
          IncrementListKeepsOrder(list, d, now);
        }
      }
      Some(IncrementList(list, d, now))
  }

  /** A record visited at least twice in the window. */
  predicate IsFrequent(e: Entry)
    // a frequent record is one the retention filter keeps
    ensures IsFrequent(e) ==> HasVisits(e)
    // a single visit does not make a record frequent
    ensures |e.timestamps| == 1 ==> !IsFrequent(e)
  {
    |e.timestamps| >= 2
  }

  /** The frequent records of the list read from storage at `now`, in list order. */
  function FrequentRecords(stored: seq<StoredEntry>, now: int): (q: seq<Entry>)
    ensures forall i :: 0 <= i < |q| ==> IsFrequent(q[i]) && Live(q[i]) && AllVisitsRecent(q[i], now)
    ensures forall e :: multiset(q)[e] == (if IsFrequent(e) then multiset(Normalize(stored, now))[e] else 0)
  {
    var list := Normalize(stored, now);
    FilterCounts(IsFrequent, list);
    SubmultisetAll(e => Live(e) && AllVisitsRecent(e, now), list, Filter(IsFrequent, list));
    Filter(IsFrequent, list)
  }

  /** The frequent records keep the order they have in the list read from storage. */
  lemma FrequentRecordsInOrder(stored: seq<StoredEntry>, now: int)
    ensures IsSubseq(FrequentRecords(stored, now), Normalize(stored, now))
  {
    FilterIsSubseq(IsFrequent, Normalize(stored, now));
  }

  /** The derived "Frequently Viewed Articles" collection. */
  datatype Collection = Collection(
    id: string,
    name: string,
    description: string,
    articleCount: nat,
    items: seq<Entry>)

  /** What one recomputation of the view yields: the collection (`None` for null)
      and whether the end of the results was signalled to the caller. */
  datatype ViewResult = ViewResult(collection: Option<Collection>, reachedEnd: bool)

  /** Number of elements `slice(0, end)` takes from an array of length `len`. */
  function SliceLength(len: nat, end: int): (n: nat)
    ensures n <= len
    // a non-negative end takes that many elements, or all of them if fewer
    ensures end >= 0 ==> n == Min(end, len)
    // a negative end counts back from the array's end
    ensures end < 0 ==> n == Max(len + end, 0)
  {
    if end < 0 then (if len + end > 0 then len + end else 0)
    else if end < len then end
    else len
  }

  /** `items` are top-ranked records of `q`: ranked, drawn from `q`, and each ranks
      no lower than every record of `q` left out. */
  predicate IsTopPage(q: seq<Entry>, items: seq<Entry>) {
    && Sorted(items)
    && multiset(items) <= multiset(q)
    && forall i, y :: 0 <= i < |items| && y in multiset(q) - multiset(items) ==> Precedes(items[i], y)
  }

  /** `q` ranked and cut to `slice(0, window)`. */
  function Page(q: seq<Entry>, window: int): (items: seq<Entry>)
    ensures |items| == SliceLength(|q|, window)
    ensures IsTopPage(q, items)
  {
    var sorted := Sort(q);
    var k := SliceLength(|sorted|, window);
    PagedIsTop(sorted, k);
    sorted[..k]
  }

  /** `v` is the view of the frequent records `q` for a page window of `window`:
      the end is signalled once the window passes the last record, there is no
      collection without records, and otherwise the collection counts every record
      and shows the top-ranked `slice(0, window)` of them. */
  predicate IsViewOf(q: seq<Entry>, window: int, v: ViewResult) {
    && (v.reachedEnd <==> window > |q|)
    && (v.collection.None? <==> |q| == 0)
    && (v.collection.Some? ==>
          && v.collection.value.id == "frequently-viewed"
          && v.collection.value.articleCount == |q|
          && |v.collection.value.items| == SliceLength(|q|, window)
          && IsTopPage(q, v.collection.value.items))
  }

  /** The view over the already filtered list `q` of frequent records, for a page
      window of `window` records. */
  function CollectionOf(q: seq<Entry>, window: int): (v: ViewResult)
    ensures IsViewOf(q, window, v)
  {
    var reachedEnd := window > |q|;
    if |q| == 0 then ViewResult(None, reachedEnd)
    else
      ViewResult(
        Some(Collection(
          "frequently-viewed",
          "Frequently Viewed Articles",
          "Articles you viewed more than 2 times in the past 30 days.",
          |q|,
          Page(q, window))),
        reachedEnd)
  }

  /** Recomputes the collection from the stored list at `now` for a page window of
      `limit` plus `offset` records. */
  function View(stored: seq<StoredEntry>, limit: int, offset: int, now: int): (v: ViewResult)
    ensures IsViewOf(FrequentRecords(stored, now), limit + offset, v)
    // every item is a frequent, numbered record all of whose visits are in the window
    ensures v.collection.Some? ==> forall i :: 0 <= i < |v.collection.value.items| ==>
      var e := v.collection.value.items[i];
      IsFrequent(e) && Live(e) && AllVisitsRecent(e, now)
  {
    var q := FrequentRecords(stored, now);
    var v := CollectionOf(q, limit + offset);
    if v.collection.Some? then
      PageKeepsRecords(q, v.collection.value.items, now);
      v
    else v
  }

  /** What holds of every frequent record holds of every record on a page of them. */
  lemma PageKeepsRecords(q: seq<Entry>, items: seq<Entry>, now: int)
    requires multiset(items) <= multiset(q)
    requires forall i :: 0 <= i < |q| ==> IsFrequent(q[i]) && Live(q[i]) && AllVisitsRecent(q[i], now)
    ensures forall i :: 0 <= i < |items| ==> IsFrequent(items[i]) && Live(items[i]) && AllVisitsRecent(items[i], now)
  {
    SubmultisetAll(e => IsFrequent(e) && Live(e) && AllVisitsRecent(e, now), q, items);
  }

  function Min(a: int, b: int): int { if a < b then a else b }
  function Max(a: int, b: int): int { if a < b then b else a }

  /** A prefix of a sorted list holds its top-ranked records: it is sorted, it is
      part of the list, and each of its records ranks no lower than any left out. */
  lemma PagedIsTop(s: seq<Entry>, k: nat)
    requires Sorted(s) && k <= |s|
    ensures Sorted(s[..k])
    ensures multiset(s[..k]) <= multiset(s)
    ensures forall i, y :: 0 <= i < k && y in multiset(s) - multiset(s[..k]) ==> Precedes(s[i], y)
  {
    assert s == s[..k] + s[k..];
    assert multiset(s) - multiset(s[..k]) == multiset(s[k..]);
    forall i, y | 0 <= i < k && y in multiset(s[k..])
      ensures Precedes(s[i], y)
    {
      var j :| 0 <= j < |s[k..]| && s[k..][j] == y;
      assert s[k + j] == y;
    }
  }
}
