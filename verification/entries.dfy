/** The visit records of the frequently-viewed tracker and the retention window they live in. */
module Entries {
  import opened Wrappers

  /** Length of the retention window: thirty days, in milliseconds. */
  const ThirtyDaysMilliseconds: int := 30 * 24 * 60 * 60 * 1000

  /** Largest magnitude, in milliseconds from the epoch, that a JavaScript `Date` can hold. */
  const MaxTimeValue: int := 8_640_000_000_000_000

  /** `t` is an instant a `Date` can hold; any other number makes an invalid `Date`,
      whose time is NaN and fails every comparison. */
  predicate IsTimeValue(t: int) {
    -MaxTimeValue <= t <= MaxTimeValue
  }

  /** A visit instant `t` (milliseconds) still counts at time `now` when it is a valid
      `Date` and at most thirty days old. */
  predicate WithinLastThirtyDays(now: int, t: int)
    // the window is inclusive: exactly thirty days old still counts
    ensures IsTimeValue(t) && t == now - ThirtyDaysMilliseconds ==> WithinLastThirtyDays(now, t)
    // a millisecond older does not
    ensures t < now - ThirtyDaysMilliseconds ==> !WithinLastThirtyDays(now, t)
    // nor does an instant outside the range of a `Date`, however recent
    ensures !IsTimeValue(t) ==> !WithinLastThirtyDays(now, t)
  {
    IsTimeValue(t) && t >= now - ThirtyDaysMilliseconds
  }

  /** One link of a document's breadcrumb chain; carried along as metadata only. */
  datatype DocParent = DocParent(uri: string, title: string)

  /** A record as parsed back from storage: legacy records have no `timestamps`
      and a single `timestamp` instead. */
  datatype StoredEntry = StoredEntry(
    serial: Option<int>,
    url: string,
    title: string,
    parents: Option<seq<DocParent>>,
    summary: Option<string>,
    timestamp: Option<int>,
    timestamps: Option<seq<int>>,
    visitCount: int)

  /** A record after migration: `timestamps` is present, most recent visit first. */
  datatype Entry = Entry(
    serial: Option<int>,
    url: string,
    title: string,
    parents: Option<seq<DocParent>>,
    summary: Option<string>,
    timestamp: Option<int>,
    timestamps: seq<int>,
    visitCount: int)

  /** A record with at least one visit, and so with a most recent one. */
  predicate HasVisits(e: Entry) {
    |e.timestamps| > 0
  }

  /** Visits listed most recent first, the order in which `timestamps` is kept. */
  predicate RecentFirst(ts: seq<int>) {
    forall i, j :: 0 <= i < j < |ts| ==> ts[i] >= ts[j]
  }

  /** No visit of `ts` is later than `now`. */
  predicate NotAfter(ts: seq<int>, now: int) {
    forall k :: 0 <= k < |ts| ==> ts[k] <= now
  }

  /** The record's visits are most recent first, and none is later than `now`. */
  predicate Ordered(e: Entry, now: int) {
    RecentFirst(e.timestamps) && NotAfter(e.timestamps, now)
  }

  /** A stored record as the tracker writes it while the clock does not run
      backwards: no visit, current or legacy, is later than `now`, and the current
      visits are most recent first. */
  predicate StoredOrdered(s: StoredEntry, now: int) {
    && (s.timestamps.Some? ==> RecentFirst(s.timestamps.value) && NotAfter(s.timestamps.value, now))
    && (s.timestamp.Some? ==> s.timestamp.value <= now)
  }

  /** The currently displayed document, as far as the tracker uses it. */
  datatype Doc = Doc(mdnUrl: string, title: string, parents: Option<seq<DocParent>>)

  /** The form a record takes after being written to storage and read back. */
  function Store(e: Entry): StoredEntry {
    StoredEntry(e.serial, e.url, e.title, e.parents, e.summary, e.timestamp, Some(e.timestamps), e.visitCount)
  }
}
