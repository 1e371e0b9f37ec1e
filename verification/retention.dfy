/** The thirty-day retention filter applied on every read of the stored list. */
module Retention {
  import opened Entries
  import opened Seqs

  /** The visits of `ts` still inside the window at `now`, order kept. */
  function RecentTimestamps(ts: seq<int>, now: int): (r: seq<int>)
    ensures forall k :: 0 <= k < |r| ==> WithinLastThirtyDays(now, r[k])
    ensures |r| <= |ts|
  {
    Filter(t => WithinLastThirtyDays(now, t), ts)
  }

  /** The recent visits are exactly the in-window visits of `ts`, as an
      order-preserving subsequence with every in-window occurrence kept. */
  lemma RecentTimestampsExact(ts: seq<int>, now: int)
    ensures IsSubseq(RecentTimestamps(ts, now), ts)
    ensures forall t :: multiset(RecentTimestamps(ts, now))[t] ==
                         (if WithinLastThirtyDays(now, t) then multiset(ts)[t] else 0)
  {
    FilterIsSubseq(t => WithinLastThirtyDays(now, t), ts);
    FilterCounts(t => WithinLastThirtyDays(now, t), ts);
  }

  /** A record with its stale visits removed; nothing else about it changes. */
  function Trim(e: Entry, now: int): (r: Entry)
    ensures r.(timestamps := e.timestamps) == e
    ensures IsSubseq(r.timestamps, e.timestamps)
    ensures forall k :: 0 <= k < |r.timestamps| ==> WithinLastThirtyDays(now, r.timestamps[k])
  {
    RecentTimestampsExact(e.timestamps, now);
    e.(timestamps := RecentTimestamps(e.timestamps, now))
  }

  /** Every visit of `e` lies in the window at `now`. */
  predicate AllVisitsRecent(e: Entry, now: int) {
    forall k :: 0 <= k < |e.timestamps| ==> WithinLastThirtyDays(now, e.timestamps[k])
  }

  /** Deleting visits keeps them most recent first and adds none after `now`. */
  lemma {:induction false} SubseqKeepsOrder(a: seq<int>, b: seq<int>, now: int)
    requires IsSubseq(a, b) && RecentFirst(b) && NotAfter(b, now)
    ensures RecentFirst(a) && NotAfter(a, now)
    decreases |b|
  {
    SubseqMembers(a, b);
    if |a| > 0 {
      if a[0] == b[0] && IsSubseq(a[1..], b[1..]) {
        SubseqKeepsOrder(a[1..], b[1..], now);
        SubseqMembers(a[1..], b[1..]);
        forall j | 0 < j < |a| ensures a[0] >= a[j] {
          assert a[j] == a[1..][j - 1];
          assert a[j] in b[1..];
          var m :| 0 <= m < |b[1..]| && b[1..][m] == a[j];
          assert b[m + 1] == a[j];
        }
      } else {
        SubseqKeepsOrder(a, b[1..], now);
      }
    }
  }

  /** Trimming a record keeps its visits in order. */
  lemma TrimKeepsOrder(e: Entry, now: int)
    requires Ordered(e, now)
    ensures Ordered(Trim(e, now), now)
  {
    SubseqKeepsOrder(Trim(e, now).timestamps, e.timestamps, now);
  }

  /** The retention filter keeps every record's visits in order. */
  lemma RetainKeepsOrder(es: seq<Entry>, now: int)
    requires forall i :: 0 <= i < |es| ==> Ordered(es[i], now)
    ensures forall i :: 0 <= i < |Retain(es, now)| ==> Ordered(Retain(es, now)[i], now)
  {
    RetainExact(es, now);
    forall i | 0 <= i < |Retain(es, now)| ensures Ordered(Retain(es, now)[i], now) {
      var j :| 0 <= j < |es| && Retain(es, now)[i] == Trim(es[j], now);
      TrimKeepsOrder(es[j], now);
    }
  }

  /** Every record of `es` trimmed, positions kept. */
  function TrimAll(es: seq<Entry>, now: int): (r: seq<Entry>)
    ensures |r| == |es|
    ensures forall i :: 0 <= i < |es| ==> r[i] == Trim(es[i], now)
  {
    seq(|es|, i requires 0 <= i < |es| => Trim(es[i], now))
  }

  /** Removes stale visits from every record, then every record left without visits. */
  function Retain(es: seq<Entry>, now: int): (r: seq<Entry>)
    ensures |r| <= |es|
    ensures forall i :: 0 <= i < |r| ==> HasVisits(r[i])
    ensures forall i, k :: 0 <= i < |r| && 0 <= k < |r[i].timestamps| ==>
      WithinLastThirtyDays(now, r[i].timestamps[k])
  {
    var trimmed := TrimAll(es, now);
    var r := Filter(HasVisits, trimmed);
    FilterCounts(HasVisits, trimmed);
    assert forall i :: 0 <= i < |r| ==> r[i] in multiset(trimmed);
    r
  }

  /** The retained records are exactly the trimmed records that still have visits,
      in their input order, each one an input record with only its visits trimmed. */
  lemma RetainExact(es: seq<Entry>, now: int)
    ensures IsSubseq(Retain(es, now), TrimAll(es, now))
    ensures forall e :: multiset(Retain(es, now))[e] ==
                         (if HasVisits(e) then multiset(TrimAll(es, now))[e] else 0)
    ensures forall i :: 0 <= i < |Retain(es, now)| ==>
      exists j :: 0 <= j < |es| && Retain(es, now)[i] == Trim(es[j], now)
  {
    var trimmed := TrimAll(es, now);
    FilterIsSubseq(HasVisits, trimmed);
    FilterCounts(HasVisits, trimmed);
    SubseqMembers(Retain(es, now), trimmed);
  }

  /** A trimmed record is not trimmed any further. */
  lemma TrimIdempotent(e: Entry, now: int)
    ensures Trim(Trim(e, now), now) == Trim(e, now)
  {
    FilterIdempotent(t => WithinLastThirtyDays(now, t), e.timestamps);
  }

  /** Applying the retention filter a second time, at the same instant, changes nothing. */
  lemma RetainIdempotent(es: seq<Entry>, now: int)
    ensures Retain(Retain(es, now), now) == Retain(es, now)
  {
    var r := Retain(es, now);
    forall i | 0 <= i < |r|
      ensures Trim(r[i], now) == r[i]
    {
      RecentTimestampsFixed(r[i].timestamps, now);
    }
    assert TrimAll(r, now) == r;
    FilterKeepsAll(HasVisits, r);
  }

  /** Visits that are all in the window survive trimming unchanged. */
  lemma RecentTimestampsFixed(ts: seq<int>, now: int)
    requires forall k :: 0 <= k < |ts| ==> WithinLastThirtyDays(now, ts[k])
    ensures RecentTimestamps(ts, now) == ts
  {
    FilterKeepsAll(t => WithinLastThirtyDays(now, t), ts);
  }

  /** Visits that are all stale are all removed. */
  lemma RecentTimestampsNone(ts: seq<int>, now: int)
    requires forall k :: 0 <= k < |ts| ==> !WithinLastThirtyDays(now, ts[k])
    ensures RecentTimestamps(ts, now) == []
  {
    var r := RecentTimestamps(ts, now);
    RecentTimestampsExact(ts, now);
  }
}
