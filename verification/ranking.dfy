/** Ranking of records: most recent visit first, then most visits first. */
module Ranking {
  import opened Wrappers
  import opened Entries

  /** The head of `timestamps`, which is the most recent visit when the list is kept
      most recent first (`LatestIsMostRecent`); `None` where JavaScript would read
      `undefined`. */
  function Latest(e: Entry): Option<int> {
    if |e.timestamps| > 0 then Some(e.timestamps[0]) else None
  }

  /** The most recent of the visits `ts`, wherever it stands in the list. */
  function MostRecent(ts: seq<int>): (m: int)
    requires |ts| > 0
    ensures forall k :: 0 <= k < |ts| ==> ts[k] <= m
    ensures m in ts
  {
    if |ts| == 1 then ts[0]
    else
      var rest := MostRecent(ts[1..]);
      assert forall k :: 1 <= k < |ts| ==> ts[k] == ts[1..][k - 1];
      if ts[0] >= rest then ts[0] else rest
  }

  /** With visits most recent first, the head of `timestamps` is the most recent visit. */
  lemma LatestIsMostRecent(e: Entry)
    requires RecentFirst(e.timestamps) && HasVisits(e)
    ensures Latest(e) == Some(MostRecent(e.timestamps))
  {
    var m := MostRecent(e.timestamps);
    var k :| 0 <= k < |e.timestamps| && e.timestamps[k] == m;
    assert e.timestamps[0] >= e.timestamps[k];
  }

  /** On records kept most recent first, the comparator ranks by the most recent
      visit, then by the number of visits. */
  lemma CompareByMostRecent(a: Entry, b: Entry)
    requires RecentFirst(a.timestamps) && HasVisits(a)
    requires RecentFirst(b.timestamps) && HasVisits(b)
    ensures Compare(a, b) < 0 <==>
      || MostRecent(a.timestamps) > MostRecent(b.timestamps)
      || (MostRecent(a.timestamps) == MostRecent(b.timestamps) && |a.timestamps| > |b.timestamps|)
  {
    LatestIsMostRecent(a);
    LatestIsMostRecent(b);
  }

  /** The comparator handed to `sort`: negative when `a` ranks before `b`. A
      comparison with a missing latest visit is false, as with `undefined` in
      JavaScript, so such records fall through to the visit-count comparison. */
  function Compare(a: Entry, b: Entry): (c: int)
    ensures c == -1 || c == 0 || c == 1
    ensures c == 0 <==> Latest(a) == Latest(b) && |a.timestamps| == |b.timestamps|
    ensures HasVisits(a) && HasVisits(b) ==>
      (c < 0 <==> a.timestamps[0] > b.timestamps[0]
                  || (a.timestamps[0] == b.timestamps[0] && |a.timestamps| > |b.timestamps|))
  {
    var x := Latest(a);
    var y := Latest(b);
    if x.Some? && y.Some? && x.value < y.value then 1
    else if x.Some? && y.Some? && x.value > y.value then -1
    else if |a.timestamps| > |b.timestamps| then -1
    else if |a.timestamps| < |b.timestamps| then 1
    else 0
  }

  /** `a` may stand before `b` in a sorted list. */
  predicate Precedes(a: Entry, b: Entry) {
    Compare(a, b) <= 0
  }

  lemma CompareAntisymmetric(a: Entry, b: Entry)
    ensures Compare(a, b) == -Compare(b, a)
  {
  }

  lemma CompareTransitive(a: Entry, b: Entry, c: Entry)
    ensures Compare(a, b) <= 0 && Compare(b, c) <= 0 ==> Compare(a, c) <= 0
    ensures Compare(a, b) < 0 && Compare(b, c) <= 0 ==> Compare(a, c) < 0
    ensures Compare(a, b) <= 0 && Compare(b, c) < 0 ==> Compare(a, c) < 0
  {
  }

  /** A record without visits ranks after every record with one. */
  lemma CompareEmptyLast(a: Entry, b: Entry)
    requires HasVisits(a) && !HasVisits(b)
    ensures Compare(a, b) == -1
  {
  }

  /** `Precedes` is a total preorder: reflexive, transitive, and any two records compare. */
  lemma PrecedesTotalPreorder()
    ensures forall a :: Precedes(a, a)
    ensures forall a, b, c :: Precedes(a, b) && Precedes(b, c) ==> Precedes(a, c)
    ensures forall a, b :: Precedes(a, b) || Precedes(b, a)
  {
    forall a, b, c | Precedes(a, b) && Precedes(b, c)
      ensures Precedes(a, c)
    {
      CompareTransitive(a, b, c);
    }
  }

  /** Every record ranks no lower than every later one. */
  predicate Sorted(s: seq<Entry>) {
    forall i, j :: 0 <= i < j < |s| ==> Precedes(s[i], s[j])
  }

  /** Inserts `x` before the first record it may precede. */
  function Insert(x: Entry, s: seq<Entry>): (r: seq<Entry>)
    requires Sorted(s)
    ensures Sorted(r)
    ensures multiset(r) == multiset(s) + multiset{x}
  {
    if |s| == 0 then [x]
    else if Precedes(x, s[0]) then
      PrecedesHeadPrecedesAll(x, s);
      [x] + s
    else
      var rest := Insert(x, s[1..]);
      assert s == [s[0]] + s[1..];
      HeadPrecedesInsertion(x, s, rest);
      [s[0]] + rest
  }

  /** A record that may precede the head of a ranked list may precede all of it. */
  lemma PrecedesHeadPrecedesAll(x: Entry, s: seq<Entry>)
    requires Sorted(s) && |s| > 0 && Precedes(x, s[0])
    ensures forall j :: 0 <= j < |s| ==> Precedes(x, s[j])
  {
    forall j | 0 <= j < |s| ensures Precedes(x, s[j]) {
      CompareTransitive(x, s[0], s[j]);
    }
  }

  /** When `x` ranks below the head, the head may precede `x` inserted into the tail. */
  lemma HeadPrecedesInsertion(x: Entry, s: seq<Entry>, rest: seq<Entry>)
    requires Sorted(s) && |s| > 0 && !Precedes(x, s[0])
    requires multiset(rest) == multiset(s[1..]) + multiset{x}
    ensures forall k :: 0 <= k < |rest| ==> Precedes(s[0], rest[k])
  {
    forall k | 0 <= k < |rest| ensures Precedes(s[0], rest[k]) {
      assert rest[k] in multiset(s[1..]) + multiset{x};
      CompareAntisymmetric(x, s[0]);
    }
  }

  /** The list ranked by `Compare`, by insertion. */
  function Sort(s: seq<Entry>): (r: seq<Entry>)
    ensures Sorted(r)
    ensures multiset(r) == multiset(s)
    ensures |r| == |s|
  {
    if |s| == 0 then []
    else
      assert s == [s[0]] + s[1..];
      Insert(s[0], Sort(s[1..]))
  }

  /** Sorting a list that is already sorted returns it unchanged. */
  lemma {:induction false} SortSorted(s: seq<Entry>)
    requires Sorted(s)
    ensures Sort(s) == s
  {
    if |s| > 0 {
      SortSorted(s[1..]);
    }
  }
}
