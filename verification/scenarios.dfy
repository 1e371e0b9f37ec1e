/** The tracker's behaviour on small concrete lists. */
module Scenarios {
  import opened Wrappers
  import opened Seqs
  import opened Entries
  import opened Migration
  import opened Serials
  import opened Retention
  import opened FrequentlyViewed

  const Day: int := 24 * 60 * 60 * 1000

  /** A record visited now and one day ago is a frequent record, so a page of five
      at offset zero shows it alone with an article count of 1. */
  lemma TwoVisitsShowInCollection(t0: int)
    requires IsTimeValue(t0) && IsTimeValue(t0 - Day)
    ensures var stored := [StoredEntry(Some(1), "/a", "A", None, None, None, Some([t0, t0 - Day]), 0)];
      var v := View(stored, 5, 0, t0);
      && v.collection.Some?
      && v.collection.value.articleCount == 1
      && v.collection.value.items == [Entry(Some(1), "/a", "A", None, None, None, [t0, t0 - Day], 0)]
      && v.reachedEnd
  {
    var stored := [StoredEntry(Some(1), "/a", "A", None, None, None, Some([t0, t0 - Day]), 0)];
    var e := Entry(Some(1), "/a", "A", None, None, None, [t0, t0 - Day], 0);
    var migrated := MigrateAll(stored, t0);
    assert migrated == [e];
    assert AssignSerials(migrated) == [e];
    RecentTimestampsFixed(e.timestamps, t0);
    assert TrimAll([e], t0) == [e];
    FilterKeepsAll(HasVisits, [e]);
    assert Normalize(stored, t0) == [e];
    FilterKeepsAll(IsFrequent, [e]);
    var v := View(stored, 5, 0, t0);
    assert multiset(v.collection.value.items) <= multiset{e};
  }

  /** A record whose visits are all older than thirty days is gone after reading,
      and with it the collection. */
  lemma StaleRecordDropped(now: int)
    ensures var stored := [StoredEntry(Some(7), "/old", "Old", None, None, None,
                                       Some([now - 31 * Day, now - 40 * Day]), 0)];
      && Normalize(stored, now) == []
      && View(stored, 5, 0, now).collection.None?
  {
    var e := Entry(Some(7), "/old", "Old", None, None, None, [now - 31 * Day, now - 40 * Day], 0);
    assert MigrateAll([StoredEntry(Some(7), "/old", "Old", None, None, None,
                                   Some([now - 31 * Day, now - 40 * Day]), 0)], now) == [e];
    assert AssignSerials([e]) == [e];
    RecentTimestampsNone(e.timestamps, now);
    assert TrimAll([e], now) == [e.(timestamps := [])];
  }

  /** Serials are not permanent: once the highest-numbered record ages out, the
      next new record is given the same serial again. */
  lemma SerialReusedAfterExpiry(now: int)
    requires IsTimeValue(now)
    ensures var stored := [
        StoredEntry(Some(1), "/a", "A", None, None, None, Some([now]), 0),
        StoredEntry(Some(2), "/b", "B", None, None, None, Some([now - 31 * Day]), 0)];
      NextSerial(Normalize(stored, now)) == 2
  {
    var a := Entry(Some(1), "/a", "A", None, None, None, [now], 0);
    var b := Entry(Some(2), "/b", "B", None, None, None, [now - 31 * Day], 0);
    assert MigrateAll([
        StoredEntry(Some(1), "/a", "A", None, None, None, Some([now]), 0),
        StoredEntry(Some(2), "/b", "B", None, None, None, Some([now - 31 * Day]), 0)], now) == [a, b];
    assert AssignSerials([a, b]) == [a, b];
    RecentTimestampsFixed(a.timestamps, now);
    RecentTimestampsNone(b.timestamps, now);
    assert TrimAll([a, b], now) == [a, b.(timestamps := [])];
    assert Filter(HasVisits, [b.(timestamps := [])]) == [];
    assert Filter(HasVisits, [a, b.(timestamps := [])]) == [a];
    assert NextSerial([a]) == 2;
  }

  /** A legacy record viewed three times yesterday reads back with three visits
      at that instant and no legacy field (unless that instant is 0, which reads
      as no timestamp at all). */
  lemma LegacyRecordMigrated(now: int)
    requires now != Day && IsTimeValue(now - Day)
    ensures var stored := [StoredEntry(Some(1), "/a", "A", None, None, Some(now - Day), None, 3)];
      Normalize(stored, now) == [Entry(Some(1), "/a", "A", None, None, None, [now - Day, now - Day, now - Day], 3)]
  {
    var t := now - Day;
    var e := Entry(Some(1), "/a", "A", None, None, None, [t, t, t], 3);
    assert Migration.Repeat(t, 3) == [t, t, t];
    assert MigrateAll([StoredEntry(Some(1), "/a", "A", None, None, Some(t), None, 3)], now) == [e];
    assert AssignSerials([e]) == [e];
    RecentTimestampsFixed(e.timestamps, now);
    assert TrimAll([e], now) == [e];
    FilterKeepsAll(HasVisits, [e]);
  }

  /** A visit beyond the range of a `Date` never counts, however far in the future:
      such a record is dropped on reading, and a legacy one is not expanded. */
  lemma OutOfRangeVisitDropped(now: int)
    ensures var stored := [StoredEntry(Some(1), "/a", "A", None, None, None,
                                       Some([9_000_000_000_000_000]), 0)];
      Normalize(stored, now) == []
    ensures Migrate(StoredEntry(Some(1), "/a", "A", None, None, Some(9_000_000_000_000_000), None, 2), now).timestamps == []
  {
  }
}
