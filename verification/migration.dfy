/** Upgrade of legacy single-timestamp records to the multi-timestamp schema. */
module Migration {
  import opened Wrappers
  import opened Entries

  /** `n` copies of `t`; a count of zero or less yields none, as a `for` loop up to `n` does. */
  function Repeat(t: int, n: int): (r: seq<int>)
    ensures |r| == if n > 0 then n else 0
    ensures forall i :: 0 <= i < |r| ==> r[i] == t
    decreases n
  {
    if n <= 0 then [] else [t] + Repeat(t, n - 1)
  }

  /** The legacy `timestamp` is truthy: present and not 0. */
  predicate HasLegacyTimestamp(s: StoredEntry) {
    s.timestamp.Some? && s.timestamp.value != 0
  }

  /** A legacy record whose single timestamp may be expanded at time `now`. */
  predicate MigratesAt(s: StoredEntry, now: int) {
    s.timestamps.None? && HasLegacyTimestamp(s) && WithinLastThirtyDays(now, s.timestamp.value)
  }

  /** Brings one stored record to the current schema at time `now`. */
  function Migrate(s: StoredEntry, now: int): (e: Entry)
    // identity, metadata and the legacy count are copied
    ensures e.serial == s.serial && e.url == s.url && e.title == s.title
    ensures e.parents == s.parents && e.summary == s.summary && e.visitCount == s.visitCount
    // a record that already has timestamps is left as it was
    ensures s.timestamps.Some? ==> Store(e) == s
    // an in-window legacy record gets `visitCount` visits at its timestamp, legacy field cleared
    ensures MigratesAt(s, now) ==>
      && e.timestamp.None?
      && |e.timestamps| == (if s.visitCount > 0 then s.visitCount else 0)
      && forall i :: 0 <= i < |e.timestamps| ==> e.timestamps[i] == s.timestamp.value
    // any other legacy record gets no visits and keeps its legacy field
    ensures s.timestamps.None? && !MigratesAt(s, now) ==>
      e.timestamps == [] && e.timestamp == s.timestamp
  {
    match s.timestamps
    case Some(ts) =>
      Entry(s.serial, s.url, s.title, s.parents, s.summary, s.timestamp, ts, s.visitCount)
    case None =>
      if HasLegacyTimestamp(s) && WithinLastThirtyDays(now, s.timestamp.value) then
        Entry(s.serial, s.url, s.title, s.parents, s.summary, None,
              Repeat(s.timestamp.value, s.visitCount), s.visitCount)
      else
        Entry(s.serial, s.url, s.title, s.parents, s.summary, s.timestamp, [], s.visitCount)
  }

  /** Migration happens once: a migrated record, stored and read back at any later
      time, migrates to itself. */
  lemma MigrateOnce(s: StoredEntry, now: int, later: int)
    ensures Migrate(Store(Migrate(s, now)), later) == Migrate(s, now)
  {
  }

  /** Migration keeps visits most recent first: a legacy record expands to equal
      copies of one instant, and a current record keeps its list. */
  lemma MigrateKeepsOrder(s: StoredEntry, now: int)
    requires StoredOrdered(s, now)
    ensures Ordered(Migrate(s, now), now)
  {
  }

  /** Migrating every record of a stored list, in order. */
  function MigrateAll(stored: seq<StoredEntry>, now: int): (es: seq<Entry>)
    ensures |es| == |stored|
    ensures forall i :: 0 <= i < |es| ==> es[i] == Migrate(stored[i], now)
  {
    seq(|stored|, i requires 0 <= i < |stored| => Migrate(stored[i], now))
  }
}
