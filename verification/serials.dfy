/** Allocation of serial numbers to records that have none. */
module Serials {
  import opened Wrappers
  import opened Entries
  import opened Seqs

  /** The largest numeric serial in `es`, or 0 when there is none larger. */
  function MaxSerial(es: seq<Entry>): (m: int)
    ensures m >= 0
    ensures forall i :: 0 <= i < |es| && es[i].serial.Some? ==> es[i].serial.value <= m
    ensures m == 0 || exists i :: 0 <= i < |es| && es[i].serial == Some(m)
  {
    if |es| == 0 then 0
    else
      var rest := MaxSerial(es[1..]);
      assert forall i :: 1 <= i < |es| ==> es[i] == es[1..][i - 1];
      match es[0].serial
      case Some(v) => if v > rest then v else rest
      case None => rest
  }

  /** The serial the next unnumbered record receives: one more than every numeric
      serial in the list, and the least such number that is at least 1. */
  function NextSerial(es: seq<Entry>): (n: int)
    ensures n >= 1
    ensures forall i :: 0 <= i < |es| && es[i].serial.Some? ==> es[i].serial.value < n
    ensures n == 1 || exists i :: 0 <= i < |es| && es[i].serial == Some(n - 1)
    ensures (forall i :: 0 <= i < |es| ==> es[i].serial.None?) ==> n == 1
  {
    1 + MaxSerial(es)
  }

  /** No two numbered records of `s` share a serial. */
  predicate SerialsDistinct(s: seq<Entry>) {
    KeysDistinct((e: Entry) => e.serial.Some?, (e: Entry) => e.serial, s)
  }

  /** Number of records of `s` without a serial. */
  function Unnumbered(s: seq<Entry>): nat {
    if |s| == 0 then 0
    else Unnumbered(s[..|s| - 1]) + (if s[|s| - 1].serial.None? then 1 else 0)
  }

  /** Walks the list left to right from position `i`; each unnumbered record gets
      the next serial of the list as it stands at that moment. */
  function AssignFrom(cur: seq<Entry>, i: nat): seq<Entry>
    requires i <= |cur|
    decreases |cur| - i
  {
    if i == |cur| then cur
    else if cur[i].serial.None? then
      AssignFrom(cur[i := cur[i].(serial := Some(NextSerial(cur)))], i + 1)
    else AssignFrom(cur, i + 1)
  }

  /** Closed form of the allocation: the k-th unnumbered record (from 0) receives
      `NextSerial(es) + k`; numbered records stay as they are. */
  function Allocated(es: seq<Entry>, j: nat): Entry
    requires j < |es|
  {
    if es[j].serial.Some? then es[j]
    else es[j].(serial := Some(NextSerial(es) + Unnumbered(es[..j])))
  }

  lemma UnnumberedStep(es: seq<Entry>, j: nat)
    requires j < |es|
    ensures Unnumbered(es[..j + 1]) == Unnumbered(es[..j]) + (if es[j].serial.None? then 1 else 0)
  {
    assert es[..j + 1][..j] == es[..j];
  }

  /** Counting unnumbered records along growing prefixes is monotone, and strictly
      so across an unnumbered record. */
  lemma {:induction false} UnnumberedGrows(es: seq<Entry>, i: nat, j: nat)
    requires i < j <= |es|
    ensures Unnumbered(es[..i]) <= Unnumbered(es[..j])
    ensures es[i].serial.None? ==> Unnumbered(es[..i]) < Unnumbered(es[..j])
    decreases j - i
  {
    UnnumberedStep(es, j - 1);
    if i < j - 1 {
      UnnumberedGrows(es, i, j - 1);
    }
  }

  /** A positive count of unnumbered records in a prefix has a last contributor. */
  lemma {:induction false} LastUnnumbered(es: seq<Entry>, i: nat) returns (k: nat)
    requires i <= |es| && Unnumbered(es[..i]) > 0
    ensures k < i && es[k].serial.None? && Unnumbered(es[..k]) + 1 == Unnumbered(es[..i])
  {
    assert i > 0;
    UnnumberedStep(es, i - 1);
    if es[i - 1].serial.None? {
      k := i - 1;
    } else {
      k := LastUnnumbered(es, i - 1);
    }
  }

  /** The state of the walk after position `i`: a processed prefix and an untouched rest. */
  ghost predicate WalkedTo(es: seq<Entry>, cur: seq<Entry>, i: nat) {
    && |cur| == |es| && i <= |es|
    && (forall j :: 0 <= j < i ==> cur[j] == Allocated(es, j))
    && (forall j :: i <= j < |es| ==> cur[j] == es[j])
  }

  /** Midway through the walk, the largest serial is the last one handed out. */
  lemma MaxSerialMidway(es: seq<Entry>, cur: seq<Entry>, i: nat)
    requires WalkedTo(es, cur, i)
    ensures MaxSerial(cur) == MaxSerial(es) + Unnumbered(es[..i])
  {
    var m := MaxSerial(es);
    var v := m + Unnumbered(es[..i]);
    forall j | 0 <= j < |cur| && cur[j].serial.Some?
      ensures cur[j].serial.value <= v
    {
      if j < i && es[j].serial.None? {
        UnnumberedGrows(es, j, i);
      }
    }
    if Unnumbered(es[..i]) == 0 {
      if m != 0 {
        var w :| 0 <= w < |es| && es[w].serial == Some(m);
        assert cur[w].serial == Some(m);
      }
    } else {
      var k := LastUnnumbered(es, i);
      assert cur[k].serial == Some(v);
    }
  }

  /** Numbering the record at `i` with its closed-form serial extends the walk by one. */
  lemma WalkStep(es: seq<Entry>, cur: seq<Entry>, i: nat, serial: int)
    requires WalkedTo(es, cur, i) && i < |es| && cur[i].serial.None?
    requires serial == NextSerial(es) + Unnumbered(es[..i])
    ensures WalkedTo(es, cur[i := cur[i].(serial := Some(serial))], i + 1)
  {
    var next := cur[i := cur[i].(serial := Some(serial))];
    assert cur[i] == es[i];
    assert next[i] == Allocated(es, i);
    forall j | 0 <= j < i ensures next[j] == Allocated(es, j) {
      assert next[j] == cur[j];
    }
    forall j | i < j < |es| ensures next[j] == es[j] {
      assert next[j] == cur[j];
    }
  }

  lemma {:induction false} AssignFromClosedForm(es: seq<Entry>, cur: seq<Entry>, i: nat)
    requires WalkedTo(es, cur, i)
    ensures |AssignFrom(cur, i)| == |es|
    ensures forall j :: 0 <= j < |es| ==> AssignFrom(cur, i)[j] == Allocated(es, j)
    decreases |es| - i
  {
    if i < |es| {
      if cur[i].serial.None? {
        var next := cur[i := cur[i].(serial := Some(NextSerial(cur)))];
        MaxSerialMidway(es, cur, i);
        WalkStep(es, cur, i, NextSerial(cur));
        AssignFromClosedForm(es, next, i + 1);
      } else {
        assert WalkedTo(es, cur, i + 1);
        AssignFromClosedForm(es, cur, i + 1);
      }
    }
  }

  /** Gives every unnumbered record a serial, walking the list left to right. */
  function AssignSerials(es: seq<Entry>): (r: seq<Entry>)
    ensures |r| == |es|
    // every record ends up numbered
    ensures forall i :: 0 <= i < |r| ==> r[i].serial.Some?
    // records that had a serial keep it and are unchanged
    ensures forall i :: 0 <= i < |es| && es[i].serial.Some? ==> r[i] == es[i]
    // a newly numbered record differs from its input in the serial only
    ensures forall i :: 0 <= i < |es| ==> r[i].(serial := es[i].serial) == es[i]
    // fresh serials exceed every serial that existed before
    ensures forall i, j :: 0 <= i < |es| && 0 <= j < |es| && es[i].serial.None? && es[j].serial.Some? ==>
      es[j].serial.value < r[i].serial.value
    // fresh serials increase in list order, so they are pairwise distinct
    ensures forall i, j :: 0 <= i < j < |es| && es[i].serial.None? && es[j].serial.None? ==>
      r[i].serial.value < r[j].serial.value
    // fresh serials are handed out consecutively from the next serial of the input
    ensures forall i :: 0 <= i < |es| ==> r[i] == Allocated(es, i)
    // distinct serials stay distinct
    ensures SerialsDistinct(es) ==> SerialsDistinct(r)
  {
    AssignSerialsClosedForm(es);
    var r := AssignFrom(es, 0);
    assert forall i, j :: 0 <= i < j < |es| && es[i].serial.None? && es[j].serial.None? ==>
      r[i].serial.value < r[j].serial.value by {
      forall i, j | 0 <= i < j < |es| && es[i].serial.None? && es[j].serial.None?
        ensures r[i].serial.value < r[j].serial.value
      {
        UnnumberedGrows(es, i, j);
      }
    }
    r
  }

  /** The allocation walk agrees with its closed form at every position. */
  lemma AssignSerialsClosedForm(es: seq<Entry>)
    ensures |AssignFrom(es, 0)| == |es|
    ensures forall j :: 0 <= j < |es| ==> AssignFrom(es, 0)[j] == Allocated(es, j)
  {
    AssignFromClosedForm(es, es, 0);
  }
}
