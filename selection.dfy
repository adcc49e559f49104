/**
 * Nearest-colour selection with anti-repetition cycling, stated on values.
 *
 * DatabaseMatcher keeps a list of records, each with an average colour and a
 * `used` flag, and a counter of flagged records. Every cell first resets the
 * flags when the counter has reached the number of records, then takes the
 * unused record whose average is nearest to the cell's colour (first one in
 * list order on a tie) and flags it. This module is that bookkeeping as pure
 * functions; the class in module Matcher is proved to follow it.
 */
module Selection {

  datatype Option<T> = None | Some(value: T)

  /**
   * A colour with Emgu's Bgr channels, as integers. Pixels of the byte
   * images are colours with channels in 0..255. The mean colours that the
   * source compares (GetAverage of a 60x60 tile and of a 60x60 cell) are
   * held here as channel SUMS over those pixels: every tile and every cell
   * has the same number of pixels, so the sums are the means scaled by one
   * positive constant, and distances between sums order exactly as
   * distances between means.
   */
  datatype Bgr = Bgr(blue: int, green: int, red: int)

  /**
   * Squared Euclidean distance between two colours. The source compares
   * Math.Sqrt of this sum; the square root is strictly increasing on
   * non-negative numbers, so both give the same minimum and the same ties.
   */
  function DistanceSq(a: Bgr, b: Bgr): (d: int)
    ensures d >= 0
    ensures d == 0 <==> a == b
  {
    var x := a.red - b.red;
    var y := a.green - b.green;
    var z := a.blue - b.blue;
    x * x + y * y + z * z
  }

  /**
   * Record k is what a left-to-right scan of the first n records with a
   * strict "<" keeps: it is unused, no unused record among the first n is
   * closer to q, and every unused record before it is strictly farther.
   * Equivalently, k has the least (distance, position) pair among the unused
   * records.
   */
  ghost predicate IsBestAmong(averages: seq<Bgr>, used: seq<bool>, q: Bgr, n: nat, k: nat)
    requires |averages| == |used| && n <= |used|
    ensures IsBestAmong(averages, used, q, n, k) ==>
      k < n && forall j :: 0 <= j < n && !used[j] && j != k ==>
        DistanceSq(averages[k], q) < DistanceSq(averages[j], q)
        || (DistanceSq(averages[k], q) == DistanceSq(averages[j], q) && k < j)
  {
    && k < n
    && !used[k]
    && (forall j :: 0 <= j < n && !used[j] ==> DistanceSq(averages[k], q) <= DistanceSq(averages[j], q))
    && (forall j :: 0 <= j < k && !used[j] ==> DistanceSq(averages[k], q) < DistanceSq(averages[j], q))
  }

  /**
   * The record FindBestMatch holds after visiting the first n records:
   * unused records only, and a candidate replaces the current one only when
   * it is strictly closer. None plays the role of the initial bound
   * Double.MaxValue with no record: every finite distance is below that bound,
   * so the first unused record is always taken.
   */
  function Scan(averages: seq<Bgr>, used: seq<bool>, q: Bgr, n: nat): (r: Option<nat>)
    requires |averages| == |used| && n <= |used|
    ensures r.None? <==> forall j :: 0 <= j < n ==> used[j]
    ensures r.Some? ==> IsBestAmong(averages, used, q, n, r.value)
    decreases n
  {
    if n == 0 then None
    else
      var prev := Scan(averages, used, q, n - 1);
      if used[n - 1] then prev
      else if prev.None? || DistanceSq(averages[n - 1], q) < DistanceSq(averages[prev.value], q) then Some(n - 1)
      else prev
  }

  /** The record FindBestMatch returns, as an index into the record list. */
  function BestMatch(averages: seq<Bgr>, used: seq<bool>, q: Bgr): (r: Option<nat>)
    requires |averages| == |used|
    ensures r.None? <==> forall j :: 0 <= j < |used| ==> used[j]
    ensures r.Some? ==> IsBestAmong(averages, used, q, |used|, r.value)
  {
    Scan(averages, used, q, |used|)
  }

  /** The argmin with first-wins tie-break is unique, so BestMatch is the only index with that property. */
  lemma BestAmongIsUnique(averages: seq<Bgr>, used: seq<bool>, q: Bgr, n: nat, k1: nat, k2: nat)
    requires |averages| == |used| && n <= |used|
    requires IsBestAmong(averages, used, q, n, k1) && IsBestAmong(averages, used, q, n, k2)
    ensures k1 == k2
  {
  }

  /**
   * A query equal to the average of an unused record gets a record at
   * distance zero, that is with exactly that average, no later in the list.
   */
  lemma ExactColourWins(averages: seq<Bgr>, used: seq<bool>, k: nat)
    requires |averages| == |used| && k < |used| && !used[k]
    ensures var r := BestMatch(averages, used, averages[k]);
      r.Some? && r.value <= k && averages[r.value] == averages[k]
  {
    var r := BestMatch(averages, used, averages[k]);
    assert DistanceSq(averages[k], averages[k]) == 0;
    assert DistanceSq(averages[r.value], averages[k]) <= 0;
  }

  /** Number of flagged records. */
  function CountUsed(used: seq<bool>): (n: nat)
    ensures n <= |used|
  {
    if used == [] then 0 else (if used[0] then 1 else 0) + CountUsed(used[1..])
  }

  /** The counter reaches the number of records exactly when every record is flagged. */
  lemma {:induction false} CountFullIffAllUsed(used: seq<bool>)
    ensures CountUsed(used) == |used| <==> forall j :: 0 <= j < |used| ==> used[j]
  {
    if used != [] {
      CountFullIffAllUsed(used[1..]);
      if CountUsed(used) == |used| {
        assert used[0];
        forall j | 0 <= j < |used| ensures used[j] {
          if j > 0 { assert used[1..][j - 1] == used[j]; }
        }
      }
      if forall j :: 0 <= j < |used| ==> used[j] {
        assert forall j :: 0 <= j < |used[1..]| ==> used[1..][j];
      }
    }
  }

  /** Flagging one unused record raises the count by exactly one. */
  lemma {:induction false} CountAfterFlag(used: seq<bool>, k: nat)
    requires k < |used| && !used[k]
    ensures CountUsed(used[k := true]) == CountUsed(used) + 1
  {
    if k == 0 {
      assert used[k := true][1..] == used[1..];
    } else {
      assert used[k := true][1..] == used[1..][k - 1 := true];
      CountAfterFlag(used[1..], k - 1);
    }
  }

  /** No record is flagged: the count is zero. */
  lemma {:induction false} CountNoneUsed(n: nat)
    ensures CountUsed(seq(n, _ => false)) == 0
  {
    if n > 0 {
      assert seq(n, _ => false)[1..] == seq(n - 1, _ => false);
      CountNoneUsed(n - 1);
    }
  }

  /** Appending an unused record leaves the count unchanged. */
  lemma {:induction false} CountAppendUnused(used: seq<bool>)
    ensures CountUsed(used + [false]) == CountUsed(used)
  {
    if used != [] {
      assert (used + [false])[1..] == used[1..] + [false];
      CountAppendUnused(used[1..]);
    }
  }

  /** The selection state: the records' `used` flags and the counter m_used. */
  datatype Cycle = Cycle(used: seq<bool>, count: int)

  /** The invariant the matcher keeps: m_used is the number of flagged records. */
  ghost predicate Consistent(c: Cycle)
  {
    c.count == CountUsed(c.used)
  }

  /** Start of a cycle: no record used, counter zero. */
  function Fresh(n: nat): (c: Cycle)
    ensures Consistent(c) && |c.used| == n
  {
    CountNoneUsed(n);
    Cycle(seq(n, _ => false), 0)
  }

  /** A fresh cycle over one more record is the fresh cycle with one more unused flag. */
  lemma FreshAppend(n: nat)
    ensures Fresh(n + 1) == Cycle(Fresh(n).used + [false], 0)
  {
    assert Fresh(n).used + [false] == Fresh(n + 1).used;
  }

  /** The check at the head of ProcessCell: once the counter equals the record count, clear every flag. */
  function StartCell(c: Cycle): (s: Cycle)
    ensures |s.used| == |c.used|
    ensures Consistent(c) ==> Consistent(s)
    ensures s == c || s == Fresh(|c.used|)
  {
    if c.count == |c.used| then Fresh(|c.used|) else c
  }

  /** After StartCell some record is unused, provided there is a record at all. */
  lemma StartCellLeavesUnused(c: Cycle)
    requires Consistent(c) && |c.used| > 0
    ensures var s := StartCell(c);
      Consistent(s) && |s.used| == |c.used| && s.count < |s.used|
      && exists j :: 0 <= j < |s.used| && !s.used[j]
  {
    var s := StartCell(c);
    if c.count == |c.used| {
      assert !s.used[0];
    } else {
      CountFullIffAllUsed(c.used);
    }
  }

  /**
   * One cell's selection: reset if the cycle is complete, take the nearest
   * unused record, flag it and count it.
   */
  function Select(averages: seq<Bgr>, c: Cycle, q: Bgr): (r: (nat, Cycle))
    requires |averages| == |c.used| > 0 && Consistent(c)
    ensures var s := StartCell(c);
      && IsBestAmong(averages, s.used, q, |averages|, r.0)
      && r.1.used == s.used[r.0 := true]
      && r.1.count == s.count + 1
      && Consistent(r.1)
  {
    var s := StartCell(c);
    StartCellLeavesUnused(c);
    var k := BestMatch(averages, s.used, q).value;
    CountAfterFlag(s.used, k);
    (k, Cycle(s.used[k := true], s.count + 1))
  }

  /** Select flags and counts exactly the record BestMatch names after the reset. */
  lemma SelectTakesBestMatch(averages: seq<Bgr>, c: Cycle, q: Bgr, k: nat)
    requires |averages| == |c.used| > 0 && Consistent(c)
    requires BestMatch(averages, StartCell(c).used, q) == Some(k)
    ensures Select(averages, c, q) == (k, Cycle(StartCell(c).used[k := true], StartCell(c).count + 1))
  {
  }

  /** Inside a cycle (counter below the record count) Select takes an unused record and flags only it. */
  lemma SelectWithinCycle(averages: seq<Bgr>, c: Cycle, q: Bgr)
    requires |averages| == |c.used| > 0 && Consistent(c) && c.count < |c.used|
    ensures var (k, c') := Select(averages, c, q);
      && k < |c.used| && !c.used[k]
      && c'.used == c.used[k := true] && c'.count == c.count + 1
  {
    assert StartCell(c) == c;
  }

  /** The records chosen for a run of cells with colours qs, and the state after them. */
  function Run(averages: seq<Bgr>, c: Cycle, qs: seq<Bgr>): (r: (seq<nat>, Cycle))
    requires |averages| == |c.used| > 0 && Consistent(c)
    ensures |r.0| == |qs| && |r.1.used| == |averages| && Consistent(r.1)
    ensures forall i :: 0 <= i < |r.0| ==> r.0[i] < |averages|
    decreases |qs|
  {
    if qs == [] then ([], c)
    else
      var prev := Run(averages, c, qs[..|qs| - 1]);
      var step := Select(averages, prev.1, qs[|qs| - 1]);
      (prev.0 + [step.0], step.1)
  }

  /**
   * Within one cycle no record is chosen twice: from a consistent state,
   * as long as the cells do not outnumber the unused records, every choice
   * is a record that was unused, the choices are pairwise distinct, and
   * exactly the chosen records become flagged.
   */
  lemma {:induction false} RunWithinCycle(averages: seq<Bgr>, c: Cycle, qs: seq<Bgr>)
    requires |averages| == |c.used| > 0 && Consistent(c)
    requires c.count + |qs| <= |averages|
    ensures var (ks, c') := Run(averages, c, qs);
      && (forall i :: 0 <= i < |ks| ==> !c.used[ks[i]])
      && (forall i, j :: 0 <= i < j < |ks| ==> ks[i] != ks[j])
      && c'.count == c.count + |qs|
      && (forall k :: 0 <= k < |averages| ==> c'.used[k] == (c.used[k] || k in ks))
  {
    if qs != [] {
      var init := qs[..|qs| - 1];
      RunWithinCycle(averages, c, init);
      var (ks, c1) := Run(averages, c, init);
      var q := qs[|qs| - 1];
      SelectWithinCycle(averages, c1, q);
      var (k, c2) := Select(averages, c1, q);
      assert Run(averages, c, qs) == (ks + [k], c2);
      assert !c.used[k] && k !in ks;
      var ks' := ks + [k];
      forall i | 0 <= i < |ks'| ensures !c.used[ks'[i]] && (i < |ks| ==> ks'[i] == ks[i]) {
        if i < |ks| {
          assert ks'[i] == ks[i];
        }
      }
      forall i, j | 0 <= i < j < |ks'| ensures ks'[i] != ks'[j] {
        if j == |ks| {
          assert ks'[i] in ks;
        }
      }
      forall j | 0 <= j < |averages|
        ensures c2.used[j] == (c.used[j] || j in ks + [k])
      {
        assert j in ks + [k] <==> j in ks || j == k;
      }
    }
  }

  /**
   * The cycling property: from a fresh state, N cells (N the number of
   * records) choose every record exactly once, and they leave all records
   * flagged with the counter at N, so the next cell starts a fresh cycle and
   * may repeat any record.
   */
  lemma CycleVisitsEachOnce(averages: seq<Bgr>, qs: seq<Bgr>)
    requires |averages| > 0 && |qs| == |averages|
    ensures var r := Run(averages, Fresh(|averages|), qs);
      && (forall i, j :: 0 <= i < j < |r.0| ==> r.0[i] != r.0[j])
      && (forall k :: 0 <= k < |averages| ==> k in r.0)
      && r.1.count == |averages|
      && StartCell(r.1) == Fresh(|averages|)
  {
    var c := Fresh(|averages|);
    RunWithinCycle(averages, c, qs);
    var r := Run(averages, c, qs);
    CountFullIffAllUsed(r.1.used);
    forall k | 0 <= k < |averages| ensures k in r.0 {
      assert !c.used[k];
      assert r.1.used[k];
    }
  }
}
