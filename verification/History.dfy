/** The ring of logged next states and its replay order. */
module History {
  import opened Verifier

  /** A history slot: an LBA, a copy taken at logging time and the state the command leads to. */
  datatype HistDesc = HistDesc(lba: nat, curr: BlockDesc, next: BlockDesc)

  /** The LBA of a cleared slot. */
  const NO_LBA: nat := 0xFFFF_FFFF_FFFF_FFFF

  datatype Ring = Ring(slots: seq<HistDesc>, idx: nat)

  predicate WellFormed(r: Ring) {
    0 < |r.slots| && r.idx < |r.slots|
  }

  /** The slot of the k-th record. */
  function SlotOf(k: nat, n: nat): nat
    requires n > 0
  {
    k % n
  }

  /** Store a record at hist_idx and advance it. */
  function Push(r: Ring, e: HistDesc): Ring
    requires WellFormed(r)
  {
    Ring(r.slots[r.idx := e], SlotOf(r.idx + 1, |r.slots|))
  }

  predicate Cleared(r: Ring) {
    WellFormed(r) && r.idx == 0 && forall s | 0 <= s < |r.slots| :: r.slots[s].lba == NO_LBA
  }

  /** The ring holds the newest records of an unbounded log; slots not yet used are clear. */
  ghost predicate Holds(r: Ring, log: seq<HistDesc>) {
    var n := |r.slots|;
    && WellFormed(r) && r.idx == SlotOf(|log|, n)
    && (forall s | 0 <= s < n :: r.slots[s] == SlotContent(r, log, s) || (|log| <= s && r.slots[s].lba == NO_LBA))
    && (forall j | 0 <= j < |log| :: log[j].lba != NO_LBA)
  }

  /** The age of a slot: 0 for the slot that is written next, which holds the oldest record. */
  function Age(r: Ring, s: nat): (a: nat)
    requires WellFormed(r) && s < |r.slots|
    ensures a < |r.slots|
  {
    if r.idx <= s then s - r.idx else s + |r.slots| - r.idx
  }

  /** The log position a slot stands for. */
  ghost function SlotContent(r: Ring, log: seq<HistDesc>, s: nat): HistDesc
    requires WellFormed(r) && s < |r.slots|
  {
    var j := |log| - |r.slots| + Age(r, s);
    if 0 <= j < |log| then log[j] else HistDesc(NO_LBA, r.slots[s].curr, r.slots[s].next)
  }

  lemma SlotIs(k: nat, n: nat, q: nat, m: nat)
    requires m < n && k == n * q + m
    ensures SlotOf(k, n) == m
  {
    assert n * (k / n - q) == m - k % n;
    NoMultiple(n, k / n - q);
  }

  lemma NoMultiple(n: int, k: int)
    requires -n < n * k < n
    ensures k == 0
  {
  }

  lemma SlotSplit(k: nat, n: nat) returns (q: nat, m: nat)
    requires n > 0
    ensures k == n * q + m && m < n && m == SlotOf(k, n)
  {
    q, m := k / n, k % n;
  }

  lemma NextSlot(k: nat, n: nat)
    requires n > 0
    ensures SlotOf(k, n) < n
    ensures SlotOf(k + 1, n) == if SlotOf(k, n) + 1 == n then 0 else SlotOf(k, n) + 1
    ensures SlotOf(SlotOf(k, n) + 1, n) == SlotOf(k + 1, n)
    ensures k < n ==> SlotOf(k, n) == k
  {
    hide SlotOf;
    var q, m := SlotSplit(k, n);
    if m + 1 == n {
      assert k + 1 == n * (q + 1);
      SlotIs(k + 1, n, q + 1, 0);
      SlotIs(n, n, 1, 0);
    } else {
      SlotIs(k + 1, n, q, m + 1);
      SlotIs(m + 1, n, 0, m + 1);
    }
    if k < n { SlotIs(k, n, 0, k); }
  }

  /** A cleared ring stands for the empty log. */
  lemma ClearedHolds(r: Ring)
    requires Cleared(r)
    ensures Holds(r, [])
  {
  }

  /** Storing a record keeps the ring equal to the newest part of the log. */
  lemma PushHolds(r: Ring, log: seq<HistDesc>, e: HistDesc)
    requires Holds(r, log) && e.lba != NO_LBA
    ensures Holds(Push(r, e), log + [e])
  {
    hide SlotOf;
    var n := |r.slots|;
    var r', log' := Push(r, e), log + [e];
    NextSlot(|log|, n);
    forall s | 0 <= s < n
      ensures r'.slots[s] == SlotContent(r', log', s) || (|log'| <= s && r'.slots[s].lba == NO_LBA)
    {
      if s == r.idx {
        assert Age(r', s) == n - 1;
      } else {
        assert Age(r', s) == Age(r, s) - 1;
      }
    }
  }

  /** Once the log is at least as long as the ring, the ring holds exactly its newest part. */
  lemma FullRing(r: Ring, log: seq<HistDesc>, a: nat)
    requires Holds(r, log) && |r.slots| <= |log| && a < |r.slots|
    ensures var s := if r.idx + a < |r.slots| then r.idx + a else r.idx + a - |r.slots|;
            r.slots[s] == log[|log| - |r.slots| + a]
  {
    hide SlotOf;
    var s := if r.idx + a < |r.slots| then r.idx + a else r.idx + a - |r.slots|;
    assert Age(r, s) == a;
    assert r.slots[s] == SlotContent(r, log, s);
  }

  // ----- replay

  function Previous(i: nat, n: nat): (p: nat)
    requires i < n
    ensures p < n
  {
    if i == 0 then n - 1 else i - 1
  }

  /** The slots history_slba visits from `i` with `count` left. */
  function Visits(slots: seq<HistDesc>, i: nat, count: nat): (v: seq<nat>)
    requires i < |slots|
    ensures |v| <= count && forall k | 0 <= k < |v| :: v[k] < |slots|
    decreases count
  {
    if slots[i].lba == NO_LBA || count == 0 then []
    else [i] + Visits(slots, Previous(i, |slots|), count - 1)
  }

  /** iogen_job_begin starts the replay at hist_idx with nhist records to go. */
  function Replay(r: Ring): seq<nat>
    requires WellFormed(r)
  {
    Visits(r.slots, r.idx, |r.slots|)
  }

  lemma {:induction false} VisitsBackward(slots: seq<HistDesc>, i: nat, count: nat)
    requires i < |slots| && count <= |slots|
    requires forall s | 0 <= s < |slots| :: slots[s].lba != NO_LBA
    ensures var v := Visits(slots, i, count);
            |v| == count && forall k | 0 <= k < count :: v[k] == if k <= i then i - k else i - k + |slots|
    decreases count
  {
    if count > 0 {
      VisitsBackward(slots, Previous(i, |slots|), count - 1);
    }
  }

  /** A full ring is replayed completely: the oldest record first, then from the newest down to
      the second oldest. */
  lemma ReplayOrder(r: Ring, log: seq<HistDesc>)
    requires Holds(r, log) && |r.slots| <= |log|
    ensures var v, n := Replay(r), |r.slots|;
            && |v| == n
            && r.slots[v[0]] == log[|log| - n]
            && (forall k | 1 <= k < n :: r.slots[v[k]] == log[|log| - k])
            && (forall s | 0 <= s < n :: s in v)
            && (forall j, k | 0 <= j < k < n :: v[j] != v[k])
  {
    hide SlotOf;
    var v, n := Replay(r), |r.slots|;
    forall s | 0 <= s < n ensures r.slots[s].lba != NO_LBA {
      assert r.slots[s] == SlotContent(r, log, s);
    }
    VisitsBackward(r.slots, r.idx, n);
    forall k | 1 <= k < n ensures r.slots[v[k]] == log[|log| - k] {
      assert Age(r, v[k]) == n - k;
      FullRing(r, log, n - k);
    }
    FullRing(r, log, 0);
    forall s | 0 <= s < n ensures s in v {
      var k := if s <= r.idx then r.idx - s else r.idx + n - s;
      assert v[k] == s;
    }
  }

  /** From a cleared ring with fewer records than slots, nothing is replayed at all: the replay
      starts at the next slot to write, which is still clear. */
  lemma PartialRingReplaysNothing(r: Ring, log: seq<HistDesc>)
    requires Holds(r, log)
    ensures Replay(r) == [] <==> |log| < |r.slots|
  {
    hide SlotOf;
    if |log| < |r.slots| {
      NextSlot(|log|, |r.slots|);
      assert r.slots[r.idx].lba == NO_LBA;
    } else {
      ReplayOrder(r, log);
    }
  }
}
