/** Sudden power-off: what survives is the shadow table, the history ring and the device, with any
    part of the in-flight commands executed. Replay reads the logged LBAs and repairs the shadow. */
module PowerLoss {
  import opened Common
  import opened Bytes
  import opened Datagen
  import opened Metadata
  import opened Verifier
  import opened History
  import opened Bench

  /** The check of a block against bd[BD_NEXT] in verify_hist_read. Metadata is never compared
      there, because the test for it looks at the address of the result array. */
  function VerifyNext(c: Config, next: BlockDesc, b: Block, lba: u64): int
    requires c.Valid() && Sized(c, b)
  {
    match next.state
    case Unwritten => VerifyUnwritten(c, b)
    case Dealloc => VerifyDealloc(c, b)
    case Data => VerifyBlockData(c, b.data, lba, next)
    case Zeroes => if StartsWith(b.data, 0) then 0 else -1
    case _ => 0
  }

  /** verify_hist_read of one logged LBA: the shadow table afterwards and the result. */
  function HistRead(c: Config, desc: seq<BlockDesc>, slot: HistDesc, b: Block): (seq<BlockDesc>, int)
    requires c.Valid() && Sized(c, b) && slot.lba < |desc| <= NO_LBA
  {
    if VerifyBlock(c, desc[slot.lba], b, slot.lba) == 0 then (desc, 0)
    else if VerifyNext(c, slot.next, b, slot.lba) == 0 then (desc[slot.lba := slot.next], 0)
    else (desc, -1)
  }

  /** A replay read over committed data, of a logged write: it succeeds exactly when the device holds
      a block of this LBA that carries the committed stamp, with metadata accepted, or the logged
      one. The stored descriptor then shows the stamp the block carries, and no other descriptor
      changes. */
  lemma HistReadExact(c: Config, desc: seq<BlockDesc>, slot: HistDesc, b: Block)
    requires c.Valid() && Sized(c, b) && slot.lba < |desc| <= NO_LBA
    requires desc[slot.lba].state == Data && slot.next.state == Data
    ensures var (desc', res) := HistRead(c, desc, slot, b);
            var metaOk := c.g.metaSize == 0 || CompareMeta(c.g, b.meta, b.data, slot.lba) == 0;
            && (res == 0 <==>
                  (CarriesStamp(c, b.data, slot.lba, slot.next.timestamp)
                   || (metaOk && CarriesStamp(c, b.data, slot.lba, desc[slot.lba].timestamp))))
            && (res == 0 ==>
                  desc'[slot.lba].state == Data && CarriesStamp(c, b.data, slot.lba, desc'[slot.lba].timestamp))
            && (forall i | 0 <= i < |desc| && i != slot.lba :: desc'[i] == desc[i])
  {
    hide VerifyBlockData, CompareMeta, CarriesStamp;
    DataAcceptedIff(c, b.data, slot.lba, desc[slot.lba]);
    DataAcceptedIff(c, b.data, slot.lba, slot.next);
  }

  /** Replay does not look at metadata: a block that was written with a damaged guard is accepted as
      the logged write, and the next read of it is a miscompare. */
  lemma ReplayIgnoresMetadata(c: Config, lba: u64, stamp: u64) returns (b: Block)
    requires c.Valid() && c.g.metaSize > 0 && lba < NO_LBA
    ensures Sized(c, b)
    ensures var next := BlockDesc(Data, stamp % U16_LIMIT, 0);
            VerifyNext(c, next, b, lba) == 0 && VerifyBlock(c, next, b, lba) != 0
  {
    hide SetMeta, BlockWith, VerifyBlockData, CompareMeta;
    var old_: seq<bv8> := seq(c.g.metaSize, _ => 0);
    var data := BlockData(c.g, lba, stamp, PatternFor(c, stamp, lba));
    var meta := SetMeta(c.g, old_, data, lba);
    var wrong: bv8 := if meta[c.g.piOffset] == 0 then 1 else 0;
    b := Block(data, meta[c.g.piOffset := wrong]);
    MisplacedOrStaleRejected(c, lba, BlockDesc(Data, stamp % U16_LIMIT, 0), lba, stamp, PatternFor(c, stamp, lba));
    WrongGuardRejected(c.g, old_, data, lba, wrong);
  }

  // ----- replay of a ring

  /** What iover_submit makes of a replay read that fails: reported if the LBA counts as written. */
  predicate FailureReported(desc: seq<BlockDesc>, lba: nat)
    requires lba < |desc|
  {
    !HasUncor(desc, lba, 1) && HasWritten(desc, lba, 1)
  }

  lemma FailureReportedIff(desc: seq<BlockDesc>, lba: nat)
    requires lba < |desc|
    ensures FailureReported(desc, lba) <==> desc[lba].state == Data || desc[lba].state == Zeroes
  {
    if desc[lba].state != Uncor { assert !HasUncor(desc, lba, 1); }
  }

  /** One read of the replay: the shadow table afterwards, and whether nothing was reported. */
  function ReplayRead(c: Config, desc: seq<BlockDesc>, slot: HistDesc, cell: Cell): (seq<BlockDesc>, bool)
    requires c.Valid() && Sized(c, cell.block) && slot.lba < |desc| <= NO_LBA
  {
    if cell.bad then (desc, !FailureReported(desc, slot.lba))
    else
      var (d, res) := HistRead(c, desc, slot, cell.block);
      (d, res == 0)
  }

  ghost predicate Matching(c: Config, desc: seq<BlockDesc>, device: seq<Cell>) {
    c.Valid() && |desc| == |device| <= NO_LBA && forall i | 0 <= i < |device| :: Sized(c, device[i].block)
  }

  /** The replay of the slots in order `v`: repaired shadow, and whether nothing was reported. */
  ghost function ReplayAll(c: Config, desc: seq<BlockDesc>, device: seq<Cell>, slots: seq<HistDesc>, v: seq<nat>)
    : (r: (seq<BlockDesc>, bool))
    requires Matching(c, desc, device)
    requires forall k | 0 <= k < |v| :: v[k] < |slots| && slots[v[k]].lba < |desc|
    ensures |r.0| == |desc|
    decreases |v|
  {
    if v == [] then (desc, true)
    else
      var n := |v| - 1;
      var (d, ok) := ReplayAll(c, desc, device, slots, v[..n]);
      var slot := slots[v[n]];
      var (d', quiet) := ReplayRead(c, d, slot, device[slot.lba]);
      (d', ok && quiet)
  }

  lemma ReplayNone(c: Config, desc: seq<BlockDesc>, device: seq<Cell>, slots: seq<HistDesc>)
    requires Matching(c, desc, device)
    ensures ReplayAll(c, desc, device, slots, []) == (desc, true)
  {
  }

  lemma ReplayOneMore(c: Config, desc: seq<BlockDesc>, device: seq<Cell>, slots: seq<HistDesc>, v: seq<nat>, i: nat)
    requires Matching(c, desc, device)
    requires forall k | 0 <= k < |v| :: v[k] < |slots| && slots[v[k]].lba < |desc|
    requires i < |slots| && slots[i].lba < |desc|
    ensures var (d, ok) := ReplayAll(c, desc, device, slots, v);
            var (d', quiet) := ReplayRead(c, d, slots[i], device[slots[i].lba]);
            ReplayAll(c, desc, device, slots, v + [i]) == (d', ok && quiet)
  {
    hide ReplayRead;
    assert (v + [i])[..|v|] == v;
  }

  /** The newest record of an LBA in a log, if any. */
  datatype Newest = NoRecord | At(index: nat)

  function NewestOf(log: seq<HistDesc>, lba: nat): (r: Newest)
    ensures r.At? ==> r.index < |log| && log[r.index].lba == lba && forall j | r.index < j < |log| :: log[j].lba != lba
    ensures r.NoRecord? ==> forall j | 0 <= j < |log| :: log[j].lba != lba
  {
    if log == [] then NoRecord
    else if log[|log| - 1].lba == lba then At(|log| - 1)
    else NewestOf(log[..|log| - 1], lba)
  }

  /** The block meets a descriptor in both forms of the check. */
  ghost predicate Meets(c: Config, d: BlockDesc, b: Block, lba: u64)
    requires c.Valid() && Sized(c, b)
  {
    VerifyBlock(c, d, b, lba) == 0 && VerifyNext(c, d, b, lba) == 0
  }

  /** Shadow, device and ring after a power loss. */
  ghost predicate Crashed(c: Config, desc: seq<BlockDesc>, device: seq<Cell>, ring: Ring, log: seq<HistDesc>) {
    Matching(c, desc, device) && Holds(ring, log) && forall j | 0 <= j < |log| :: log[j].lba < |desc|
  }

  /** Every readable block of a logged LBA meets its committed descriptor or that of its newest record. */
  ghost predicate Recoverable(c: Config, desc: seq<BlockDesc>, device: seq<Cell>, log: seq<HistDesc>)
    requires Matching(c, desc, device)
  {
    forall lba: nat | lba < |desc| && !device[lba].bad && NewestOf(log, lba).At? ::
      || VerifyBlock(c, desc[lba], device[lba].block, lba) == 0
      || Meets(c, log[NewestOf(log, lba).index].next, device[lba].block, lba)
  }

  /** Replay has no reason to change the descriptor of this LBA. */
  ghost predicate Settles(c: Config, desc: seq<BlockDesc>, device: seq<Cell>, lba: nat)
    requires Matching(c, desc, device) && lba < |desc|
  {
    device[lba].bad || VerifyBlock(c, desc[lba], device[lba].block, lba) == 0
  }

  /** During the newest-first part of the replay, the record `o` and those from `from` on visited:
      the shadow of an LBA is as it was, or repaired if its newest record has been visited. */
  ghost predicate Repairing(c: Config, desc: seq<BlockDesc>, d: seq<BlockDesc>, device: seq<Cell>,
                            log: seq<HistDesc>, o: nat, from: nat)
  {
    && Matching(c, desc, device) && |d| == |desc|
    && forall lba: nat | lba < |d| :: LbaRepairing(c, desc, d, device, log, o, from, lba)
  }

  ghost predicate LbaRepairing(c: Config, desc: seq<BlockDesc>, d: seq<BlockDesc>, device: seq<Cell>,
                               log: seq<HistDesc>, o: nat, from: nat, lba: nat)
    requires Matching(c, desc, device) && |d| == |desc| && lba < |d|
  {
    var r := NewestOf(log, lba);
    && (Settles(c, desc, device, lba) || r.NoRecord? || r.index < o ==> d[lba] == desc[lba])
    && (!device[lba].bad && r.At? ==>
          || VerifyBlock(c, d[lba], device[lba].block, lba) == 0
          || (r.index < from && r.index != o && Meets(c, log[r.index].next, device[lba].block, lba)))
  }

  lemma NewestUnique(log: seq<HistDesc>, lba: nat, j: nat)
    requires j < |log| && log[j].lba == lba
    ensures NewestOf(log, lba).At? && NewestOf(log, lba).index >= j
  {
  }

  lemma NewestElsewhere(log: seq<HistDesc>, lba: nat, j: nat)
    requires j < |log| && log[j].lba != lba
    ensures NewestOf(log, lba).At? ==> NewestOf(log, lba).index != j
  {
  }

  /** The failed read of this record is reported. */
  ghost predicate Stuck(desc: seq<BlockDesc>, device: seq<Cell>, slot: HistDesc)
    requires |desc| == |device| && slot.lba < |desc|
  {
    device[slot.lba].bad && (desc[slot.lba].state == Data || desc[slot.lba].state == Zeroes)
  }

  /** Visiting the next older record keeps the repair and reports nothing but an unreadable block. */
  lemma VisitOlder(c: Config, desc: seq<BlockDesc>, d: seq<BlockDesc>, device: seq<Cell>, log: seq<HistDesc>, o: nat,
    j: nat)
    requires Repairing(c, desc, d, device, log, o, j + 1) && o < j < |log| && log[j].lba < |d|
    ensures var (d', quiet) := ReplayRead(c, d, log[j], device[log[j].lba]);
            (quiet <==> !Stuck(desc, device, log[j])) && Repairing(c, desc, d', device, log, o, j)
  {
    hide VerifyBlock, VerifyNext, NewestOf, FailureReported;
    var x := log[j].lba;
    NewestUnique(log, x, j);
    FailureReportedIff(d, x);
    assert LbaRepairing(c, desc, d, device, log, o, j + 1, x);
    var (d', quiet) := ReplayRead(c, d, log[j], device[x]);
    forall lba: nat | lba < |d'| ensures LbaRepairing(c, desc, d', device, log, o, j, lba) {
      assert LbaRepairing(c, desc, d, device, log, o, j + 1, lba);
      if lba != x { NewestElsewhere(log, lba, j); }
    }
  }

  /** A readable block of the oldest record meets the committed descriptor or that record. */
  ghost predicate OldestPasses(c: Config, desc: seq<BlockDesc>, device: seq<Cell>, slot: HistDesc)
    requires Matching(c, desc, device) && slot.lba < |desc|
  {
    || Settles(c, desc, device, slot.lba)
    || VerifyNext(c, slot.next, device[slot.lba].block, slot.lba) == 0
  }

  /** The first visit, of the oldest slot: it succeeds exactly when the device block meets the
      committed descriptor or the oldest record, and the repair starts in either case. */
  lemma VisitOldest(c: Config, desc: seq<BlockDesc>, device: seq<Cell>, log: seq<HistDesc>, o: nat)
    requires Matching(c, desc, device) && Recoverable(c, desc, device, log) && o < |log| && log[o].lba < |desc|
    ensures var (d, quiet) := ReplayRead(c, desc, log[o], device[log[o].lba]);
            && (quiet <==> OldestPasses(c, desc, device, log[o]) && !Stuck(desc, device, log[o]))
            && Repairing(c, desc, d, device, log, o, |log|)
  {
    hide VerifyBlock, VerifyNext, NewestOf, FailureReported;
    var x := log[o].lba;
    NewestUnique(log, x, o);
    FailureReportedIff(desc, x);
    var (d, quiet) := ReplayRead(c, desc, log[o], device[x]);
    forall lba: nat | lba < |d| ensures LbaRepairing(c, desc, d, device, log, o, |log|, lba) {
      if lba != x { NewestElsewhere(log, lba, o); }
    }
  }

  /** The log position of the k-th slot that the replay of a full ring of n slots visits. */
  function VisitedRecord(k: nat, n: nat, len: nat): nat
    requires k < n <= len
  {
    if k == 0 then len - n else len - k
  }

  lemma {:induction false} ReplayPrefix(c: Config, desc: seq<BlockDesc>, device: seq<Cell>, ring: Ring,
                                        log: seq<HistDesc>, v: seq<nat>, k: nat)
    requires Crashed(c, desc, device, ring, log) && Recoverable(c, desc, device, log)
    requires 1 <= k <= |v| <= |ring.slots| <= |log|
    requires forall i | 0 <= i < |v| ::
               v[i] < |ring.slots| && ring.slots[v[i]] == log[VisitedRecord(i, |ring.slots|, |log|)]
    ensures var (d, ok) := ReplayAll(c, desc, device, ring.slots, v[..k]);
            && (ok <==> OldestPasses(c, desc, device, log[|log| - |ring.slots|])
                        && forall i | 0 <= i < k :: !Stuck(desc, device, ring.slots[v[i]]))
            && Repairing(c, desc, d, device, log, |log| - |ring.slots|, |log| - (k - 1))
    decreases k
  {
    hide VerifyBlock, VerifyNext, NewestOf, Holds, OldestPasses, ReplayRead, Repairing, ReplayAll, Stuck, Recoverable;
    assert v[..k] == v[..k - 1] + [v[k - 1]];
    ReplayOneMore(c, desc, device, ring.slots, v[..k - 1], v[k - 1]);
    if k == 1 {
      VisitOldest(c, desc, device, log, |log| - |ring.slots|);
      ReplayNone(c, desc, device, ring.slots);
      assert v[..0] == [];
    } else {
      ReplayPrefix(c, desc, device, ring, log, v, k - 1);
      var (d, ok) := ReplayAll(c, desc, device, ring.slots, v[..k - 1]);
      VisitOlder(c, desc, d, device, log, |log| - |ring.slots|, |log| - (k - 1));
    }
  }

  lemma HoldsWellFormed(ring: Ring, log: seq<HistDesc>)
    requires Holds(ring, log)
    ensures WellFormed(ring)
  {
  }

  lemma ReplayInBounds(ring: Ring, log: seq<HistDesc>, bound: nat)
    requires Holds(ring, log) && forall j | 0 <= j < |log| :: log[j].lba < bound
    ensures WellFormed(ring)
    ensures var v := Replay(ring);
            forall k | 0 <= k < |v| :: v[k] < |ring.slots| && ring.slots[v[k]].lba < bound
  {
    hide Holds, Replay;
    HoldsWellFormed(ring, log);
    if |log| < |ring.slots| {
      PartialRingReplaysNothing(ring, log);
    } else {
      ReplayOrder(ring, log);
      var v, n := Replay(ring), |ring.slots|;
      forall k | 0 <= k < |v| ensures v[k] < n && ring.slots[v[k]].lba < bound {
        VisitedSlot(ring, k);
        if k > 0 { assert ring.slots[v[k]] == log[|log| - k]; }
      }
    }
  }

  lemma VisitedSlot(ring: Ring, k: nat)
    requires WellFormed(ring) && k < |Replay(ring)|
    ensures Replay(ring)[k] < |ring.slots|
  {
  }

  /** The replay of a ring. */
  ghost function ReplayRing(c: Config, desc: seq<BlockDesc>, device: seq<Cell>, ring: Ring, log: seq<HistDesc>)
    : (r: (seq<BlockDesc>, bool))
    requires Crashed(c, desc, device, ring, log)
    ensures |r.0| == |desc|
  {
    ReplayInBounds(ring, log, |desc|);
    ReplayAll(c, desc, device, ring.slots, Replay(ring))
  }

  /** The whole replay of a full ring, as ReplayPrefix describes it. */
  lemma ReplayFull(c: Config, desc: seq<BlockDesc>, device: seq<Cell>, ring: Ring, log: seq<HistDesc>)
    requires Crashed(c, desc, device, ring, log) && Recoverable(c, desc, device, log) && |ring.slots| <= |log|
    ensures var (d, ok) := ReplayRing(c, desc, device, ring, log);
            var o := |log| - |ring.slots|;
            && (ok <==>
                  OldestPasses(c, desc, device, log[o]) && forall j | o <= j < |log| :: !Stuck(desc, device, log[j]))
            && Repairing(c, desc, d, device, log, o, o + 1)
  {
    hide VerifyBlock, VerifyNext, NewestOf, Holds, Replay, ReplayRead, OldestPasses, Repairing, Recoverable, Stuck,
      ReplayAll;
    HoldsWellFormed(ring, log);
    var v, n := Replay(ring), |ring.slots|;
    var o := |log| - n;
    ReplayOrder(ring, log);
    ReplayInBounds(ring, log, |desc|);
    forall i | 0 <= i < |v| ensures ring.slots[v[i]] == log[VisitedRecord(i, n, |log|)] {
      if i > 0 { assert ring.slots[v[i]] == log[|log| - i]; }
    }
    ReplayPrefix(c, desc, device, ring, log, v, n);
    assert v[..n] == v;
    forall j | o <= j < |log|
      ensures (forall i | 0 <= i < n :: !Stuck(desc, device, ring.slots[v[i]])) ==> !Stuck(desc, device, log[j])
    {
      var i := if j == o then 0 else |log| - j;
      assert ring.slots[v[i]] == log[VisitedRecord(i, n, |log|)] == log[j];
    }
  }

  /** Replay after a power loss with a full ring: nothing is reported exactly when the block of the
      oldest record passes and no record in the ring is of an LBA that cannot be read although the
      shadow says it holds data or zeroes. */
  lemma ReplaySucceedsIff(c: Config, desc: seq<BlockDesc>, device: seq<Cell>, ring: Ring, log: seq<HistDesc>)
    requires Crashed(c, desc, device, ring, log) && Recoverable(c, desc, device, log) && |ring.slots| <= |log|
    ensures ReplayRing(c, desc, device, ring, log).1
       <==> && OldestPasses(c, desc, device, log[|log| - |ring.slots|])
            && forall j | |log| - |ring.slots| <= j < |log| :: !Stuck(desc, device, log[j])
  {
    hide OldestPasses, Repairing, Recoverable, Stuck, ReplayRing;
    ReplayFull(c, desc, device, ring, log);
  }

  /** The newest record of this LBA is visited by the replay. */
  ghost predicate Visited(ring: Ring, log: seq<HistDesc>, lba: nat) {
    |ring.slots| <= |log| && NewestOf(log, lba).At? && |log| - |ring.slots| <= NewestOf(log, lba).index
  }

  /** What the replay achieves, for every LBA and whether or not the ring is full: afterwards the
      device passes the checks exactly when it did before, or when the LBA is readable and its
      newest record is visited. */
  lemma ReplayRepairsIff(c: Config, desc: seq<BlockDesc>, device: seq<Cell>, ring: Ring, log: seq<HistDesc>, lba: nat)
    requires Crashed(c, desc, device, ring, log) && Recoverable(c, desc, device, log) && lba < |desc|
    ensures Passes(c, ReplayRing(c, desc, device, ring, log).0[lba], device[lba], lba)
       <==> Passes(c, desc[lba], device[lba], lba) || (!device[lba].bad && Visited(ring, log, lba))
    ensures Passes(c, desc[lba], device[lba], lba) ==> ReplayRing(c, desc, device, ring, log).0[lba] == desc[lba]
  {
    hide VerifyBlock, NewestOf, Holds, Recoverable, OldestPasses;
    if |log| < |ring.slots| {
      PartialReplay(c, desc, device, ring, log);
    } else {
      hide ReplayRing;
      ReplayFull(c, desc, device, ring, log);
      var o := |log| - |ring.slots|;
      assert LbaRepairing(c, desc, ReplayRing(c, desc, device, ring, log).0, device, log, o, o + 1, lba);
    }
  }

  lemma PartialReplay(c: Config, desc: seq<BlockDesc>, device: seq<Cell>, ring: Ring, log: seq<HistDesc>)
    requires Crashed(c, desc, device, ring, log) && |log| < |ring.slots|
    ensures ReplayRing(c, desc, device, ring, log) == (desc, true)
  {
    hide Holds, Replay;
    HoldsWellFormed(ring, log);
    PartialRingReplaysNothing(ring, log);
  }

  /** The LBA of the oldest slot occurs in no other slot. */
  ghost predicate OldestDoesNotRecur(ring: Ring, log: seq<HistDesc>)
    requires 0 < |ring.slots| <= |log|
  {
    forall j | |log| - |ring.slots| < j < |log| :: log[j].lba != log[|log| - |ring.slots|].lba
  }

  /** If the LBA of the oldest slot does not recur in the ring, its block passes. */
  lemma OldestPassesOnce(c: Config, desc: seq<BlockDesc>, device: seq<Cell>, ring: Ring, log: seq<HistDesc>)
    requires Crashed(c, desc, device, ring, log) && Recoverable(c, desc, device, log) && |ring.slots| <= |log|
    requires WellFormed(ring) && OldestDoesNotRecur(ring, log)
    ensures OldestPasses(c, desc, device, log[|log| - |ring.slots|])
  {
    hide VerifyBlock, VerifyNext, NewestOf, Holds;
    NewestIs(log, |log| - |ring.slots|);
  }

  lemma NewestIs(log: seq<HistDesc>, o: nat)
    requires o < |log| && forall j | o < j < |log| :: log[j].lba != log[o].lba
    ensures NewestOf(log, log[o].lba) == At(o)
  {
    NewestUnique(log, log[o].lba, o);
  }

  // ----- the records of a command

  lemma {:induction false} BackupHolds(c: Config, desc0: BlockDesc, ring: Ring, log: seq<HistDesc>, op: Op, slba: nat,
    blocks: seq<Block>, n: nat)
    requires c.Valid() && Holds(ring, log) && n <= |blocks| && slba + |blocks| <= NO_LBA
    requires forall k | 0 <= k < |blocks| :: Sized(c, blocks[k])
    ensures WellFormed(ring)
    ensures Holds(Backup(c, desc0, ring, op, slba, blocks, n), log + Records(c, desc0, ring, op, slba, blocks, n))
    decreases n
  {
    hide Holds, RecordFor, Push;
    HoldsWellFormed(ring, log);
    if n == 0 || !Logged(op) {
      assert log + [] == log;
    } else {
      BackupHolds(c, desc0, ring, log, op, slba, blocks, n - 1);
      var r, e := Backup(c, desc0, ring, op, slba, blocks, n - 1), Records(c, desc0, ring, op, slba, blocks, n);
      var rec := e[n - 1];
      RecordLba(c, desc0, r.slots[r.idx], op, slba + n - 1, blocks[n - 1]);
      PushHolds(r, log + e[..n - 1], rec);
      assert log + e[..n - 1] + [rec] == log + e;
    }
  }

  lemma RecordLba(c: Config, desc0: BlockDesc, slot: HistDesc, op: Op, lba: nat, b: Block)
    requires c.Valid() && Sized(c, b)
    ensures RecordFor(c, desc0, slot, op, lba, b).lba == lba
  {
  }

  /** A state that a logged command other than write-uncorrectable leads to. */
  ghost predicate Settled(d: BlockDesc) {
    d.state == Data || d.state == Dealloc || d.state == Zeroes
  }

  /** Descriptors that every check treats alike. */
  ghost predicate Alike(a: BlockDesc, b: BlockDesc) {
    a.state == b.state && (a.state == Data ==> a.timestamp == b.timestamp)
  }

  /** The logged next state of a block is the one its completion commits. */
  lemma RecordIsAfter(c: Config, desc0: BlockDesc, slot: HistDesc, op: Op, lba: nat, b: Block, d: BlockDesc)
    requires c.Valid() && Sized(c, b)
    requires op == Deallocate || op == WriteZeroes || (op == Write && GetHeader(c.g, b.data).Found?)
    ensures Alike(RecordFor(c, desc0, slot, op, lba, b).next, DescAfter(c, op, d, b)) && Settled(DescAfter(c, op, d, b))
  {
  }

  lemma {:induction false} RecordsAt(c: Config, desc0: BlockDesc, ring: Ring, op: Op, slba: nat, blocks: seq<Block>,
    n: nat, k: nat) returns (slot: HistDesc)
    requires c.Valid() && WellFormed(ring) && k < n <= |blocks| && Logged(op)
    requires forall j | 0 <= j < |blocks| :: Sized(c, blocks[j])
    ensures Records(c, desc0, ring, op, slba, blocks, n)[k] == RecordFor(c, desc0, slot, op, slba + k, blocks[k])
    decreases n
  {
    hide RecordFor, Backup;
    if k == n - 1 {
      var r := Backup(c, desc0, ring, op, slba, blocks, n - 1);
      slot := r.slots[r.idx];
    } else {
      slot := RecordsAt(c, desc0, ring, op, slba, blocks, n - 1, k);
    }
  }
}
