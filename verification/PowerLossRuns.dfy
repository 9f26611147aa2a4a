/** A power loss at any point of any run: the state left behind is recoverable, so replay answers as
    PowerLoss says. */
module PowerLossRuns {
  import opened Common
  import opened Bytes
  import opened Datagen
  import opened Metadata
  import opened Verifier
  import opened History
  import opened Bench
  import opened PowerLoss
  import opened NoFalseAlarms

  /** Every logged in-flight block, unless it is to become uncorrectable, has the state it leads to as
      its newest record. */
  ghost predicate Covered(c: Config, s: Sys, m: Cmd, k: nat)
    requires Shaped(c, s) && CmdShaped(c, m, |s.device|) && k < |m.blocks|
  {
    var r, after := NewestOf(s.log, m.slba + k), DescAfter(c, m.op, s.v.desc[m.slba + k], m.blocks[k]);
    r.At? && Alike(s.log[r.index].next, after) && Settled(after)
  }

  predicate Restoring(op: Op) {
    Logged(op) && op != WriteUncorrect
  }

  ghost predicate LogInv(c: Config, s: Sys) {
    && Inv(c, s) && Holds(s.v.ring, s.log)
    && (forall j | 0 <= j < |s.log| :: s.log[j].lba < |s.device|)
    && (forall id, k | id in s.inflight && 0 <= k < |s.inflight[id].blocks| && Restoring(s.inflight[id].op) ::
          Covered(c, s, s.inflight[id], k))
  }

  lemma NewestAppend(log: seq<HistDesc>, recs: seq<HistDesc>, lba: nat)
    requires forall j | 0 <= j < |recs| :: recs[j].lba != lba
    ensures NewestOf(log + recs, lba) == NewestOf(log, lba)
  {
    hide NewestOf;
    var b := NewestOf(log, lba);
    if b.At? {
      assert (log + recs)[b.index].lba == lba;
      NewestIs(log + recs, b.index);
    }
  }

  lemma PayloadHeader(c: Config, slba: nat, stamp: u64, buffers: seq<Block>, escapes: seq<bool>, k: nat)
    requires c.Valid() && slba + |buffers| <= NO_LBA && |escapes| == |buffers| && k < |buffers|
    requires forall j | 0 <= j < |buffers| :: Sized(c, buffers[j])
    ensures GetHeader(c.g, Payload(c, Write, slba, stamp, buffers, escapes)[k].data).Found?
  {
    hide GetHeader, NewBlock;
    assert Sized(c, buffers[k]);
    var b := NewBlock(c, slba + k, stamp, escapes[k], buffers[k].meta);
    assert Generated(c, b, slba + k, stamp % U16_LIMIT);
    GeneratedPasses(c, b, slba + k, BlockDesc(Data, stamp % U16_LIMIT, 0));
  }

  lemma NewRecords(c: Config, s: Sys, op: Op, slba: nat, buffers: seq<Block>, escapes: seq<bool>, stamp: u64, k: nat)
    requires Shaped(c, s) && slba + |buffers| <= |s.device| && |escapes| == |buffers| && k < |buffers|
    requires forall j | 0 <= j < |buffers| :: Sized(c, buffers[j])
    requires Restoring(op)
    ensures var blocks := Payload(c, op, slba, stamp, buffers, escapes);
            var recs := Records(c, s.v.desc[0], s.v.ring, op, slba, blocks, |blocks|);
            && recs[k].lba == slba + k && Settled(DescAfter(c, op, s.v.desc[slba + k], blocks[k]))
            && Alike(recs[k].next, DescAfter(c, op, s.v.desc[slba + k], blocks[k]))
  {
    hide RecordFor, DescAfter, Payload, Records, GetHeader;
    var blocks := Payload(c, op, slba, stamp, buffers, escapes);
    var slot := RecordsAt(c, s.v.desc[0], s.v.ring, op, slba, blocks, |blocks|, k);
    RecordLba(c, s.v.desc[0], slot, op, slba + k, blocks[k]);
    if op == Write { PayloadHeader(c, slba, stamp, buffers, escapes, k); }
    RecordIsAfter(c, s.v.desc[0], slot, op, slba + k, blocks[k], s.v.desc[slba + k]);
  }

  lemma RecordLbas(c: Config, s: Sys, op: Op, slba: nat, blocks: seq<Block>)
    requires Shaped(c, s) && slba + |blocks| <= |s.device|
    requires forall j | 0 <= j < |blocks| :: Sized(c, blocks[j])
    ensures var recs := Records(c, s.v.desc[0], s.v.ring, op, slba, blocks, |blocks|);
            forall j | 0 <= j < |recs| :: recs[j].lba == slba + j
  {
    hide RecordFor, Records;
    var recs := Records(c, s.v.desc[0], s.v.ring, op, slba, blocks, |blocks|);
    forall j | 0 <= j < |recs| ensures recs[j].lba == slba + j {
      var slot := RecordsAt(c, s.v.desc[0], s.v.ring, op, slba, blocks, |blocks|, j);
      RecordLba(c, s.v.desc[0], slot, op, slba + j, blocks[j]);
    }
  }

  /** The new command is covered by its own records. */
  lemma OwnRecordsCover(c: Config, s: Sys, id: nat, op: Op, slba: nat, buffers: seq<Block>, escapes: seq<bool>, k: nat)
    requires Shaped(c, s) && Enabled(c, s, Generate(id, op, slba, buffers, escapes))
    requires s.v.locked * Range(slba, |buffers|) == {} && k < |buffers| && Restoring(op)
    requires Shaped(c, GenerateStep(c, s, id, op, slba, buffers, escapes))
    ensures var s' := GenerateStep(c, s, id, op, slba, buffers, escapes);
            Covered(c, s', s'.inflight[id], k)
  {
    hide NewestOf, Records, Backup, Payload, DescAfter, Alike, Settled, WellFormed, Sized, GenerateStep;
    NewCommand(c, s, id, op, slba, buffers, escapes);
    var s' := GenerateStep(c, s, id, op, slba, buffers, escapes);
    var blocks := s'.inflight[id].blocks;
    RecordLbas(c, s, op, slba, blocks);
    NewRecords(c, s, op, slba, buffers, escapes, s'.v.timestamp, k);
    NewestInRecords(s.log, Records(c, s.v.desc[0], s.v.ring, op, slba, blocks, |blocks|), slba, k);
  }

  /** What generating a command adds to the state. */
  lemma NewCommand(c: Config, s: Sys, id: nat, op: Op, slba: nat, buffers: seq<Block>, escapes: seq<bool>)
    requires Shaped(c, s) && Enabled(c, s, Generate(id, op, slba, buffers, escapes))
    requires s.v.locked * Range(slba, |buffers|) == {}
    ensures var s' := GenerateStep(c, s, id, op, slba, buffers, escapes);
            && s'.v.desc == s.v.desc && id in s'.inflight
            && s'.inflight[id].op == op && s'.inflight[id].slba == slba
            && s'.inflight[id].blocks == Payload(c, op, slba, s'.v.timestamp, buffers, escapes)
            && s'.log == s.log + Records(c, s.v.desc[0], s.v.ring, op, slba, s'.inflight[id].blocks, |buffers|)
  {
    hide Records, Backup, Payload, Sized;
  }

  lemma NewestInRecords(log: seq<HistDesc>, recs: seq<HistDesc>, slba: nat, k: nat)
    requires k < |recs| && forall j | 0 <= j < |recs| :: recs[j].lba == slba + j
    ensures NewestOf(log + recs, slba + k) == At(|log| + k) && (log + recs)[|log| + k] == recs[k]
  {
    hide NewestOf;
    NewestIs(log + recs, |log| + k);
  }

  /** Records of other LBAs leave a covered block covered. */
  lemma OtherRecordsKeep(c: Config, s: Sys, s': Sys, m: Cmd, k: nat, recs: seq<HistDesc>)
    requires Shaped(c, s) && Shaped(c, s') && |s.device| == |s'.device| && CmdShaped(c, m, |s.device|) && k < |m.blocks|
    requires Covered(c, s, m, k) && s'.v.desc[m.slba + k] == s.v.desc[m.slba + k] && s'.log == s.log + recs
    requires forall j | 0 <= j < |recs| :: recs[j].lba != m.slba + k
    ensures Covered(c, s', m, k)
  {
    hide NewestOf, DescAfter, Alike, Settled;
    NewestAppend(s.log, recs, m.slba + k);
  }

  lemma LogGenerate(c: Config, s: Sys, id: nat, op: Op, slba: nat, buffers: seq<Block>, escapes: seq<bool>)
    requires LogInv(c, s) && Enabled(c, s, Generate(id, op, slba, buffers, escapes))
    ensures LogInv(c, GenerateStep(c, s, id, op, slba, buffers, escapes))
  {
    hide NewestOf, Records, Backup, Payload, LockOwned, Agrees, CmdAgrees, Covered, Holds;
    var s' := GenerateStep(c, s, id, op, slba, buffers, escapes);
    GenerateKeepsInv(c, s, id, op, slba, buffers, escapes);
    if s.v.locked * Range(slba, |buffers|) == {} {
      var blocks := s'.inflight[id].blocks;
      BackupHolds(c, s.v.desc[0], s.v.ring, s.log, op, slba, blocks, |blocks|);
      RecordLbas(c, s, op, slba, blocks);
      forall i, k | i in s'.inflight && 0 <= k < |s'.inflight[i].blocks| && Restoring(s'.inflight[i].op)
        ensures Covered(c, s', s'.inflight[i], k)
      {
        if i == id {
          OwnRecordsCover(c, s, id, op, slba, buffers, escapes, k);
        } else {
          var lba := s.inflight[i].slba + k;
          assert InRange(s.inflight[i], lba);
          OwnedLocked(s.v.locked, s.inflight, i, lba);
          assert lba !in Range(slba, |buffers|);
          OtherRecordsKeep(c, s, s', s.inflight[i], k, Records(c, s.v.desc[0], s.v.ring, op, slba, blocks, |blocks|));
        }
      }
    }
  }

  lemma LogApply(c: Config, s: Sys, id: nat, k: nat, content: Block)
    requires LogInv(c, s) && Enabled(c, s, Apply(id, k, content))
    ensures LogInv(c, ApplyStep(c, s, id, k, content))
  {
    hide NewestOf, LockOwned, Agrees, CmdAgrees, DescAfter, Holds;
    var s' := ApplyStep(c, s, id, k, content);
    ApplyKeepsInv(c, s, id, k, content);
    forall i, j | i in s'.inflight && 0 <= j < |s'.inflight[i].blocks| && Restoring(s'.inflight[i].op)
      ensures Covered(c, s', s'.inflight[i], j)
    {
      assert Covered(c, s, s.inflight[i], j);
    }
  }

  lemma LogComplete(c: Config, pol: Policy, s: Sys, id: nat)
    requires LogInv(c, s) && Enabled(c, s, Complete(id))
    ensures LogInv(c, CompleteStep(c, pol, s, id).0)
  {
    hide NewestOf, LockOwned, Agrees, CmdAgrees, DescAfter, Holds, ReadResult, HasUncor, HasWritten;
    var s' := CompleteStep(c, pol, s, id).0;
    CompleteKeepsInv(c, pol, s, id);
    forall i, j | i in s'.inflight && 0 <= j < |s'.inflight[i].blocks| && Restoring(s'.inflight[i].op)
      ensures Covered(c, s', s'.inflight[i], j)
    {
      var lba := s.inflight[i].slba + j;
      assert Covered(c, s, s.inflight[i], j);
      OwnedApart(s.v.locked, s.inflight, i, id);
      assert InRange(s.inflight[i], lba);
      CompleteDesc(c, pol, s, id, lba);
    }
  }

  lemma MeetsIfAlike(c: Config, next: BlockDesc, after: BlockDesc, cell: Cell, lba: u64)
    requires c.Valid() && Sized(c, cell.block) && Describes(c, after, cell, lba) && Alike(next, after)
    requires Settled(after)
    ensures Meets(c, next, cell.block, lba)
  {
    hide GetHeader, CompareMeta, Factory, Generated;
    DescribedPasses(c, next, cell, lba);
  }

  /** The device has executed the command for this LBA. */
  predicate DoneAt(m: Cmd, lba: nat) {
    m.slba <= lba < m.slba + |m.blocks| && lba - m.slba < |m.done| && m.done[lba - m.slba]
  }

  /** The effect of a command in flight on this LBA is already there, and not yet committed. */
  ghost predicate Pending(s: Sys, lba: nat) {
    exists id :: id in s.inflight && DoneAt(s.inflight[id], lba) && Logged(s.inflight[id].op)
  }

  lemma PassesUnlessPending(c: Config, s: Sys, lba: nat)
    requires Inv(c, s) && lba < |s.device| && !Pending(s, lba)
    ensures Passes(c, s.v.desc[lba], s.device[lba], lba)
  {
    hide Agrees, Describes, DescAfter, Passes;
    if lba in s.v.locked {
      var id :| id in s.inflight && InRange(s.inflight[id], lba);
      assert CmdAgrees(c, s, s.inflight[id]) && BlockAgrees(c, s, s.inflight[id], lba - s.inflight[id].slba);
    }
    AgreeingPasses(c, s.v.desc[lba], s.device[lba], lba, lba in s.doubt);
  }

  /** A readable block of a pending LBA meets the newest record. */
  lemma PendingMeets(c: Config, s: Sys, lba: nat)
    requires LogInv(c, s) && lba < |s.device| && Pending(s, lba) && !s.device[lba].bad
    ensures NewestOf(s.log, lba).At? && Meets(c, s.log[NewestOf(s.log, lba).index].next, s.device[lba].block, lba)
  {
    hide NewestOf, Agrees, Describes, DescAfter, Holds, Meets, Alike, LockOwned, Settled;
    var id :| id in s.inflight && DoneAt(s.inflight[id], lba) && Logged(s.inflight[id].op);
    var m, k := s.inflight[id], lba - s.inflight[id].slba;
    assert CmdAgrees(c, s, m) && BlockAgrees(c, s, m, k);
    assert Covered(c, s, m, k);
    var next, after := s.log[NewestOf(s.log, lba).index].next, DescAfter(c, m.op, s.v.desc[lba], m.blocks[k]);
    MeetsIfAlike(c, next, after, s.device[lba], lba);
  }

  /** After a power loss at any point, the surviving state is recoverable. */
  lemma CrashIsRecoverable(c: Config, s: Sys)
    requires LogInv(c, s)
    ensures Crashed(c, s.v.desc, s.device, s.v.ring, s.log) && Recoverable(c, s.v.desc, s.device, s.log)
  {
    hide NewestOf, Holds, VerifyBlock, Meets, LockOwned, CmdAgrees, Covered, Agrees, Pending;
    forall lba: nat | lba < |s.v.desc| && !s.device[lba].bad && NewestOf(s.log, lba).At?
      ensures || VerifyBlock(c, s.v.desc[lba], s.device[lba].block, lba) == 0
              || Meets(c, s.log[NewestOf(s.log, lba).index].next, s.device[lba].block, lba)
    {
      if Pending(s, lba) { PendingMeets(c, s, lba); } else { PassesUnlessPending(c, s, lba); }
    }
  }

  lemma LogInit(c: Config, s: Sys)
    requires Init(c, s)
    ensures LogInv(c, s)
  {
    InitInv(c, s);
    ClearedHolds(s.v.ring);
  }

  lemma LogStep(c: Config, pol: Policy, s: Sys, m: Move)
    requires LogInv(c, s) && Enabled(c, s, m)
    ensures LogInv(c, Step(c, pol, s, m))
  {
    hide LogInv;
    match m
    case Generate(id, op, slba, buffers, escapes) => LogGenerate(c, s, id, op, slba, buffers, escapes);
    case Apply(id, k, content) => LogApply(c, s, id, k, content);
    case Complete(id) => LogComplete(c, pol, s, id);
  }

  lemma {:induction false} LogRun(c: Config, pol: Policy, states: seq<Sys>, moves: seq<Move>)
    requires Run(c, pol, states, moves)
    ensures forall i | 0 <= i < |states| :: LogInv(c, states[i])
  {
    hide LogInv, Init, Enabled, Step, Shaped;
    if |moves| == 0 {
      LogInit(c, states[0]);
    } else {
      var n := |moves| - 1;
      LogRun(c, pol, states[..n + 1], moves[..n]);
      assert states[..n + 1][n] == states[n];
      LogStep(c, pol, states[n], moves[n]);
    }
  }

  /** The device has made this LBA uncorrectable for a command that is still in flight, and the shadow
      does not know. */
  ghost predicate HalfUncorrectable(s: Sys, lba: nat) {
    lba < |s.v.desc| && s.v.desc[lba].state != Uncor &&
    exists id :: id in s.inflight && DoneAt(s.inflight[id], lba) && s.inflight[id].op == WriteUncorrect
  }

  /** On a conforming device nothing else makes a block unreadable behind the shadow's back. */
  lemma BadIffHalfUncorrectable(c: Config, s: Sys, lba: nat)
    requires Inv(c, s) && lba < |s.device|
    ensures s.device[lba].bad && s.v.desc[lba].state != Uncor <==> HalfUncorrectable(s, lba)
  {
    hide VerifyBlock, DescAfter, Generated, Factory, LockOwned;
    if s.device[lba].bad && s.v.desc[lba].state != Uncor {
      if !Pending(s, lba) { PassesUnlessPending(c, s, lba); }
      var id :| id in s.inflight && DoneAt(s.inflight[id], lba) && Logged(s.inflight[id].op);
      var m, k := s.inflight[id], lba - s.inflight[id].slba;
      assert CmdAgrees(c, s, m) && BlockAgrees(c, s, m, k);
      OnlyUncorrectable(c, m.op, s.v.desc[lba], m.blocks[k]);
    }
    if HalfUncorrectable(s, lba) {
      var id :| id in s.inflight && DoneAt(s.inflight[id], lba) && s.inflight[id].op == WriteUncorrect;
      assert CmdAgrees(c, s, s.inflight[id]) && BlockAgrees(c, s, s.inflight[id], lba - s.inflight[id].slba);
    }
  }

  lemma OnlyUncorrectable(c: Config, op: Op, d: BlockDesc, b: Block)
    requires c.Valid() && Sized(c, b) && Logged(op) && d.state != Uncor && DescAfter(c, op, d, b).state == Uncor
    ensures op == WriteUncorrect
  {
  }

  /** The failed read of a record's LBA is reported: it became uncorrectable over data or zeroes. */
  ghost predicate Blocked(s: Sys, lba: nat)
    requires lba < |s.v.desc|
  {
    HalfUncorrectable(s, lba) && (s.v.desc[lba].state == Data || s.v.desc[lba].state == Zeroes)
  }

  /** The answer of a replay with a full ring. */
  lemma CrashAnswers(c: Config, s: Sys)
    requires LogInv(c, s) && |s.v.ring.slots| <= |s.log|
    ensures Crashed(c, s.v.desc, s.device, s.v.ring, s.log) && WellFormed(s.v.ring)
    ensures var o := |s.log| - |s.v.ring.slots|;
            && (ReplayRing(c, s.v.desc, s.device, s.v.ring, s.log).1 <==>
                  && OldestPasses(c, s.v.desc, s.device, s.log[o])
                  && forall j | o <= j < |s.log| :: !Blocked(s, s.log[j].lba))
            && (OldestDoesNotRecur(s.v.ring, s.log) ==> OldestPasses(c, s.v.desc, s.device, s.log[o]))
  {
    hide ReplayRing, OldestPasses, Recoverable, OldestDoesNotRecur, LockOwned, Agrees, CmdAgrees, Covered, Holds,
      HalfUncorrectable;
    CrashIsRecoverable(c, s);
    HoldsWellFormed(s.v.ring, s.log);
    ReplaySucceedsIff(c, s.v.desc, s.device, s.v.ring, s.log);
    forall j | 0 <= j < |s.log| ensures Stuck(s.v.desc, s.device, s.log[j]) <==> Blocked(s, s.log[j].lba) {
      BadIffHalfUncorrectable(c, s, s.log[j].lba);
    }
    if OldestDoesNotRecur(s.v.ring, s.log) {
      OldestPassesOnce(c, s.v.desc, s.device, s.v.ring, s.log);
    }
  }

  /** Power loss at any point of any run of a conforming device, with the ring full: replay reports
      nothing exactly when the block of the oldest record passes and no record is of an LBA that
      became uncorrectable over data or zeroes for a command still in flight. When the LBA of the
      oldest slot does not recur in the ring, only the second condition is left. */
  lemma ReplayAfterPowerLoss(c: Config, pol: Policy, states: seq<Sys>, moves: seq<Move>, i: nat)
    requires Run(c, pol, states, moves) && i < |states| && |states[i].v.ring.slots| <= |states[i].log|
    ensures var s := states[i];
            Crashed(c, s.v.desc, s.device, s.v.ring, s.log) && WellFormed(s.v.ring)
    ensures var s := states[i];
            var o := |s.log| - |s.v.ring.slots|;
            && (ReplayRing(c, s.v.desc, s.device, s.v.ring, s.log).1 <==>
                  && OldestPasses(c, s.v.desc, s.device, s.log[o])
                  && forall j | o <= j < |s.log| :: !Blocked(s, s.log[j].lba))
            && (OldestDoesNotRecur(s.v.ring, s.log) ==> OldestPasses(c, s.v.desc, s.device, s.log[o]))
  {
    hide LogInv, Init, Enabled, Shaped, Step, OldestDoesNotRecur, ReplayRing, OldestPasses, Blocked;
    LogRun(c, pol, states, moves);
    CrashAnswers(c, states[i]);
  }
}
