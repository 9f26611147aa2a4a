/** Runs of reads, writes and flushes: when exactly the replay of such a run reports a faultless drive. */
module WriteRuns {
  import opened Common
  import opened Bytes
  import opened Datagen
  import opened Verifier
  import opened History
  import opened Bench
  import opened PowerLoss
  import opened PowerLossRuns
  import opened Restarts
  import opened NoFalseAlarms

  predicate WriteOnly(op: Op) {
    op == Read || op == Write || op == Flush
  }

  predicate WritesOnly(moves: seq<Move>) {
    forall i | 0 <= i < |moves| && moves[i].Generate? :: WriteOnly(moves[i].op)
  }

  /** A record is of a write, and the shadow of its LBA shows data unless it is the record of a write
      still in flight. */
  ghost predicate Known(s: Sys, j: nat)
    requires j < |s.log| && s.log[j].lba < |s.v.desc|
  {
    && s.log[j].next.state == Data
    && (s.v.desc[s.log[j].lba].state == Data || (Writing(s, s.log[j].lba) && NewestOf(s.log, s.log[j].lba) == At(j)))
  }

  ghost predicate Writing(s: Sys, lba: nat) {
    exists id :: id in s.inflight && InRange(s.inflight[id], lba) && s.inflight[id].op == Write
  }

  ghost predicate WriteInv(c: Config, s: Sys) {
    && LogInv(c, s) && s.doubt == {}
    && (forall id | id in s.inflight :: WriteOnly(s.inflight[id].op))
    && (forall i | 0 <= i < |s.device| :: !s.device[i].bad)
    && (forall i | 0 <= i < |s.v.desc| :: s.v.desc[i].state == Unwritten || s.v.desc[i].state == Data)
    && (forall j | 0 <= j < |s.log| :: Known(s, j))
  }

  lemma WriteGenerate(c: Config, s: Sys, id: nat, op: Op, slba: nat, buffers: seq<Block>, escapes: seq<bool>)
    requires WriteInv(c, s) && Enabled(c, s, Generate(id, op, slba, buffers, escapes)) && WriteOnly(op)
    ensures WriteInv(c, GenerateStep(c, s, id, op, slba, buffers, escapes))
  {
    hide NewestOf, Records, Backup, Payload, LockOwned, Agrees, CmdAgrees, Covered, Holds, DescAfter;
    LogGenerate(c, s, id, op, slba, buffers, escapes);
    var s' := GenerateStep(c, s, id, op, slba, buffers, escapes);
    if s.v.locked * Range(slba, |buffers|) == {} {
      NewCommand(c, s, id, op, slba, buffers, escapes);
      var blocks := s'.inflight[id].blocks;
      var recs := Records(c, s.v.desc[0], s.v.ring, op, slba, blocks, |blocks|);
      RecordLbas(c, s, op, slba, blocks);
      forall j | 0 <= j < |s'.log| ensures Known(s', j) {
        if j < |s.log| {
          OldKnown(c, s, s', recs, slba, j);
        } else {
          NewKnown(c, s, id, op, slba, buffers, escapes, j - |s.log|);
        }
      }
    }
  }

  lemma OldKnown(c: Config, s: Sys, s': Sys, recs: seq<HistDesc>, slba: nat, j: nat)
    requires WriteInv(c, s) && s'.log == s.log + recs && s'.v.desc == s.v.desc && j < |s.log|
    requires forall k | 0 <= k < |recs| :: recs[k].lba == slba + k && slba + k !in s.v.locked
    requires forall i | i in s.inflight :: i in s'.inflight && s'.inflight[i] == s.inflight[i]
    ensures Known(s', j)
  {
    hide NewestOf, Agrees, CmdAgrees, Covered, Holds;
    var x := s.log[j].lba;
    assert Known(s, j);
    if s.v.desc[x].state != Data {
      var id :| id in s.inflight && InRange(s.inflight[id], x) && s.inflight[id].op == Write;
      OwnedLocked(s.v.locked, s.inflight, id, x);
      NewestAppend(s.log, recs, x);
      assert id in s'.inflight && InRange(s'.inflight[id], x) && s'.inflight[id].op == Write;
    }
  }

  lemma NewKnown(c: Config, s: Sys, id: nat, op: Op, slba: nat, buffers: seq<Block>, escapes: seq<bool>, k: nat)
    requires Shaped(c, s) && Enabled(c, s, Generate(id, op, slba, buffers, escapes)) && WriteOnly(op)
    requires s.v.locked * Range(slba, |buffers|) == {}
    requires |GenerateStep(c, s, id, op, slba, buffers, escapes).log| > |s.log| + k
    ensures var s' := GenerateStep(c, s, id, op, slba, buffers, escapes);
            s'.log[|s.log| + k].lba < |s'.v.desc| && Known(s', |s.log| + k)
  {
    hide NewestOf, Records, Backup, Payload, DescAfter, Settled, GenerateStep, WellFormed, Sized;
    NewCommand(c, s, id, op, slba, buffers, escapes);
    var s' := GenerateStep(c, s, id, op, slba, buffers, escapes);
    var blocks := s'.inflight[id].blocks;
    RecordLbas(c, s, op, slba, blocks);
    NewRecords(c, s, op, slba, buffers, escapes, s'.v.timestamp, k);
    NewestInRecords(s.log, Records(c, s.v.desc[0], s.v.ring, op, slba, blocks, |blocks|), slba, k);
    PayloadStamp(c, s.v.desc[slba + k], slba, s'.v.timestamp, buffers, escapes, k);
    assert InRange(s'.inflight[id], slba + k);
  }

  lemma PayloadStamp(c: Config, d: BlockDesc, slba: nat, stamp: u64, buffers: seq<Block>, escapes: seq<bool>, k: nat)
    requires c.Valid() && slba + |buffers| <= NO_LBA && |escapes| == |buffers| && k < |buffers|
    requires forall j | 0 <= j < |buffers| :: Sized(c, buffers[j])
    ensures var after := DescAfter(c, Write, d, Payload(c, Write, slba, stamp, buffers, escapes)[k]);
            after.state == Data && after.timestamp == stamp % U16_LIMIT
  {
    hide DescAfter, NewBlock, Describes;
    assert Sized(c, buffers[k]);
    NewBlockAgrees(c, d, slba + k, stamp, escapes[k], buffers[k].meta);
  }

  lemma WriteApply(c: Config, s: Sys, id: nat, k: nat, content: Block)
    requires WriteInv(c, s) && Enabled(c, s, Apply(id, k, content))
    ensures WriteInv(c, ApplyStep(c, s, id, k, content))
  {
    hide NewestOf, LockOwned, Agrees, CmdAgrees, DescAfter, Holds, Covered;
    LogApply(c, s, id, k, content);
    var s' := ApplyStep(c, s, id, k, content);
    forall j | 0 <= j < |s'.log| ensures Known(s', j) {
      assert Known(s, j);
      if s.v.desc[s.log[j].lba].state != Data {
        var i :| i in s.inflight && InRange(s.inflight[i], s.log[j].lba) && s.inflight[i].op == Write;
        assert i in s'.inflight && InRange(s'.inflight[i], s.log[j].lba) && s'.inflight[i].op == Write;
      }
    }
  }

  lemma WriteComplete(c: Config, pol: Policy, s: Sys, id: nat)
    requires WriteInv(c, s) && Enabled(c, s, Complete(id))
    ensures WriteInv(c, CompleteStep(c, pol, s, id).0)
  {
    hide NewestOf, LockOwned, Agrees, Describes, DescAfter, Holds, Covered, CompleteStep;
    LogComplete(c, pol, s, id);
    CompleteRest(c, pol, s, id);
    var m, s' := s.inflight[id], CompleteStep(c, pol, s, id).0;
    forall i | 0 <= i < |s'.v.desc|
      ensures s'.v.desc[i] == s.v.desc[i] || (s'.v.desc[i].state == Data && InRange(m, i) && m.op == Write)
    {
      WriteCommits(c, pol, s, id, i);
    }
    forall j | 0 <= j < |s'.log| ensures Known(s', j) {
      var x := s.log[j].lba;
      assert Known(s, j);
      WriteCommits(c, pol, s, id, x);
      if s'.v.desc[x].state != Data {
        var i :| i in s.inflight && InRange(s.inflight[i], x) && s.inflight[i].op == Write;
        assert i in s'.inflight && InRange(s'.inflight[i], x) && s'.inflight[i].op == Write;
      }
    }
  }

  /** A completion that is not of a write changes nothing, and one of a write leaves data. */
  lemma WriteCommits(c: Config, pol: Policy, s: Sys, id: nat, lba: nat)
    requires Inv(c, s) && id in s.inflight && WriteOnly(s.inflight[id].op) && lba < |s.device|
    ensures var m, s' := s.inflight[id], CompleteStep(c, pol, s, id).0;
            && |s'.v.desc| == |s.v.desc|
            && (!(InRange(m, lba) && m.op == Write) ==> s'.v.desc[lba] == s.v.desc[lba])
            && (InRange(m, lba) && m.op == Write ==> s'.v.desc[lba].state == Data)
  {
    hide LockOwned, Agrees, Describes, DescAfter, CompleteStep;
    var m := s.inflight[id];
    CompleteDesc(c, pol, s, id, lba);
    assert CmdAgrees(c, s, m);
    if InRange(m, lba) {
      assert BlockAgrees(c, s, m, lba - m.slba);
      if m.op != Write { UnloggedKeeps(c, m.op, s.v.desc[lba], m.blocks[lba - m.slba]); }
    }
  }

  lemma UnloggedKeeps(c: Config, op: Op, d: BlockDesc, b: Block)
    requires c.Valid() && Sized(c, b) && !Logged(op)
    ensures DescAfter(c, op, d, b) == d
  {
  }

  lemma {:induction false} WriteRunInv(c: Config, pol: Policy, states: seq<Sys>, moves: seq<Move>)
    requires Run(c, pol, states, moves) && WritesOnly(moves)
    ensures forall i | 0 <= i < |states| :: WriteInv(c, states[i])
  {
    hide WriteInv, Init, Enabled, Shaped;
    if |moves| == 0 {
      WriteInit(c, states[0]);
    } else {
      var n := |moves| - 1;
      WriteRunInv(c, pol, states[..n + 1], moves[..n]);
      assert states[..n + 1][n] == states[n];
      match moves[n] {
        case Generate(id, op, slba, buffers, escapes) => WriteGenerate(c, states[n], id, op, slba, buffers, escapes);
        case Apply(id, k, content) => WriteApply(c, states[n], id, k, content);
        case Complete(id) => WriteComplete(c, pol, states[n], id);
      }
    }
  }

  lemma WriteInit(c: Config, s: Sys)
    requires Init(c, s)
    ensures WriteInv(c, s)
  {
    LogInit(c, s);
  }

  // ----- the condition

  /** The stamp that the completion of a write commits for an LBA. */
  ghost function StampAfter(c: Config, s: Sys, m: Cmd, lba: nat): nat
    requires Shaped(c, s) && CmdShaped(c, m, |s.device|) && InRange(m, lba)
  {
    DescAfter(c, m.op, s.v.desc[lba], m.blocks[lba - m.slba]).timestamp
  }

  /** A write in flight has reached the LBA with a stamp that is neither the committed nor the given one. */
  ghost predicate Overtaken(c: Config, s: Sys, lba: nat, stamp16: nat)
    requires Shaped(c, s) && lba < |s.v.desc|
  {
    exists id ::
      && id in s.inflight && DoneAt(s.inflight[id], lba) && s.inflight[id].op == Write
      && StampAfter(c, s, s.inflight[id], lba) != s.v.desc[lba].timestamp
      && StampAfter(c, s, s.inflight[id], lba) != stamp16
  }

  lemma GeneratedData(c: Config, b: Block, lba: u64, stamp16: nat, d: BlockDesc)
    requires c.Valid() && d.state == Data && Generated(c, b, lba, stamp16)
    ensures Sized(c, b) && (VerifyBlockData(c, b.data, lba, d) == 0 <==> d.timestamp == stamp16)
    ensures VerifyBlock(c, d, b, lba) == 0 <==> d.timestamp == stamp16
  {
    hide GetHeader, BlockWith, VerifyBlockData;
    var timestamp: u64, escape: bool, old_: seq<bv8> :|
      |old_| == c.g.metaSize && timestamp % U16_LIMIT == stamp16 && b == NewBlock(c, lba, timestamp, escape, old_);
    BlockOf(c, lba, timestamp, escape, old_);
    MisplacedOrStaleRejected(c, lba, d, lba, timestamp, PatternFor(c, timestamp, lba));
    if d.timestamp == stamp16 { GeneratedPasses(c, b, lba, d); } else { GeneratedFails(c, b, lba, stamp16, d); }
  }

  lemma BlockOf(c: Config, lba: u64, timestamp: u64, escape: bool, old_: seq<bv8>)
    requires c.Valid() && |old_| == c.g.metaSize
    ensures NewBlock(c, lba, timestamp, escape, old_).data
         == BlockData(c.g, lba, timestamp, PatternFor(c, timestamp, lba))
  {
  }

  /** A write in flight that has reached an LBA: its stamp is on the device and in the newest record. */
  lemma ReachedStamp(c: Config, s: Sys, id: nat, lba: nat)
    requires WriteInv(c, s) && id in s.inflight && DoneAt(s.inflight[id], lba) && s.inflight[id].op == Write
    ensures lba < |s.device| && Generated(c, s.device[lba].block, lba, StampAfter(c, s, s.inflight[id], lba))
    ensures NewestOf(s.log, lba).At?
    ensures s.log[NewestOf(s.log, lba).index].next.timestamp == StampAfter(c, s, s.inflight[id], lba)
  {
    hide NewestOf, Agrees, DescAfter, Holds, LockOwned, Generated, Known, Settled;
    var m := s.inflight[id];
    assert CmdAgrees(c, s, m) && BlockAgrees(c, s, m, lba - m.slba) && Covered(c, s, m, lba - m.slba);
  }

  lemma OvertakenIff(c: Config, s: Sys, id: nat, lba: nat, stamp16: nat)
    requires Inv(c, s) && id in s.inflight && DoneAt(s.inflight[id], lba) && s.inflight[id].op == Write
    ensures lba < |s.v.desc|
    ensures Overtaken(c, s, lba, stamp16)
       <==> && StampAfter(c, s, s.inflight[id], lba) != s.v.desc[lba].timestamp
            && StampAfter(c, s, s.inflight[id], lba) != stamp16
  {
    hide Agrees, CmdAgrees, LockOwned, StampAfter;
    OnlyOwner(c, s, id, lba);
  }

  lemma OldestPassesIff(c: Config, s: Sys, o: nat)
    requires WriteInv(c, s) && o < |s.log|
    ensures Matching(c, s.v.desc, s.device)
    ensures OldestPasses(c, s.v.desc, s.device, s.log[o]) <==> !Overtaken(c, s, s.log[o].lba, s.log[o].next.timestamp)
  {
    hide NewestOf, Agrees, CmdAgrees, Covered, Holds, VerifyBlock, VerifyBlockData, LockOwned, Generated, StampAfter;
    var x := s.log[o].lba;
    assert Known(s, o);
    if Pending(s, x) {
      var id :| id in s.inflight && DoneAt(s.inflight[id], x) && Logged(s.inflight[id].op);
      var stamp16 := StampAfter(c, s, s.inflight[id], x);
      hide Overtaken;
      ReachedStamp(c, s, id, x);
      OvertakenIff(c, s, id, x, s.log[o].next.timestamp);
      GeneratedData(c, s.device[x].block, x, stamp16, s.log[o].next);
      if s.v.desc[x].state == Data {
        GeneratedData(c, s.device[x].block, x, stamp16, s.v.desc[x]);
      }
    } else {
      PassesUnlessPending(c, s, x);
    }
  }

  lemma OnlyOwner(c: Config, s: Sys, id: nat, lba: nat)
    requires Inv(c, s) && id in s.inflight && InRange(s.inflight[id], lba)
    ensures forall i | i in s.inflight && InRange(s.inflight[i], lba) :: i == id
  {
    hide Agrees, CmdAgrees;
  }

  /** Power loss at any point of any run of reads, writes and flushes on a conforming device, with the
      ring full: replay reports something exactly when a write in flight has reached the LBA of the
      oldest record with a stamp that is neither the committed one nor that of the record. */
  lemma WriteRunReplay(c: Config, pol: Policy, states: seq<Sys>, moves: seq<Move>, i: nat)
    requires Run(c, pol, states, moves) && WritesOnly(moves) && i < |states|
    requires |states[i].v.ring.slots| <= |states[i].log|
    ensures var s := states[i]; Shaped(c, s) && Crashed(c, s.v.desc, s.device, s.v.ring, s.log) && WellFormed(s.v.ring)
    ensures var s := states[i];
            var oldest := s.log[|s.log| - |s.v.ring.slots|];
            ReplayRing(c, s.v.desc, s.device, s.v.ring, s.log).1 <==>
              !Overtaken(c, s, oldest.lba, oldest.next.timestamp)
  {
    hide LockOwned, Agrees, CmdAgrees, Covered, Holds, Init, Enabled, Step, ReplayRing, OldestPasses, Known, Overtaken;
    var s := states[i];
    WriteRunInv(c, pol, states, moves);
    CrashAnswers(c, s);
    OldestPassesIff(c, s, |s.log| - |s.v.ring.slots|);
    assert forall lba: nat | lba < |s.v.desc| :: !Blocked(s, lba);
  }

  // ----- after the restart

  /** The buffer of a write does not pass for what the shadow shows: another stamp over data, or a block
      that does not look unwritten. */
  ghost predicate Clashes(c: Config, s: Sys, m: Cmd, lba: nat)
    requires Shaped(c, s) && CmdShaped(c, m, |s.device|) && InRange(m, lba)
  {
    if s.v.desc[lba].state == Data then StampAfter(c, s, m, lba) != s.v.desc[lba].timestamp
    else VerifyUnwritten(c, m.blocks[lba - m.slba]) != 0
  }

  ghost predicate ClashingWrite(c: Config, s: Sys, lba: nat)
    requires Shaped(c, s)
  {
    exists id :: id in s.inflight && DoneAt(s.inflight[id], lba) && s.inflight[id].op == Write
              && Clashes(c, s, s.inflight[id], lba)
  }

  lemma ReadAfterRestart(c: Config, pol: Policy, s: Sys, stamp: u64, lba: nat)
    requires WriteInv(c, s) && lba < |s.device|
    ensures Crashed(c, s.v.desc, s.device, s.v.ring, s.log)
    ensures Reported(ReadBack(c, pol, Restart(c, s, stamp).v, lba, s.device[lba]))
       <==> !Visited(s.v.ring, s.log, lba) && ClashingWrite(c, s, lba)
  {
    hide LockOwned, Agrees, CmdAgrees, Covered, Holds, Known, ReadBack, Restart, Visited, StampAfter, VerifyUnwritten,
      VerifyBlockData, Generated;
    RestartReadReportedIff(c, pol, s, stamp, lba);
    if Pending(s, lba) {
      var id :| id in s.inflight && DoneAt(s.inflight[id], lba) && Logged(s.inflight[id].op);
      OnlyOwner(c, s, id, lba);
      ReachedPassesIff(c, s, id, lba);
    } else {
      PassesUnlessPending(c, s, lba);
    }
  }

  lemma ReachedPassesIff(c: Config, s: Sys, id: nat, lba: nat)
    requires WriteInv(c, s) && id in s.inflight && DoneAt(s.inflight[id], lba) && s.inflight[id].op == Write
    ensures lba < |s.device| && (Passes(c, s.v.desc[lba], s.device[lba], lba) <==> !Clashes(c, s, s.inflight[id], lba))
  {
    hide LockOwned, Agrees, Describes, Covered, Holds, Known, StampAfter, VerifyUnwritten, VerifyBlockData, Generated,
      DescAfter;
    var m := s.inflight[id];
    assert CmdAgrees(c, s, m) && BlockAgrees(c, s, m, lba - m.slba);
    ReachedStamp(c, s, id, lba);
    if s.v.desc[lba].state == Data {
      GeneratedData(c, s.device[lba].block, lba, StampAfter(c, s, m, lba), s.v.desc[lba]);
    }
  }

  /** Power loss at any point of any run of reads, writes and flushes, whether or not the ring is full:
      the first read of an LBA after the restart is reported exactly when replay does not visit its
      newest record and a write in flight has reached it that clashes with the shadow. */
  lemma WriteRunRestart(c: Config, pol: Policy, states: seq<Sys>, moves: seq<Move>, i: nat, stamp: u64, lba: nat)
    requires Run(c, pol, states, moves) && WritesOnly(moves) && i < |states| && lba < |states[i].device|
    ensures var s := states[i]; Shaped(c, s) && Crashed(c, s.v.desc, s.device, s.v.ring, s.log)
    ensures var s := states[i];
            Reported(ReadBack(c, pol, Restart(c, s, stamp).v, lba, s.device[lba])) <==>
              !Visited(s.v.ring, s.log, lba) && ClashingWrite(c, s, lba)
  {
    hide LockOwned, Agrees, CmdAgrees, Covered, Holds, Init, Enabled, Step, Known, ReadBack, Restart, Visited,
      ClashingWrite;
    WriteRunInv(c, pol, states, moves);
    ReadAfterRestart(c, pol, states[i], stamp, lba);
  }
}
