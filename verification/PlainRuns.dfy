/** When a replay and the reads after a restart report a conforming drive, said in terms of the commands
    that were in flight, for runs of every kind of command and any number of power losses. */
module PlainRuns {
  import opened Common
  import opened Bytes
  import opened Datagen
  import opened Metadata
  import opened Verifier
  import opened History
  import opened Bench
  import opened PowerLoss
  import opened PowerLossRuns
  import opened Restarts
  import opened WriteRuns
  import opened NoFalseAlarms

  /** Settings under which the checks of a block depend on nothing but its first byte and its stamp:
      headers are not masked, deallocated blocks have a fixed value, and the check of unwritten blocks
      does not look at metadata. */
  predicate Plain(c: Config) {
    && !c.g.randomizeHeader && !c.deallocValue.DeallocLast?
    && (c.g.metaSize == 0 || c.nsPiType == 0 || !c.unwrittenChecked || c.unwrittenValue.ReadsOnes?)
  }

  /** What a command leaves in a block, as far as the checks look: the first byte, and the stamp of a write. */
  datatype Trace = Trace(first: bv8, stamp: Option<nat>)

  function UnwrittenByte(c: Config): bv8 {
    if c.unwrittenValue.ReadsOnes? then 0xFF else 0
  }

  function DeallocByte(c: Config): bv8 {
    if c.deallocValue.DeallocOnes? then 0xFF else 0
  }

  ghost function TraceOf(c: Config, s: Sys, m: Cmd, lba: nat): Trace
    requires Shaped(c, s) && CmdShaped(c, m, |s.device|) && InRange(m, lba)
  {
    match m.op
    case Write => Trace(m.blocks[lba - m.slba].data[0], Some(StampAfter(c, s, m, lba)))
    case Deallocate => Trace(DeallocByte(c), None)
    case _ => Trace(0, None)
  }

  /** The check against a descriptor lets a trace through; `logged` tells verify_hist_read's check of
      the logged state from that of the committed one. */
  predicate Admits(c: Config, d: BlockDesc, t: Trace, logged: bool) {
    match d.state
    case Unwritten => !c.unwrittenChecked || t.first == UnwrittenByte(c)
    case Dealloc => t.first == DeallocByte(c)
    case Data => t.stamp == Some(d.timestamp)
    case Zeroes => !logged || t.first == 0
    case _ => true
  }

  /** The content carries the trace. */
  ghost predicate Carries(c: Config, b: Block, lba: u64, t: Trace)
    requires c.Valid() && Sized(c, b)
  {
    && b.data[0] == t.first
    && (t.stamp.Some? ==> Generated(c, b, lba, t.stamp.value))
    && (t.stamp.None? ==> t.first != START_MARKER && forall i | 0 <= i < |b.data| :: b.data[i] == t.first)
  }

  /** Under plain settings the two checks of a block are decided by its trace. */
  lemma ChecksAdmit(c: Config, d: BlockDesc, b: Block, lba: u64, t: Trace)
    requires c.Valid() && Plain(c) && Sized(c, b) && Carries(c, b, lba, t)
    ensures VerifyBlock(c, d, b, lba) == 0 <==> Admits(c, d, t, false)
    ensures VerifyNext(c, d, b, lba) == 0 <==> Admits(c, d, t, true)
  {
    hide VerifyBlockData, CompareMeta, Generated, CarriesStamp;
    if d.state == Data {
      if t.stamp.Some? {
        GeneratedData(c, b, lba, t.stamp.value, d);
      } else {
        DataAcceptedIff(c, b.data, lba, d);
        FilledCarriesNothing(c, b.data, lba, d.timestamp, t.first);
      }
    }
  }

  /** The block of a restoring command that the device has executed carries the trace of the command. */
  lemma ReachedCarries(c: Config, s: Sys, id: nat, lba: nat)
    requires Inv(c, s) && Plain(c) && id in s.inflight && DoneAt(s.inflight[id], lba) && Restoring(s.inflight[id].op)
    ensures lba < |s.device| && !s.device[lba].bad
    ensures Carries(c, s.device[lba].block, lba, TraceOf(c, s, s.inflight[id], lba))
  {
    hide LockOwned, Agrees, DescAfter, Generated;
    var m := s.inflight[id];
    assert CmdAgrees(c, s, m) && BlockAgrees(c, s, m, lba - m.slba);
    StateAfter(c, m.op, s.v.desc[lba], m.blocks[lba - m.slba]);
  }

  lemma StateAfter(c: Config, op: Op, d: BlockDesc, b: Block)
    requires c.Valid() && Sized(c, b)
    ensures op == Deallocate ==> DescAfter(c, op, d, b).state == Dealloc
    ensures op == WriteZeroes ==> DescAfter(c, op, d, b).state == Zeroes
  {
  }

  /** A restoring command in flight has reached the LBA, and its trace passes for neither descriptor. */
  ghost predicate Overruns(c: Config, s: Sys, lba: nat, logged: Option<BlockDesc>)
    requires Shaped(c, s) && lba < |s.v.desc|
  {
    exists id ::
      && id in s.inflight && DoneAt(s.inflight[id], lba) && Restoring(s.inflight[id].op)
      && !Admits(c, s.v.desc[lba], TraceOf(c, s, s.inflight[id], lba), false)
      && (logged.Some? ==> !Admits(c, logged.value, TraceOf(c, s, s.inflight[id], lba), true))
  }

  /** A readable LBA fails the committed check, or that check and the one of a record, exactly when it is
      overrun. */
  lemma FailsIffOverrun(c: Config, s: Sys, lba: nat, logged: Option<BlockDesc>)
    requires LogInv(c, s) && Plain(c) && lba < |s.device| && !s.device[lba].bad
    ensures Overruns(c, s, lba, logged)
       <==> && VerifyBlock(c, s.v.desc[lba], s.device[lba].block, lba) != 0
            && (logged.Some? ==> VerifyNext(c, logged.value, s.device[lba].block, lba) != 0)
  {
    hide LockOwned, Agrees, CmdAgrees, Covered, Holds, VerifyBlock, VerifyNext, Admits, TraceOf, Carries;
    if Pending(s, lba) {
      var id :| id in s.inflight && DoneAt(s.inflight[id], lba) && Logged(s.inflight[id].op);
      OnlyOwner(c, s, id, lba);
      NotUncorrectable(c, s, id, lba);
      ReachedCarries(c, s, id, lba);
      var t := TraceOf(c, s, s.inflight[id], lba);
      ChecksAdmit(c, s.v.desc[lba], s.device[lba].block, lba, t);
      if logged.Some? { ChecksAdmit(c, logged.value, s.device[lba].block, lba, t); }
    } else {
      PassesUnlessPending(c, s, lba);
    }
  }

  lemma NotUncorrectable(c: Config, s: Sys, id: nat, lba: nat)
    requires Inv(c, s) && id in s.inflight && DoneAt(s.inflight[id], lba) && !s.device[lba].bad
    ensures s.inflight[id].op != WriteUncorrect
  {
    hide LockOwned, Agrees, Describes, DescAfter;
    var m := s.inflight[id];
    assert CmdAgrees(c, s, m) && BlockAgrees(c, s, m, lba - m.slba);
  }

  /** Any power loss of any long run, all kinds of commands, a full ring: the replay reports something
      exactly when the LBA of the oldest record is readable and overrun, or a record is of an LBA that
      became uncorrectable over data or zeroes for a command still in flight. */
  lemma ReplayReportsIff(c: Config, pol: Policy, states: seq<Sys>, events: seq<Event>, i: nat)
    requires LongRun(c, pol, states, events) && Plain(c) && i < |states|
    requires |states[i].v.ring.slots| <= |states[i].log|
    ensures var s := states[i];
            Shaped(c, s) && Crashed(c, s.v.desc, s.device, s.v.ring, s.log) && WellFormed(s.v.ring)
    ensures var s := states[i];
            var oldest := s.log[|s.log| - |s.v.ring.slots|];
            !ReplayRing(c, s.v.desc, s.device, s.v.ring, s.log).1 <==>
              || (!s.device[oldest.lba].bad && Overruns(c, s, oldest.lba, Some(oldest.next)))
              || exists j :: |s.log| - |s.v.ring.slots| <= j < |s.log| && Blocked(s, s.log[j].lba)
  {
    hide LockOwned, Agrees, CmdAgrees, Covered, Holds, LongRun, ReplayRing, Blocked, Overruns, VerifyBlock, VerifyNext,
      OldestDoesNotRecur;
    var s := states[i];
    LongRunInv(c, pol, states, events);
    CrashAnswers(c, s);
    var oldest := s.log[|s.log| - |s.v.ring.slots|];
    if !s.device[oldest.lba].bad { FailsIffOverrun(c, s, oldest.lba, Some(oldest.next)); }
  }

  /** The first read of any LBA after any power loss of any long run, full ring or not, is reported exactly
      when it became uncorrectable over data or zeroes for a command in flight, or is readable, overrun
      and not visited by the replay. */
  lemma RestartReportsIff(c: Config, pol: Policy, states: seq<Sys>, events: seq<Event>, i: nat, stamp: u64, lba: nat)
    requires LongRun(c, pol, states, events) && Plain(c) && i < |states| && lba < |states[i].device|
    ensures var s := states[i]; Shaped(c, s) && Crashed(c, s.v.desc, s.device, s.v.ring, s.log)
    ensures var s := states[i];
            Reported(ReadBack(c, pol, Restart(c, s, stamp).v, lba, s.device[lba])) <==>
              || Blocked(s, lba)
              || (!s.device[lba].bad && Overruns(c, s, lba, None) && !Visited(s.v.ring, s.log, lba))
  {
    hide LockOwned, Agrees, CmdAgrees, Covered, Holds, LongRun, Overruns, VerifyBlock, Visited, ReadBack, Restart,
      HalfUncorrectable;
    var s := states[i];
    LongRunInv(c, pol, states, events);
    RestartReadReportedIff(c, pol, s, stamp, lba);
    BadIffHalfUncorrectable(c, s, lba);
    if !s.device[lba].bad { FailsIffOverrun(c, s, lba, None); }
  }
}
