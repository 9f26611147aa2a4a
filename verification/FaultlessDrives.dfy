/** Runs of a drive that does everything right and is reported all the same: the inputs on which the
    conditions of WriteRuns, PowerLossRuns and Restarts fail. All are runs on a single LBA. */
module FaultlessDrives {
  import opened Common
  import opened Bytes
  import opened Datagen
  import opened Metadata
  import opened Verifier
  import opened History
  import opened Bench
  import opened PowerLoss
  import opened PowerLossRuns
  import opened Restarts
  import opened WriteRuns
  import opened NoFalseAlarms

  /** A block of a namespace that was never written. */
  function FactoryBlock(c: Config): (b: Block)
    requires c.Valid()
    ensures Factory(c, b)
  {
    var fill: bv8 := if c.unwrittenValue.ReadsOnes? then 0xFF else 0;
    Block(seq(c.g.dataSize, _ => fill),
          seq(c.g.metaSize, i => if c.g.piOffset <= i < c.g.piOffset + PI_SIZE then 0xFF else 0))
  }

  /** A namespace of one LBA with a ring of n slots. */
  function Start(c: Config, n: nat): (s: Sys)
    requires c.Valid() && n > 0
    ensures Init(c, s)
  {
    var d := BlockDesc(Unwritten, 0, 0);
    Sys(Iover({}, [d], 0, Ring(seq(n, _ => HistDesc(NO_LBA, d, d)), 0)), [Cell(FactoryBlock(c), false)], map[], [], {})
  }

  predicate Idle(s: Sys) {
    s.inflight == map[] && s.v.locked == {} && |s.device| == 1 && s.doubt == {}
  }

  /** The only command in flight is on the only LBA; `done` says whether the device has executed it. */
  ghost predicate Alone(c: Config, s: Sys, op: Op, stamp: u64, done: bool)
    requires Shaped(c, s)
  {
    && s.inflight.Keys == {0} && s.v.locked == {0} && |s.device| == 1 && s.v.timestamp == stamp && s.doubt == {}
    && s.inflight[0].op == op && s.inflight[0].slba == 0 && |s.inflight[0].blocks| == 1 && s.inflight[0].done == [done]
    && !s.inflight[0].failed && (done ==> s.device[0].bad == (op == WriteUncorrect))
    && (op == Write ==> DescAfter(c, op, s.v.desc[0], s.inflight[0].blocks[0]).state == Data
                        && StampAfter(c, s, s.inflight[0], 0) == stamp % U16_LIMIT)
  }

  function Order(c: Config, op: Op): Move
    requires c.Valid()
  {
    Generate(0, op, 0, [FactoryBlock(c)], [false])
  }

  function Execute(c: Config): Move
    requires c.Valid()
  {
    Apply(0, 0, FactoryBlock(c))
  }

  /** A command ordered from an idle bench. */
  lemma OrderCommand(c: Config, pol: Policy, s: Sys, op: Op)
    requires LogInv(c, s) && Idle(s) && (op == Write || op == WriteUncorrect)
    ensures Enabled(c, s, Order(c, op))
    ensures var s1 := Step(c, pol, s, Order(c, op));
            && LogInv(c, s1) && Alone(c, s1, op, if op == Write then NextStamp(s.v.timestamp) else s.v.timestamp, false)
            && s1.v.desc == s.v.desc && |s1.v.ring.slots| == |s.v.ring.slots|
            && |s1.log| == |s.log| + 1 && s1.log[..|s.log|] == s.log && s1.log[|s.log|].lba == 0
            && (op == Write ==> s1.log[|s.log|].next.timestamp == NextStamp(s.v.timestamp) % U16_LIMIT)
  {
    hide Records, Backup, Payload, LockOwned, Agrees, CmdAgrees, Covered, Holds, DescAfter, NewestOf, Settled;
    var move, s1 := Order(c, op), Step(c, pol, s, Order(c, op));
    LogStep(c, pol, s, move);
    NewCommand(c, s, 0, op, 0, move.buffers, move.escapes);
    RecordLbas(c, s, op, 0, s1.inflight[0].blocks);
    if op == Write {
      NewRecords(c, s, op, 0, move.buffers, move.escapes, s1.v.timestamp, 0);
      PayloadStamp(c, s.v.desc[0], 0, s1.v.timestamp, move.buffers, move.escapes, 0);
    }
  }

  lemma ExecuteCommand(c: Config, pol: Policy, s: Sys, op: Op, stamp: u64)
    requires LogInv(c, s) && Alone(c, s, op, stamp, false) && (op == Write || op == WriteUncorrect)
    ensures Enabled(c, s, Execute(c))
    ensures var s' := Step(c, pol, s, Execute(c));
            && LogInv(c, s') && Alone(c, s', op, stamp, true) && s'.v == s.v && s'.log == s.log
  {
    hide LockOwned, Agrees, CmdAgrees, Covered, Holds, DescAfter;
    LogStep(c, pol, s, Execute(c));
  }

  /** Completing the write makes the bench idle again, with its stamp in the shadow. */
  lemma CompleteOrder(c: Config, pol: Policy, s: Sys, stamp: u64)
    requires LogInv(c, s) && Alone(c, s, Write, stamp, true)
    ensures Enabled(c, s, Complete(0))
    ensures var s' := Step(c, pol, s, Complete(0));
            && LogInv(c, s') && Idle(s') && s'.v.timestamp == stamp && s'.v.ring == s.v.ring && s'.log == s.log
            && s'.v.desc[0].state == Data && s'.v.desc[0].timestamp == stamp % U16_LIMIT
  {
    hide LockOwned, Agrees, CmdAgrees, Covered, Holds, DescAfter, CompleteStep;
    LogStep(c, pol, s, Complete(0));
    CompleteRest(c, pol, s, 0);
    CompleteDesc(c, pol, s, 0, 0);
  }

  /** A write, and then a second command that the device has executed and not completed. */
  ghost predicate SecondExecuted(c: Config, s: Sys, op: Op, n: nat) {
    && LogInv(c, s) && Alone(c, s, op, if op == Write then 2 else 1, true)
    && s.v.desc[0].state == Data && s.v.desc[0].timestamp == 1
    && |s.v.ring.slots| == n && |s.log| == 2 && s.log[0].lba == s.log[1].lba == 0 && s.log[0].next.timestamp == 1
  }

  /** A write, completed. */
  ghost predicate FirstCompleted(c: Config, s: Sys, n: nat) {
    && LogInv(c, s) && Idle(s) && s.v.timestamp == 1 && s.v.desc[0].state == Data && s.v.desc[0].timestamp == 1
    && |s.v.ring.slots| == n && |s.log| == 1 && s.log[0].lba == 0 && s.log[0].next.timestamp == 1
  }

  lemma WriteOnce(c: Config, pol: Policy, n: nat) returns (states: seq<Sys>, moves: seq<Move>)
    requires c.Valid() && n > 0
    ensures Run(c, pol, states, moves) && |states| == 4 && FirstCompleted(c, states[3], n)
    ensures moves == [Order(c, Write), Execute(c), Complete(0)]
  {
    hide LockOwned, Agrees, CmdAgrees, Covered, Holds, CmdShaped, Init, Enabled, Step, Start, Alone, FactoryBlock;
    var s0 := Start(c, n);
    LogInit(c, s0);
    StartFields(c, n);
    OrderCommand(c, pol, s0, Write);
    var s1 := Step(c, pol, s0, Order(c, Write));
    ExecuteCommand(c, pol, s1, Write, 1);
    var s2 := Step(c, pol, s1, Execute(c));
    CompleteOrder(c, pol, s2, 1);
    states := [s0, s1, s2, Step(c, pol, s2, Complete(0))];
    moves := [Order(c, Write), Execute(c), Complete(0)];
  }

  /** One more move at the end of a run. */
  lemma RunSnoc(c: Config, pol: Policy, states: seq<Sys>, moves: seq<Move>, m: Move)
    requires Run(c, pol, states, moves) && Shaped(c, states[|moves|]) && Enabled(c, states[|moves|], m)
    ensures Run(c, pol, states + [Step(c, pol, states[|moves|], m)], moves + [m])
  {
    hide Init, Enabled, Shaped, Step;
  }

  lemma WriteThen(c: Config, pol: Policy, n: nat, op: Op) returns (states: seq<Sys>, moves: seq<Move>)
    requires c.Valid() && n > 0 && (op == Write || op == WriteUncorrect)
    ensures Run(c, pol, states, moves) && |states| == 6 && SecondExecuted(c, states[5], op, n)
    ensures moves == [Order(c, Write), Execute(c), Complete(0), Order(c, op), Execute(c)]
  {
    hide LockOwned, Agrees, CmdAgrees, Covered, Holds, CmdShaped, Run, Enabled, Step, Alone, FactoryBlock;
    states, moves := WriteOnce(c, pol, n);
    OrderCommand(c, pol, states[3], op);
    RunSnoc(c, pol, states, moves, Order(c, op));
    var s4 := Step(c, pol, states[3], Order(c, op));
    states, moves := states + [s4], moves + [Order(c, op)];
    ExecuteCommand(c, pol, s4, op, if op == Write then 2 else 1);
    RunSnoc(c, pol, states, moves, Execute(c));
    var s5 := Step(c, pol, s4, Execute(c));
    states, moves := states + [s5], moves + [Execute(c)];
    assert s5.log[..1][0] == s5.log[0];
  }

  lemma StartFields(c: Config, n: nat)
    requires c.Valid() && n > 0
    ensures var s := Start(c, n); Idle(s) && s.v.timestamp == 0 && |s.v.ring.slots| == n && s.log == []
  {
  }

  /** Two writes of one LBA fill the ring, the second executed but not committed: replay starts with the
      record of the first, finds the block of the second, and reports a drive that did nothing wrong. */
  lemma RecurrenceReported(c: Config, pol: Policy) returns (states: seq<Sys>, moves: seq<Move>)
    requires c.Valid()
    ensures Run(c, pol, states, moves) && WritesOnly(moves) && |states| == 6
    ensures var s := states[5];
            && |s.v.ring.slots| == |s.log| == 2 && Crashed(c, s.v.desc, s.device, s.v.ring, s.log)
            && !ReplayRing(c, s.v.desc, s.device, s.v.ring, s.log).1
  {
    hide LogInv, Run, ReplayRing, StampAfter;
    states, moves := WriteThen(c, pol, 2, Write);
    var s := states[5];
    WriteRunReplay(c, pol, states, moves, 5);
    assert 0 in s.inflight && DoneAt(s.inflight[0], 0);
    assert Overtaken(c, s, 0, 1);
  }

  /** The same two writes in a ring of three slots: replay visits nothing and reports nothing, and the
      first read after the restart reports the drive. */
  lemma PartialRingReported(c: Config, pol: Policy, stamp: u64) returns (states: seq<Sys>, moves: seq<Move>)
    requires c.Valid()
    ensures Run(c, pol, states, moves) && WritesOnly(moves) && |states| == 6
    ensures var s := states[5];
            && |s.log| < |s.v.ring.slots| && Crashed(c, s.v.desc, s.device, s.v.ring, s.log)
            && ReplayRing(c, s.v.desc, s.device, s.v.ring, s.log).1
            && |Restart(c, s, stamp).v.desc| == |s.device| == 1 && c.Valid() && Sized(c, s.device[0].block)
            && ReadBack(c, pol, Restart(c, s, stamp).v, 0, s.device[0]).miscompare
  {
    hide Run, ReplayRing, Holds, Covered, LockOwned, Restart, DescAfter, Generated, VerifyBlock;
    states, moves := WriteThen(c, pol, 3, Write);
    var s := states[5];
    RestartShape(c, s, stamp);
    PartialReplay(c, s.v.desc, s.device, s.v.ring, s.log);
    assert CmdAgrees(c, s, s.inflight[0]) && BlockAgrees(c, s, s.inflight[0], 0);
    GeneratedFails(c, s.device[0].block, 0, 2, s.v.desc[0]);
    RestartLba(c, s, stamp, 0);
    OneBlockRead(c, pol, Restart(c, s, stamp).v, 0, s.device[0].block);
  }

  /** A block made uncorrectable for a command that was not completed: its read fails, as it should,
      and replay reports that. */
  lemma UncorrectableReported(c: Config, pol: Policy) returns (states: seq<Sys>, moves: seq<Move>)
    requires c.Valid()
    ensures Run(c, pol, states, moves) && |states| == 6
    ensures var s := states[5];
            && |s.v.ring.slots| == |s.log| == 2 && Crashed(c, s.v.desc, s.device, s.v.ring, s.log)
            && !ReplayRing(c, s.v.desc, s.device, s.v.ring, s.log).1
  {
    hide LogInv, Run, ReplayRing, OldestPasses;
    states, moves := WriteThen(c, pol, 2, WriteUncorrect);
    var s := states[5];
    CrashAnswers(c, s);
    assert 0 in s.inflight && DoneAt(s.inflight[0], 0);
    assert Blocked(s, s.log[0].lba);
  }

  // ----- through a power loss

  /** A run as the beginning of a long run. */
  function Works(moves: seq<Move>): (events: seq<Event>)
    ensures |events| == |moves| && forall i | 0 <= i < |moves| :: events[i] == Work(moves[i])
  {
    seq(|moves|, i requires 0 <= i < |moves| => Work(moves[i]))
  }

  lemma RunIsLongRun(c: Config, pol: Policy, states: seq<Sys>, moves: seq<Move>)
    requires Run(c, pol, states, moves)
    ensures LongRun(c, pol, states, Works(moves))
  {
    hide Init, Enabled, Step, Shaped;
  }

  /** One more event at the end of a long run. */
  lemma LongRunSnoc(c: Config, pol: Policy, states: seq<Sys>, events: seq<Event>, e: Event, s': Sys)
    requires LongRun(c, pol, states, events) && Happens(c, pol, states[|events|], e, s')
    ensures LongRun(c, pol, states + [s'], events + [e])
  {
    hide Init, Happens;
    var all, evs := states + [s'], events + [e];
    forall i | 0 <= i < |evs| ensures Happens(c, pol, all[i], evs[i], all[i + 1]) {
      if i < |events| { assert Happens(c, pol, states[i], events[i], states[i + 1]); }
    }
  }

  /** The run of RecurrenceReported, and then the power loss itself: it is survived, all reads after it
      pass, and yet its replay reports the drive. */
  lemma SurvivedButReported(c: Config, pol: Policy, stamp: u64) returns (states: seq<Sys>, events: seq<Event>)
    requires c.Valid()
    ensures LongRun(c, pol, states, events) && |events| == 6 && events[5] == PowerLoss(stamp)
    ensures var s := states[5]; Shaped(c, s) && Crashed(c, s.v.desc, s.device, s.v.ring, s.log)
    ensures EventReported(c, pol, states[5], events[5])
  {
    hide LogInv, Run, LongRun, ReplayRing, StampAfter, Restart, Survives;
    var moves;
    states, moves := WriteThen(c, pol, 2, Write);
    var s := states[5];
    WriteRunReplay(c, pol, states, moves, 5);
    assert 0 in s.inflight && DoneAt(s.inflight[0], 0);
    assert Overtaken(c, s, 0, 1);
    RunIsLongRun(c, pol, states, moves);
    SecondSurvives(c, s);
    LongRunSnoc(c, pol, states, Works(moves), PowerLoss(stamp), Restart(c, s, stamp));
    states, events := states + [Restart(c, s, stamp)], Works(moves) + [PowerLoss(stamp)];
  }

  lemma SecondSurvives(c: Config, s: Sys)
    requires SecondExecuted(c, s, Write, 2)
    ensures Shaped(c, s) && Survives(c, s)
  {
    hide Holds, Covered, Agrees, CmdAgrees, LockOwned, Passes, StampAfter, DescAfter;
    NewestIs(s.log, 1);
  }

  /** An idle bench survives a power loss: the restart changes nothing but the stamp. */
  lemma RestartIdle(c: Config, s: Sys, stamp: u64)
    requires LogInv(c, s) && Idle(s)
    ensures Survives(c, s) && Crashed(c, s.v.desc, s.device, s.v.ring, s.log)
    ensures var s' := Restart(c, s, stamp);
            && LogInv(c, s') && Idle(s') && s'.v.timestamp == stamp
            && s'.v.desc[0] == s.v.desc[0] && s'.device == s.device
  {
    hide Holds, Covered, Agrees, CmdAgrees, LockOwned, ReplayRing, Passes;
    assert !Pending(s, 0);
    RestartKeepsInv(c, s, stamp);
    PassesUnlessPending(c, s, 0);
    RestartLba(c, s, stamp, 0);
  }

  /** A lost write that goes unnoticed after three commands: the journal gives the stamp 0 back, as it does
      for a journal in shared memory, so the write after the restart has the stamp of the write before it.
      The device reports it complete without executing it, and the next read finds nothing. */
  lemma LostWriteUnnoticed(c: Config, pol: Policy) returns (states: seq<Sys>, events: seq<Event>)
    requires c.Valid()
    ensures LongRun(c, pol, states, events) && |events| == 5 && events[3] == PowerLoss(0)
    ensures var s := states[5];
            && Inv(c, s) && 0 in s.inflight && s.inflight[0].op == Write && s.inflight[0].done == [false]
            && |CompleteStep(c, pol, s, 0).0.v.desc| == |s.device| == 1 && Sized(c, s.device[0].block)
            && !Reported(ReadBack(c, pol, CompleteStep(c, pol, s, 0).0.v, 0, s.device[0]))
  {
    hide LockOwned, Agrees, CmdAgrees, Covered, Holds, CmdShaped, Run, LongRun, Enabled, Step, Alone, FactoryBlock,
      Restart, Survives;
    var moves;
    states, moves := WriteOnce(c, pol, 2);
    RunIsLongRun(c, pol, states, moves);
    var s3 := states[3];
    RestartIdle(c, s3, 0);
    var s4 := Restart(c, s3, 0);
    LongRunSnoc(c, pol, states, Works(moves), PowerLoss(0), s4);
    states, events := states + [s4], Works(moves) + [PowerLoss(0)];
    OrderCommand(c, pol, s4, Write);
    var s5 := Step(c, pol, s4, Order(c, Write));
    LongRunSnoc(c, pol, states, events, Work(Order(c, Write)), s5);
    states, events := states + [s5], events + [Work(Order(c, Write))];
    SameStampUnnoticed(c, pol, s5);
  }

  lemma SameStampUnnoticed(c: Config, pol: Policy, s: Sys)
    requires LogInv(c, s) && Alone(c, s, Write, 1, false) && s.v.desc[0].state == Data && s.v.desc[0].timestamp == 1
    ensures |CompleteStep(c, pol, s, 0).0.v.desc| == |s.device| == 1 && s.inflight[0].done == [false]
    ensures 0 in s.inflight && s.inflight[0].op == Write
    ensures !Reported(ReadBack(c, pol, CompleteStep(c, pol, s, 0).0.v, 0, s.device[0]))
  {
    hide LockOwned, Covered, Holds, DescAfter, CompleteStep, Generated, VerifyBlock;
    LostOverwriteAccusedIff(c, pol, s, 0, 0);
    CompleteDesc(c, pol, s, 0, 0);
    assert CmdAgrees(c, s, s.inflight[0]) && BlockAgrees(c, s, s.inflight[0], 0);
    OneBlockRead(c, pol, CompleteStep(c, pol, s, 0).0.v, 0, s.device[0].block);
  }
}
