/** Runs that go on after a power loss: the shadow table and the history come back from the journal,
    the ring is replayed, and testing continues on whatever the device has kept. */
module Restarts {
  import opened Bytes
  import opened Verifier
  import opened History
  import opened Bench
  import opened PowerLoss
  import opened PowerLossRuns
  import opened NoFalseAlarms

  /** The bench after power loss and replay. Locks and commands are gone; the stamp is whatever the
      journal holds. */
  ghost function Restart(c: Config, s: Sys, stamp: u64): Sys
    requires Crashed(c, s.v.desc, s.device, s.v.ring, s.log)
  {
    var desc := ReplayRing(c, s.v.desc, s.device, s.v.ring, s.log).0;
    Sys(Iover({}, desc, stamp, s.v.ring), s.device, map[], s.log, s.doubt + s.v.locked)
  }

  /** Every command effect that is on the device and not in the shadow is harmless: the committed
      descriptor passes anyway, or the block can be read and replay visits its newest record. */
  ghost predicate Survives(c: Config, s: Sys)
    requires Shaped(c, s)
  {
    forall lba: nat | lba < |s.device| && Pending(s, lba) :: LbaSurvives(c, s, lba)
  }

  ghost predicate LbaSurvives(c: Config, s: Sys, lba: nat)
    requires Shaped(c, s) && lba < |s.device|
  {
    || Passes(c, s.v.desc[lba], s.device[lba], lba)
    || (!s.device[lba].bad && Visited(s.v.ring, s.log, lba))
  }

  /** The repaired shadow of one LBA passes exactly when the LBA survives. */
  lemma RestartLba(c: Config, s: Sys, stamp: u64, lba: nat)
    requires LogInv(c, s) && lba < |s.device|
    ensures Crashed(c, s.v.desc, s.device, s.v.ring, s.log)
    ensures var s' := Restart(c, s, stamp);
            && (Passes(c, s'.v.desc[lba], s.device[lba], lba) <==> LbaSurvives(c, s, lba))
            && (Passes(c, s.v.desc[lba], s.device[lba], lba) ==> s'.v.desc[lba] == s.v.desc[lba])
  {
    hide ReplayRing, Recoverable, LockOwned, Agrees, CmdAgrees, Covered, Holds, Passes, Visited;
    CrashIsRecoverable(c, s);
    ReplayRepairsIff(c, s.v.desc, s.device, s.v.ring, s.log, lba);
  }

  /** After the restart the whole namespace passes the checks exactly when the power loss is survived. */
  lemma RestartPassesIff(c: Config, s: Sys, stamp: u64)
    requires LogInv(c, s)
    ensures Crashed(c, s.v.desc, s.device, s.v.ring, s.log)
    ensures Survives(c, s)
       <==> forall lba: nat | lba < |s.device| :: Passes(c, Restart(c, s, stamp).v.desc[lba], s.device[lba], lba)
  {
    hide LockOwned, Agrees, CmdAgrees, Covered, Holds, Passes, Pending, LbaSurvives, Restart, Recoverable;
    RestartShape(c, s, stamp);
    forall lba: nat | lba < |s.device|
      ensures Passes(c, Restart(c, s, stamp).v.desc[lba], s.device[lba], lba) <==> LbaSurvives(c, s, lba)
      ensures !Pending(s, lba) ==> LbaSurvives(c, s, lba)
    {
      RestartLba(c, s, stamp, lba);
      if !Pending(s, lba) { SurvivesUnlessPending(c, s, lba); }
    }
  }

  lemma SurvivesUnlessPending(c: Config, s: Sys, lba: nat)
    requires Inv(c, s) && lba < |s.device| && !Pending(s, lba)
    ensures LbaSurvives(c, s, lba)
  {
    hide Inv, Passes, Pending;
    PassesUnlessPending(c, s, lba);
  }

  /** The first read of any one LBA after the restart is reported exactly when its block can be read,
      carries an effect the shadow does not know and replay did not visit, or when it became
      uncorrectable over data or zeroes. */
  lemma RestartReadReportedIff(c: Config, pol: Policy, s: Sys, stamp: u64, lba: nat)
    requires LogInv(c, s) && lba < |s.device|
    ensures Crashed(c, s.v.desc, s.device, s.v.ring, s.log)
    ensures Reported(ReadBack(c, pol, Restart(c, s, stamp).v, lba, s.device[lba]))
       <==> (if s.device[lba].bad then Blocked(s, lba) else !LbaSurvives(c, s, lba))
  {
    hide LockOwned, Agrees, CmdAgrees, Covered, Holds, Passes, Visited, Restart, VerifyBlock, LbaSurvives,
      HalfUncorrectable;
    RestartLba(c, s, stamp, lba);
    var v' := Restart(c, s, stamp).v;
    RestartShape(c, s, stamp);
    if s.device[lba].bad {
      BadIffHalfUncorrectable(c, s, lba);
      BadStays(c, s, stamp, lba);
      FailureReportedIff(v'.desc, lba);
    } else {
      OneBlockRead(c, pol, v', lba, s.device[lba].block);
      ReadablePasses(c, v'.desc[lba], s.device[lba], lba);
    }
  }

  lemma ReadablePasses(c: Config, d: BlockDesc, cell: Cell, lba: u64)
    requires c.Valid() && Sized(c, cell.block) && !cell.bad
    ensures Passes(c, d, cell, lba) <==> VerifyBlock(c, d, cell.block, lba) == 0
  {
    hide VerifyBlock;
  }

  lemma RestartShape(c: Config, s: Sys, stamp: u64)
    requires LogInv(c, s)
    ensures Crashed(c, s.v.desc, s.device, s.v.ring, s.log) && |Restart(c, s, stamp).v.desc| == |s.v.desc|
  {
    hide ReplayRing, LockOwned, Agrees, CmdAgrees, Covered, Holds;
  }

  /** Replay never changes the descriptor of a block that cannot be read. */
  lemma BadStays(c: Config, s: Sys, stamp: u64, lba: nat)
    requires LogInv(c, s) && lba < |s.device| && s.device[lba].bad
    ensures Crashed(c, s.v.desc, s.device, s.v.ring, s.log)
    ensures Restart(c, s, stamp).v.desc[lba] == s.v.desc[lba]
  {
    hide LockOwned, Agrees, CmdAgrees, Covered, Holds, VerifyBlock, Recoverable, ReplayRing, NewestOf, OldestPasses;
    CrashIsRecoverable(c, s);
    if |s.log| < |s.v.ring.slots| {
      PartialReplay(c, s.v.desc, s.device, s.v.ring, s.log);
    } else {
      ReplayFull(c, s.v.desc, s.device, s.v.ring, s.log);
      var d, o := ReplayRing(c, s.v.desc, s.device, s.v.ring, s.log).0, |s.log| - |s.v.ring.slots|;
      assert LbaRepairing(c, s.v.desc, d, s.device, s.log, o, o + 1, lba);
    }
  }

  /** A survived power loss leads back into the invariant of the bench. */
  lemma RestartKeepsInv(c: Config, s: Sys, stamp: u64)
    requires LogInv(c, s) && Survives(c, s)
    ensures Crashed(c, s.v.desc, s.device, s.v.ring, s.log) && LogInv(c, Restart(c, s, stamp))
  {
    hide ReplayRing, Agrees, CmdAgrees, Covered, Holds, Passes, Pending, Survives, Recoverable, Describes;
    RestartShape(c, s, stamp);
    HoldsWellFormed(s.v.ring, s.log);
    RestartPassesIff(c, s, stamp);
    var s' := Restart(c, s, stamp);
    forall lba: nat | lba < |s'.device| && lba !in s'.v.locked
      ensures Agrees(c, s'.v.desc[lba], s'.device[lba], lba, lba in s'.doubt)
    {
      if lba !in s'.doubt {
        assert Agrees(c, s.v.desc[lba], s.device[lba], lba, lba in s.doubt);
        AgreeingPasses(c, s.v.desc[lba], s.device[lba], lba, false);
        RestartLba(c, s, stamp, lba);
      } else {
        DoubtAgrees(c, s'.v.desc[lba], s'.device[lba], lba);
      }
    }
  }

  lemma DoubtAgrees(c: Config, d: BlockDesc, cell: Cell, lba: u64)
    requires c.Valid() && Passes(c, d, cell, lba)
    ensures Agrees(c, d, cell, lba, true)
  {
  }

  // ----- runs through any number of power losses

  datatype Event =
    | Work(move: Move)
    | PowerLoss(stamp: u64)

  ghost predicate Happens(c: Config, pol: Policy, s: Sys, e: Event, s': Sys) {
    Shaped(c, s) &&
    match e
    case Work(m) => Enabled(c, s, m) && s' == Step(c, pol, s, m)
    case PowerLoss(stamp) =>
      Crashed(c, s.v.desc, s.device, s.v.ring, s.log) && Survives(c, s) && s' == Restart(c, s, stamp)
  }

  ghost predicate LongRun(c: Config, pol: Policy, states: seq<Sys>, events: seq<Event>) {
    && |states| == |events| + 1 && Init(c, states[0])
    && forall i | 0 <= i < |events| :: Happens(c, pol, states[i], events[i], states[i + 1])
  }

  lemma HappensKeepsInv(c: Config, pol: Policy, s: Sys, e: Event, s': Sys)
    requires LogInv(c, s) && Happens(c, pol, s, e, s')
    ensures LogInv(c, s')
  {
    hide LogInv, Shaped, Enabled, Step, Restart, Survives;
    match e
    case Work(m) => LogStep(c, pol, s, m);
    case PowerLoss(stamp) => RestartKeepsInv(c, s, stamp);
  }

  lemma {:induction false} LongRunInv(c: Config, pol: Policy, states: seq<Sys>, events: seq<Event>)
    requires LongRun(c, pol, states, events)
    ensures forall i | 0 <= i < |states| :: LogInv(c, states[i])
  {
    hide LogInv, Init, Happens;
    if |events| == 0 {
      LogInit(c, states[0]);
    } else {
      var n := |events| - 1;
      LongRunInv(c, pol, states[..n + 1], events[..n]);
      assert states[..n + 1][n] == states[n];
      HappensKeepsInv(c, pol, states[n], events[n], states[n + 1]);
    }
  }

  /** No completion between power losses is ever accused, through any number of survived ones. */
  lemma CompletionsNeverAccused(c: Config, pol: Policy, states: seq<Sys>, events: seq<Event>, i: nat)
    requires LongRun(c, pol, states, events) && i < |events| && events[i].Work? && events[i].move.Complete?
    ensures Shaped(c, states[i]) && events[i].move.id in states[i].inflight
    ensures CompleteStep(c, pol, states[i], events[i].move.id).1 == Verdict(false, false, 0)
  {
    hide Inv, Step, Init, Holds;
    LongRunInv(c, pol, states, events);
    assert Happens(c, pol, states[i], events[i], states[i + 1]);
    CompletionPasses(c, pol, states[i], events[i].move.id);
  }

  /** The answer of the replay after any power loss of a long run, survived or not, with a full ring. */
  lemma ReplayAfterAnyPowerLoss(c: Config, pol: Policy, states: seq<Sys>, events: seq<Event>, i: nat)
    requires LongRun(c, pol, states, events) && i < |states| && |states[i].v.ring.slots| <= |states[i].log|
    ensures var s := states[i]; Crashed(c, s.v.desc, s.device, s.v.ring, s.log) && WellFormed(s.v.ring)
    ensures var s := states[i];
            var o := |s.log| - |s.v.ring.slots|;
            && (ReplayRing(c, s.v.desc, s.device, s.v.ring, s.log).1 <==>
                  && OldestPasses(c, s.v.desc, s.device, s.log[o])
                  && forall j | o <= j < |s.log| :: !Blocked(s, s.log[j].lba))
            && (OldestDoesNotRecur(s.v.ring, s.log) ==> OldestPasses(c, s.v.desc, s.device, s.log[o]))
  {
    hide LogInv, LongRun, OldestDoesNotRecur, ReplayRing, OldestPasses, Blocked;
    LongRunInv(c, pol, states, events);
    CrashAnswers(c, states[i]);
  }

  /** What the bench reports at an event: at a completion its verdict, at a power loss what the replay
      finds. */
  ghost predicate EventReported(c: Config, pol: Policy, s: Sys, e: Event)
    requires Shaped(c, s) && (e.Work? ==> Enabled(c, s, e.move))
    requires e.PowerLoss? ==> Crashed(c, s.v.desc, s.device, s.v.ring, s.log)
  {
    match e
    case Work(m) => m.Complete? && Reported(CompleteStep(c, pol, s, m.id).1)
    case PowerLoss(_) => !ReplayRing(c, s.v.desc, s.device, s.v.ring, s.log).1
  }

  /** The ring is full and the block of its oldest record passes neither the committed descriptor nor
      that record. */
  ghost predicate OldestClashes(c: Config, s: Sys)
    requires Crashed(c, s.v.desc, s.device, s.v.ring, s.log)
  {
    0 < |s.v.ring.slots| <= |s.log| && !OldestPasses(c, s.v.desc, s.device, s.log[|s.log| - |s.v.ring.slots|])
  }

  /** Everything a long run reports about a conforming drive: nothing at its completions, and at a
      survived power loss something exactly when the oldest record clashes. */
  lemma LongRunReportsIff(c: Config, pol: Policy, states: seq<Sys>, events: seq<Event>, i: nat)
    requires LongRun(c, pol, states, events) && i < |events|
    ensures var s := states[i];
            Shaped(c, s) && (events[i].Work? ==> Enabled(c, s, events[i].move))
    ensures var s := states[i]; Crashed(c, s.v.desc, s.device, s.v.ring, s.log)
    ensures EventReported(c, pol, states[i], events[i]) <==> events[i].PowerLoss? && OldestClashes(c, states[i])
  {
    hide LockOwned, Agrees, CmdAgrees, Covered, Holds, Init, Step, ReplayRing, OldestPasses, Survives, Enabled,
      CompleteStep, OldestDoesNotRecur;
    var s := states[i];
    LongRunInv(c, pol, states, events);
    assert Happens(c, pol, s, events[i], states[i + 1]);
    match events[i]
    case Work(m) =>
      if m.Complete? { CompletionsNeverAccused(c, pol, states, events, i); }
    case PowerLoss(_) =>
      if |s.log| < |s.v.ring.slots| {
        PartialReplay(c, s.v.desc, s.device, s.v.ring, s.log);
      } else {
        CrashAnswers(c, s);
        forall j | 0 <= j < |s.log| ensures !Blocked(s, s.log[j].lba) { SurvivedNotBlocked(c, s, s.log[j].lba); }
      }
  }

  lemma SurvivedNotBlocked(c: Config, s: Sys, lba: nat)
    requires Inv(c, s) && Survives(c, s) && lba < |s.device|
    ensures !Blocked(s, lba)
  {
    hide LockOwned, Agrees, CmdAgrees, VerifyBlock;
    BadIffHalfUncorrectable(c, s, lba);
    HalfUncorrectablePending(s, lba);
  }

  lemma HalfUncorrectablePending(s: Sys, lba: nat)
    ensures HalfUncorrectable(s, lba) ==> Pending(s, lba)
  {
    if HalfUncorrectable(s, lba) {
      var id :| id in s.inflight && DoneAt(s.inflight[id], lba) && s.inflight[id].op == WriteUncorrect;
      assert Logged(s.inflight[id].op);
    }
  }
}
