/** How the job threads of the generator agree that the last one has ended: two shared masks,
    updated atomically, and a population count. Every access to shared data is its own step. */
module JobProtocol {
  import opened Bits

  datatype JobState = Init | Running | Aborting | Done | Aborted

  /** The next statement a job thread executes, from iogen_job_begin to the end of iogen_job_end. */
  datatype Pc = Start | Work | MarkFinished | ClearRunning | ReadMask | StoreDone(full: bool) | Ended

  datatype Job = Job(pc: Pc, state: JobState)

  /** Shared masks, the jobs, and the jobs that have stored iogen_state_done. */
  datatype State = State(finished: bv64, running: bv64, jobs: seq<Job>, doneBy: set<nat>)

  datatype Action =
    | Begin(ok: bool)      // set the running bit; the engine may refuse to begin
    | Abort                // the runner sees that it should stop
    | EndState             // the job state becomes done or aborted
    | Advance              // the next statement of iogen_job_end

  /** 1ULL << (id - 1), for the job with index id - 1. */
  function JobBit(j: nat): bv64
    requires j < 64
  {
    (1 as bv64) << (j as bv6)
  }

  /** __sync_or_and_fetch of a job's bit. */
  function WithJob(w: bv64, j: nat): bv64
    requires j < 64
  {
    w | JobBit(j)
  }

  /** __sync_and_and_fetch of the complement of a job's bit. */
  function WithoutJob(w: bv64, j: nat): bv64
    requires j < 64
  {
    w & !JobBit(j)
  }

  lemma OneAt(o: bv6, i: bv6)
    ensures BitAt((1 as bv64) << o, i) <==> o == i
  {
  }

  lemma JobBitIs(j: nat, i: nat)
    requires j < 64 && i < 64
    ensures Bit(JobBit(j), i) <==> i == j
  {
    hide BitAt;
    OneAt(j as bv6, i as bv6);
    IndexRoundTrip(j);
    IndexRoundTrip(i);
  }

  /** popcount of the n low bits. */
  function PopCount(w: bv64, n: nat): (c: nat)
    requires n <= 64
    ensures c <= n
  {
    if n == 0 then 0 else PopCount(w, n - 1) + if Bit(w, n - 1) then 1 else 0
  }

  /** The count reaches the number of jobs exactly when every job's bit is set, given that no
      other bit ever is. */
  lemma {:induction false} PopCountFull(w: bv64, n: nat, k: nat)
    requires k <= n <= 64 && forall i: nat | k <= i < 64 :: !Bit(w, i)
    ensures PopCount(w, n) == k <==> forall i: nat | i < k :: Bit(w, i)
    ensures PopCount(w, n) <= k
    decreases n
  {
    hide Bit;
    if n == 0 {
    } else if n == k {
      LowCount(w, n);
    } else {
      PopCountFull(w, n - 1, k);
    }
  }

  lemma {:induction false} LowCount(w: bv64, n: nat)
    requires n <= 64
    ensures PopCount(w, n) == n <==> forall i: nat | i < n :: Bit(w, i)
    decreases n
  {
    hide Bit;
    if n > 0 { LowCount(w, n - 1); }
  }

  predicate Enabled(s: State, j: nat, a: Action) {
    j < |s.jobs| <= 64 &&
    match a
    case Begin(_) => s.jobs[j].pc.Start?
    case Abort => s.jobs[j].pc.Work?
    case EndState => s.jobs[j].pc.Work?
    case Advance => !s.jobs[j].pc.Start? && !s.jobs[j].pc.Work? && !s.jobs[j].pc.Ended?
  }

  function Step(s: State, j: nat, a: Action): (s': State)
    requires Enabled(s, j, a)
    ensures |s'.jobs| == |s.jobs|
  {
    var job := s.jobs[j];
    match a
    case Begin(ok) =>
      s.(running := WithJob(s.running, j), jobs := s.jobs[j := Job(Work, if ok then Running else Aborting)])
    case Abort => s.(jobs := s.jobs[j := job.(state := Aborting)])
    case EndState => s.(jobs := s.jobs[j := Job(MarkFinished, if job.state == Aborting then Aborted else Done)])
    case Advance =>
      match job.pc
      case MarkFinished => s.(finished := WithJob(s.finished, j), jobs := s.jobs[j := job.(pc := ClearRunning)])
      case ClearRunning => s.(running := WithoutJob(s.running, j), jobs := s.jobs[j := job.(pc := ReadMask)])
      case ReadMask => s.(jobs := s.jobs[j := job.(pc := StoreDone(PopCount(s.finished, 64) == |s.jobs|))])
      case StoreDone(full) =>
        s.(doneBy := if full then s.doneBy + {j} else s.doneBy, jobs := s.jobs[j := job.(pc := Ended)])
  }

  predicate HasFinished(job: Job) {
    !job.pc.Start? && !job.pc.Work? && !job.pc.MarkFinished?
  }

  predicate HasState(job: Job) {
    !job.pc.Start? && !job.pc.Work?
  }

  predicate AllFinished(s: State) {
    forall j | 0 <= j < |s.jobs| :: HasFinished(s.jobs[j]) && (s.jobs[j].state == Done || s.jobs[j].state == Aborted)
  }

  /** A job that can still make the transition, or has. */
  predicate Responsible(s: State, j: nat)
    requires j < |s.jobs|
  {
    match s.jobs[j].pc
    case ClearRunning => true
    case ReadMask => true
    case StoreDone(full) => full
    case Ended => j in s.doneBy
    case _ => false
  }

  /** The masks say which jobs have finished and which are running. */
  ghost predicate MasksAgree(s: State) {
    && 0 < |s.jobs| <= 64
    && (forall i: nat | i < 64 :: FinishedAt(s, i)) && (forall i: nat | i < 64 :: RunningAt(s, i))
  }

  predicate InRunning(job: Job) {
    job.pc.Work? || job.pc.MarkFinished? || job.pc.ClearRunning?
  }

  ghost predicate Inv(s: State) {
    && MasksAgree(s)
    && (forall j | 0 <= j < |s.jobs| && HasState(s.jobs[j]) :: s.jobs[j].state == Done || s.jobs[j].state == Aborted)
    && (forall j | 0 <= j < |s.jobs| && s.jobs[j].pc.StoreDone? && s.jobs[j].pc.full :: AllFinished(s))
    && (s.doneBy != {} ==> AllFinished(s))
    && (AllFinished(s) ==> exists j :: 0 <= j < |s.jobs| && Responsible(s, j))
  }

  ghost predicate InitState(s: State) {
    && 0 < |s.jobs| <= 64 && s.finished == 0 && s.running == 0 && s.doneBy == {}
    && forall j | 0 <= j < |s.jobs| :: s.jobs[j] == Job(Start, Init)
  }

  lemma InitInv(s: State)
    requires InitState(s)
    ensures Inv(s)
  {
    hide Bit;
    ZeroBits(0);
    assert HasFinished(s.jobs[0]) == false;
  }

  lemma FullMask(s: State)
    requires Inv(s)
    ensures PopCount(s.finished, 64) == |s.jobs| <==> AllFinished(s)
  {
    hide Bit;
    forall i: nat | i < 64 ensures Bit(s.finished, i) <==> i < |s.jobs| && HasFinished(s.jobs[i]) {
      assert FinishedAt(s, i);
    }
    PopCountFull(s.finished, 64, |s.jobs|);
    if forall i: nat | i < |s.jobs| :: Bit(s.finished, i) {
      forall j | 0 <= j < |s.jobs| ensures HasFinished(s.jobs[j]) && HasState(s.jobs[j]) { assert Bit(s.finished, j); }
    }
  }

  lemma WithJobBit(w: bv64, j: nat, i: nat)
    requires j < 64 && i < 64
    ensures Bit(WithJob(w, j), i) <==> i == j || Bit(w, i)
  {
    hide Bit, JobBit;
    OrBit(w, JobBit(j), i);
    JobBitIs(j, i);
  }

  lemma WithoutJobBit(w: bv64, j: nat, i: nat)
    requires j < 64 && i < 64
    ensures Bit(WithoutJob(w, j), i) <==> i != j && Bit(w, i)
  {
    hide Bit, JobBit;
    AndNotBit(w, JobBit(j), i);
    JobBitIs(j, i);
  }

  predicate FinishedAt(s: State, i: nat)
    requires i < 64
  {
    Bit(s.finished, i) <==> i < |s.jobs| && HasFinished(s.jobs[i])
  }

  predicate RunningAt(s: State, i: nat)
    requires i < 64
  {
    Bit(s.running, i) <==> i < |s.jobs| && InRunning(s.jobs[i])
  }

  lemma StepFinishedAt(s: State, j: nat, a: Action, i: nat)
    requires Enabled(s, j, a) && i < 64 && FinishedAt(s, i)
    ensures FinishedAt(Step(s, j, a), i)
  {
    hide Bit, WithJob, WithoutJob, PopCount;
    WithJobBit(s.finished, j, i);
  }

  lemma StepRunningAt(s: State, j: nat, a: Action, i: nat)
    requires Enabled(s, j, a) && i < 64 && RunningAt(s, i)
    ensures RunningAt(Step(s, j, a), i)
  {
    hide Bit, WithJob, WithoutJob, PopCount;
    WithJobBit(s.running, j, i);
    WithoutJobBit(s.running, j, i);
  }

  lemma StepKeepsMasks(s: State, j: nat, a: Action)
    requires MasksAgree(s) && Enabled(s, j, a)
    ensures MasksAgree(Step(s, j, a))
  {
    hide FinishedAt, RunningAt, WithJob, WithoutJob, PopCount;
    var s' := Step(s, j, a);
    forall i: nat | i < 64 ensures FinishedAt(s', i) { StepFinishedAt(s, j, a, i); }
    forall i: nat | i < 64 ensures RunningAt(s', i) { StepRunningAt(s, j, a, i); }
  }

  /** Who has finished changes only when a job sets its bit. */
  lemma FinishedFrame(s: State, j: nat, a: Action)
    requires Inv(s) && Enabled(s, j, a)
    ensures AllFinished(s) ==> AllFinished(Step(s, j, a))
    ensures AllFinished(Step(s, j, a)) && !(a.Advance? && s.jobs[j].pc.MarkFinished?) ==> AllFinished(s)
  {
    hide Bit, WithJob, WithoutJob, PopCount;
    var s' := Step(s, j, a);
    assert HasFinished(s.jobs[j]) ==> HasFinished(s'.jobs[j]) && s'.jobs[j].state == s.jobs[j].state;
    if AllFinished(s') && !(a.Advance? && s.jobs[j].pc.MarkFinished?) {
      assert HasFinished(s'.jobs[j]);
      forall k | 0 <= k < |s.jobs|
        ensures HasFinished(s.jobs[k]) && (s.jobs[k].state == Done || s.jobs[k].state == Aborted)
      {
        if k != j { assert s'.jobs[k] == s.jobs[k]; }
      }
    }
    if AllFinished(s) {
      forall k | 0 <= k < |s'.jobs|
        ensures HasFinished(s'.jobs[k]) && (s'.jobs[k].state == Done || s'.jobs[k].state == Aborted)
      {
        if k != j { assert s'.jobs[k] == s.jobs[k]; }
      }
    }
  }

  lemma StepKeepsInv(s: State, j: nat, a: Action)
    requires Inv(s) && Enabled(s, j, a)
    ensures Inv(Step(s, j, a))
  {
    hide WithJob, WithoutJob, PopCount, AllFinished, MasksAgree;
    var s' := Step(s, j, a);
    StepKeepsMasks(s, j, a);
    FullMask(s);
    FinishedFrame(s, j, a);
    if AllFinished(s') {
      if a.Advance? && s.jobs[j].pc.MarkFinished? {
        assert Responsible(s', j);
      } else {
        var k :| 0 <= k < |s.jobs| && Responsible(s, k);
        assert Responsible(s', k);
      }
    }
  }

  datatype Move = Move(job: nat, action: Action)

  ghost predicate Run(states: seq<State>, moves: seq<Move>) {
    && |states| == |moves| + 1 && InitState(states[0])
    && forall i | 0 <= i < |moves| ::
         && Enabled(states[i], moves[i].job, moves[i].action)
         && states[i + 1] == Step(states[i], moves[i].job, moves[i].action)
  }

  lemma {:induction false} RunInv(states: seq<State>, moves: seq<Move>)
    requires Run(states, moves)
    ensures forall i | 0 <= i < |states| :: Inv(states[i])
  {
    hide Inv, Step;
    if |moves| == 0 {
      InitInv(states[0]);
    } else {
      var n := |moves| - 1;
      RunInv(states[..n + 1], moves[..n]);
      assert states[..n + 1][n] == states[n];
      StepKeepsInv(states[n], moves[n].job, moves[n].action);
    }
  }

  /** Done is stored only after every job has set its finished bit and reached done or aborted. */
  lemma DoneOnlyAfterAll(states: seq<State>, moves: seq<Move>, i: nat)
    requires Run(states, moves) && i < |states| && states[i].doneBy != {}
    ensures forall j | 0 <= j < |states[i].jobs| ::
              HasFinished(states[i].jobs[j]) && (states[i].jobs[j].state == Done || states[i].jobs[j].state == Aborted)
    ensures forall j: nat | j < |states[i].jobs| :: j < 64 && Bit(states[i].finished, j)
  {
    hide Bit, Step;
    RunInv(states, moves);
    forall j: nat | j < |states[i].jobs| ensures j < 64 && Bit(states[i].finished, j) {
      assert FinishedAt(states[i], j);
    }
  }

  /** When the last job has ended, somebody has stored done, and no running bit is left. */
  lemma DoneWhenAllEnded(states: seq<State>, moves: seq<Move>, i: nat)
    requires Run(states, moves) && i < |states| && forall j | 0 <= j < |states[i].jobs| :: states[i].jobs[j].pc.Ended?
    ensures states[i].doneBy != {} && states[i].running == 0
  {
    hide Bit, Step;
    RunInv(states, moves);
    assert AllFinished(states[i]);
    forall j: nat | j < 64 ensures !Bit(states[i].running, j) { assert RunningAt(states[i], j); }
    ZeroBits(states[i].running);
  }

  // ----- how a job ends

  predicate IsAbort(m: Move, j: nat) {
    m.job == j && (m.action == Abort || m.action == Begin(false))
  }

  /** One of the first n moves let the job fail to begin, or aborted it. */
  ghost predicate Aborts(moves: seq<Move>, n: nat, j: nat)
    requires n <= |moves|
  {
    exists k | 0 <= k < n :: IsAbort(moves[k], j)
  }

  /** The state of a job says where it stands, and whether it was aborted. */
  ghost predicate StateTells(job: Job, aborted: bool) {
    if job.pc.Start? then job.state == Init && !aborted
    else if job.pc.Work? then job.state == if aborted then Aborting else Running
    else job.state == if aborted then Aborted else Done
  }

  lemma StepTells(s: State, m: Move, j: nat, aborted: bool)
    requires Enabled(s, m.job, m.action) && j < |s.jobs| && StateTells(s.jobs[j], aborted)
    ensures StateTells(Step(s, m.job, m.action).jobs[j], aborted || IsAbort(m, j))
  {
    hide Bit, JobBit, WithJob, WithoutJob, PopCount;
    match m.action
    case Begin(ok) =>
    case Abort =>
    case EndState =>
    case Advance =>
      match s.jobs[m.job].pc
      case MarkFinished =>
      case ClearRunning =>
      case ReadMask =>
      case StoreDone(full) =>
  }

  lemma {:induction false} StatesTell(states: seq<State>, moves: seq<Move>, n: nat, j: nat)
    requires Run(states, moves) && n < |states| && j < |states[n].jobs|
    ensures StateTells(states[n].jobs[j], Aborts(moves, n, j))
    decreases n
  {
    hide Step, Enabled, StateTells, Aborts;
    if n == 0 {
      assert !Aborts(moves, 0, j) && StateTells(states[0].jobs[j], false) by { NoneTell(states[0], moves, j); }
    } else {
      var s, m := states[n - 1], moves[n - 1];
      assert Enabled(s, m.job, m.action) && states[n] == Step(s, m.job, m.action);
      StatesTell(states, moves, n - 1, j);
      AbortsNext(moves, n - 1, j);
      StepTells(s, m, j, Aborts(moves, n - 1, j));
    }
  }

  lemma NoneTell(s: State, moves: seq<Move>, j: nat)
    requires InitState(s) && j < |s.jobs|
    ensures !Aborts(moves, 0, j) && StateTells(s.jobs[j], false)
  {
  }

  lemma AbortsNext(moves: seq<Move>, n: nat, j: nat)
    requires n < |moves|
    ensures Aborts(moves, n + 1, j) <==> Aborts(moves, n, j) || IsAbort(moves[n], j)
  {
  }

  /** In every run a job that has ended is aborted exactly when it failed to begin or was aborted, and
      done otherwise. */
  lemma EndedAs(states: seq<State>, moves: seq<Move>, i: nat, j: nat)
    requires Run(states, moves) && i < |states| && j < |states[i].jobs| && HasState(states[i].jobs[j])
    ensures states[i].jobs[j].state == if Aborts(moves, i, j) then Aborted else Done
  {
    hide Run, Aborts;
    StatesTell(states, moves, i, j);
  }
}
