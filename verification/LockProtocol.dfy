/** try_lock_lbas and unlock_lbas run by any number of threads, one shared-memory access at a
    time: every load of a lock word and every compare-and-swap is a separate step. */
module LockProtocol {
  import opened Bits
  import opened LbaBitmap

  /** The word value a thread has loaded and not yet swapped. */
  datatype Seen = Unread | Read(value: bv64)

  /** Where a thread stands. `off` blocks are done and `word` is the current lock word;
      a rollback has still to give back `off` blocks and starts below `word`. */
  datatype Phase =
    | Idle
    | Locking(slba: nat, nlbs: nat, off: nat, word: nat, seen: Seen)
    | Rollback(slba: nat, nlbs: nat, off: nat, word: nat, seen: Seen)
    | Holding(slba: nat, nlbs: nat)
    | Unlocking(slba: nat, nlbs: nat, off: nat, word: nat, seen: Seen)

  datatype State = State(words: seq<bv64>, threads: seq<Phase>)

  datatype Action =
    | Begin(slba: nat, nlbs: nat)   // enter try_lock_lbas
    | Load                          // read the current lock word
    | Swap                          // compare-and-swap the current lock word
    | Release                       // enter unlock_lbas

  /** The guard of the loop a thread is in, with the current word inside the bitmap. */
  predicate InLoop(p: Phase, nwords: nat) {
    match p
    case Idle => false
    case Holding(_, _) => false
    case Locking(_, nlbs, off, word, _) => off < nlbs && word < nwords
    case Rollback(_, _, off, word, _) => off > 0 && 1 <= word <= nwords
    case Unlocking(_, nlbs, off, word, _) => off < nlbs && word < nwords
  }

  predicate Enabled(s: State, t: nat, a: Action) {
    t < |s.threads| &&
    var p := s.threads[t];
    match a
    case Begin(slba, nlbs) => p.Idle? && slba + nlbs <= 64 * |s.words|
    case Load => InLoop(p, |s.words|) && p.seen.Unread?
    case Swap => InLoop(p, |s.words|) && p.seen.Read?
    case Release => p.Holding?
  }

  /** The word a load or swap addresses; rollback decrements first. */
  function CurrentWord(p: Phase, nwords: nat): (k: nat)
    requires InLoop(p, nwords)
    ensures k < nwords
  {
    if p.Rollback? then p.word - 1 else p.word
  }

  function LoadPhase(p: Phase, nwords: nat, w: bv64): Phase
    requires InLoop(p, nwords)
  {
    if p.Locking? && Busy(w, RunMask(p.slba, p.nlbs, p.off)) then
      if p.off == 0 then Idle else Rollback(p.slba, p.nlbs, p.off, p.word, Unread)
    else
      p.(seen := Read(w))
  }

  function SwapPhase(p: Phase, nwords: nat): Phase
    requires InLoop(p, nwords)
  {
    match p
    case Locking(slba, nlbs, off, word, _) =>
      var off' := off + RunLength(slba, nlbs, off);
      if off' < nlbs then Locking(slba, nlbs, off', word + 1, Unread) else Holding(slba, nlbs)
    case Rollback(slba, nlbs, off, word, _) =>
      var off' := off - UndoLength(off);
      if off' > 0 then Rollback(slba, nlbs, off', word - 1, Unread) else Idle
    case Unlocking(slba, nlbs, off, word, _) =>
      var off' := off + RunLength(slba, nlbs, off);
      if off' < nlbs then Unlocking(slba, nlbs, off', word + 1, Unread) else Idle
  }

  function SwapWord(p: Phase, nwords: nat): bv64
    requires InLoop(p, nwords) && p.seen.Read?
  {
    match p
    case Locking(slba, nlbs, off, _, seen) => Lock(seen.value, RunMask(slba, nlbs, off))
    case Rollback(_, _, off, _, seen) => Unlock(seen.value, UndoMask(off))
    case Unlocking(slba, nlbs, off, _, seen) => Unlock(seen.value, RunMask(slba, nlbs, off))
  }

  /** One step of thread t. */
  function Step(s: State, t: nat, a: Action): State
    requires Enabled(s, t, a)
  {
    var p := s.threads[t];
    match a
    case Begin(slba, nlbs) =>
      var p := if nlbs == 0 then Holding(slba, nlbs) else Locking(slba, nlbs, 0, slba / 64, Unread);
      s.(threads := s.threads[t := p])
    case Load =>
      s.(threads := s.threads[t := LoadPhase(p, |s.words|, s.words[CurrentWord(p, |s.words|)])])
    case Swap =>
      var k := CurrentWord(p, |s.words|);
      if s.words[k] == p.seen.value then
        State(s.words[k := SwapWord(p, |s.words|)], s.threads[t := SwapPhase(p, |s.words|)])
      else
        s.(threads := s.threads[t := p.(seen := Unread)])
    case Release =>
      s.(threads := s.threads[t := if p.nlbs == 0 then Idle else Unlocking(p.slba, p.nlbs, 0, p.slba / 64, Unread)])
  }

  /** The positions and words of a phase fit together; in particular a rollback starts on a
      word boundary, which is why masks recomputed from `off` alone are right. */
  predicate WellFormed(p: Phase) {
    match p
    case Idle => true
    case Holding(_, _) => true
    case Rollback(slba, nlbs, off, word, _) =>
      0 < off < nlbs && word > 0 && word * 64 == slba + off
    case Locking(slba, nlbs, off, word, _) =>
      off < nlbs && word == (slba + off) / 64 && (off > 0 ==> (slba + off) % 64 == 0) &&
      (p.seen.Read? ==> !Busy(p.seen.value, RunMask(slba, nlbs, off)))
    case Unlocking(slba, nlbs, off, word, _) =>
      off < nlbs && word == (slba + off) / 64 && (off > 0 ==> (slba + off) % 64 == 0)
  }

  predicate InBounds(p: Phase, nwords: nat) {
    p.Idle? || p.slba + p.nlbs <= 64 * nwords
  }

  /** The LBAs whose bits a thread has set and not yet cleared. */
  predicate Owns(p: Phase, lba: nat) {
    match p
    case Idle => false
    case Locking(slba, _, off, _, _) => slba <= lba < slba + off
    case Rollback(slba, _, off, _, _) => slba <= lba < slba + off
    case Holding(slba, nlbs) => slba <= lba < slba + nlbs
    case Unlocking(slba, nlbs, off, _, _) => slba + off <= lba < slba + nlbs
  }

  /** The bitmap is the disjoint union of what the threads own. */
  ghost predicate Inv(s: State) {
    && (forall t | 0 <= t < |s.threads| :: WellFormed(s.threads[t]) && InBounds(s.threads[t], |s.words|))
    && (forall lba: nat | lba < 64 * |s.words| ::
          Held(s.words, lba) <==> exists t :: 0 <= t < |s.threads| && Owns(s.threads[t], lba))
    && (forall t, u, lba: nat |
          0 <= t < |s.threads| && 0 <= u < |s.threads| && Owns(s.threads[t], lba) && Owns(s.threads[u], lba) :: t == u)
  }

  /** All words clear, all threads idle. */
  predicate Init(s: State) {
    (forall k | 0 <= k < |s.words| :: s.words[k] == 0) && (forall t | 0 <= t < |s.threads| :: s.threads[t].Idle?)
  }

  datatype Move = Move(thread: nat, action: Action)

  /** A run: each state follows from the one before by one move of one thread. */
  ghost predicate Run(states: seq<State>, moves: seq<Move>) {
    && |states| == |moves| + 1 && Init(states[0])
    && forall i | 0 <= i < |moves| ::
         && Enabled(states[i], moves[i].thread, moves[i].action)
         && states[i + 1] == Step(states[i], moves[i].thread, moves[i].action)
  }

  /** A thread may change what it owns as long as the bitmap changes with it and every newly
      owned LBA was free. */
  lemma Reown(s: State, t: nat, p': Phase, words': seq<bv64>)
    requires Inv(s) && t < |s.threads| && |words'| == |s.words|
    requires WellFormed(p') && InBounds(p', |s.words|)
    requires forall lba: nat | lba < 64 * |s.words| ::
               Held(words', lba) <==> (Held(s.words, lba) && !Owns(s.threads[t], lba)) || Owns(p', lba)
    requires forall lba: nat | Owns(p', lba) :: lba < 64 * |s.words| && (Owns(s.threads[t], lba) || !Held(s.words, lba))
    ensures Inv(State(words', s.threads[t := p']))
  {
    hide Held, WellFormed;
    var s' := State(words', s.threads[t := p']);
    forall lba: nat | lba < 64 * |s.words|
      ensures Held(words', lba) <==> exists u :: 0 <= u < |s'.threads| && Owns(s'.threads[u], lba)
    {
      if Held(words', lba) && !Owns(p', lba) {
        var u :| 0 <= u < |s.threads| && Owns(s.threads[u], lba);
        assert Owns(s'.threads[u], lba);
      } else if Owns(p', lba) {
        assert Owns(s'.threads[t], lba);
      }
    }
    forall u, v, lba: nat |
      0 <= u < |s'.threads| && 0 <= v < |s'.threads| && Owns(s'.threads[u], lba) && Owns(s'.threads[v], lba)
      ensures u == v
    {
    }
  }

  lemma KeptOwner(s: State, t: nat, p': Phase)
    requires Inv(s) && t < |s.threads|
    requires WellFormed(p') && InBounds(p', |s.words|)
    requires forall lba: nat :: Owns(p', lba) <==> Owns(s.threads[t], lba)
    ensures Inv(s.(threads := s.threads[t := p']))
  {
    hide Held, WellFormed;
    OwnedAreHeld(s, t);
    Reown(s, t, p', s.words);
  }

  lemma LoadKeepsInv(s: State, t: nat)
    requires Inv(s) && Enabled(s, t, Load)
    ensures Inv(Step(s, t, Load))
  {
    hide Held, Busy, RunMask;
    var p := s.threads[t];
    KeptOwner(s, t, LoadPhase(p, |s.words|, s.words[CurrentWord(p, |s.words|)]));
  }

  lemma LockSwapKeepsInv(s: State, t: nat)
    requires Inv(s) && Enabled(s, t, Swap) && s.threads[t].Locking?
    requires s.words[s.threads[t].word] == s.threads[t].seen.value
    ensures Inv(Step(s, t, Swap))
  {
    hide Held, Busy, Lock, GetMask64;
    var p := s.threads[t];
    var o, n := (p.slba + p.off) % 64, RunLength(p.slba, p.nlbs, p.off);
    TestRun(s.words, p.word, o, n);
    forall lba: nat | lba < 64 * |s.words|
      ensures Held(s.words[p.word := SwapWord(p, |s.words|)], lba)
         <==> Held(s.words, lba) || p.slba + p.off <= lba < p.slba + p.off + n
    {
      SetRun(s.words, p.word, o, n, lba);
    }
    Reown(s, t, SwapPhase(p, |s.words|), s.words[p.word := SwapWord(p, |s.words|)]);
  }

  lemma UnlockSwapKeepsInv(s: State, t: nat)
    requires Inv(s) && Enabled(s, t, Swap) && s.threads[t].Unlocking?
    requires s.words[s.threads[t].word] == s.threads[t].seen.value
    ensures Inv(Step(s, t, Swap))
  {
    hide Held, Busy, Unlock, GetMask64;
    var p := s.threads[t];
    var o, n := (p.slba + p.off) % 64, RunLength(p.slba, p.nlbs, p.off);
    forall lba: nat | lba < 64 * |s.words|
      ensures Held(s.words[p.word := SwapWord(p, |s.words|)], lba)
         <==> Held(s.words, lba) && !(p.slba + p.off <= lba < p.slba + p.off + n)
    {
      ClearRun(s.words, p.word, o, n, lba);
    }
    OwnedAreHeld(s, t);
    Reown(s, t, SwapPhase(p, |s.words|), s.words[p.word := SwapWord(p, |s.words|)]);
  }

  lemma RollbackSwapKeepsInv(s: State, t: nat)
    requires Inv(s) && Enabled(s, t, Swap) && s.threads[t].Rollback?
    requires s.words[s.threads[t].word - 1] == s.threads[t].seen.value
    ensures Inv(Step(s, t, Swap))
  {
    hide Held, Busy, Unlock, GetMask64;
    var p := s.threads[t];
    var n := UndoLength(p.off);
    forall lba: nat | lba < 64 * |s.words|
      ensures Held(s.words[p.word - 1 := SwapWord(p, |s.words|)], lba)
         <==> Held(s.words, lba) && !(p.slba + p.off - n <= lba < p.slba + p.off)
    {
      ClearRun(s.words, p.word - 1, 64 - n, n, lba);
    }
    OwnedAreHeld(s, t);
    Reown(s, t, SwapPhase(p, |s.words|), s.words[p.word - 1 := SwapWord(p, |s.words|)]);
  }

  lemma OwnedAreHeld(s: State, t: nat)
    requires Inv(s) && t < |s.threads|
    ensures forall lba: nat | Owns(s.threads[t], lba) :: lba < 64 * |s.words| && Held(s.words, lba)
  {
    hide Held;
  }

  /** Every single step of every thread keeps the bitmap equal to the disjoint union. */
  lemma StepKeepsInv(s: State, t: nat, a: Action)
    requires Inv(s) && Enabled(s, t, a)
    ensures Inv(Step(s, t, a))
  {
    hide Held, Busy, Lock, Unlock, GetMask64;
    var p := s.threads[t];
    match a
    case Load => LoadKeepsInv(s, t);
    case Begin(slba, nlbs) =>
      if nlbs == 0 { KeptOwner(s, t, Holding(slba, nlbs)); }
      else { KeptOwner(s, t, Locking(slba, nlbs, 0, slba / 64, Unread)); }
    case Release =>
      if p.nlbs == 0 { KeptOwner(s, t, Idle); }
      else { KeptOwner(s, t, Unlocking(p.slba, p.nlbs, 0, p.slba / 64, Unread)); }
    case Swap =>
      if s.words[CurrentWord(p, |s.words|)] != p.seen.value {
        KeptOwner(s, t, p.(seen := Unread));
      } else if p.Locking? {
        LockSwapKeepsInv(s, t);
      } else if p.Unlocking? {
        UnlockSwapKeepsInv(s, t);
      } else {
        RollbackSwapKeepsInv(s, t);
      }
  }

  lemma InitInv(s: State)
    requires Init(s)
    ensures Inv(s)
  {
    hide Held;
    NoneHeld(s.words);
  }

  /** Range-lock safety over whole runs. */
  lemma {:induction false} RunInv(states: seq<State>, moves: seq<Move>)
    requires Run(states, moves)
    ensures forall i | 0 <= i < |states| :: Inv(states[i])
  {
    hide Held, WellFormed, Step;
    if |moves| == 0 {
      InitInv(states[0]);
    } else {
      var n := |moves| - 1;
      RunInv(states[..n + 1], moves[..n]);
      assert states[..n + 1][n] == states[n];
      StepKeepsInv(states[n], moves[n].thread, moves[n].action);
    }
  }

  /** In every state of every run two holders have disjoint ranges, and an LBA of a held range
      has its bit set. */
  lemma HoldersExclude(states: seq<State>, moves: seq<Move>, i: nat, t: nat, u: nat)
    requires Run(states, moves) && i < |states| && t < |states[i].threads| && u < |states[i].threads| && t != u
    requires states[i].threads[t].Holding? && states[i].threads[u].Holding?
    ensures var p, q := states[i].threads[t], states[i].threads[u];
            p.slba + p.nlbs <= q.slba || q.slba + q.nlbs <= p.slba || p.nlbs == 0 || q.nlbs == 0
    ensures var p := states[i].threads[t];
            forall lba: nat | p.slba <= lba < p.slba + p.nlbs ::
              lba < 64 * |states[i].words| && Held(states[i].words, lba)
  {
    hide Held, WellFormed, Step;
    RunInv(states, moves);
    OwnedAreHeld(states[i], t);
    var p, q := states[i].threads[t], states[i].threads[u];
    var lba := if p.slba <= q.slba then q.slba else p.slba;
    assert Owns(p, lba) && Owns(q, lba) ==> t == u;
  }

  /** A thread that is outside the lock calls owns no bit: a refused attempt has given back
      exactly what it took, and the bitmap is the union of what the other threads own. */
  lemma RefusalGivesBack(states: seq<State>, moves: seq<Move>, i: nat, t: nat, lba: nat)
    requires Run(states, moves) && i < |states| && t < |states[i].threads| && states[i].threads[t].Idle?
    requires lba < 64 * |states[i].words|
    ensures Held(states[i].words, lba)
       <==> exists u :: 0 <= u < |states[i].threads| && u != t && Owns(states[i].threads[u], lba)
  {
    hide Held, WellFormed, Step;
    RunInv(states, moves);
  }

  /** No bit is ever lost: when every thread is outside the lock calls all words are zero. */
  lemma QuiescentIsClear(states: seq<State>, moves: seq<Move>, i: nat)
    requires Run(states, moves) && i < |states|
    requires forall t | 0 <= t < |states[i].threads| :: states[i].threads[t].Idle?
    ensures forall k | 0 <= k < |states[i].words| :: states[i].words[k] == 0
  {
    hide Held, WellFormed, Step;
    RunInv(states, moves);
    NoneHeld(states[i].words);
  }

  /** An attempt is refused only because another thread owns an LBA it still wanted. */
  lemma RefusalHasCause(s: State, t: nat) returns (u: nat, lba: nat)
    requires Inv(s) && Enabled(s, t, Load) && s.threads[t].Locking?
    requires !Step(s, t, Load).threads[t].Locking?
    ensures u < |s.threads| && u != t && Owns(s.threads[u], lba)
    ensures s.threads[t].slba + s.threads[t].off <= lba < s.threads[t].slba + s.threads[t].nlbs
  {
    hide Held, Busy, GetMask64, InBounds;
    var p := s.threads[t];
    assert WellFormed(p);
    var o, n := (p.slba + p.off) % 64, RunLength(p.slba, p.nlbs, p.off);
    TestRun(s.words, p.word, o, n);
    lba :| 64 * p.word + o <= lba < 64 * p.word + o + n && Held(s.words, lba);
    u :| 0 <= u < |s.threads| && Owns(s.threads[u], lba);
  }

  /** A thread inside a lock call always has a next step, and the word it addresses exists. */
  lemma NeverStuck(states: seq<State>, moves: seq<Move>, i: nat, t: nat)
    requires Run(states, moves) && i < |states| && t < |states[i].threads|
    requires !states[i].threads[t].Idle? && !states[i].threads[t].Holding?
    ensures Enabled(states[i], t, Load) != Enabled(states[i], t, Swap)
  {
    hide Held, Busy, Step;
    RunInv(states, moves);
  }
}
