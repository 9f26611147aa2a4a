/** A device that stores what it is given is never accused: the agreement invariant holds in
    every state of every run, and every completion passes. */
module NoFalseAlarms {
  import opened Common
  import opened Bytes
  import opened Datagen
  import opened Metadata
  import opened Verifier
  import opened History
  import opened Bench

  /** A freshly generated block agrees with the descriptor its completion commits. */
  lemma NewBlockAgrees(c: Config, d: BlockDesc, lba: u64, stamp: u64, escape: bool, old_: seq<bv8>)
    requires c.Valid() && |old_| == c.g.metaSize
    ensures var b := NewBlock(c, lba, stamp, escape, old_);
            && DescAfter(c, Write, d, b).state == Data
            && DescAfter(c, Write, d, b).timestamp == stamp % U16_LIMIT
            && Describes(c, DescAfter(c, Write, d, b), Cell(b, false), lba)
  {
    hide GetHeader, NewBlock;
    var b := NewBlock(c, lba, stamp, escape, old_);
    assert Generated(c, b, lba, stamp % U16_LIMIT);
    GeneratedPasses(c, b, lba, BlockDesc(Data, stamp % U16_LIMIT, 0));
  }

  /** Agreement of a command depends only on its own blocks. */
  lemma CmdFrame(c: Config, s: Sys, s': Sys, m: Cmd)
    requires Shaped(c, s) && Shaped(c, s') && |s.device| == |s'.device| && s.doubt == s'.doubt
    requires CmdShaped(c, m, |s.device|)
    requires forall lba: nat | InRange(m, lba) :: s.v.desc[lba] == s'.v.desc[lba] && s.device[lba] == s'.device[lba]
    requires CmdAgrees(c, s, m)
    ensures CmdAgrees(c, s', m)
  {
    hide Agrees, DescAfter;
    forall k | 0 <= k < |m.blocks| ensures BlockAgrees(c, s', m, k) {
      assert BlockAgrees(c, s, m, k) && InRange(m, m.slba + k);
    }
    if m.failed {
      var i :| m.slba <= i < m.slba + |m.blocks| && s.v.desc[i].state == Uncor;
      assert InRange(m, i) && s'.v.desc[i].state == Uncor;
    }
  }

  // ----- the lock part of the invariant

  lemma OwnedAdd(locked: set<nat>, inflight: map<nat, Cmd>, id: nat, m: Cmd)
    requires LockOwned(locked, inflight) && id !in inflight && locked * Range(m.slba, |m.blocks|) == {}
    ensures LockOwned(locked + Range(m.slba, |m.blocks|), inflight[id := m])
  {
    var range, inflight' := Range(m.slba, |m.blocks|), inflight[id := m];
    forall lba | lba in locked + range ensures exists i :: i in inflight' && InRange(inflight'[i], lba) {
      if lba in locked {
        var i :| i in inflight && InRange(inflight[i], lba);
        assert i in inflight' && InRange(inflight'[i], lba);
      } else {
        assert InRange(inflight'[id], lba);
      }
    }
    forall i, j, lba: nat | i in inflight' && j in inflight' && InRange(inflight'[i], lba) && InRange(inflight'[j], lba)
      ensures i == j
    {
      assert i != id ==> lba in locked;
      assert j != id ==> lba in locked;
      assert i == id || j == id ==> lba in range;
      assert lba in locked && lba in range ==> lba in locked * range;
    }
  }

  lemma OwnedUpdate(locked: set<nat>, inflight: map<nat, Cmd>, id: nat, m: Cmd)
    requires LockOwned(locked, inflight) && id in inflight
    requires m.slba == inflight[id].slba && |m.blocks| == |inflight[id].blocks|
    ensures LockOwned(locked, inflight[id := m])
  {
    var inflight' := inflight[id := m];
    assert forall i, lba: nat | i in inflight' :: InRange(inflight'[i], lba) <==>
      i in inflight && InRange(inflight[i], lba);
    forall lba | lba in locked ensures exists i :: i in inflight' && InRange(inflight'[i], lba) {
      var i :| i in inflight && InRange(inflight[i], lba);
      assert i in inflight' && InRange(inflight'[i], lba);
    }
  }

  lemma OwnedRemove(locked: set<nat>, inflight: map<nat, Cmd>, id: nat)
    requires LockOwned(locked, inflight) && id in inflight
    ensures LockOwned(locked - Range(inflight[id].slba, |inflight[id].blocks|), inflight - {id})
  {
    var m, inflight' := inflight[id], inflight - {id};
    var locked' := locked - Range(m.slba, |m.blocks|);
    forall lba | lba in locked' ensures exists i :: i in inflight' && InRange(inflight'[i], lba) {
      var i :| i in inflight && InRange(inflight[i], lba);
      assert i in inflight' && InRange(inflight'[i], lba);
    }
    forall i, lba: nat | i in inflight' && InRange(inflight'[i], lba) ensures lba in locked' {
      assert InRange(inflight[i], lba);
      if lba !in locked' { assert InRange(m, lba); }
    }
    forall i, j, lba: nat | i in inflight' && j in inflight' && InRange(inflight'[i], lba) && InRange(inflight'[j], lba)
      ensures i == j
    {
      assert InRange(inflight[i], lba) && InRange(inflight[j], lba);
    }
  }

  lemma OwnedApart(locked: set<nat>, inflight: map<nat, Cmd>, i: nat, j: nat)
    requires LockOwned(locked, inflight) && i in inflight && j in inflight && i != j
    ensures forall lba: nat | InRange(inflight[i], lba) :: !InRange(inflight[j], lba)
  {
  }

  lemma OwnedLocked(locked: set<nat>, inflight: map<nat, Cmd>, i: nat, lba: nat)
    requires LockOwned(locked, inflight) && i in inflight && InRange(inflight[i], lba)
    ensures lba in locked
  {
  }

  // ----- generate

  lemma PayloadAgrees(c: Config, s': Sys, m: Cmd, k: nat, escapes: seq<bool>, buffers: seq<Block>)
    requires Shaped(c, s') && CmdShaped(c, m, |s'.device|) && k < |m.blocks| == |buffers| == |escapes| && !m.done[k]
    requires forall j | 0 <= j < |buffers| :: Sized(c, buffers[j])
    requires m.blocks == Payload(c, m.op, m.slba, s'.v.timestamp, buffers, escapes)
    requires Agrees(c, s'.v.desc[m.slba + k], s'.device[m.slba + k], m.slba + k, m.slba + k in s'.doubt)
    ensures BlockAgrees(c, s', m, k)
  {
    hide Agrees, DescAfter, NewBlock;
    assert Sized(c, buffers[k]);
    if m.op == Write {
      NewBlockAgrees(c, s'.v.desc[m.slba + k], m.slba + k, s'.v.timestamp, escapes[k], buffers[k].meta);
    }
  }

  lemma GenerateKeepsInv(c: Config, s: Sys, id: nat, op: Op, slba: nat, buffers: seq<Block>, escapes: seq<bool>)
    requires Inv(c, s) && Enabled(c, s, Generate(id, op, slba, buffers, escapes))
    ensures Inv(c, GenerateStep(c, s, id, op, slba, buffers, escapes))
  {
    hide Agrees, BlockAgrees, LockOwned, Payload, Backup, Records;
    var s' := GenerateStep(c, s, id, op, slba, buffers, escapes);
    if s.v.locked * Range(slba, |buffers|) == {} {
      var m := s'.inflight[id];
      OwnedAdd(s.v.locked, s.inflight, id, m);
      assert Shaped(c, s');
      forall k | 0 <= k < |m.blocks| ensures BlockAgrees(c, s', m, k) {
        assert slba + k in Range(slba, |buffers|);
        assert slba + k !in s.v.locked;
        PayloadAgrees(c, s', m, k, escapes, buffers);
      }
      forall i | i in s'.inflight ensures CmdAgrees(c, s', s'.inflight[i]) {
        if i != id { CmdFrame(c, s, s', s.inflight[i]); }
      }
    }
  }

  // ----- device

  /** One executed block: the cell moves to the descriptor that will be committed. */
  lemma ExecutedAgrees(c: Config, s: Sys, id: nat, k: nat, content: Block)
    requires Inv(c, s) && Enabled(c, s, Apply(id, k, content))
    ensures var m := s.inflight[id];
            Logged(m.op) ==>
              Describes(c, DescAfter(c, m.op, s.v.desc[m.slba + k], m.blocks[k]),
                        Executed(m.op, s.device[m.slba + k], m.blocks[k], content), m.slba + k)
  {
    hide GetHeader, Factory, Generated;
    var m := s.inflight[id];
    assert BlockAgrees(c, s, m, k);
  }

  lemma ApplyBlockAgrees(c: Config, s: Sys, id: nat, k: nat, content: Block, j: nat)
    requires Inv(c, s) && Enabled(c, s, Apply(id, k, content)) && j < |s.inflight[id].blocks|
    requires Shaped(c, ApplyStep(c, s, id, k, content))
    ensures var s' := ApplyStep(c, s, id, k, content);
            BlockAgrees(c, s', s'.inflight[id], j)
  {
    hide DescAfter, Agrees, Describes, LockOwned;
    var m, s' := s.inflight[id], ApplyStep(c, s, id, k, content);
    ExecutedAgrees(c, s, id, k, content);
    assert BlockAgrees(c, s, m, j);
    if m.op == Read {
      ReadKeepsDesc(c, s.v.desc[m.slba + j], m.blocks[j]);
      ReadKeepsDesc(c, s.v.desc[m.slba + j], s'.inflight[id].blocks[j]);
    }
  }

  lemma FailureHasCause(c: Config, s: Sys, id: nat, k: nat, content: Block)
    requires Inv(c, s) && Enabled(c, s, Apply(id, k, content))
    ensures var m := ApplyStep(c, s, id, k, content).inflight[id];
            m.failed ==> m.op == Read && HasUncor(s.v.desc, m.slba, |m.blocks|)
  {
    hide DescAfter, LockOwned, Factory, Generated, AllZero;
    var m, m' := s.inflight[id], ApplyStep(c, s, id, k, content).inflight[id];
    if m'.failed && !m.failed {
      assert BlockAgrees(c, s, m, k);
      ReadKeepsDesc(c, s.v.desc[m.slba + k], m.blocks[k]);
      assert s.v.desc[m.slba + k].state == Uncor;
    }
  }

  lemma ApplyShaped(c: Config, s: Sys, id: nat, k: nat, content: Block)
    requires Shaped(c, s) && Enabled(c, s, Apply(id, k, content))
    ensures Shaped(c, ApplyStep(c, s, id, k, content))
  {
  }

  lemma ApplyKeepsInv(c: Config, s: Sys, id: nat, k: nat, content: Block)
    requires Inv(c, s) && Enabled(c, s, Apply(id, k, content))
    ensures Inv(c, ApplyStep(c, s, id, k, content))
  {
    hide Agrees, BlockAgrees, LockOwned;
    var m, s' := s.inflight[id], ApplyStep(c, s, id, k, content);
    var m', at := s'.inflight[id], m.slba + k;
    ApplyShaped(c, s, id, k, content);
    FailureHasCause(c, s, id, k, content);
    OwnedUpdate(s.v.locked, s.inflight, id, m');
    OwnedLocked(s.v.locked, s.inflight, id, at);
    forall j | 0 <= j < |m'.blocks| ensures BlockAgrees(c, s', m', j) { ApplyBlockAgrees(c, s, id, k, content, j); }
    forall i | i in s'.inflight ensures CmdAgrees(c, s', s'.inflight[i]) {
      if i != id {
        OwnedApart(s.v.locked, s.inflight, i, id);
        assert InRange(m, at);
        CmdFrame(c, s, s', s.inflight[i]);
      }
    }
  }

  lemma ReadKeepsDesc(c: Config, d: BlockDesc, b: Block)
    requires c.Valid() && Sized(c, b)
    ensures DescAfter(c, Read, d, b) == d
  {
  }

  // ----- completion

  lemma CompleteDesc(c: Config, pol: Policy, s: Sys, id: nat, lba: nat)
    requires Inv(c, s) && id in s.inflight && lba < |s.device|
    ensures var m, s' := s.inflight[id], CompleteStep(c, pol, s, id).0;
            |s'.v.desc| == |s.v.desc| &&
            s'.v.desc[lba] ==
              if InRange(m, lba) && !m.failed then DescAfter(c, m.op, s.v.desc[lba], m.blocks[lba - m.slba])
              else s.v.desc[lba]
  {
    hide Agrees, VerifyBlock, LockOwned, ReadResult;
  }

  lemma CompleteShaped(c: Config, pol: Policy, s: Sys, id: nat)
    requires Shaped(c, s) && id in s.inflight
    ensures Shaped(c, CompleteStep(c, pol, s, id).0)
  {
    hide DescAfter, ReadResult, HasUncor, HasWritten;
  }

  /** What a completion leaves alone. */
  lemma CompleteRest(c: Config, pol: Policy, s: Sys, id: nat)
    requires Shaped(c, s) && id in s.inflight
    ensures var m, s' := s.inflight[id], CompleteStep(c, pol, s, id).0;
            && s' == s.(v := s'.v, inflight := s.inflight - {id})
            && s'.v == s.v.(desc := s'.v.desc, locked := s.v.locked - Range(m.slba, |m.blocks|))
  {
    hide ReadResult, Committed, HasUncor, HasWritten;
  }

  lemma CompleteKeepsInv(c: Config, pol: Policy, s: Sys, id: nat)
    requires Inv(c, s) && Enabled(c, s, Complete(id))
    ensures Inv(c, CompleteStep(c, pol, s, id).0)
  {
    hide DescAfter, Agrees, Describes, LockOwned, ReadResult, HasUncor, HasWritten, CompleteStep;
    CompleteRest(c, pol, s, id);
    var m, s' := s.inflight[id], CompleteStep(c, pol, s, id).0;
    CompleteShaped(c, pol, s, id);
    OwnedRemove(s.v.locked, s.inflight, id);
    forall lba: nat | lba < |s'.device| && lba !in s'.v.locked 
      ensures Agrees(c, s'.v.desc[lba], s'.device[lba], lba, lba in s'.doubt)
    {
      CompleteDesc(c, pol, s, id, lba);
      if InRange(m, lba) {
        assert BlockAgrees(c, s, m, lba - m.slba);
        if m.op == Read { ReadKeepsDesc(c, s.v.desc[lba], m.blocks[lba - m.slba]); }
        if Logged(m.op) { DescribedAgrees(c, s'.v.desc[lba], s.device[lba], lba, lba in s.doubt); }
      }
    }
    forall i | i in s'.inflight ensures CmdAgrees(c, s', s'.inflight[i]) {
      OwnedApart(s.v.locked, s.inflight, i, id);
      forall lba: nat | InRange(s.inflight[i], lba) ensures s'.v.desc[lba] == s.v.desc[lba] {
        CompleteDesc(c, pol, s, id, lba);
      }
      CmdFrame(c, s, s', s.inflight[i]);
    }
  }

  lemma DescribedPasses(c: Config, d: BlockDesc, cell: Cell, lba: u64)
    requires c.Valid() && Sized(c, cell.block) && Describes(c, d, cell, lba)
    ensures Passes(c, d, cell, lba)
  {
    if d.state == Data { GeneratedPasses(c, cell.block, lba, d); }
    if d.state == Unwritten { FactoryPasses(c, cell.block); }
  }

  lemma DescribedAgrees(c: Config, d: BlockDesc, cell: Cell, lba: u64, doubtful: bool)
    requires c.Valid() && Sized(c, cell.block) && Describes(c, d, cell, lba)
    ensures Agrees(c, d, cell, lba, doubtful)
  {
    hide Describes, Passes;
    DescribedPasses(c, d, cell, lba);
  }

  lemma AgreeingPasses(c: Config, d: BlockDesc, cell: Cell, lba: u64, doubtful: bool)
    requires c.Valid() && Sized(c, cell.block) && Agrees(c, d, cell, lba, doubtful)
    ensures Passes(c, d, cell, lba)
  {
    hide Describes, Passes;
    if !doubtful { DescribedPasses(c, d, cell, lba); }
  }

  /** Every completion of a conforming device passes: no unexpected result, no miscompare. */
  lemma CompletionPasses(c: Config, pol: Policy, s: Sys, id: nat)
    requires Inv(c, s) && Enabled(c, s, Complete(id))
    ensures CompleteStep(c, pol, s, id).1 == Verdict(false, false, 0)
  {
    hide DescAfter, Agrees, VerifyBlock, LockOwned;
    var m := s.inflight[id];
    assert CmdAgrees(c, s, m);
    if m.op == Read && !m.failed {
      forall k | 0 <= k < |m.blocks| ensures VerifyBlock(c, s.v.desc[m.slba + k], m.blocks[k], m.slba + k) == 0 {
        assert BlockAgrees(c, s, m, k);
        ReadKeepsDesc(c, s.v.desc[m.slba + k], m.blocks[k]);
        AgreeingPasses(c, s.v.desc[m.slba + k], s.device[m.slba + k], m.slba + k, m.slba + k in s.doubt);
      }
      ReadResultZero(c, s.v.desc, m.slba, m.blocks, |m.blocks|);
    }
  }

  /** A read passes exactly when every block passes. */
  lemma {:induction false} ReadResultZero(c: Config, desc: seq<BlockDesc>, slba: nat, blocks: seq<Block>, n: nat)
    requires c.Valid() && n <= |blocks| && slba + |blocks| <= |desc| <= NO_LBA
    requires forall k | 0 <= k < |blocks| :: Sized(c, blocks[k])
    ensures ReadResult(c, desc, slba, blocks, n) == 0
       <==> forall k | 0 <= k < n :: VerifyBlock(c, desc[slba + k], blocks[k], slba + k) == 0
    decreases n
  {
    hide VerifyBlock;
    if n > 0 { ReadResultZero(c, desc, slba, blocks, n - 1); }
  }

  lemma StepKeepsInv(c: Config, pol: Policy, s: Sys, m: Move)
    requires Inv(c, s) && Enabled(c, s, m)
    ensures Inv(c, Step(c, pol, s, m))
  {
    hide Inv;
    match m
    case Generate(id, op, slba, buffers, escapes) => GenerateKeepsInv(c, s, id, op, slba, buffers, escapes);
    case Apply(id, k, content) => ApplyKeepsInv(c, s, id, k, content);
    case Complete(id) => CompleteKeepsInv(c, pol, s, id);
  }

  lemma InitInv(c: Config, s: Sys)
    requires Init(c, s)
    ensures Inv(c, s)
  {
  }

  /** A run of the bench against a conforming device. */
  ghost predicate Run(c: Config, pol: Policy, states: seq<Sys>, moves: seq<Move>) {
    && |states| == |moves| + 1 && Init(c, states[0])
    && forall i | 0 <= i < |moves| ::
         Shaped(c, states[i]) && Enabled(c, states[i], moves[i]) && states[i + 1] == Step(c, pol, states[i], moves[i])
  }

  /** In every state of every run the shadow of each unlocked LBA tells the truth about the device. */
  lemma {:induction false} RunInv(c: Config, pol: Policy, states: seq<Sys>, moves: seq<Move>)
    requires Run(c, pol, states, moves)
    ensures forall i | 0 <= i < |states| :: Inv(c, states[i])
  {
    hide Inv, Step, Init, Enabled;
    if |moves| == 0 {
      InitInv(c, states[0]);
    } else {
      var n := |moves| - 1;
      RunInv(c, pol, states[..n + 1], moves[..n]);
      assert states[..n + 1][n] == states[n];
      StepKeepsInv(c, pol, states[n], moves[n]);
    }
  }

  /** No false alarms, over whole runs. */
  lemma NeverAccused(c: Config, pol: Policy, states: seq<Sys>, moves: seq<Move>, i: nat)
    requires Run(c, pol, states, moves) && i < |moves| && moves[i].Complete?
    ensures CompleteStep(c, pol, states[i], moves[i].id).1 == Verdict(false, false, 0)
  {
    hide Inv, Step, Init;
    RunInv(c, pol, states, moves);
    CompletionPasses(c, pol, states[i], moves[i].id);
  }

  /** Two commands in flight never share an LBA. */
  lemma InFlightDisjoint(c: Config, pol: Policy, states: seq<Sys>, moves: seq<Move>, i: nat, a: nat, b: nat, lba: nat)
    requires Run(c, pol, states, moves) && i < |states| && a in states[i].inflight && b in states[i].inflight && a != b
    ensures !(InRange(states[i].inflight[a], lba) && InRange(states[i].inflight[b], lba))
  {
    hide Step, Init;
    RunInv(c, pol, states, moves);
  }

  // ----- the converse: faults are caught

  /** A read that returns, for an LBA with committed data, a block written for another LBA or
      with another stamp is reported as a miscompare. */
  lemma FaultAccused(c: Config, pol: Policy, v: Iover, slba: nat, blocks: seq<Block>, k: nat, wroteLba: u64,
    wroteStamp: u64, p: nat)
    requires c.Valid() && slba + |blocks| <= |v.desc| <= NO_LBA && k < |blocks| && p < |c.g.patterns|
    requires forall j | 0 <= j < |blocks| :: Sized(c, blocks[j])
    requires v.desc[slba + k].state == Data && blocks[k].data == BlockData(c.g, wroteLba, wroteStamp, p)
    requires wroteLba != slba + k || wroteStamp % U16_LIMIT != v.desc[slba + k].timestamp
    ensures Submit(c, pol, v, Read, slba, blocks, false).1.miscompare
  {
    hide GetHeader, BlockWith, VerifyBlockData, CompareMeta;
    MisplacedOrStaleRejected(c, slba + k, v.desc[slba + k], wroteLba, wroteStamp, p);
    ReadResultZero(c, v.desc, slba, blocks, |blocks|);
  }

  /** What a read of one LBA of the device reports. */
  ghost function ReadBack(c: Config, pol: Policy, v: Iover, lba: u64, cell: Cell): Verdict
    requires c.Valid() && lba < |v.desc| <= NO_LBA && Sized(c, cell.block)
  {
    Submit(c, pol, v, Read, lba, [cell.block], cell.bad).1
  }

  predicate Reported(verdict: Verdict) {
    verdict.unexpected || verdict.miscompare
  }

  /** The block looks like the one a write with this stamp leaves. */
  ghost predicate LooksWritten(c: Config, cell: Cell, lba: u64, stamp16: nat)
    requires c.Valid() && Sized(c, cell.block)
  {
    && !cell.bad && CarriesStamp(c, cell.block.data, lba, stamp16)
    && (c.g.metaSize == 0 || CompareMeta(c.g, cell.block.meta, cell.block.data, lba) == 0)
  }

  /** A lost write, whatever was there before: the device reports a write complete but has left an
      LBA as it was. The next read of that LBA is reported exactly when what is there does not
      happen to look like the lost write. */
  lemma LostWriteAccusedIff(c: Config, pol: Policy, s: Sys, id: nat, k: nat)
    requires Inv(c, s) && id in s.inflight && s.inflight[id].op == Write
    requires k < |s.inflight[id].blocks| && !s.inflight[id].done[k]
    ensures var lba, v' := s.inflight[id].slba + k, CompleteStep(c, pol, s, id).0.v;
            && |v'.desc| == |s.v.desc| && v'.desc[lba].state == Data
            && (Reported(ReadBack(c, pol, v', lba, s.device[lba])) <==>
                  !LooksWritten(c, s.device[lba], lba, v'.desc[lba].timestamp))
  {
    hide GetHeader, LockOwned, NewBlock, VerifyBlockData, CompareMeta, CarriesStamp, Describes, Agrees, ReadResult;
    var m, lba, v' := s.inflight[id], s.inflight[id].slba + k, CompleteStep(c, pol, s, id).0.v;
    assert CmdAgrees(c, s, m) && BlockAgrees(c, s, m, k);
    CompleteDesc(c, pol, s, id, lba);
    assert InRange(m, lba);
    if s.device[lba].bad {
      FailedRead(c, pol, v', lba, s.device[lba].block);
    } else {
      OneBlockRead(c, pol, v', lba, s.device[lba].block);
      DataAcceptedIff(c, s.device[lba].block.data, lba, v'.desc[lba]);
    }
  }

  /** Over data the two stamps decide: the lost write goes unnoticed exactly when it and the block
      it should have replaced are a multiple of 65536 stamps apart. */
  lemma LostOverwriteAccusedIff(c: Config, pol: Policy, s: Sys, id: nat, k: nat)
    requires Inv(c, s) && id in s.inflight && s.inflight[id].op == Write
    requires k < |s.inflight[id].blocks| && !s.inflight[id].done[k]
    requires s.v.desc[s.inflight[id].slba + k].state == Data && s.inflight[id].slba + k !in s.doubt
    ensures var lba, v' := s.inflight[id].slba + k, CompleteStep(c, pol, s, id).0.v;
            && |v'.desc| == |s.v.desc|
            && (ReadBack(c, pol, v', lba, s.device[lba]).miscompare <==>
                  s.v.desc[lba].timestamp != v'.desc[lba].timestamp)
  {
    hide GetHeader, LockOwned, NewBlock, VerifyBlock, ReadResult, Generated;
    var m, lba, v' := s.inflight[id], s.inflight[id].slba + k, CompleteStep(c, pol, s, id).0.v;
    var b := s.device[lba].block;
    assert CmdAgrees(c, s, m) && BlockAgrees(c, s, m, k);
    CompleteDesc(c, pol, s, id, lba);
    assert InRange(m, lba);
    OneBlockRead(c, pol, v', lba, b);
    if s.v.desc[lba].timestamp == v'.desc[lba].timestamp {
      GeneratedPasses(c, b, lba, v'.desc[lba]);
    } else {
      GeneratedFails(c, b, lba, s.v.desc[lba].timestamp, v'.desc[lba]);
    }
  }

  /** Over a block that reads all zeroes or all ones, with headers that are not masked, a lost
      write never goes unnoticed. */
  lemma LostFirstWriteAccused(c: Config, pol: Policy, s: Sys, id: nat, k: nat, fill: bv8)
    requires Inv(c, s) && id in s.inflight && s.inflight[id].op == Write
    requires k < |s.inflight[id].blocks| && !s.inflight[id].done[k]
    requires !c.g.randomizeHeader && fill != START_MARKER
    requires var data := s.device[s.inflight[id].slba + k].block.data; forall i | 0 <= i < |data| :: data[i] == fill
    ensures var lba, v' := s.inflight[id].slba + k, CompleteStep(c, pol, s, id).0.v;
            && |v'.desc| == |s.v.desc|
            && Reported(ReadBack(c, pol, v', lba, s.device[lba]))
  {
    hide LockOwned, CmdAgrees, Agrees, CompleteStep, ReadBack, CompareMeta, CarriesStamp;
    LostWriteAccusedIff(c, pol, s, id, k);
    var lba, v' := s.inflight[id].slba + k, CompleteStep(c, pol, s, id).0.v;
    FilledCarriesNothing(c, s.device[lba].block.data, lba, v'.desc[lba].timestamp, fill);
  }

  lemma FailedRead(c: Config, pol: Policy, v: Iover, lba: u64, b: Block)
    requires c.Valid() && lba < |v.desc| <= NO_LBA && Sized(c, b) && v.desc[lba].state == Data
    ensures Submit(c, pol, v, Read, lba, [b], true).1.unexpected
  {
    assert HasWritten(v.desc, lba, 1);
  }

  lemma OneBlockRead(c: Config, pol: Policy, v: Iover, lba: u64, b: Block)
    requires c.Valid() && lba < |v.desc| <= NO_LBA && Sized(c, b)
    ensures Submit(c, pol, v, Read, lba, [b], false).1.miscompare <==> VerifyBlock(c, v.desc[lba], b, lba) != 0
    ensures !Submit(c, pol, v, Read, lba, [b], false).1.unexpected
  {
    hide VerifyBlock;
    ReadResultZero(c, v.desc, lba, [b], 1);
  }

  lemma GeneratedFails(c: Config, b: Block, lba: u64, stamp16: nat, desc: BlockDesc)
    requires c.Valid() && desc.state == Data && desc.timestamp != stamp16 && Generated(c, b, lba, stamp16)
    ensures Sized(c, b) && VerifyBlock(c, desc, b, lba) != 0
  {
    hide GetHeader, SetMeta, Escape, BlockWith, CompareMeta, VerifyBlockData;
    var timestamp: u64, escape: bool, old_: seq<bv8> :|
      |old_| == c.g.metaSize && timestamp % U16_LIMIT == stamp16 && b == NewBlock(c, lba, timestamp, escape, old_);
    MisplacedOrStaleRejected(c, lba, desc, lba, timestamp, PatternFor(c, timestamp, lba));
  }
}
