/** What a completion does, command by command and state by state: iover_submit without the run around it. */
module Completion {
  import opened Common
  import opened Bytes
  import opened Datagen
  import opened Verifier
  import opened History
  import opened Bench
  import opened PowerLoss
  import opened NoFalseAlarms

  ghost predicate Fitting(c: Config, v: Iover, slba: nat, blocks: seq<Block>) {
    && c.Valid() && slba + |blocks| <= |v.desc| <= NO_LBA
    && forall k | 0 <= k < |blocks| :: Sized(c, blocks[k])
  }

  /** A command that fails, of whatever kind, gives up its lock and leaves everything else alone. */
  lemma FailedChangesNothing(c: Config, pol: Policy, v: Iover, op: Op, slba: nat, blocks: seq<Block>)
    requires Fitting(c, v, slba, blocks)
    ensures Submit(c, pol, v, op, slba, blocks, true).0 == v.(locked := v.locked - Range(slba, |blocks|))
  {
  }

  /** So does a read or a flush that succeeds. */
  lemma ReadChangesNothing(c: Config, pol: Policy, v: Iover, op: Op, slba: nat, blocks: seq<Block>)
    requires Fitting(c, v, slba, blocks) && (op == Read || op == Flush)
    ensures Submit(c, pol, v, op, slba, blocks, false).0 == v.(locked := v.locked - Range(slba, |blocks|))
  {
    hide ReadResult;
    if op == Flush {
      assert Committed(c, v.desc, op, slba, blocks, |blocks|) == v.desc;
    }
  }

  /** The descriptor that a successful command leaves for one of its blocks: a write takes stamp and
      pattern from its buffer, the others change the state and keep the rest. */
  ghost predicate Took(c: Config, op: Op, before: BlockDesc, after: BlockDesc, b: Block)
    requires c.Valid() && Sized(c, b)
  {
    match op
    case Write =>
      var f := GetHeader(c.g, b.data);
      f.Found? ==> after == BlockDesc(Data, f.timestamp % 65536, f.pattern % 32)
    case Deallocate => after == BlockDesc(Dealloc, before.timestamp, before.pattern)
    case WriteZeroes => after == BlockDesc(Zeroes, before.timestamp, before.pattern)
    case WriteUncorrect => after == BlockDesc(Uncor, before.timestamp, before.pattern)
    case _ => after == before
  }

  /** A command that succeeds takes effect on exactly its own LBAs. */
  lemma SuccessTakesEffect(c: Config, pol: Policy, v: Iover, op: Op, slba: nat, blocks: seq<Block>, lba: nat)
    requires Fitting(c, v, slba, blocks) && lba < |v.desc|
    ensures var v' := Submit(c, pol, v, op, slba, blocks, false).0;
            && |v'.desc| == |v.desc| && v' == v.(locked := v.locked - Range(slba, |blocks|), desc := v'.desc)
            && (slba <= lba < slba + |blocks| ==> Took(c, op, v.desc[lba], v'.desc[lba], blocks[lba - slba]))
            && (!(slba <= lba < slba + |blocks|) ==> v'.desc[lba] == v.desc[lba])
  {
    hide ReadResult, GetHeader;
  }

  /** Some block of the range is in this state. */
  ghost predicate HasState(v: Iover, slba: nat, nlbs: nat, state: BlockState)
    requires slba + nlbs <= |v.desc|
  {
    exists i | slba <= i < slba + nlbs :: v.desc[i].state == state
  }

  /** What a completion reports: a failure exactly when no block of its range is uncorrectable and some
      block holds data or zeroes, and a miscompare exactly when a read succeeds and a block fails. */
  lemma ReportedIff(c: Config, pol: Policy, v: Iover, op: Op, slba: nat, blocks: seq<Block>, failed: bool)
    requires Fitting(c, v, slba, blocks)
    ensures var verdict, n := Submit(c, pol, v, op, slba, blocks, failed).1, |blocks|;
            && (verdict.unexpected <==>
                  && failed && !HasState(v, slba, n, Uncor)
                  && (HasState(v, slba, n, Data) || HasState(v, slba, n, Zeroes)))
            && (verdict.miscompare <==>
                  !failed && op == Read
                  && exists k | 0 <= k < n :: VerifyBlock(c, v.desc[slba + k], blocks[k], slba + k) != 0)
  {
    hide VerifyBlock, ReadResult;
    ReadResultZero(c, v.desc, slba, blocks, |blocks|);
  }

  /** What it returns: -1 exactly for a reported failure that is to stop the job; on a read that succeeds,
      nonzero exactly for a miscompare that is to stop it, and then the result of the first failing
      block; zero in every other case. */
  lemma ReturnsIff(c: Config, pol: Policy, v: Iover, op: Op, slba: nat, blocks: seq<Block>, failed: bool)
    requires Fitting(c, v, slba, blocks)
    ensures var verdict := Submit(c, pol, v, op, slba, blocks, failed).1;
            && (failed ==> verdict.ret == if verdict.unexpected && pol.stopOnError then -1 else 0)
            && (!failed ==> (verdict.ret != 0 <==> verdict.miscompare && pol.stopOnMiscompare))
            && (verdict.miscompare && pol.stopOnMiscompare ==>
                  exists k | 0 <= k < |blocks| ::
                    && verdict.ret == VerifyBlock(c, v.desc[slba + k], blocks[k], slba + k)
                    && forall j | 0 <= j < k :: VerifyBlock(c, v.desc[slba + j], blocks[j], slba + j) == 0)
  {
    hide VerifyBlock;
    if ReadResult(c, v.desc, slba, blocks, |blocks|) != 0 {
      var k := FirstFailing(c, v.desc, slba, blocks, |blocks|);
    }
  }

  lemma {:induction false} FirstFailing(c: Config, desc: seq<BlockDesc>, slba: nat, blocks: seq<Block>, n: nat)
    returns (k: nat)
    requires c.Valid() && n <= |blocks| && slba + |blocks| <= |desc| <= NO_LBA
    requires forall j | 0 <= j < |blocks| :: Sized(c, blocks[j])
    requires ReadResult(c, desc, slba, blocks, n) != 0
    ensures k < n && ReadResult(c, desc, slba, blocks, n) == VerifyBlock(c, desc[slba + k], blocks[k], slba + k)
    ensures forall j | 0 <= j < k :: VerifyBlock(c, desc[slba + j], blocks[j], slba + j) == 0
    decreases n
  {
    hide VerifyBlock;
    if ReadResult(c, desc, slba, blocks, n - 1) != 0 {
      k := FirstFailing(c, desc, slba, blocks, n - 1);
    } else {
      k := n - 1;
      ReadResultZero(c, desc, slba, blocks, n - 1);
    }
  }

  /** A history record: the LBA, a copy of descriptor 0, and the state the command leads to. */
  lemma RecordFields(c: Config, desc0: BlockDesc, ring: Ring, op: Op, slba: nat, blocks: seq<Block>, k: nat)
    requires c.Valid() && WellFormed(ring) && k < |blocks| && Logged(op)
    requires forall j | 0 <= j < |blocks| :: Sized(c, blocks[j])
    ensures var r := Records(c, desc0, ring, op, slba, blocks, |blocks|)[k];
            && r.lba == slba + k && r.curr == desc0
            && (op == Deallocate ==> r.next.state == Dealloc) && (op == WriteZeroes ==> r.next.state == Zeroes)
            && (op == WriteUncorrect ==> r.next.state == Stray)
            && (op == Write ==>
                  var f := GetHeader(c.g, blocks[k].data);
                  f.Found? ==> r.next == BlockDesc(Data, f.timestamp % 65536, f.pattern % 32))
  {
    hide Records, GetHeader;
    var slot := RecordsAt(c, desc0, ring, op, slba, blocks, |blocks|, k);
  }
}
