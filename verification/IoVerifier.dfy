/** The verifier object: the methods of iover.c on their tables, each tied to the function of the
    transition system that it computes. */
module IoVerifier {
  import opened Bytes
  import opened Datagen
  import opened Verifier
  import opened History
  import opened Bench
  import opened LbaBitmap
  import L = LbaLock
  import PowerLoss

  /** A block command and its buffer. */
  class Bio {
    var op: Op
    var slba: nat
    var blocks: seq<Block>
    var failed: bool      // the command completed with a nonzero result

    constructor (op: Op, slba: nat, blocks: seq<Block>)
      ensures this.op == op && this.slba == slba && this.blocks == blocks && !failed
    {
      this.op, this.slba, this.blocks, failed := op, slba, blocks, false;
    }

    ghost predicate Fits(c: Config, nlbs: nat)
      reads this
    {
      slba + |blocks| <= nlbs && forall k | 0 <= k < |blocks| :: Sized(c, blocks[k])
    }
  }

  /** The LBAs whose lock bit is set. */
  ghost function LockedLbas(words: seq<bv64>): set<nat> {
    set lba: nat | lba < 64 * |words| && Held(words, lba)
  }

  lemma LockedAdded(before: seq<bv64>, after: seq<bv64>, slba: nat, nlbs: nat)
    requires slba + nlbs <= 64 * |before| && L.Added(before, after, slba, slba + nlbs)
    ensures LockedLbas(after) == LockedLbas(before) + Range(slba, nlbs)
  {
    hide Held;
  }

  lemma LockedRemoved(before: seq<bv64>, after: seq<bv64>, slba: nat, nlbs: nat)
    requires slba + nlbs <= 64 * |before| && L.Removed(before, after, slba, slba + nlbs)
    ensures LockedLbas(after) == LockedLbas(before) - Range(slba, nlbs)
  {
    hide Held;
  }

  lemma LockedFree(words: seq<bv64>, slba: nat, nlbs: nat)
    requires slba + nlbs <= 64 * |words|
    ensures L.RangeFree(words, slba, nlbs) <==> LockedLbas(words) * Range(slba, nlbs) == {}
  {
    hide Held;
    if !L.RangeFree(words, slba, nlbs) {
      var lba: nat :| slba <= lba < slba + nlbs && Held(words, lba);
      assert lba in LockedLbas(words) * Range(slba, nlbs);
    }
  }

  lemma VisitsOneMore(slots: seq<HistDesc>, v: seq<nat>, i: nat, cnt: nat)
    requires i < |slots| && slots[i].lba != NO_LBA && cnt > 0
    ensures v + Visits(slots, i, cnt) == v + [i] + Visits(slots, Previous(i, |slots|), cnt - 1)
  {
  }

  lemma VisitsEnd(slots: seq<HistDesc>, i: nat, cnt: nat)
    requires i < |slots| && (slots[i].lba == NO_LBA || cnt == 0)
    ensures Visits(slots, i, cnt) == []
  {
  }

  class IoVerifier {
    const c: Config
    const pol: Policy
    const lock: L.LbaLock
    const blockDesc: array<BlockDesc>
    const histDesc: array<HistDesc>
    var timestamp: u64
    var histIdx: nat

    ghost predicate Valid()
      reads this, blockDesc, histDesc, lock.words
    {
      && c.Valid() && 0 < blockDesc.Length <= NO_LBA && blockDesc.Length <= 64 * lock.words.Length
      && histIdx < histDesc.Length
      && blockDesc as object != histDesc && blockDesc as object != lock.words && histDesc as object != lock.words
    }

    ghost function View(): Iover
      reads this, blockDesc, histDesc, lock.words
    {
      Iover(LockedLbas(lock.words[..]), blockDesc[..], timestamp, Ring(histDesc[..], histIdx))
    }

    /** iover_init without a journal: nothing written, nothing locked, the history cleared. */
    constructor (c: Config, pol: Policy, nlbs: nat, nhist: nat)
      requires c.Valid() && 0 < nlbs <= NO_LBA && 0 < nhist
      ensures Valid() && fresh(blockDesc) && fresh(histDesc) && fresh(lock) && fresh(lock.words)
      ensures this.c == c && this.pol == pol && blockDesc.Length == nlbs && histDesc.Length == nhist
      ensures View().locked == {} && Cleared(View().ring) && View().timestamp == 0
      ensures forall i | 0 <= i < nlbs :: blockDesc[i].state == Unwritten
    {
      this.c, this.pol := c, pol;
      lock := new L.LbaLock(nlbs);
      blockDesc := new BlockDesc[nlbs](_ => BlockDesc(Unwritten, 0, 0));
      var ones := BlockDesc(Stray, 0xFFFF, 31);
      histDesc := new HistDesc[nhist](_ => HistDesc(NO_LBA, ones, ones));
      timestamp, histIdx := 0, 0;
      new;
      hide Held;
    }

    /** iover_generate_data: either the range is locked and, for a write, every block of the buffer
        is filled with a fresh stamp, or nothing changes. */
    method GenerateData(bio: Bio, escapes: seq<bool>) returns (res: int)
      requires Valid() && bio.Fits(c, blockDesc.Length) && |escapes| == |bio.blocks|
      modifies this`timestamp, lock.words, bio`blocks
      ensures Valid() && bio.Fits(c, blockDesc.Length)
      ensures res == 0 <==> old(View()).locked * Range(bio.slba, |bio.blocks|) == {}
      ensures res != 0 ==> View() == old(View()) && bio.blocks == old(bio.blocks)
      ensures res == 0 ==>
                var stamp := if bio.op == Write then NextStamp(old(timestamp)) else old(timestamp);
                && View() == old(View()).(locked := old(View()).locked + Range(bio.slba, |bio.blocks|),
                                          timestamp := stamp)
                && bio.blocks == Payload(c, bio.op, bio.slba, stamp, old(bio.blocks), escapes)
    {
      hide Held, NewBlock;
      ghost var words := lock.words[..];
      res := lock.TryLockLbas(bio.slba, |bio.blocks|);
      assert blockDesc[..] == old(blockDesc[..]) && histDesc[..] == old(histDesc[..]);
      LockedFree(words, bio.slba, |bio.blocks|);
      if res != 0 { return; }
      LockedAdded(words, lock.words[..], bio.slba, |bio.blocks|);
      if bio.op == Write {
        timestamp := NextStamp(timestamp);
        ghost var was, view := bio.blocks, View();
        for off := 0 to |bio.blocks|
          invariant View() == view
          invariant |bio.blocks| == |was| && bio.Fits(c, blockDesc.Length)
          invariant forall k | 0 <= k < |was| ::
                      bio.blocks[k] == if k < off then Payload(c, Write, bio.slba, timestamp, was, escapes)[k]
                        else was[k]
        {
          assert Sized(c, bio.blocks[off]);
          bio.blocks := bio.blocks[off := NewBlock(c, bio.slba + off, timestamp, escapes[off], bio.blocks[off].meta)];
        }
      }
    }

    /** commit_block_state: the shadow table takes over the effect of a completed command. */
    method CommitBlockState(bio: Bio)
      requires Valid() && bio.Fits(c, blockDesc.Length)
      modifies blockDesc
      ensures blockDesc[..] == Committed(c, old(blockDesc[..]), bio.op, bio.slba, bio.blocks, |bio.blocks|)
    {
      hide DescAfter;
      ghost var was := blockDesc[..];
      for off := 0 to |bio.blocks|
        invariant blockDesc[..] == Committed(c, was, bio.op, bio.slba, bio.blocks, off)
      {
        var lba := bio.slba + off;
        assert blockDesc[lba] == was[lba];
        blockDesc[lba] := DescAfter(c, bio.op, blockDesc[lba], bio.blocks[off]);
      }
    }

    /** verify_bio_read: all blocks are checked, the first failure is returned. */
    method VerifyBioRead(bio: Bio) returns (res: int)
      requires Valid() && bio.Fits(c, blockDesc.Length)
      ensures res == ReadResult(c, blockDesc[..], bio.slba, bio.blocks, |bio.blocks|)
    {
      hide VerifyBlock;
      res := 0;
      for off := 0 to |bio.blocks|
        invariant res == ReadResult(c, blockDesc[..], bio.slba, bio.blocks, off)
      {
        var r := VerifyBlock(c, blockDesc[bio.slba + off], bio.blocks[off], bio.slba + off);
        if r != 0 && res == 0 { res := r; }
      }
    }

    /** check_read_error. */
    method CheckReadError(bio: Bio) returns (res: int)
      requires Valid() && bio.Fits(c, blockDesc.Length)
      ensures res != 0 <==> HasUncor(blockDesc[..], bio.slba, |bio.blocks|)
    {
      for off := 0 to |bio.blocks|
        invariant forall i | bio.slba <= i < bio.slba + off :: blockDesc[i].state != Uncor
      {
        if blockDesc[bio.slba + off].state == Uncor {
          assert blockDesc[..][bio.slba + off].state == Uncor;
          return -1;
        }
      }
      return 0;
    }

    /** iover_check_written. */
    method CheckWritten(bio: Bio) returns (res: bool)
      requires Valid() && bio.Fits(c, blockDesc.Length)
      ensures res == HasWritten(blockDesc[..], bio.slba, |bio.blocks|)
    {
      for off := 0 to |bio.blocks|
        invariant forall i | bio.slba <= i < bio.slba + off ::
                    blockDesc[i].state != Uncor && blockDesc[i].state != Data && blockDesc[i].state != Zeroes
      {
        var d := blockDesc[bio.slba + off];
        if d.state == Uncor || d.state == Data || d.state == Zeroes {
          assert blockDesc[..][bio.slba + off] == d;
          return true;
        }
      }
      return false;
    }

    /** iover_submit: unlock, judge the result, then commit a change or verify a read. */
    method Submit(bio: Bio) returns (verdict: Verdict)
      requires Valid() && bio.Fits(c, blockDesc.Length)
      modifies lock.words, blockDesc
      ensures Valid()
      ensures (View(), verdict) == Bench.Submit(c, pol, old(View()), bio.op, bio.slba, bio.blocks, bio.failed)
    {
      hide Held, DescAfter, ReadResult, HasUncor, HasWritten;
      ghost var words := lock.words[..];
      lock.UnlockLbas(bio.slba, |bio.blocks|);
      LockedRemoved(words, lock.words[..], bio.slba, |bio.blocks|);
      assert blockDesc[..] == old(blockDesc[..]) && histDesc[..] == old(histDesc[..]);
      ghost var unlocked := lock.words[..];
      var unexpected := false;
      if bio.failed {
        var err := CheckReadError(bio);
        var written := CheckWritten(bio);
        unexpected := err == 0 && written;
        if unexpected && pol.stopOnError { return Verdict(true, false, -1); }
        return Verdict(unexpected, false, 0);
      }
      if bio.op != Read {
        CommitBlockState(bio);
        assert lock.words[..] == unlocked && histDesc[..] == old(histDesc[..]);
        return Verdict(false, false, 0);
      }
      var res := VerifyBioRead(bio);
      return Verdict(false, res != 0, if pol.stopOnMiscompare then res else 0);
    }

    /** backup_hist_state: one record for every block of a command that changes data. */
    method BackupHistState(bio: Bio)
      requires Valid() && bio.Fits(c, blockDesc.Length)
      modifies histDesc, this`histIdx
      ensures Valid()
      ensures var ring := Backup(c, blockDesc[0], old(View()).ring, bio.op, bio.slba, bio.blocks, |bio.blocks|);
              View() == old(View()).(ring := ring)
    {
      hide RecordFor, SlotOf, Held;
      if !Logged(bio.op) { return; }
      ghost var ring := Ring(histDesc[..], histIdx);
      for off := 0 to |bio.blocks|
        invariant blockDesc[..] == old(blockDesc[..]) && lock.words[..] == old(lock.words[..])
        invariant histIdx < histDesc.Length
        invariant Ring(histDesc[..], histIdx) == Backup(c, blockDesc[0], ring, bio.op, bio.slba, bio.blocks, off)
      {
        NextSlot(histIdx, histDesc.Length);
        histDesc[histIdx] := RecordFor(c, blockDesc[0], histDesc[histIdx], bio.op, bio.slba + off, bio.blocks[off]);
        histIdx := SlotOf(histIdx + 1, histDesc.Length);
      }
    }

    /** verify_hist_read of the one block a replay read covers. */
    method VerifyHistRead(slot: nat, b: Block) returns (res: int)
      requires Valid() && Sized(c, b) && slot < histDesc.Length && histDesc[slot].lba < blockDesc.Length
      modifies blockDesc
      ensures (blockDesc[..], res) == PowerLoss.HistRead(c, old(blockDesc[..]), histDesc[slot], b)
    {
      hide VerifyBlock;
      var hd := histDesc[slot];
      if VerifyBlock(c, blockDesc[hd.lba], b, hd.lba) == 0 { return 0; }
      res := PowerLoss.VerifyNext(c, hd.next, b, hd.lba);
      if res == 0 {
        blockDesc[hd.lba] := hd.next;
      } else {
        res := -1;
      }
    }

    /** iover_submit for a replay read: a read that fails is judged, one that succeeds verified. */
    method SubmitReplay(slot: nat, cell: Cell) returns (quiet: bool)
      requires Valid() && Sized(c, cell.block) && slot < histDesc.Length && histDesc[slot].lba < blockDesc.Length
      modifies blockDesc
      ensures (blockDesc[..], quiet) == PowerLoss.ReplayRead(c, old(blockDesc[..]), histDesc[slot], cell)
    {
      hide PowerLoss.HistRead, HasUncor, HasWritten;
      if cell.bad {
        var bio := new Bio(Read, histDesc[slot].lba, [cell.block]);
        var marked := CheckReadError(bio);
        var written := CheckWritten(bio);
        quiet := !(marked == 0 && written);
      } else {
        var res := VerifyHistRead(slot, cell.block);
        quiet := res == 0;
      }
    }

    /** The replay job: history_slba walks the ring from hist_idx downward, each record is read
        back from the device and checked. */
    method ReplayHistory(device: seq<Cell>) returns (ok: bool, ghost visited: seq<nat>)
      requires Valid() && |device| == blockDesc.Length
      requires forall i | 0 <= i < |device| :: Sized(c, device[i].block)
      requires forall s | 0 <= s < histDesc.Length :: histDesc[s].lba == NO_LBA || histDesc[s].lba < blockDesc.Length
      modifies blockDesc
      ensures Valid() && visited == Replay(View().ring)
      ensures forall k | 0 <= k < |visited| ::
                visited[k] < histDesc.Length && histDesc[visited[k]].lba < blockDesc.Length
      ensures (blockDesc[..], ok) == PowerLoss.ReplayAll(c, old(blockDesc[..]), device, histDesc[..], visited)
    {
      hide PowerLoss.ReplayRead, PowerLoss.ReplayAll, Visits, Held;
      var idx: nat, cnt: nat := histIdx, histDesc.Length;
      ghost var slots := histDesc[..];
      ok, visited := true, [];
      PowerLoss.ReplayNone(c, blockDesc[..], device, slots);
      assert [] + Visits(slots, idx, cnt) == Visits(slots, idx, cnt);
      while histDesc[idx].lba != NO_LBA && cnt != 0
        invariant idx < histDesc.Length && histDesc[..] == slots
        invariant visited + Visits(slots, idx, cnt) == Replay(Ring(slots, histIdx))
        invariant forall k | 0 <= k < |visited| :: visited[k] < |slots| && slots[visited[k]].lba < blockDesc.Length
        invariant (blockDesc[..], ok) == PowerLoss.ReplayAll(c, old(blockDesc[..]), device, slots, visited)
        decreases cnt
      {
        var quiet := SubmitReplay(idx, device[histDesc[idx].lba]);
        ok := ok && quiet;
        PowerLoss.ReplayOneMore(c, old(blockDesc[..]), device, slots, visited, idx);
        VisitsOneMore(slots, visited, idx, cnt);
        visited := visited + [idx];
        idx := Previous(idx, histDesc.Length);
        cnt := cnt - 1;
      }
      VisitsEnd(slots, idx, cnt);
      assert visited + [] == visited;
    }
  }
}
