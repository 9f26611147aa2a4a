/** The lock calls of a single runner: without another thread each compare-and-swap loop of
    try_lock_lbas and unlock_lbas runs exactly once. */
module LbaLock {
  import opened Bits
  import opened LbaBitmap

  ghost predicate RangeFree(words: seq<bv64>, slba: nat, nlbs: nat)
    requires slba + nlbs <= 64 * |words|
  {
    forall lba: nat | slba <= lba < slba + nlbs :: !Held(words, lba)
  }

  /** `after` holds what `before` holds and the range [lo, hi). */
  ghost predicate Added(before: seq<bv64>, after: seq<bv64>, lo: nat, hi: nat) {
    |after| == |before| &&
    forall lba: nat | lba < 64 * |before| :: Held(after, lba) <==> Held(before, lba) || lo <= lba < hi
  }

  /** `after` holds what `before` holds except the range [lo, hi). */
  ghost predicate Removed(before: seq<bv64>, after: seq<bv64>, lo: nat, hi: nat) {
    |after| == |before| &&
    forall lba: nat | lba < 64 * |before| :: Held(after, lba) <==> Held(before, lba) && !(lo <= lba < hi)
  }

  lemma AddRun(before: seq<bv64>, words: seq<bv64>, slba: nat, nlbs: nat, off: nat)
    requires off < nlbs && slba + nlbs <= 64 * |words| && (off > 0 ==> (slba + off) % 64 == 0)
    requires Added(before, words, slba, slba + off)
    ensures var k := (slba + off) / 64;
            Added(before, words[k := Lock(words[k], RunMask(slba, nlbs, off))], slba,
              slba + off + RunLength(slba, nlbs, off))
  {
    hide Held, Lock, GetMask64;
    var k, o, n := (slba + off) / 64, (slba + off) % 64, RunLength(slba, nlbs, off);
    var after := words[k := Lock(words[k], GetMask64(o, n))];
    forall lba: nat | lba < 64 * |before|
      ensures Held(after, lba) <==> Held(before, lba) || slba <= lba < slba + off + n
    {
      SetRun(words, k, o, n, lba);
      assert Held(words, lba) <==> Held(before, lba) || slba <= lba < slba + off;
    }
  }

  lemma UndoRun(before: seq<bv64>, words: seq<bv64>, slba: nat, off: nat)
    requires off > 0 && slba + off <= 64 * |words| && (slba + off) % 64 == 0
    requires Added(before, words, slba, slba + off) && RangeFree(before, slba, off)
    ensures var k := (slba + off) / 64 - 1;
            Added(before, words[k := Unlock(words[k], UndoMask(off))], slba, slba + off - UndoLength(off))
  {
    hide Held, Unlock, GetMask64;
    var k, n := (slba + off) / 64 - 1, UndoLength(off);
    var after := words[k := Unlock(words[k], GetMask64(64 - n, n))];
    forall lba: nat | lba < 64 * |before|
      ensures Held(after, lba) <==> Held(before, lba) || slba <= lba < slba + off - n
    {
      ClearRun(words, k, 64 - n, n, lba);
      assert Held(words, lba) <==> Held(before, lba) || slba <= lba < slba + off;
    }
  }

  lemma RemoveRun(before: seq<bv64>, words: seq<bv64>, slba: nat, nlbs: nat, off: nat)
    requires off < nlbs && slba + nlbs <= 64 * |words|
    requires Removed(before, words, slba, slba + off)
    ensures var k := (slba + off) / 64;
            Removed(before, words[k := Unlock(words[k], RunMask(slba, nlbs, off))], slba,
              slba + off + RunLength(slba, nlbs, off))
  {
    hide Held, Unlock, GetMask64;
    var k, o, n := (slba + off) / 64, (slba + off) % 64, RunLength(slba, nlbs, off);
    var after := words[k := Unlock(words[k], GetMask64(o, n))];
    forall lba: nat | lba < 64 * |before|
      ensures Held(after, lba) <==> Held(before, lba) && !(slba <= lba < slba + off + n)
    {
      ClearRun(words, k, o, n, lba);
      assert Held(words, lba) <==> Held(before, lba) && !(slba <= lba < slba + off);
    }
  }

  lemma FoundBusy(before: seq<bv64>, words: seq<bv64>, slba: nat, nlbs: nat, off: nat)
    requires off < nlbs && slba + nlbs <= 64 * |words|
    requires Added(before, words, slba, slba + off)
    ensures Busy(words[(slba + off) / 64], RunMask(slba, nlbs, off))
       <==> exists lba: nat :: slba + off <= lba < slba + off + RunLength(slba, nlbs, off) && Held(before, lba)
  {
    hide Held, Busy, GetMask64;
    var k, o, n := (slba + off) / 64, (slba + off) % 64, RunLength(slba, nlbs, off);
    TestRun(words, k, o, n);
    assert forall lba: nat | slba + off <= lba < slba + off + n :: Held(words, lba) <==> Held(before, lba);
  }

  /** A free prefix of the range and a test of the next run. */
  lemma RunFree(before: seq<bv64>, words: seq<bv64>, slba: nat, nlbs: nat, off: nat)
    requires off < nlbs && slba + nlbs <= 64 * |words| && |before| == |words|
    requires Added(before, words, slba, slba + off) && RangeFree(before, slba, off)
    ensures Busy(words[(slba + off) / 64], RunMask(slba, nlbs, off)) ==> !RangeFree(before, slba, nlbs)
    ensures !Busy(words[(slba + off) / 64], RunMask(slba, nlbs, off)) ==>
      RangeFree(before, slba, off + RunLength(slba, nlbs, off))
  {
    hide Held, Busy, GetMask64;
    FoundBusy(before, words, slba, nlbs, off);
  }

  lemma NothingAdded(words: seq<bv64>, slba: nat)
    requires slba <= 64 * |words|
    ensures Added(words, words, slba, slba) && RangeFree(words, slba, 0)
  {
  }

  lemma NothingLeft(before: seq<bv64>, words: seq<bv64>, slba: nat)
    requires Added(before, words, slba, slba)
    ensures words == before
  {
    hide Held;
    SameHeld(words, before);
  }

  class LbaLock {
    const words: array<bv64>

    constructor (nlbs: nat)
      ensures fresh(words) && words.Length == (nlbs + 63) / 64
      ensures forall lba: nat | lba < 64 * words.Length :: !Held(words[..], lba)
    {
      words := new bv64[(nlbs + 63) / 64](_ => 0);
      new;
      NoneHeld(words[..]);
    }

    /** try_lock_lbas: succeeds exactly when the whole range is free, and otherwise leaves the
        bitmap as it found it. */
    method TryLockLbas(slba: nat, nlbs: nat) returns (res: int)
      requires slba + nlbs <= 64 * words.Length
      modifies words
      ensures res == 0 || res == -1
      ensures res == 0 <==> RangeFree(old(words[..]), slba, nlbs)
      ensures res == 0 ==> Added(old(words[..]), words[..], slba, slba + nlbs)
      ensures res != 0 ==> words[..] == old(words[..])
    {
      hide Busy, Lock, Unlock, GetMask64, RangeFree, Added;
      ghost var before := words[..];
      var off: nat := 0;
      var word := slba / 64;
      NothingAdded(before, slba);
      while off < nlbs
        invariant off <= nlbs && (off < nlbs ==> word == (slba + off) / 64)
        invariant 0 < off < nlbs ==> (slba + off) % 64 == 0
        invariant RangeFree(before, slba, off)
        invariant Added(before, words[..], slba, slba + off)
      {
        var n, mask := RunLength(slba, nlbs, off), RunMask(slba, nlbs, off);
        RunFree(before, words[..], slba, nlbs, off);
        if Busy(words[word], mask) {
          Rollback(slba, off, word, before);
          return -1;
        }
        AddRun(before, words[..], slba, nlbs, off);
        words[word] := Lock(words[word], mask);
        off := off + n;
        word := word + 1;
      }
      return 0;
    }

    /** The rollback of try_lock_lbas, downward from the word that was busy. */
    method Rollback(slba: nat, locked: nat, busy: nat, ghost before: seq<bv64>)
      requires slba + locked <= 64 * words.Length && |before| == words.Length
      requires locked > 0 ==> 64 * busy == slba + locked
      requires RangeFree(before, slba, locked) && Added(before, words[..], slba, slba + locked)
      modifies words
      ensures words[..] == before
    {
      hide Busy, Lock, Unlock, GetMask64, Added;
      var off: nat, word: nat := locked, busy;
      while off > 0
        invariant off <= locked && (off > 0 ==> 64 * word == slba + off)
        invariant Added(before, words[..], slba, slba + off)
      {
        UndoRun(before, words[..], slba, off);
        word := word - 1;
        words[word] := Unlock(words[word], UndoMask(off));
        off := off - UndoLength(off);
      }
      NothingLeft(before, words[..], slba);
    }

    /** unlock_lbas: clears exactly the bits of the range. */
    method UnlockLbas(slba: nat, nlbs: nat)
      requires slba + nlbs <= 64 * words.Length
      modifies words
      ensures Removed(old(words[..]), words[..], slba, slba + nlbs)
    {
      hide Held, Busy, Lock, Unlock, GetMask64;
      ghost var before := words[..];
      var off: nat := 0;
      var word := slba / 64;
      while off < nlbs
        invariant off <= nlbs && (off < nlbs ==> word == (slba + off) / 64)
        invariant Removed(before, words[..], slba, slba + off)
      {
        RemoveRun(before, words[..], slba, nlbs, off);
        words[word] := Unlock(words[word], RunMask(slba, nlbs, off));
        off := off + RunLength(slba, nlbs, off);
        word := word + 1;
      }
    }
  }

  /** Locking a free range and unlocking it again restores the bitmap word for word. */
  lemma LockUnlockRestores(before: seq<bv64>, locked: seq<bv64>, after: seq<bv64>, slba: nat, nlbs: nat)
    requires slba + nlbs <= 64 * |before| && RangeFree(before, slba, nlbs)
    requires Added(before, locked, slba, slba + nlbs) && Removed(locked, after, slba, slba + nlbs)
    ensures after == before
  {
    hide Held;
    SameHeld(after, before);
  }
}
