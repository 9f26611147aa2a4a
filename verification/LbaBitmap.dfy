/** The lock bitmap of the verifier: one bit per LBA, 64 LBAs to a word. */
module LbaBitmap {
  import opened Bits

  /** The bit of an LBA is set. */
  predicate Held(words: seq<bv64>, lba: nat)
    requires lba < 64 * |words|
  {
    Bit(words[lba / 64], lba % 64)
  }

  /** The run of bits handled in one word when `off` of the `nlbs` blocks from `slba` are done. */
  function RunLength(slba: nat, nlbs: nat, off: nat): (n: nat)
    requires off < nlbs
    ensures 1 <= n <= 64 - (slba + off) % 64 && off + n <= nlbs
    ensures off + n < nlbs ==> (slba + off + n) % 64 == 0
    ensures (slba + off) / 64 == (slba + off + n - 1) / 64
  {
    var room := 64 - (slba + off) % 64;
    if room < nlbs - off then room else nlbs - off
  }

  function RunMask(slba: nat, nlbs: nat, off: nat): bv64
    requires off < nlbs
  {
    GetMask64((slba + off) % 64, RunLength(slba, nlbs, off))
  }

  /** Rollback recomputes the last run from the count of locked blocks alone. */
  function UndoLength(off: nat): (n: nat)
    requires off > 0
    ensures 1 <= n <= 64 && n <= off
  {
    if 64 < off then 64 else off
  }

  function UndoMask(off: nat): bv64
    requires off > 0
  {
    GetMask64(64 - UndoLength(off), UndoLength(off))
  }

  lemma SameWord(lba: nat, k: nat)
    ensures lba / 64 == k <==> 64 * k <= lba < 64 * k + 64
    ensures lba / 64 == k ==> lba % 64 == lba - 64 * k
  {
  }

  /** The value a lock step swaps in for the word it read. */
  function Lock(seen: bv64, m: bv64): bv64 { seen | m }

  /** The value an unlock step swaps in for the word it read. */
  function Unlock(seen: bv64, m: bv64): bv64 { seen & !m }

  /** A bit of the mask is already set in the word. */
  predicate Busy(seen: bv64, m: bv64) { seen & m != 0 }

  /** The mask covers the positions o .. o + n of a word. */
  ghost predicate Covers(m: bv64, o: nat, n: nat) {
    forall i: nat | i < 64 :: Bit(m, i) <==> o <= i < o + n
  }

  ghost predicate Sets(a: bv64, w: bv64, o: nat, n: nat) {
    forall i: nat | i < 64 :: Bit(w, i) <==> Bit(a, i) || o <= i < o + n
  }

  ghost predicate Clears(a: bv64, w: bv64, o: nat, n: nat) {
    forall i: nat | i < 64 :: Bit(w, i) <==> Bit(a, i) && !(o <= i < o + n)
  }

  lemma MaskCovers(o: nat, n: nat)
    requires o < 64 && 1 <= n <= 64 - o
    ensures Covers(GetMask64(o, n), o, n)
  {
    hide Bit, GetMask64;
    forall i: nat | i < 64 ensures Bit(GetMask64(o, n), i) <==> o <= i < o + n { MaskBit(o, n, i); }
  }

  lemma LockBit(a: bv64, m: bv64, i: nat)
    requires i < 64
    ensures Bit(Lock(a, m), i) <==> Bit(a, i) || Bit(m, i)
  {
    OrBit(a, m, i);
  }

  lemma LockSets(a: bv64, m: bv64, o: nat, n: nat)
    requires Covers(m, o, n)
    ensures Sets(a, Lock(a, m), o, n)
  {
    hide Bit, Lock;
    forall i: nat | i < 64 ensures Bit(Lock(a, m), i) <==> Bit(a, i) || o <= i < o + n { LockBit(a, m, i); }
  }

  lemma UnlockBit(a: bv64, m: bv64, i: nat)
    requires i < 64
    ensures Bit(Unlock(a, m), i) <==> Bit(a, i) && !Bit(m, i)
  {
    AndNotBit(a, m, i);
  }

  lemma UnlockClears(a: bv64, m: bv64, o: nat, n: nat)
    requires Covers(m, o, n)
    ensures Clears(a, Unlock(a, m), o, n)
  {
    hide Bit, Unlock;
    forall i: nat | i < 64 ensures Bit(Unlock(a, m), i) <==> Bit(a, i) && !(o <= i < o + n) { UnlockBit(a, m, i); }
  }

  lemma BusyBits(a: bv64, m: bv64)
    ensures Busy(a, m) <==> exists i: nat :: i < 64 && Bit(a, i) && Bit(m, i)
  {
    DisjointBits(a, m);
  }

  /** The bit of an LBA after one word is replaced. */
  lemma ReplaceWord(words: seq<bv64>, k: nat, w: bv64, lba: nat)
    requires k < |words| && lba < 64 * |words|
    ensures lba / 64 == k ==> Held(words[k := w], lba) == Bit(w, lba % 64)
    ensures lba / 64 == k ==> Held(words, lba) == Bit(words[k], lba % 64)
    ensures lba / 64 != k ==> Held(words[k := w], lba) == Held(words, lba)
  {
    hide Bit;
  }

  /** Swapping in the locked word sets exactly the bits of the run of LBAs. */
  lemma SetRun(words: seq<bv64>, k: nat, o: nat, n: nat, lba: nat)
    requires k < |words| && o < 64 && 1 <= n <= 64 - o && lba < 64 * |words|
    ensures Held(words[k := Lock(words[k], GetMask64(o, n))], lba)
       <==> Held(words, lba) || 64 * k + o <= lba < 64 * k + o + n
  {
    hide Covers, Sets, Lock, GetMask64, Held, Bit;
    var m := GetMask64(o, n);
    MaskCovers(o, n);
    LockSets(words[k], m, o, n);
    SetWord(words, k, Lock(words[k], m), o, n, lba);
  }

  lemma SetWord(words: seq<bv64>, k: nat, w: bv64, o: nat, n: nat, lba: nat)
    requires k < |words| && o + n <= 64 && lba < 64 * |words| && Sets(words[k], w, o, n)
    ensures Held(words[k := w], lba) <==> Held(words, lba) || 64 * k + o <= lba < 64 * k + o + n
  {
    hide Bit, Held;
    SameWord(lba, k);
    ReplaceWord(words, k, w, lba);
  }

  /** Swapping in the unlocked word clears exactly the bits of the run of LBAs. */
  lemma ClearRun(words: seq<bv64>, k: nat, o: nat, n: nat, lba: nat)
    requires k < |words| && o < 64 && 1 <= n <= 64 - o && lba < 64 * |words|
    ensures Held(words[k := Unlock(words[k], GetMask64(o, n))], lba)
       <==> Held(words, lba) && !(64 * k + o <= lba < 64 * k + o + n)
  {
    hide Covers, Clears, Unlock, GetMask64, Held, Bit;
    var m := GetMask64(o, n);
    MaskCovers(o, n);
    UnlockClears(words[k], m, o, n);
    ClearWord(words, k, Unlock(words[k], m), o, n, lba);
  }

  lemma ClearWord(words: seq<bv64>, k: nat, w: bv64, o: nat, n: nat, lba: nat)
    requires k < |words| && o + n <= 64 && lba < 64 * |words| && Clears(words[k], w, o, n)
    ensures Held(words[k := w], lba) <==> Held(words, lba) && !(64 * k + o <= lba < 64 * k + o + n)
  {
    hide Bit, Held;
    SameWord(lba, k);
    ReplaceWord(words, k, w, lba);
  }

  /** The test against a mask answers whether an LBA of its run is held. */
  lemma TestRun(words: seq<bv64>, k: nat, o: nat, n: nat)
    requires k < |words| && o < 64 && 1 <= n <= 64 - o
    ensures Busy(words[k], GetMask64(o, n))
       <==> exists lba: nat :: 64 * k + o <= lba < 64 * k + o + n && Held(words, lba)
  {
    hide GetMask64, Covers;
    MaskCovers(o, n);
    TestCovered(words, k, GetMask64(o, n), o, n);
  }

  lemma TestCovered(words: seq<bv64>, k: nat, m: bv64, o: nat, n: nat)
    requires k < |words| && Covers(m, o, n) && o + n <= 64
    ensures Busy(words[k], m) <==> exists lba: nat :: 64 * k + o <= lba < 64 * k + o + n && Held(words, lba)
  {
    hide Bit, Busy;
    BusyBits(words[k], m);
    if Busy(words[k], m) {
      var i: nat :| i < 64 && Bit(words[k], i) && Bit(m, i);
      SameWord(64 * k + i, k);
      assert Held(words, 64 * k + i);
    } else {
      forall lba: nat | 64 * k + o <= lba < 64 * k + o + n ensures !Held(words, lba) {
        SameWord(lba, k);
        assert Bit(m, lba % 64);
      }
    }
  }

  /** Bitmaps that hold the same LBAs are equal. */
  lemma SameHeld(a: seq<bv64>, b: seq<bv64>)
    requires |a| == |b|
    requires forall lba: nat | lba < 64 * |a| :: Held(a, lba) <==> Held(b, lba)
    ensures a == b
  {
    hide Bit;
    forall k | 0 <= k < |a| ensures a[k] == b[k] {
      forall i: nat | i < 64 ensures Bit(a[k], i) <==> Bit(b[k], i) {
        SameWord(64 * k + i, k);
        assert Held(a, 64 * k + i) <==> Held(b, 64 * k + i);
      }
      SameBits(a[k], b[k]);
    }
  }

  /** The bitmap with no bit set. */
  lemma NoneHeld(words: seq<bv64>)
    ensures (forall k | 0 <= k < |words| :: words[k] == 0)
       <==> forall lba: nat | lba < 64 * |words| :: !Held(words, lba)
  {
    hide Bit;
    if forall k | 0 <= k < |words| :: words[k] == 0 {
      forall lba: nat | lba < 64 * |words| ensures !Held(words, lba) {
        ZeroBits(words[lba / 64]);
      }
    }
    if forall lba: nat | lba < 64 * |words| :: !Held(words, lba) {
      forall k | 0 <= k < |words| ensures words[k] == 0 {
        forall i: nat | i < 64 ensures !Bit(words[k], i) {
          SameWord(64 * k + i, k);
          assert !Held(words, 64 * k + i);
        }
        ZeroBits(words[k]);
      }
    }
  }
}
