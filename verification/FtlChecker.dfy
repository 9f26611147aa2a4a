/** ftl_checker: rebuild validity bitmap and valid counts from the logical-to-physical map and
    compare the bitmap with the one the firmware keeps. */
module FtlChecker {
  import opened Common
  import Bytes

  const INVALID_MPA: nat := 0xFFFF_FFFF
  const UNMAPPED_MPA: nat := 0xFFFF_FFF0
  const UNCORRECTABLE_MPA: nat := 0xFFFF_FFF1

  /** A map entry that names a physical address. */
  predicate Real(mpa: nat) {
    mpa != INVALID_MPA && mpa != UNMAPPED_MPA && mpa != UNCORRECTABLE_MPA
  }

  // ----- bits of a 32-bit word

  predicate BitAt(dw: bv32, i: bv5) {
    dw & ((1 as bv32) << i) != 0
  }

  function WithBit(dw: bv32, i: bv5): bv32 {
    dw | ((1 as bv32) << i)
  }

  /** The same test by shifting the word down. */
  predicate Shifted(dw: bv32, i: bv5) {
    (dw >> i) & 1 == 1
  }

  lemma BitForms(dw: bv32, i: bv5)
    ensures BitAt(dw, i) == Shifted(dw, i)
  {
  }

  lemma OneBit(i: bv5, j: bv5)
    ensures Shifted((1 as bv32) << i, j) <==> i == j
  {
  }

  lemma ShiftedOr(a: bv32, b: bv32, i: bv5)
    ensures Shifted(a | b, i) <==> Shifted(a, i) || Shifted(b, i)
  {
  }

  lemma ShiftedDecide(a: bv32, b: bv32, i: bv5)
    ensures Shifted(a & (a ^ b), i) <==> Shifted(a, i) && !Shifted(b, i)
  {
  }

  lemma WithBitSets(dw: bv32, i: bv5, j: bv5)
    ensures BitAt(WithBit(dw, i), j) <==> i == j || BitAt(dw, j)
  {
    hide Shifted, BitAt;
    BitForms(WithBit(dw, i), j);
    BitForms(dw, j);
    ShiftedOr(dw, (1 as bv32) << i, j);
    OneBit(i, j);
  }

  lemma NoBitAt(i: bv5)
    ensures !BitAt(0, i)
  {
  }

  /** The build has no bit that the original lacks. */
  predicate Covered(build: bv32, orig: bv32) {
    build & (build ^ orig) == 0
  }

  lemma CoveredAt(build: bv32, orig: bv32, i: bv5)
    requires Covered(build, orig) && BitAt(build, i)
    ensures BitAt(orig, i)
  {
  }

  lemma HighestAt(w: bv32, k: bv5) returns (b: bv5)
    requires w != 0 && (k < 31 ==> w >> (k + 1) == 0)
    ensures BitAt(w, b)
    decreases k as nat
  {
    if w >> k != 0 {
      TopAt(w, k);
      b := k;
    } else {
      b := HighestAt(w, k - 1);
    }
  }

  lemma TopAt(w: bv32, k: bv5)
    requires w >> k != 0 && (k < 31 ==> w >> (k + 1) == 0)
    ensures BitAt(w, k)
  {
  }

  lemma DecideBit(build: bv32, orig: bv32, i: bv5)
    ensures BitAt(build & (build ^ orig), i) <==> BitAt(build, i) && !BitAt(orig, i)
  {
    hide Shifted, BitAt;
    BitForms(build & (build ^ orig), i);
    BitForms(build, i);
    BitForms(orig, i);
    ShiftedDecide(build, orig, i);
  }

  lemma UncoveredAt(build: bv32, orig: bv32) returns (i: bv5)
    requires !Covered(build, orig)
    ensures BitAt(build, i) && !BitAt(orig, i)
  {
    i := HighestAt(build & (build ^ orig), 31);
    DecideBit(build, orig, i);
  }

  lemma IndexBound(b: bv5)
    ensures 0 <= b as int < 32 && (b as int) as bv5 == b
  {
  }

  lemma NextIndex(b: bv5)
    requires b as int < 31
    ensures (b + 1) as int == b as int + 1
  {
  }

  lemma {:induction false} SomeIndex(i: int) returns (b: bv5)
    requires 0 <= i < 32
    ensures b as int == i
    decreases i
  {
    if i == 0 {
      b := 0;
    } else {
      b := SomeIndex(i - 1);
      NextIndex(b);
      b := b + 1;
    }
  }

  lemma IndexRoundTrip(i: int)
    requires 0 <= i < 32
    ensures (i as bv5) as int == i
  {
    var b := SomeIndex(i);
    IndexBound(b);
  }

  // ----- the bitmap

  /** The validity bit of a physical address. */
  predicate Valid(words: seq<bv32>, mpa: nat)
    requires mpa / 32 < |words|
  {
    BitAt(words[mpa / 32], (mpa % 32) as bv5)
  }

  lemma SetValid(words: seq<bv32>, mpa: nat, other: nat)
    requires mpa / 32 < |words| && other / 32 < |words|
    ensures Valid(words[mpa / 32 := WithBit(words[mpa / 32], (mpa % 32) as bv5)], other) <==>
      other == mpa || Valid(words, other)
  {
    hide BitAt, WithBit;
    WithBitSets(words[mpa / 32], (mpa % 32) as bv5, (other % 32) as bv5);
    IndexRoundTrip(mpa % 32);
    IndexRoundTrip(other % 32);
  }

  lemma ZeroInvalid(words: seq<bv32>, mpa: nat)
    requires mpa / 32 < |words| && words[mpa / 32] == 0
    ensures !Valid(words, mpa)
  {
    NoBitAt((mpa % 32) as bv5);
  }

  // ----- counting over a map

  /** mpa >> ftl_notify_group_offset. */
  function Group(mpa: nat, offset: nat): nat
    decreases offset
  {
    if offset == 0 then mpa else Group(mpa / 2, offset - 1)
  }

  function Pow2(n: nat): (p: nat)
    ensures p > 0
  {
    if n == 0 then 1 else 2 * Pow2(n - 1)
  }

  /** The group of an address is the address divided by the group size. */
  lemma {:induction false} GroupIsQuotient(mpa: nat, offset: nat)
    ensures Group(mpa, offset) == mpa / Pow2(offset)
    decreases offset
  {
    if offset > 0 {
      GroupIsQuotient(mpa / 2, offset - 1);
      HalfQuotient(mpa, Pow2(offset - 1));
    }
  }

  lemma HalfQuotient(x: nat, p: nat)
    requires p > 0
    ensures (x / 2) / p == x / (2 * p)
  {
    var q, r := (x / 2) / p, (x / 2) % p;
    assert x / 2 == p * q + r;
    assert x == (2 * p) * q + (2 * r + x % 2);
    Bytes.QuotientUnique(x, 2 * p, q, 2 * r + x % 2);
  }

  /** How many entries of the map lie in a group. */
  function GroupCount(mapping: seq<nat>, offset: nat, g: nat): (n: nat)
    ensures n <= |mapping|
  {
    if mapping == [] then 0
    else
      var last := mapping[|mapping| - 1];
      GroupCount(mapping[..|mapping| - 1], offset, g) + if Real(last) && Group(last, offset) == g then 1 else 0
  }

  /** How often an entry occurs in the map. */
  function Occurrences(mapping: seq<nat>, v: nat): nat {
    if mapping == [] then 0
    else Occurrences(mapping[..|mapping| - 1], v) + if mapping[|mapping| - 1] == v then 1 else 0
  }

  lemma NoOccurrences()
    ensures forall v :: Occurrences([], v) == 0
  {
  }

  lemma OccurrencesSnoc(mapping: seq<nat>, mpa: nat)
    ensures forall v :: Occurrences(mapping + [mpa], v) == Occurrences(mapping, v) + if mpa == v then 1 else 0
  {
    assert (mapping + [mpa])[..|mapping|] == mapping;
  }

  /** The physical addresses in use. */
  ghost function Image(mapping: seq<nat>): set<nat> {
    set i | 0 <= i < |mapping| && Real(mapping[i]) :: mapping[i]
  }

  /** Two LBAs share a physical address. */
  ghost predicate HasDuplicate(mapping: seq<nat>) {
    exists i, j :: 0 <= i < j < |mapping| && Real(mapping[i]) && mapping[i] == mapping[j]
  }

  ghost function ImageInGroup(mapping: seq<nat>, offset: nat, g: nat): set<nat> {
    set mpa | mpa in Image(mapping) && Group(mpa, offset) == g
  }

  lemma ImageSnoc(mapping: seq<nat>, mpa: nat)
    ensures Image(mapping + [mpa]) == Image(mapping) + if Real(mpa) then {mpa} else {}
  {
    var m := mapping + [mpa];
    assert m[|mapping|] == mpa;
    forall x | x in Image(mapping) ensures x in Image(m) {
      var i :| 0 <= i < |mapping| && Real(mapping[i]) && mapping[i] == x;
      assert m[i] == x;
    }
  }

  lemma DuplicateSnoc(mapping: seq<nat>, mpa: nat)
    ensures HasDuplicate(mapping + [mpa]) <==> HasDuplicate(mapping) || mpa in Image(mapping)
  {
    var m, n := mapping + [mpa], |mapping|;
    if HasDuplicate(mapping) {
      var i, j :| 0 <= i < j < n && Real(mapping[i]) && mapping[i] == mapping[j];
      assert m[i] == m[j];
    }
    if mpa in Image(mapping) {
      var i :| 0 <= i < n && Real(mapping[i]) && mapping[i] == mpa;
      assert m[i] == m[n];
    }
    if HasDuplicate(m) {
      var i, j :| 0 <= i < j < |m| && Real(m[i]) && m[i] == m[j];
      if j < n { assert mapping[i] == mapping[j]; } else { assert mapping[i] == mpa; }
    }
  }

  /** Without duplicates a group's count is the number of its valid addresses. */
  lemma {:induction false} CountIsCardinality(mapping: seq<nat>, offset: nat, g: nat)
    requires !HasDuplicate(mapping)
    ensures GroupCount(mapping, offset, g) == |ImageInGroup(mapping, offset, g)|
    decreases |mapping|
  {
    hide Group;
    if mapping == [] {
      assert ImageInGroup(mapping, offset, g) == {};
    } else {
      var n := |mapping| - 1;
      var init, last := mapping[..n], mapping[n];
      assert mapping == init + [last];
      DuplicateSnoc(init, last);
      ImageSnoc(init, last);
      CountIsCardinality(init, offset, g);
      if Real(last) && Group(last, offset) == g {
        assert ImageInGroup(mapping, offset, g) == ImageInGroup(init, offset, g) + {last};
      } else {
        assert ImageInGroup(mapping, offset, g) == ImageInGroup(init, offset, g);
      }
    }
  }

  lemma CountSnoc(mapping: seq<nat>, mpa: nat, offset: nat, g: nat)
    ensures GroupCount(mapping + [mpa], offset, g)
         == GroupCount(mapping, offset, g) + if Real(mpa) && Group(mpa, offset) == g then 1 else 0
  {
    assert (mapping + [mpa])[..|mapping|] == mapping;
  }

  // ----- the checker

  /** Bitmap, counters, result and sentinel count after the entries `m`. */
  ghost predicate Built(m: seq<nat>, offset: nat, vb: seq<bv32>, vc: seq<nat>, ret: int, sentinels: nat) {
    && ret == (if HasDuplicate(m) then -1 else 0)
    && (forall mpa: nat | mpa / 32 < |vb| :: Valid(vb, mpa) <==> mpa in Image(m))
    && (forall g | 0 <= g < |vc| :: vc[g] == GroupCount(m, offset, g))
    && Sum(vc) + sentinels == |m|
  }

  lemma BuiltSentinel(m: seq<nat>, mpa: nat, offset: nat, vb: seq<bv32>, vc: seq<nat>, ret: int, sentinels: nat)
    requires Built(m, offset, vb, vc, ret, sentinels) && !Real(mpa)
    ensures Built(m + [mpa], offset, vb, vc, ret, sentinels + 1)
  {
    hide Valid, Group, HasDuplicate, Image;
    ImageSnoc(m, mpa);
    DuplicateSnoc(m, mpa);
    ImageIsReal(m, mpa);
    forall g | 0 <= g < |vc| ensures vc[g] == GroupCount(m + [mpa], offset, g) { CountSnoc(m, mpa, offset, g); }
  }

  lemma BuiltReal(m: seq<nat>, mpa: nat, offset: nat, vb: seq<bv32>, vc: seq<nat>, ret: int, sentinels: nat,
    vb': seq<bv32>, vc': seq<nat>, ret': int)
    requires Built(m, offset, vb, vc, ret, sentinels) && Real(mpa) && |m| + 1 < U32_LIMIT
    requires |vb'| == |vb| && mpa / 32 < |vb| && Group(mpa, offset) < |vc|
    requires forall other: nat | other / 32 < |vb| :: Valid(vb', other) <==> other == mpa || Valid(vb, other)
    requires vc' == vc[Group(mpa, offset) := (vc[Group(mpa, offset)] + 1) % U32_LIMIT]
    requires ret' == if Valid(vb, mpa) then -1 else ret
    ensures Built(m + [mpa], offset, vb', vc', ret', sentinels)
  {
    hide Valid, Group, HasDuplicate, Image;
    ImageSnoc(m, mpa);
    DuplicateSnoc(m, mpa);
    var k := Group(mpa, offset);
    SumUpdate(vc, k, vc[k] + 1);
    assert vc[k] == GroupCount(m, offset, k) <= |m|;
    assert vc' == vc[k := vc[k] + 1];
    forall g | 0 <= g < |vc'| ensures vc'[g] == GroupCount(m + [mpa], offset, g) { CountSnoc(m, mpa, offset, g); }
  }

  class Checker {
    const vbTable: array<bv32>
    const vcTable: array<nat>
    const groupOffset: nat

    constructor (vbWords: nat, vcWords: nat, groupOffset: nat)
      ensures fresh(vbTable) && fresh(vcTable) && vbTable.Length == vbWords && vcTable.Length == vcWords
      ensures this.groupOffset == groupOffset && Zeroed()
    {
      vbTable := new bv32[vbWords](_ => 0);
      vcTable := new nat[vcWords](_ => 0);
      this.groupOffset := groupOffset;
    }

    ghost predicate Zeroed()
      reads vbTable, vcTable
    {
      && (forall i | 0 <= i < vbTable.Length :: vbTable[i] == 0)
      && (forall g | 0 <= g < vcTable.Length :: vcTable[g] == 0)
      && vbTable as object != vcTable
    }

    ghost predicate InBounds(mapping: seq<nat>) {
      |mapping| < U32_LIMIT &&
      forall i | 0 <= i < |mapping| && Real(mapping[i]) ::
        mapping[i] / 32 < vbTable.Length && Group(mapping[i], groupOffset) < vcTable.Length
    }

    /** _self_check_vbtbl_write: refuses an address that is already marked. */
    method VbWrite(mpa: nat) returns (res: int)
      requires mpa / 32 < vbTable.Length
      modifies vbTable
      ensures res == if Valid(old(vbTable[..]), mpa) then -1 else 0
      ensures forall other: nat | other / 32 < vbTable.Length ::
                Valid(vbTable[..], other) <==> other == mpa || Valid(old(vbTable[..]), other)
    {
      hide Valid, WithBit, BitAt;
      ghost var before := vbTable[..];
      var k, bit := mpa / 32, (mpa % 32) as bv5;
      ValidIs(before, mpa);
      if BitAt(vbTable[k], bit) { return -1; }
      vbTable[k] := WithBit(vbTable[k], bit);
      forall other: nat | other / 32 < vbTable.Length
        ensures Valid(vbTable[..], other) <==> other == mpa || Valid(before, other)
      {
        SetValid(before, mpa, other);
        assert vbTable[..] == before[k := WithBit(before[k], bit)];
      }
      return 0;
    }

    /** _self_check_vctbl_write: a 32-bit counter per group. */
    method VcWrite(mpa: nat)
      requires Group(mpa, groupOffset) < vcTable.Length
      modifies vcTable
      ensures var g := Group(mpa, groupOffset);
              vcTable[..] == old(vcTable[..])[g := (old(vcTable[..])[g] + 1) % U32_LIMIT]
    {
      var idx := Group(mpa, groupOffset);
      vcTable[idx] := (vcTable[idx] + 1) % U32_LIMIT;
    }

    /** _build_vbtbl_vctbl_from_mtbl: the bitmap becomes the image of the map, the counters count
        every entry once, and a shared address is reported. */
    method Build(mapping: seq<nat>) returns (ret: int, invalid: nat, unmapped: nat, uncorrectable: nat)
      requires Zeroed() && InBounds(mapping)
      modifies vbTable, vcTable
      ensures ret == if HasDuplicate(mapping) then -1 else 0
      ensures forall mpa: nat | mpa / 32 < vbTable.Length :: Valid(vbTable[..], mpa) <==> mpa in Image(mapping)
      ensures forall g | 0 <= g < vcTable.Length :: vcTable[g] == GroupCount(mapping, groupOffset, g)
      ensures Sum(vcTable[..]) + invalid + unmapped + uncorrectable == |mapping|
      ensures invalid == Occurrences(mapping, INVALID_MPA) && unmapped == Occurrences(mapping, UNMAPPED_MPA)
      ensures uncorrectable == Occurrences(mapping, UNCORRECTABLE_MPA)
      ensures ret == 0 ==> forall g | 0 <= g < vcTable.Length :: vcTable[g] == |ImageInGroup(mapping, groupOffset, g)|
    {
      hide Valid, Group, Built, BitAt, Occurrences;
      ret, invalid, unmapped, uncorrectable := 0, 0, 0, 0;
      BuiltStart(vbTable[..], vcTable[..], groupOffset);
      assert mapping[..0] == [];
      NoOccurrences();
      for lba := 0 to |mapping|
        invariant Built(mapping[..lba], groupOffset, vbTable[..], vcTable[..], ret, invalid + unmapped + uncorrectable)
        invariant invalid == Occurrences(mapping[..lba], INVALID_MPA)
        invariant unmapped == Occurrences(mapping[..lba], UNMAPPED_MPA)
        invariant uncorrectable == Occurrences(mapping[..lba], UNCORRECTABLE_MPA)
      {
        var mpa := mapping[lba];
        ghost var vb, vc, was := vbTable[..], vcTable[..], ret;
        ghost var sentinels := invalid + unmapped + uncorrectable;
        assert mapping[..lba + 1] == mapping[..lba] + [mpa];
        OccurrencesSnoc(mapping[..lba], mpa);
        if mpa == INVALID_MPA {
          invalid := invalid + 1;
        } else if mpa == UNMAPPED_MPA {
          unmapped := unmapped + 1;
        } else if mpa == UNCORRECTABLE_MPA {
          uncorrectable := uncorrectable + 1;
        } else {
          var res := VbWrite(mpa);
          if res == -1 { ret := -1; }
          assert vcTable[..] == vc;
          ghost var vb' := vbTable[..];
          VcWrite(mpa);
          assert vbTable[..] == vb';
          BuiltReal(mapping[..lba], mpa, groupOffset, vb, vc, was, sentinels, vbTable[..], vcTable[..], ret);
        }
        if !Real(mpa) { BuiltSentinel(mapping[..lba], mpa, groupOffset, vb, vc, was, sentinels); }
      }
      assert mapping[..|mapping|] == mapping;
      BuiltEnd(mapping, groupOffset, vbTable[..], vcTable[..], ret, invalid + unmapped + uncorrectable);
    }

    /** The bitmap part of _compare_vbtbl_vctbl_from_chktbl: a word passes when the build has no
        bit that the firmware's word lacks. */
    method CompareBitmap(firmware: seq<bv32>) returns (ret: int)
      requires vbTable.Length <= |firmware|
      ensures ret == 0 || ret == -1
      ensures ret == 0 <==> forall mpa: nat | mpa / 32 < vbTable.Length && Valid(vbTable[..], mpa) ::
        Valid(firmware, mpa)
    {
      hide Valid, BitAt, Covered;
      for i := 0 to vbTable.Length
        invariant forall mpa: nat | mpa / 32 < i && Valid(vbTable[..], mpa) :: Valid(firmware, mpa)
      {
        if !Covered(vbTable[i], firmware[i]) {
          ghost var b := UncoveredAt(vbTable[i], firmware[i]);
          BitIsValid(vbTable[..], i, b);
          BitIsValid(firmware, i, b);
          return -1;
        }
        forall mpa: nat | mpa / 32 == i && Valid(vbTable[..], mpa) ensures Valid(firmware, mpa) {
          ValidIs(vbTable[..], mpa);
          ValidIs(firmware, mpa);
          CoveredAt(vbTable[i], firmware[i], (mpa % 32) as bv5);
        }
      }
      return 0;
    }

    /** The whole check, as main runs it: it succeeds exactly when no two LBAs share an address, both
        files can be read and every address in use is valid in what is read as the firmware's bitmap. */
    method Check(mapping: seq<nat>, bitmapFile: File, countFile: File) returns (ok: bool)
      requires Zeroed() && InBounds(mapping) && (bitmapFile.Contents? ==> vbTable.Length <= |Buffer(bitmapFile)|)
      modifies vbTable, vcTable
      ensures ok <==> && !HasDuplicate(mapping) && bitmapFile.Contents? && countFile.Contents?
                      && forall mpa: nat | mpa in Image(mapping) ::
                        mpa / 32 < |Buffer(bitmapFile)| && Valid(Buffer(bitmapFile), mpa)
    {
      hide Valid, Group, HasDuplicate;
      var ret, _, _, _ := Build(mapping);
      assert forall mpa: nat | mpa in Image(mapping) :: mpa / 32 < vbTable.Length;
      if ret < 0 || bitmapFile.Unreadable? || countFile.Unreadable? { return false; }
      ret := CompareBitmap(Buffer(bitmapFile));
      return ret == 0;
    }
  }

  /** A table file of the firmware: its words, and what lies behind them in memory. */
  datatype File = Unreadable | Contents(words: seq<bv32>, behind: seq<bv32>)

  /** What the comparison reads: nothing stops it at the end of the file. */
  function Buffer(f: File): seq<bv32>
    requires f.Contents?
  {
    f.words + f.behind
  }

  lemma ValidIs(words: seq<bv32>, mpa: nat)
    requires mpa / 32 < |words|
    ensures Valid(words, mpa) == BitAt(words[mpa / 32], (mpa % 32) as bv5)
  {
  }

  lemma BitIsValid(words: seq<bv32>, k: nat, b: bv5)
    requires k < |words|
    ensures (32 * k + b as int) / 32 == k && Valid(words, 32 * k + b as int) == BitAt(words[k], b)
  {
    hide BitAt;
    IndexBound(b);
    assert (32 * k + b as int) % 32 == b as int;
  }

  lemma BuiltStart(words: seq<bv32>, counts: seq<nat>, offset: nat)
    requires (forall i | 0 <= i < |words| :: words[i] == 0) && (forall g | 0 <= g < |counts| :: counts[g] == 0)
    ensures Built([], offset, words, counts, 0, 0)
  {
    hide BitAt;
    forall mpa: nat | mpa / 32 < |words| ensures !Valid(words, mpa) { ZeroInvalid(words, mpa); }
    ZeroSum(counts);
  }

  lemma BuiltEnd(m: seq<nat>, offset: nat, vb: seq<bv32>, vc: seq<nat>, ret: int, sentinels: nat)
    requires Built(m, offset, vb, vc, ret, sentinels)
    ensures ret == if HasDuplicate(m) then -1 else 0
    ensures forall mpa: nat | mpa / 32 < |vb| :: Valid(vb, mpa) <==> mpa in Image(m)
    ensures forall g | 0 <= g < |vc| :: vc[g] == GroupCount(m, offset, g)
    ensures Sum(vc) + sentinels == |m|
    ensures ret == 0 ==> forall g | 0 <= g < |vc| :: vc[g] == |ImageInGroup(m, offset, g)|
  {
    hide Valid, Group, HasDuplicate, Image, ImageInGroup, GroupCount;
    if ret == 0 {
      forall g | 0 <= g < |vc| ensures vc[g] == |ImageInGroup(m, offset, g)| { CountIsCardinality(m, offset, g); }
    }
  }

  lemma ImageIsReal(mapping: seq<nat>, mpa: nat)
    ensures mpa in Image(mapping) ==> Real(mpa)
  {
  }
}
