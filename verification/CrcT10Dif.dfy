/** The T10-DIF CRC-16 that guards a block: the table-driven loop, bit-serial division by the
    generator polynomial, and what the checksum detects. */
module CrcT10Dif {

  /** x^16 + x^15 + x^11 + x^9 + x^8 + x^7 + x^5 + x^4 + x^2 + x + 1 without its leading term. */
  const POLYNOMIAL: bv16 := 0x8BB7

  function Pick(e0: bv16, e1: bv16, e2: bv16, e3: bv16, e4: bv16, e5: bv16, e6: bv16, e7: bv16, k: bv8): bv16 {
    if k == 0 then e0 else if k == 1 then e1 else if k == 2 then e2 else if k == 3 then e3
    else if k == 4 then e4 else if k == 5 then e5 else if k == 6 then e6 else e7
  }

  /** t10_dif_crc_table, row by row. */
  function TableEntry(i: bv8): bv16 {
    if i < 8 then Pick(0x0000, 0x8BB7, 0x9CD9, 0x176E, 0xB205, 0x39B2, 0x2EDC, 0xA56B, i & 7) else
    if i < 16 then Pick(0xEFBD, 0x640A, 0x7364, 0xF8D3, 0x5DB8, 0xD60F, 0xC161, 0x4AD6, i & 7) else
    if i < 24 then Pick(0x54CD, 0xDF7A, 0xC814, 0x43A3, 0xE6C8, 0x6D7F, 0x7A11, 0xF1A6, i & 7) else
    if i < 32 then Pick(0xBB70, 0x30C7, 0x27A9, 0xAC1E, 0x0975, 0x82C2, 0x95AC, 0x1E1B, i & 7) else
    if i < 40 then Pick(0xA99A, 0x222D, 0x3543, 0xBEF4, 0x1B9F, 0x9028, 0x8746, 0x0CF1, i & 7) else
    if i < 48 then Pick(0x4627, 0xCD90, 0xDAFE, 0x5149, 0xF422, 0x7F95, 0x68FB, 0xE34C, i & 7) else
    if i < 56 then Pick(0xFD57, 0x76E0, 0x618E, 0xEA39, 0x4F52, 0xC4E5, 0xD38B, 0x583C, i & 7) else
    if i < 64 then Pick(0x12EA, 0x995D, 0x8E33, 0x0584, 0xA0EF, 0x2B58, 0x3C36, 0xB781, i & 7) else
    if i < 72 then Pick(0xD883, 0x5334, 0x445A, 0xCFED, 0x6A86, 0xE131, 0xF65F, 0x7DE8, i & 7) else
    if i < 80 then Pick(0x373E, 0xBC89, 0xABE7, 0x2050, 0x853B, 0x0E8C, 0x19E2, 0x9255, i & 7) else
    if i < 88 then Pick(0x8C4E, 0x07F9, 0x1097, 0x9B20, 0x3E4B, 0xB5FC, 0xA292, 0x2925, i & 7) else
    if i < 96 then Pick(0x63F3, 0xE844, 0xFF2A, 0x749D, 0xD1F6, 0x5A41, 0x4D2F, 0xC698, i & 7) else
    if i < 104 then Pick(0x7119, 0xFAAE, 0xEDC0, 0x6677, 0xC31C, 0x48AB, 0x5FC5, 0xD472, i & 7) else
    if i < 112 then Pick(0x9EA4, 0x1513, 0x027D, 0x89CA, 0x2CA1, 0xA716, 0xB078, 0x3BCF, i & 7) else
    if i < 120 then Pick(0x25D4, 0xAE63, 0xB90D, 0x32BA, 0x97D1, 0x1C66, 0x0B08, 0x80BF, i & 7) else
    if i < 128 then Pick(0xCA69, 0x41DE, 0x56B0, 0xDD07, 0x786C, 0xF3DB, 0xE4B5, 0x6F02, i & 7) else
    if i < 136 then Pick(0x3AB1, 0xB106, 0xA668, 0x2DDF, 0x88B4, 0x0303, 0x146D, 0x9FDA, i & 7) else
    if i < 144 then Pick(0xD50C, 0x5EBB, 0x49D5, 0xC262, 0x6709, 0xECBE, 0xFBD0, 0x7067, i & 7) else
    if i < 152 then Pick(0x6E7C, 0xE5CB, 0xF2A5, 0x7912, 0xDC79, 0x57CE, 0x40A0, 0xCB17, i & 7) else
    if i < 160 then Pick(0x81C1, 0x0A76, 0x1D18, 0x96AF, 0x33C4, 0xB873, 0xAF1D, 0x24AA, i & 7) else
    if i < 168 then Pick(0x932B, 0x189C, 0x0FF2, 0x8445, 0x212E, 0xAA99, 0xBDF7, 0x3640, i & 7) else
    if i < 176 then Pick(0x7C96, 0xF721, 0xE04F, 0x6BF8, 0xCE93, 0x4524, 0x524A, 0xD9FD, i & 7) else
    if i < 184 then Pick(0xC7E6, 0x4C51, 0x5B3F, 0xD088, 0x75E3, 0xFE54, 0xE93A, 0x628D, i & 7) else
    if i < 192 then Pick(0x285B, 0xA3EC, 0xB482, 0x3F35, 0x9A5E, 0x11E9, 0x0687, 0x8D30, i & 7) else
    if i < 200 then Pick(0xE232, 0x6985, 0x7EEB, 0xF55C, 0x5037, 0xDB80, 0xCCEE, 0x4759, i & 7) else
    if i < 208 then Pick(0x0D8F, 0x8638, 0x9156, 0x1AE1, 0xBF8A, 0x343D, 0x2353, 0xA8E4, i & 7) else
    if i < 216 then Pick(0xB6FF, 0x3D48, 0x2A26, 0xA191, 0x04FA, 0x8F4D, 0x9823, 0x1394, i & 7) else
    if i < 224 then Pick(0x5942, 0xD2F5, 0xC59B, 0x4E2C, 0xEB47, 0x60F0, 0x779E, 0xFC29, i & 7) else
    if i < 232 then Pick(0x4BA8, 0xC01F, 0xD771, 0x5CC6, 0xF9AD, 0x721A, 0x6574, 0xEEC3, i & 7) else
    if i < 240 then Pick(0xA415, 0x2FA2, 0x38CC, 0xB37B, 0x1610, 0x9DA7, 0x8AC9, 0x017E, i & 7) else
    if i < 248 then Pick(0x1F65, 0x94D2, 0x83BC, 0x080B, 0xAD60, 0x26D7, 0x31B9, 0xBA0E, i & 7) else
    Pick(0xF0D8, 0x7B6F, 0x6C01, 0xE7B6, 0x42DD, 0xC96A, 0xDE04, 0x55B3, i & 7)
  }

  /** The table index for a byte. */
  function TableIndex(crc: bv16, byte: bv8): bv8 {
    ((crc >> 8) as bv8) ^ byte
  }

  /** One byte of the loop of crc_t10dif_generic. */
  function TableStep(crc: bv16, byte: bv8): bv16 {
    (crc << 8) ^ TableEntry(TableIndex(crc, byte))
  }

  /** The checksum of a byte sequence, continued from crc. */
  function Crc(crc: bv16, bytes: seq<bv8>): bv16 {
    if bytes == [] then crc
    else TableStep(Crc(crc, bytes[..|bytes| - 1]), bytes[|bytes| - 1])
  }

  /** crc_t10dif_generic. */
  method CrcT10DifGeneric(crc: bv16, buffer: seq<bv8>) returns (r: bv16)
    ensures r == Crc(crc, buffer)
  {
    hide TableStep;
    r := crc;
    for i := 0 to |buffer|
      invariant r == Crc(crc, buffer[..i])
    {
      assert buffer[..i + 1][..i] == buffer[..i];
      r := TableStep(r, buffer[i]);
    }
    assert buffer[..|buffer|] == buffer;
  }

  // ----- long division of a bit string, the reference

  /** The remainder with the next bit appended. */
  function Append(r: bv16, bit: bool): bv17 {
    ((r as bv17) << 1) | (if bit then 1 else 0)
  }

  /** Subtract the 17-bit polynomial when the degree has reached 16. */
  function Reduce(v: bv17): bv16 {
    ((if v & 0x10000 != 0 then v ^ 0x18BB7 else v) & 0xFFFF) as bv16
  }

  /** One step of long division. */
  function DivStep(r: bv16, bit: bool): bv16 {
    Reduce(Append(r, bit))
  }

  /** The remainder of a bit string, most significant bit first, on division by 0x18BB7. */
  function Remainder(bits: seq<bool>): bv16 {
    if bits == [] then 0 else DivStep(Remainder(bits[..|bits| - 1]), bits[|bits| - 1])
  }

  function ByteBits(b: bv8): seq<bool> {
    [b & 0x80 != 0, b & 0x40 != 0, b & 0x20 != 0, b & 0x10 != 0, b & 0x08 != 0, b & 0x04 != 0, b & 0x02 != 0,
      b & 0x01 != 0]
  }

  function MessageBits(bytes: seq<bv8>): seq<bool> {
    if bytes == [] then [] else MessageBits(bytes[..|bytes| - 1]) + ByteBits(bytes[|bytes| - 1])
  }

  // ----- multiplication by x as a linear map

  function Feedback(c: bv16): bv16 {
    if c & 0x8000 != 0 then POLYNOMIAL else 0
  }

  /** Multiply by x modulo the polynomial. */
  function Shift(c: bv16): bv16 {
    (c << 1) ^ Feedback(c)
  }

  function Shift8(c: bv16): bv16 {
    Shift(Shift(Shift(Shift(Shift(Shift(Shift(Shift(c))))))))
  }

  lemma XorSwap(x: bv16, y: bv16, u: bv16, v: bv16)
    ensures (x ^ y) ^ (u ^ v) == (x ^ u) ^ (y ^ v)
  {
  }

  lemma XorCancel(a: bv16, b: bv16)
    ensures a == b <==> a ^ b == 0
  {
  }

  lemma FeedbackLinear(a: bv16, b: bv16)
    ensures Feedback(a ^ b) == Feedback(a) ^ Feedback(b)
  {
  }

  lemma DoubleLinear(a: bv16, b: bv16)
    ensures (a ^ b) << 1 == (a << 1) ^ (b << 1)
  {
  }

  lemma ShiftLinear(a: bv16, b: bv16)
    ensures Shift(a ^ b) == Shift(a) ^ Shift(b)
  {
    hide Feedback;
    FeedbackLinear(a, b);
    DoubleLinear(a, b);
    XorSwap(a << 1, b << 1, Feedback(a), Feedback(b));
  }

  predicate IsXor(x: bv16, a: bv16, b: bv16) {
    x == a ^ b
  }

  lemma ShiftXor(x: bv16, a: bv16, b: bv16)
    requires IsXor(x, a, b)
    ensures IsXor(Shift(x), Shift(a), Shift(b))
  {
    hide Shift;
    ShiftLinear(a, b);
  }

  lemma Shift2Xor(x: bv16, a: bv16, b: bv16)
    requires IsXor(x, a, b)
    ensures IsXor(Shift(Shift(x)), Shift(Shift(a)), Shift(Shift(b)))
  {
    hide Shift, IsXor;
    ShiftXor(x, a, b);
    ShiftXor(Shift(x), Shift(a), Shift(b));
  }

  lemma Shift8Xor(x: bv16, a: bv16, b: bv16)
    requires IsXor(x, a, b)
    ensures IsXor(Shift8(x), Shift8(a), Shift8(b))
  {
    hide Shift, IsXor;
    Shift2Xor(x, a, b);
    Shift2Xor(Shift(Shift(x)), Shift(Shift(a)), Shift(Shift(b)));
    Shift2Xor(Shift(Shift(Shift(Shift(x)))), Shift(Shift(Shift(Shift(a)))), Shift(Shift(Shift(Shift(b)))));
    Shift2Xor(Shift(Shift(Shift(Shift(Shift(Shift(x)))))), Shift(Shift(Shift(Shift(Shift(Shift(a)))))),
      Shift(Shift(Shift(Shift(Shift(Shift(b)))))));
  }

  lemma Shift8Linear(a: bv16, b: bv16)
    ensures Shift8(a ^ b) == Shift8(a) ^ Shift8(b)
  {
    hide Shift8;
    Shift8Xor(a ^ b, a, b);
  }

  lemma ShiftZero(c: bv16)
    requires Shift(c) == 0
    ensures c == 0
  {
  }

  lemma Shift8Zero(c: bv16)
    requires Shift8(c) == 0
    ensures c == 0
  {
    hide Shift;
    ShiftZero(Shift(Shift(Shift(Shift(Shift(Shift(Shift(c))))))));
    ShiftZero(Shift(Shift(Shift(Shift(Shift(Shift(c)))))));
    ShiftZero(Shift(Shift(Shift(Shift(Shift(c))))));
    ShiftZero(Shift(Shift(Shift(Shift(c)))));
    ShiftZero(Shift(Shift(Shift(c))));
    ShiftZero(Shift(Shift(c)));
    ShiftZero(Shift(c));
    ShiftZero(c);
  }

  /** Multiplication by x^8 loses nothing, because the polynomial has a constant term. */
  lemma Shift8Injective(a: bv16, b: bv16)
    requires Shift8(a) == Shift8(b)
    ensures a == b
  {
    hide Shift8;
    Shift8Linear(a, b);
    XorCancel(Shift8(a), Shift8(b));
    Shift8Zero(a ^ b);
    XorCancel(a, b);
  }

  /** The polynomial of a byte, multiplied by x^8. */
  function HighByte(b: bv8): bv16 {
    (b as bv16) << 8
  }

  lemma LowByte(b: bv8)
    ensures Shift8(b as bv16) == HighByte(b)
  {
  }

  // ----- the table

  lemma FirstQuarter(i: bv8)
    requires i < 0x40
    ensures TableEntry(i) == Shift8(HighByte(i))
  {
  }

  lemma SecondQuarter(i: bv8)
    requires 0x40 <= i < 0x80
    ensures TableEntry(i) == Shift8(HighByte(i))
  {
  }

  lemma ThirdQuarter(i: bv8)
    requires 0x80 <= i < 0xC0
    ensures TableEntry(i) == Shift8(HighByte(i))
  {
  }

  lemma LastQuarter(i: bv8)
    requires 0xC0 <= i
    ensures TableEntry(i) == Shift8(HighByte(i))
  {
  }

  /** Every table entry is eight single-bit divisions of its index. */
  lemma TableIsDivision(i: bv8)
    ensures TableEntry(i) == Shift8(HighByte(i))
  {
    hide TableEntry, Shift8, HighByte;
    if i < 0x40 { FirstQuarter(i); }
    else if i < 0x80 { SecondQuarter(i); }
    else if i < 0xC0 { ThirdQuarter(i); }
    else { LastQuarter(i); }
  }

  /** State and byte together. */
  function Absorb(c: bv16, byte: bv8): bv16 {
    c ^ HighByte(byte)
  }

  /** The byte of the state that a step shifts up. */
  function KeptByte(crc: bv16): bv8 {
    (crc & 0xFF) as bv8
  }

  lemma SplitState(crc: bv16, byte: bv8)
    ensures IsXor(Absorb(crc, byte), HighByte(TableIndex(crc, byte)), KeptByte(crc) as bv16)
    ensures HighByte(KeptByte(crc)) == crc << 8
  {
  }

  lemma StepOfParts(crc: bv16, byte: bv8, x: bv16)
    requires IsXor(x, TableEntry(TableIndex(crc, byte)), HighByte(KeptByte(crc)))
    ensures x == TableStep(crc, byte)
  {
    hide TableEntry, TableIndex, HighByte;
    SplitState(crc, byte);
  }

  /** A table step is the bit-serial step on state and byte. */
  lemma StepAbsorbs(crc: bv16, byte: bv8)
    ensures TableStep(crc, byte) == Shift8(Absorb(crc, byte))
  {
    hide Shift8, TableEntry, TableIndex, HighByte, KeptByte, Absorb, IsXor, TableStep;
    SplitState(crc, byte);
    Shift8Xor(Absorb(crc, byte), HighByte(TableIndex(crc, byte)), KeptByte(crc) as bv16);
    TableIsDivision(TableIndex(crc, byte));
    LowByte(KeptByte(crc));
    StepOfParts(crc, byte, Shift8(Absorb(crc, byte)));
  }

  lemma TableStepXor(x: bv16, c: bv16, d: bv16, xb: bv8, a: bv8, b: bv8)
    requires IsXor(x, c, d) && xb == a ^ b
    ensures IsXor(TableStep(x, xb), TableStep(c, a), TableStep(d, b))
  {
    hide Shift8, TableStep, Absorb;
    StepAbsorbs(x, xb);
    StepAbsorbs(c, a);
    StepAbsorbs(d, b);
    StateXor(c, d, a, b);
    Shift8Xor(Absorb(x, xb), Absorb(c, a), Absorb(d, b));
  }

  lemma StateXor(c: bv16, d: bv16, a: bv8, b: bv8)
    ensures IsXor(Absorb(c ^ d, a ^ b), Absorb(c, a), Absorb(d, b))
  {
  }

  // ----- laws over all byte sequences

  /** The checksum may be computed in two pieces. */
  lemma {:induction false} CrcAppend(c: bv16, a: seq<bv8>, b: seq<bv8>)
    ensures Crc(Crc(c, a), b) == Crc(c, a + b)
    decreases |b|
  {
    hide TableStep;
    if b == [] {
      assert a + b == a;
    } else {
      var n := |b| - 1;
      CrcAppend(c, a, b[..n]);
      assert (a + b)[..|a + b| - 1] == a + b[..n];
    }
  }

  function XorBytes(a: seq<bv8>, b: seq<bv8>): (r: seq<bv8>)
    requires |a| == |b|
    ensures |r| == |a|
  {
    seq(|a|, i requires 0 <= i < |a| => a[i] ^ b[i])
  }

  lemma {:induction false} CrcXor(x: bv16, c: bv16, d: bv16, a: seq<bv8>, b: seq<bv8>)
    requires |a| == |b| && IsXor(x, c, d)
    ensures IsXor(Crc(x, XorBytes(a, b)), Crc(c, a), Crc(d, b))
    decreases |a|
  {
    hide TableStep, IsXor;
    if a != [] {
      var n := |a| - 1;
      CrcXor(x, c, d, a[..n], b[..n]);
      assert XorBytes(a, b)[..n] == XorBytes(a[..n], b[..n]);
      TableStepXor(Crc(x, XorBytes(a[..n], b[..n])), Crc(c, a[..n]), Crc(d, b[..n]), XorBytes(a, b)[n], a[n], b[n]);
    }
  }

  /** The checksum is linear over exclusive or. */
  lemma CrcLinear(c: bv16, d: bv16, a: seq<bv8>, b: seq<bv8>)
    requires |a| == |b|
    ensures Crc(c ^ d, XorBytes(a, b)) == Crc(c, a) ^ Crc(d, b)
  {
    hide Crc, XorBytes;
    CrcXor(c ^ d, c, d, a, b);
  }

  lemma StepInjective(c: bv16, d: bv16, byte: bv8)
    requires TableStep(c, byte) == TableStep(d, byte)
    ensures c == d
  {
    hide Shift8, TableStep, Absorb;
    StepAbsorbs(c, byte);
    StepAbsorbs(d, byte);
    Shift8Injective(Absorb(c, byte), Absorb(d, byte));
    AbsorbInjective(c, d, byte);
  }

  lemma AbsorbInjective(c: bv16, d: bv16, byte: bv8)
    requires Absorb(c, byte) == Absorb(d, byte)
    ensures c == d
  {
  }

  /** Different states stay different under any common suffix. */
  lemma {:induction false} CrcStateInjective(c: bv16, d: bv16, bytes: seq<bv8>)
    requires c != d
    ensures Crc(c, bytes) != Crc(d, bytes)
    decreases |bytes|
  {
    hide TableStep;
    if bytes != [] {
      var n := |bytes| - 1;
      CrcStateInjective(c, d, bytes[..n]);
      if TableStep(Crc(c, bytes[..n]), bytes[n]) == TableStep(Crc(d, bytes[..n]), bytes[n]) {
        StepInjective(Crc(c, bytes[..n]), Crc(d, bytes[..n]), bytes[n]);
      }
    }
  }

  function AbsorbLow(c: bv16, byte: bv8): bv16 {
    c ^ (byte as bv16)
  }

  lemma AbsorbLater(s: bv16, y: bv8)
    ensures Absorb(Shift8(s), y) == Shift8(AbsorbLow(s, y))
  {
    hide Shift8, HighByte, Absorb, AbsorbLow, IsXor;
    AbsorbIsXor(s, Shift8(s), y);
    LowByte(y);
    Shift8Xor(AbsorbLow(s, y), s, y as bv16);
    XorUnique(Absorb(Shift8(s), y), Shift8(AbsorbLow(s, y)), Shift8(s), HighByte(y));
  }

  lemma AbsorbIsXor(s: bv16, c: bv16, y: bv8)
    ensures IsXor(AbsorbLow(s, y), s, y as bv16) && IsXor(Absorb(c, y), c, HighByte(y))
  {
  }

  lemma XorUnique(x: bv16, y: bv16, a: bv16, b: bv16)
    requires IsXor(x, a, b) && IsXor(y, a, b)
    ensures x == y
  {
  }

  /** Two table steps are sixteen divisions of the state with both bytes added. */
  lemma TwoSteps(c: bv16, x: bv8, y: bv8)
    ensures TableStep(TableStep(c, x), y) == Shift8(Shift8(AbsorbLow(Absorb(c, x), y)))
  {
    hide Shift8, TableStep, Absorb, AbsorbLow;
    StepAbsorbs(c, x);
    StepAbsorbs(Shift8(Absorb(c, x)), y);
    AbsorbLater(Absorb(c, x), y);
  }

  lemma PairDiffers(c: bv16, x: bv8, y: bv8, u: bv8, v: bv8)
    requires AbsorbLow(Absorb(c, x), y) == AbsorbLow(Absorb(c, u), v)
    ensures x == u && y == v
  {
  }

  /** From one state, different byte pairs lead to different states. */
  lemma PairInjective(c: bv16, x: bv8, y: bv8, u: bv8, v: bv8)
    requires x != u || y != v
    ensures TableStep(TableStep(c, x), y) != TableStep(TableStep(c, u), v)
  {
    hide Shift8, TableStep, Absorb, AbsorbLow;
    TwoSteps(c, x, y);
    TwoSteps(c, u, v);
    var p, q := AbsorbLow(Absorb(c, x), y), AbsorbLow(Absorb(c, u), v);
    if Shift8(Shift8(p)) == Shift8(Shift8(q)) {
      Shift8Injective(Shift8(p), Shift8(q));
      Shift8Injective(p, q);
      PairDiffers(c, x, y, u, v);
    }
  }

  /** The messages differ, and only in the bytes k and k + 1. */
  ghost predicate DifferWithinTwoBytes(a: seq<bv8>, b: seq<bv8>, k: nat) {
    |a| == |b| && a != b && forall i | 0 <= i < |a| && i != k && i != k + 1 :: a[i] == b[i]
  }

  lemma CrcPair(c: bv16, x: bv8, y: bv8)
    ensures Crc(c, [x, y]) == TableStep(TableStep(c, x), y)
  {
    hide TableStep;
    assert [x, y][..1] == [x];
    assert [x][..0] == [];
    assert Crc(c, [x]) == TableStep(c, x);
  }

  /** Any change confined to two adjacent bytes changes the checksum. */
  lemma BurstDetected(c: bv16, a: seq<bv8>, b: seq<bv8>, k: nat)
    requires DifferWithinTwoBytes(a, b, k)
    ensures Crc(c, a) != Crc(c, b)
  {
    hide TableStep;
    if |a| == 1 {
      SingleByte(c, a[0], b[0]);
      assert a == [a[0]] && b == [b[0]];
    } else {
      var j := if k + 1 < |a| then k else |a| - 2;
      var pre, suf := a[..j], a[j + 2..];
      assert a == pre + [a[j], a[j + 1]] + suf;
      assert b == pre + [b[j], b[j + 1]] + suf;
      var s := Crc(c, pre);
      BurstThenSuffix(c, pre, a[j], a[j + 1], suf);
      BurstThenSuffix(c, pre, b[j], b[j + 1], suf);
      PairInjective(s, a[j], a[j + 1], b[j], b[j + 1]);
      CrcStateInjective(TableStep(TableStep(s, a[j]), a[j + 1]), TableStep(TableStep(s, b[j]), b[j + 1]), suf);
    }
  }

  lemma BurstThenSuffix(c: bv16, pre: seq<bv8>, x: bv8, y: bv8, suf: seq<bv8>)
    ensures Crc(c, pre + [x, y] + suf) == Crc(TableStep(TableStep(Crc(c, pre), x), y), suf)
  {
    hide TableStep, Crc;
    CrcAppend(c, pre, [x, y]);
    CrcPair(Crc(c, pre), x, y);
    CrcAppend(c, pre + [x, y], suf);
  }

  lemma SingleByte(c: bv16, x: bv8, y: bv8)
    requires x != y
    ensures Crc(c, [x]) != Crc(c, [y])
  {
    hide TableStep;
    PairInjective(c, x, 0, y, 0);
    assert [x][..0] == [] && [y][..0] == [];
  }

  // ----- agreement with long division

  lemma AppendTop(r: bv16, bit: bool)
    ensures Append(r, bit) & 0x10000 != 0 <==> r & 0x8000 != 0
  {
  }

  lemma AppendLow(r: bv16, bit: bool)
    ensures (Append(r, bit) & 0xFFFF) as bv16 == (r << 1) ^ (if bit then 1 else 0)
  {
  }

  lemma ReduceHigh(v: bv17)
    requires v & 0x10000 != 0
    ensures Reduce(v) == ((v & 0xFFFF) as bv16) ^ POLYNOMIAL
  {
  }

  lemma ReduceLow(v: bv17)
    requires v & 0x10000 == 0
    ensures Reduce(v) == (v & 0xFFFF) as bv16
  {
  }

  lemma XorComm(a: bv16, b: bv16, c: bv16)
    ensures (a ^ b) ^ c == (a ^ c) ^ b
  {
  }

  function BitValue(bit: bool): bv16 {
    if bit then 1 else 0
  }

  lemma DivStepIsShift(r: bv16, bit: bool)
    ensures DivStep(r, bit) == Shift(r) ^ BitValue(bit)
  {
    hide Reduce, Append, BitValue;
    if r & 0x8000 == 0 { DivStepLow(r, bit); } else { DivStepHigh(r, bit); }
  }

  lemma DivStepLow(r: bv16, bit: bool)
    requires r & 0x8000 == 0
    ensures DivStep(r, bit) == Shift(r) ^ BitValue(bit)
  {
    hide Reduce, Append;
    AppendTop(r, bit);
    AppendLow(r, bit);
    ReduceLow(Append(r, bit));
  }

  lemma DivStepHigh(r: bv16, bit: bool)
    requires r & 0x8000 != 0
    ensures DivStep(r, bit) == Shift(r) ^ BitValue(bit)
  {
    hide Reduce, Append;
    AppendTop(r, bit);
    AppendLow(r, bit);
    ReduceHigh(Append(r, bit));
    XorComm(r << 1, BitValue(bit), POLYNOMIAL);
  }

  /** Long division by the eight bits of a byte. */
  function DivByte(r: bv16, b: bv8): bv16 {
    DivStep(DivStep(DivStep(DivStep(DivStep(DivStep(DivStep(DivStep(r, b & 0x80 != 0), b & 0x40 != 0), b & 0x20 != 0),
      b & 0x10 != 0), b & 0x08 != 0), b & 0x04 != 0), b & 0x02 != 0), b & 0x01 != 0)
  }

  lemma DivByteFromZero(b: bv8)
    ensures DivByte(0, b) == b as bv16
  {
  }

  lemma DivStepXor(x: bv16, a: bv16, b: bv16, bit: bool)
    requires IsXor(x, a, b)
    ensures IsXor(DivStep(x, bit), Shift(a), DivStep(b, bit))
  {
    hide Shift, DivStep, BitValue, IsXor;
    ShiftXor(x, a, b);
    DivStepAdds(x, bit);
    DivStepAdds(b, bit);
    XorChain(Shift(x), Shift(a), Shift(b), BitValue(bit), DivStep(x, bit), DivStep(b, bit));
  }

  lemma DivStepAdds(r: bv16, bit: bool)
    ensures IsXor(DivStep(r, bit), Shift(r), BitValue(bit))
  {
    hide Shift, DivStep, BitValue;
    DivStepIsShift(r, bit);
  }

  lemma XorChain(x: bv16, a: bv16, b: bv16, v: bv16, dx: bv16, db: bv16)
    requires IsXor(x, a, b) && IsXor(dx, x, v) && IsXor(db, b, v)
    ensures IsXor(dx, a, db)
  {
  }

  lemma DivByteXor(r: bv16, b: bv8)
    ensures IsXor(DivByte(r, b), Shift8(r), DivByte(0, b))
  {
    hide Shift, DivStep, IsXor;
    DivEight(r, b & 0x80 != 0, b & 0x40 != 0, b & 0x20 != 0, b & 0x10 != 0, b & 0x08 != 0, b & 0x04 != 0,
      b & 0x02 != 0, b & 0x01 != 0);
  }

  lemma DivEight(r: bv16, b7: bool, b6: bool, b5: bool, b4: bool, b3: bool, b2: bool, b1: bool, b0: bool)
    ensures IsXor(DivStep(DivStep(DivStep(DivStep(
                    DivStep(DivStep(DivStep(DivStep(r, b7), b6), b5), b4), b3), b2), b1), b0),
                  Shift8(r),
                  DivStep(DivStep(DivStep(DivStep(
                    DivStep(DivStep(DivStep(DivStep(0, b7), b6), b5), b4), b3), b2), b1), b0))
  {
    assert IsXor(r, r, 0);
    hide Shift, DivStep, IsXor;
    var x, a, z := r, r, 0 as bv16;
    DivStepXor(x, a, z, b7); x, a, z := DivStep(x, b7), Shift(a), DivStep(z, b7);
    DivStepXor(x, a, z, b6); x, a, z := DivStep(x, b6), Shift(a), DivStep(z, b6);
    DivStepXor(x, a, z, b5); x, a, z := DivStep(x, b5), Shift(a), DivStep(z, b5);
    DivStepXor(x, a, z, b4); x, a, z := DivStep(x, b4), Shift(a), DivStep(z, b4);
    DivStepXor(x, a, z, b3); x, a, z := DivStep(x, b3), Shift(a), DivStep(z, b3);
    DivStepXor(x, a, z, b2); x, a, z := DivStep(x, b2), Shift(a), DivStep(z, b2);
    DivStepXor(x, a, z, b1); x, a, z := DivStep(x, b1), Shift(a), DivStep(z, b1);
    DivStepXor(x, a, z, b0);
  }

  lemma DivByteIsShift(r: bv16, b: bv8)
    ensures DivByte(r, b) == AbsorbLow(Shift8(r), b)
  {
    hide Shift8, DivByte;
    DivByteXor(r, b);
    DivByteFromZero(b);
  }

  lemma RemainderSnoc(bits: seq<bool>, x: bool)
    ensures Remainder(bits + [x]) == DivStep(Remainder(bits), x)
  {
    hide DivStep;
    assert (bits + [x])[..|bits|] == bits;
  }

  lemma RemainderTwo(bits: seq<bool>, x: bool, y: bool)
    ensures Remainder(bits + [x, y]) == DivStep(DivStep(Remainder(bits), x), y)
  {
    hide DivStep, Remainder;
    RemainderSnoc(bits, x);
    RemainderSnoc(bits + [x], y);
    assert bits + [x] + [y] == bits + [x, y];
  }

  lemma RemainderFour(bits: seq<bool>, x: bool, y: bool, z: bool, w: bool)
    ensures Remainder(bits + [x, y, z, w]) == DivStep(DivStep(DivStep(DivStep(Remainder(bits), x), y), z), w)
  {
    hide DivStep, Remainder;
    RemainderTwo(bits, x, y);
    RemainderTwo(bits + [x, y], z, w);
    assert bits + [x, y] + [z, w] == bits + [x, y, z, w];
  }

  lemma RemainderByte(bits: seq<bool>, b: bv8)
    ensures Remainder(bits + ByteBits(b)) == DivByte(Remainder(bits), b)
  {
    hide DivStep, Remainder;
    var t := ByteBits(b);
    RemainderFour(bits, t[0], t[1], t[2], t[3]);
    RemainderFour(bits + t[..4], t[4], t[5], t[6], t[7]);
    assert t[..4] == [t[0], t[1], t[2], t[3]] && t == t[..4] + [t[4], t[5], t[6], t[7]];
    assert bits + t[..4] + [t[4], t[5], t[6], t[7]] == bits + t;
  }

  /** The state after a message is its remainder multiplied by x^16. */
  lemma {:induction false} CrcIsScaledRemainder(bytes: seq<bv8>)
    ensures Crc(0, bytes) == Shift8(Shift8(Remainder(MessageBits(bytes))))
    decreases |bytes|
  {
    if bytes == [] {
    } else {
      hide TableStep, Shift8, DivByte, DivStep, ByteBits, AbsorbLow;
      var n := |bytes| - 1;
      var r := Remainder(MessageBits(bytes[..n]));
      CrcIsScaledRemainder(bytes[..n]);
      RemainderByte(MessageBits(bytes[..n]), bytes[n]);
      DivByteIsShift(r, bytes[n]);
      ScaledStep(r, bytes[n]);
    }
  }

  lemma ScaledStep(r: bv16, b: bv8)
    ensures TableStep(Shift8(Shift8(r)), b) == Shift8(Shift8(AbsorbLow(Shift8(r), b)))
  {
    hide TableStep, Shift8, Absorb, AbsorbLow;
    StepAbsorbs(Shift8(Shift8(r)), b);
    AbsorbLater(Shift8(r), b);
  }

  /** The table-driven checksum is the remainder of the message followed by sixteen zero bits,
      on long division by 0x18BB7. */
  lemma CrcIsLongDivision(bytes: seq<bv8>)
    ensures Crc(0, bytes) == Remainder(MessageBits(bytes) + ByteBits(0) + ByteBits(0))
  {
    hide Crc, Remainder, Shift8, DivByte, ByteBits;
    var bits := MessageBits(bytes);
    CrcIsScaledRemainder(bytes);
    RemainderByte(bits, 0);
    RemainderByte(bits + ByteBits(0), 0);
    DivByteIsShift(Remainder(bits), 0);
    DivByteIsShift(Shift8(Remainder(bits)), 0);
  }
}
