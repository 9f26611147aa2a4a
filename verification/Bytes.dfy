/** Little- and big-endian integers in byte buffers. */
module Bytes {

  import opened Common

  type u64 = n: nat | n < 0x1_0000_0000_0000_0000

  function Pow256(n: nat): (p: nat)
    ensures p > 0
  {
    if n == 0 then 1 else 256 * Pow256(n - 1)
  }

  /** The n low bytes of x, least significant first. */
  function Little(x: nat, n: nat): (s: seq<bv8>)
    ensures |s| == n
  {
    if n == 0 then [] else [(x % 256) as bv8] + Little(x / 256, n - 1)
  }

  function FromLittle(s: seq<bv8>): nat {
    if s == [] then 0 else s[0] as nat + 256 * FromLittle(s[1..])
  }

  lemma ByteBound(b: bv8)
    ensures 0 <= b as int < 256 && (b as int) as bv8 == b
  {
  }

  lemma NextByte(b: bv8)
    requires b as int < 255
    ensures (b + 1) as int == b as int + 1
  {
  }

  /** Every number below 256 is the value of a byte. */
  lemma {:induction false} SomeByte(n: int) returns (b: bv8)
    requires 0 <= n < 256
    ensures b as int == n
    decreases n
  {
    if n == 0 {
      b := 0;
    } else {
      b := SomeByte(n - 1);
      NextByte(b);
      b := b + 1;
    }
  }

  lemma ByteRoundTrip(n: int)
    requires 0 <= n < 256
    ensures (n as bv8) as int == n
  {
    var b := SomeByte(n);
    ByteBound(b);
  }

  /** Reading back the n low bytes gives the value modulo 256^n. */
  lemma {:induction false} FromLittleOfLittle(x: nat, n: nat)
    ensures FromLittle(Little(x, n)) == x % Pow256(n)
    decreases n
  {
    if n == 0 {
    } else {
      FromLittleOfLittle(x / 256, n - 1);
      ByteRoundTrip(x % 256);
      assert Little(x, n)[1..] == Little(x / 256, n - 1);
      ModSplit(x, Pow256(n - 1));
    }
  }

  lemma ModSplit(x: nat, p: nat)
    requires p > 0
    ensures x % (256 * p) == x % 256 + 256 * ((x / 256) % p)
  {
    var q, r := (x / 256) / p, (x / 256) % p;
    assert x / 256 == p * q + r;
    assert x == 256 * (p * q + r) + x % 256;
    assert x == (256 * p) * q + (256 * r + x % 256);
    assert 256 * r + x % 256 < 256 * p;
    DivUnique(x, 256 * p, q, 256 * r + x % 256);
  }

  lemma SmallMultiple(d: int, k: int)
    requires -d < d * k < d
    ensures k == 0
  {
  }

  lemma DivUnique(x: nat, d: nat, q: nat, r: nat)
    requires d > 0 && r < d && x == d * q + r
    ensures x % d == r
  {
    var k := x / d - q;
    assert d * k == r - x % d;
    SmallMultiple(d, k);
  }

  lemma FromLittleCons(s: seq<bv8>)
    requires s != []
    ensures FromLittle(s) == s[0] as nat + 256 * FromLittle(s[1..])
  {
  }

  /** Writing back the bytes that were read reproduces them. */
  lemma {:induction false} LittleOfFromLittle(s: seq<bv8>)
    ensures Little(FromLittle(s), |s|) == s
    decreases |s|
  {
    if s != [] {
      hide Little, FromLittle;
      LittleOfFromLittle(s[1..]);
      FromLittleCons(s);
      LittleCons(s[0], FromLittle(s[1..]), |s| - 1);
      assert s == [s[0]] + s[1..];
    }
  }

  lemma {:induction false} FromLittleBound(s: seq<bv8>)
    ensures FromLittle(s) < Pow256(|s|)
    decreases |s|
  {
    if s != [] {
      hide FromLittle;
      FromLittleBound(s[1..]);
      FromLittleCons(s);
      ByteBound(s[0]);
    }
  }

  lemma LowDigit(b: bv8, x: nat)
    ensures (b as int + 256 * x) / 256 == x && ((b as int + 256 * x) % 256) as bv8 == b
  {
    ByteBound(b);
  }

  lemma LittleCons(b: bv8, x: nat, n: nat)
    ensures Little(b as nat + 256 * x, n + 1) == [b] + Little(x, n)
  {
    LowDigit(b, x);
  }

  lemma Pow256Eight()
    ensures Pow256(8) == U64_LIMIT
    ensures Pow256(4) == 0x1_0000_0000
    ensures Pow256(2) == 0x1_0000
  {
    assert Pow256(2) == 256 * 256;
    assert Pow256(4) == 256 * 256 * Pow256(2);
    assert Pow256(6) == 256 * 256 * Pow256(4);
    assert Pow256(8) == 256 * 256 * Pow256(6);
  }

  /** A 64-bit value survives its eight bytes. */
  lemma U64RoundTrip(x: u64)
    ensures FromLittle(Little(x, 8)) == x
  {
    hide FromLittle, Little, Pow256;
    FromLittleOfLittle(x, 8);
    Pow256Eight();
  }

  /** Eight bytes are the encoding of exactly one 64-bit value. */
  lemma EightBytes(s: seq<bv8>)
    requires |s| == 8
    ensures FromLittle(s) < U64_LIMIT && Little(FromLittle(s), 8) == s
  {
    hide FromLittle, Little, Pow256;
    LittleOfFromLittle(s);
    FromLittleBound(s);
    Pow256Eight();
  }

  function Reversed(s: seq<bv8>): (r: seq<bv8>)
    ensures |r| == |s| && forall i | 0 <= i < |s| :: r[i] == s[|s| - 1 - i]
  {
    seq(|s|, i requires 0 <= i < |s| => s[|s| - 1 - i])
  }

  /** The n low bytes of x, most significant first. */
  function Big(x: nat, n: nat): (s: seq<bv8>)
    ensures |s| == n
  {
    Reversed(Little(x, n))
  }

  /** Equal big-endian encodings mean equal values modulo 256^n. */
  lemma BigInjective(x: nat, y: nat, n: nat)
    requires Big(x, n) == Big(y, n)
    ensures x % Pow256(n) == y % Pow256(n)
  {
    var a, b := Little(x, n), Little(y, n);
    forall i | 0 <= i < n ensures a[i] == b[i] {
      assert a[i] == Big(x, n)[n - 1 - i];
      assert b[i] == Big(y, n)[n - 1 - i];
    }
    assert a == b;
    FromLittleOfLittle(x, n);
    FromLittleOfLittle(y, n);
  }

  /** htons of a checksum, as stored. */
  function Word(crc: bv16): (s: seq<bv8>)
    ensures |s| == 2
  {
    [(crc >> 8) as bv8, (crc & 0xFF) as bv8]
  }

  lemma HalvesInjective(a: bv16, b: bv16)
    requires (a >> 8) as bv8 == (b >> 8) as bv8 && (a & 0xFF) as bv8 == (b & 0xFF) as bv8
    ensures a == b
  {
  }

  lemma WordInjective(a: bv16, b: bv16)
    requires Word(a) == Word(b)
    ensures a == b
  {
    assert Word(a)[0] == Word(b)[0] && Word(a)[1] == Word(b)[1];
    HalvesInjective(a, b);
  }

  // ----- the bytes themselves

  lemma DivDiv(x: nat, p: nat)
    requires p > 0
    ensures (x / 256) / p == x / (256 * p)
  {
    var q, r := (x / 256) / p, (x / 256) % p;
    assert x / 256 == p * q + r;
    assert x == (256 * p) * q + (256 * r + x % 256);
    assert 256 * r + x % 256 < 256 * p;
    QuotientUnique(x, 256 * p, q, 256 * r + x % 256);
  }

  lemma QuotientUnique(x: nat, d: nat, q: nat, r: nat)
    requires d > 0 && r < d && x == d * q + r
    ensures x / d == q
  {
    DivUnique(x, d, q, r);
    SmallMultiple(d, x / d - q);
  }

  /** Byte i, counted from the least significant one. */
  lemma {:induction false} LittleByte(x: nat, n: nat, i: nat)
    requires i < n
    ensures Little(x, n)[i] as nat == (x / Pow256(i)) % 256
    decreases n
  {
    if i == 0 {
      ByteRoundTrip(x % 256);
      assert Pow256(0) == 1;
    } else {
      LittleByte(x / 256, n - 1, i - 1);
      assert Little(x, n)[i] == Little(x / 256, n - 1)[i - 1];
      DivDiv(x, Pow256(i - 1));
    }
  }

  /** The number that bytes denote, most significant first. */
  function BigValue(s: seq<bv8>): nat {
    if s == [] then 0 else 256 * BigValue(s[..|s| - 1]) + s[|s| - 1] as nat
  }

  lemma {:induction false} BigValueReversed(s: seq<bv8>)
    ensures BigValue(Reversed(s)) == FromLittle(s)
  {
    if s != [] {
      BigValueReversed(s[1..]);
      assert Reversed(s)[..|s| - 1] == Reversed(s[1..]);
    }
  }

  lemma BigValueOfBig(x: nat, n: nat)
    ensures BigValue(Big(x, n)) == x % Pow256(n)
  {
    hide BigValue, FromLittle, Little, Reversed;
    BigValueReversed(Little(x, n));
    FromLittleOfLittle(x, n);
  }

  /** Two bytes as a word, most significant first. */
  function Word16(s: seq<bv8>): bv16
    requires |s| == 2
  {
    ((s[0] as bv16) << 8) | (s[1] as bv16)
  }

  lemma WordValue(crc: bv16)
    ensures Word16(Word(crc)) == crc
  {
  }
}
