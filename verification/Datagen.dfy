/** The self-describing block: header, patterned body, footer. */
module Datagen {
  import opened Bytes

  const HEADER_SIZE: nat := 20
  const START_MARKER: bv8 := 0x12
  const FINISH_MARKER: bv8 := 0x34

  datatype Header = Header(pattern: bv8, startMarker: bv8, timestamp: u64, lba: u64, rsvd: bv8, finishMarker: bv8)

  /** The packed structure in memory. */
  function Pack(h: Header): (s: seq<bv8>)
    ensures |s| == HEADER_SIZE
  {
    [h.pattern, h.startMarker] + Little(h.timestamp, 8) + Little(h.lba, 8) + [h.rsvd, h.finishMarker]
  }

  function Field64(s: seq<bv8>): u64
    requires |s| == 8
  {
    EightBytes(s);
    FromLittle(s)
  }

  function Unpack(s: seq<bv8>): Header
    requires |s| == HEADER_SIZE
  {
    Header(s[0], s[1], Field64(s[2..10]), Field64(s[10..18]), s[18], s[19])
  }

  lemma UnpackPack(h: Header)
    ensures Unpack(Pack(h)) == h
  {
    hide Little, FromLittle;
    var s := Pack(h);
    assert s[2..10] == Little(h.timestamp, 8) && s[10..18] == Little(h.lba, 8);
    U64RoundTrip(h.timestamp);
    U64RoundTrip(h.lba);
  }

  lemma PackUnpack(s: seq<bv8>)
    requires |s| == HEADER_SIZE
    ensures Pack(Unpack(s)) == s
  {
    hide Little, FromLittle;
    EightBytes(s[2..10]);
    EightBytes(s[10..18]);
    assert s == [s[0], s[1]] + s[2..10] + s[10..18] + [s[18], s[19]];
  }

  datatype Pattern = Pattern(headerMask: seq<bv8>, body: seq<bv8>)

  /** The data generator of a namespace. */
  datatype Generator = Generator(dataSize: nat, patterns: seq<Pattern>, randomizeHeader: bool, metaSize: nat,
    piOffset: nat, piType: nat) {
    ghost predicate Valid() {
      && 2 * HEADER_SIZE <= dataSize
      && 0 < |patterns| <= 256
      && forall i | 0 <= i < |patterns| ::
           |patterns[i].headerMask| == HEADER_SIZE && |patterns[i].body| == dataSize - 2 * HEADER_SIZE
    }
  }

  /** randomize_header and derandomize_header: all bytes but the pattern id are masked. */
  function Mask(s: seq<bv8>, mask: seq<bv8>): (r: seq<bv8>)
    requires |s| == |mask|
    ensures |r| == |s| && forall i | 0 <= i < |s| :: r[i] == if i == 0 then s[i] else s[i] ^ mask[i]
  {
    seq(|s|, i requires 0 <= i < |s| => if i == 0 then s[i] else s[i] ^ mask[i])
  }

  lemma XorTwice(a: bv8, m: bv8)
    ensures (a ^ m) ^ m == a
  {
  }

  lemma MaskTwice(s: seq<bv8>, mask: seq<bv8>)
    requires |s| == |mask|
    ensures Mask(Mask(s, mask), mask) == s
  {
    var r := Mask(Mask(s, mask), mask);
    forall i | 0 <= i < |s| ensures r[i] == s[i] {
      XorTwice(s[i], mask[i]);
    }
  }

  /** Header bytes as stored, and stored bytes as a header: the same map both ways. */
  function Stored(g: Generator, p: nat, s: seq<bv8>): (r: seq<bv8>)
    requires g.Valid() && p < |g.patterns| && |s| == HEADER_SIZE
    ensures |r| == HEADER_SIZE && r[0] == s[0]
  {
    if g.randomizeHeader then Mask(s, g.patterns[p].headerMask) else s
  }

  lemma StoredTwice(g: Generator, p: nat, s: seq<bv8>)
    requires g.Valid() && p < |g.patterns| && |s| == HEADER_SIZE
    ensures Stored(g, p, Stored(g, p, s)) == s
  {
    if g.randomizeHeader { MaskTwice(s, g.patterns[p].headerMask); }
  }

  function NewHeader(lba: u64, timestamp: u64, p: nat, rsvd: bv8): Header
    requires p < 256
  {
    Header(p as bv8, START_MARKER, timestamp, lba, rsvd, FINISH_MARKER)
  }

  /** A block with the given header fields; generated blocks have a zero reserved byte. */
  function BlockWith(g: Generator, lba: u64, timestamp: u64, p: nat, rsvd: bv8): (s: seq<bv8>)
    requires g.Valid() && p < |g.patterns|
    ensures |s| == g.dataSize
  {
    var h := Stored(g, p, Pack(NewHeader(lba, timestamp, p, rsvd)));
    h + g.patterns[p].body + h
  }

  /** What datagen_set_data writes. */
  function BlockData(g: Generator, lba: u64, timestamp: u64, p: nat): (s: seq<bv8>)
    requires g.Valid() && p < |g.patterns|
    ensures |s| == g.dataSize
  {
    BlockWith(g, lba, timestamp, p, 0)
  }

  datatype HeaderInfo = NoHeader | Found(lba: u64, timestamp: u64, pattern: nat)

  function FirstBytes(g: Generator, data: seq<bv8>): (s: seq<bv8>)
    requires g.Valid() && |data| == g.dataSize
    ensures |s| == HEADER_SIZE
  {
    data[..HEADER_SIZE]
  }

  function LastBytes(g: Generator, data: seq<bv8>): (s: seq<bv8>)
    requires g.Valid() && |data| == g.dataSize
    ensures |s| == HEADER_SIZE
  {
    data[g.dataSize - HEADER_SIZE..]
  }

  function Body(g: Generator, data: seq<bv8>): (s: seq<bv8>)
    requires g.Valid() && |data| == g.dataSize
    ensures |s| == g.dataSize - 2 * HEADER_SIZE
  {
    data[HEADER_SIZE..g.dataSize - HEADER_SIZE]
  }

  /** datagen_get_header. */
  function GetHeader(g: Generator, data: seq<bv8>): HeaderInfo
    requires g.Valid() && |data| == g.dataSize
  {
    var p := data[0] as nat;
    if p >= |g.patterns| then NoHeader
    else
      var header := Stored(g, p, FirstBytes(g, data));
      var footer := Stored(g, p, LastBytes(g, data));
      var h := Unpack(header);
      if h.startMarker != START_MARKER || h.finishMarker != FINISH_MARKER then NoHeader
      else if header != footer then NoHeader
      else Found(h.lba, h.timestamp, h.pattern as nat)
  }

  lemma BlockParts(g: Generator, lba: u64, timestamp: u64, p: nat, rsvd: bv8)
    requires g.Valid() && p < |g.patterns|
    ensures var data := BlockWith(g, lba, timestamp, p, rsvd);
            && FirstBytes(g, data) == Stored(g, p, Pack(NewHeader(lba, timestamp, p, rsvd)))
            && LastBytes(g, data) == FirstBytes(g, data) && Body(g, data) == g.patterns[p].body
            && data[0] as int == p
  {
    hide Pack, Stored;
    ByteRoundTrip(p);
    var h := Stored(g, p, Pack(NewHeader(lba, timestamp, p, rsvd)));
    var data := BlockWith(g, lba, timestamp, p, rsvd);
    assert data[..HEADER_SIZE] == h && data[g.dataSize - HEADER_SIZE..] == h;
    assert Pack(NewHeader(lba, timestamp, p, rsvd))[0] == p as bv8 by { PackFirst(NewHeader(lba, timestamp, p, rsvd)); }
    assert data[0] == h[0];
  }

  /** The header in memory, byte by byte: pattern, marker, stamp and LBA least significant byte first,
      reserved byte, marker. */
  lemma HeaderLayout(lba: u64, timestamp: u64, p: nat, rsvd: bv8)
    requires p < 256
    ensures var s := Pack(NewHeader(lba, timestamp, p, rsvd));
            && s[0] as nat == p && s[1] == 0x12 && s[18] == rsvd && s[19] == 0x34
            && forall i | 0 <= i < 8 ::
                 && s[2 + i] as nat == (timestamp / Pow256(i)) % 256
                 && s[10 + i] as nat == (lba / Pow256(i)) % 256
  {
    hide Little, Pow256;
    var s := Pack(NewHeader(lba, timestamp, p, rsvd));
    ByteRoundTrip(p);
    forall i | 0 <= i < 8
      ensures s[2 + i] as nat == (timestamp / Pow256(i)) % 256 && s[10 + i] as nat == (lba / Pow256(i)) % 256
    {
      assert s[2 + i] == Little(timestamp, 8)[i] && s[10 + i] == Little(lba, 8)[i];
      LittleByte(timestamp, 8, i);
      LittleByte(lba, 8, i);
    }
  }

  /** A byte of the header as stored: masked, except the pattern id, when headers are randomized. */
  function StoredByte(g: Generator, p: nat, raw: seq<bv8>, i: nat): bv8
    requires g.Valid() && p < |g.patterns| && |raw| == HEADER_SIZE && i < HEADER_SIZE
  {
    if g.randomizeHeader && i > 0 then raw[i] ^ g.patterns[p].headerMask[i] else raw[i]
  }

  /** A generated block, byte by byte: header, body of the pattern, and the header again. */
  lemma BlockLayout(g: Generator, lba: u64, timestamp: u64, p: nat, i: nat)
    requires g.Valid() && p < |g.patterns| && i < g.dataSize
    ensures var raw := Pack(NewHeader(lba, timestamp, p, 0));
            var last := g.dataSize - HEADER_SIZE;
            BlockData(g, lba, timestamp, p)[i] ==
              if i < HEADER_SIZE then StoredByte(g, p, raw, i)
              else if i < last then g.patterns[p].body[i - HEADER_SIZE]
              else StoredByte(g, p, raw, i - last)
  {
    hide Pack;
  }

  lemma PackFirst(h: Header)
    ensures Pack(h)[0] == h.pattern
  {
  }

  /** Header and footer are the stored header with these fields. */
  ghost predicate HeaderBytes(g: Generator, data: seq<bv8>, lba: u64, timestamp: u64, p: nat, rsvd: bv8)
    requires g.Valid() && |data| == g.dataSize && p < |g.patterns|
  {
    FirstBytes(g, data) == LastBytes(g, data) == Stored(g, p, Pack(NewHeader(lba, timestamp, p, rsvd)))
  }

  lemma HeaderReadBack(g: Generator, data: seq<bv8>, lba: u64, timestamp: u64, p: nat, rsvd: bv8)
    requires g.Valid() && |data| == g.dataSize && p < |g.patterns| && HeaderBytes(g, data, lba, timestamp, p, rsvd)
    ensures GetHeader(g, data) == Found(lba, timestamp, p)
  {
    hide Pack, Unpack, Stored;
    var h := NewHeader(lba, timestamp, p, rsvd);
    PackFirst(h);
    assert data[0] == FirstBytes(g, data)[0];
    StoredTwice(g, p, Pack(h));
    UnpackPack(h);
    ByteRoundTrip(p);
  }

  /** The header of a block is read back as it was written, masked or not. */
  lemma HeaderRoundTrip(g: Generator, lba: u64, timestamp: u64, p: nat, rsvd: bv8)
    requires g.Valid() && p < |g.patterns|
    ensures GetHeader(g, BlockWith(g, lba, timestamp, p, rsvd)) == Found(lba, timestamp, p)
  {
    hide GetHeader, Pack, Stored, FirstBytes, LastBytes, BlockWith;
    BlockParts(g, lba, timestamp, p, rsvd);
    HeaderReadBack(g, BlockWith(g, lba, timestamp, p, rsvd), lba, timestamp, p, rsvd);
  }

  lemma StoredInjective(g: Generator, p: nat, a: seq<bv8>, b: seq<bv8>)
    requires g.Valid() && p < |g.patterns| && |a| == |b| == HEADER_SIZE
    ensures Stored(g, p, a) == Stored(g, p, b) <==> a == b
  {
    StoredTwice(g, p, a);
    StoredTwice(g, p, b);
  }

  /** A header is found exactly when the pattern id is in range, the unmasked markers are there
      and the raw header and footer bytes are equal. */
  lemma HeaderFoundIff(g: Generator, data: seq<bv8>)
    requires g.Valid() && |data| == g.dataSize
    ensures GetHeader(g, data).Found?
       <==> && data[0] as int < |g.patterns|
            && Stored(g, data[0] as nat, FirstBytes(g, data))[1] == START_MARKER
            && Stored(g, data[0] as nat, FirstBytes(g, data))[19] == FINISH_MARKER
            && FirstBytes(g, data) == LastBytes(g, data)
  {
    hide Stored;
    if (data[0] as nat) < |g.patterns| {
      StoredInjective(g, data[0] as nat, FirstBytes(g, data), LastBytes(g, data));
    }
  }

  /** A header that is found determines the header and footer bytes up to the reserved byte. */
  lemma HeaderExact(g: Generator, data: seq<bv8>) returns (rsvd: bv8)
    requires g.Valid() && |data| == g.dataSize && GetHeader(g, data).Found?
    ensures var f := GetHeader(g, data);
            f.pattern < |g.patterns| && HeaderBytes(g, data, f.lba, f.timestamp, f.pattern, rsvd)
  {
    hide Pack, Stored;
    var p := data[0] as nat;
    var raw := Stored(g, p, FirstBytes(g, data));
    var h := Unpack(raw);
    rsvd := h.rsvd;
    ByteBound(data[0]);
    PackUnpack(raw);
    StoredTwice(g, p, FirstBytes(g, data));
    StoredInjective(g, p, FirstBytes(g, data), LastBytes(g, data));
  }

  /** The bytes of a block: a header is found and the body matches its pattern exactly when the
      block is, reserved byte aside, one that the generator writes with those fields. */
  lemma BlockExact(g: Generator, data: seq<bv8>, lba: u64, timestamp: u64, p: nat)
    requires g.Valid() && |data| == g.dataSize && p < |g.patterns|
    ensures GetHeader(g, data) == Found(lba, timestamp, p) && Body(g, data) == g.patterns[p].body
       <==> exists rsvd: bv8 :: data == BlockWith(g, lba, timestamp, p, rsvd)
  {
    hide GetHeader, Pack, Stored;
    if GetHeader(g, data) == Found(lba, timestamp, p) && Body(g, data) == g.patterns[p].body {
      var rsvd := HeaderExact(g, data);
      assert data == FirstBytes(g, data) + Body(g, data) + LastBytes(g, data);
      assert data == BlockWith(g, lba, timestamp, p, rsvd);
    }
    if exists rsvd: bv8 :: data == BlockWith(g, lba, timestamp, p, rsvd) {
      var rsvd: bv8 :| data == BlockWith(g, lba, timestamp, p, rsvd);
      HeaderRoundTrip(g, lba, timestamp, p, rsvd);
      BlockParts(g, lba, timestamp, p, rsvd);
    }
  }
}
