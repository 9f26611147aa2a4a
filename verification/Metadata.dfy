/** Protection information and block metadata (NVM Express revision 1.3, section 8.3). */
module Metadata {
  import opened Common
  import opened Bytes
  import opened Datagen
  import opened CrcT10Dif
  import BlockBuffer

  const PI_SIZE: nat := 8

  /** The layouts iover_init sets up: protection information in the first or the last 8 bytes. */
  ghost predicate Layout(g: Generator) {
    && g.Valid()
    && PI_SIZE <= g.metaSize <= 64
    && (g.piOffset == 0 || g.piOffset == g.metaSize - PI_SIZE)
    && g.metaSize - PI_SIZE <= g.dataSize
  }

  /** datagen_set_pi: application tag and reference tag. An unknown type leaves them as they are. */
  function Tags(piType: nat, lba: u64, old_: seq<bv8>): (s: seq<bv8>)
    requires |old_| == 6
    ensures |s| == 6
  {
    if piType == 1 then Little(0xFAD0, 2) + Big(lba, 4)
    else if piType == 2 then Little(0xFAD0, 2) + Big(2 * lba, 4)
    else if piType == 3 then Little(lba, 2) + Little(lba, 4)
    else old_
  }

  /** The guard covers the data and then the metadata that precedes the protection information. */
  function Guard(g: Generator, data: seq<bv8>): bv16
    requires g.piOffset <= |data|
  {
    Crc(Crc(0, data), data[..g.piOffset])
  }

  /** The protection information of a metadata buffer. */
  function Pi(g: Generator, meta: seq<bv8>): (s: seq<bv8>)
    requires g.piOffset + PI_SIZE <= |meta|
    ensures |s| == PI_SIZE
  {
    meta[g.piOffset..g.piOffset + PI_SIZE]
  }

  /** datagen_set_meta. */
  function SetMeta(g: Generator, old_: seq<bv8>, data: seq<bv8>, lba: u64): (s: seq<bv8>)
    requires Layout(g) && |old_| == g.metaSize && |data| == g.dataSize
    ensures |s| == g.metaSize
  {
    data[..g.piOffset] + Word(Guard(g, data)) + Tags(g.piType, lba, Pi(g, old_)[2..])
      + data[..g.metaSize - PI_SIZE - g.piOffset]
  }

  /** The "do not check" escape of the tags. */
  predicate Escaped(g: Generator, meta: seq<bv8>)
    requires g.piOffset + PI_SIZE <= |meta|
  {
    var pi := Pi(g, meta);
    if g.piType == 3 then pi[2..8] == [0xFF, 0xFF, 0xFF, 0xFF, 0xFF, 0xFF]
    else pi[2..4] == [0xFF, 0xFF]
  }

  /** datagen_compare_meta: zero means accepted. */
  function CompareMeta(g: Generator, meta: seq<bv8>, data: seq<bv8>, lba: u64): int
    requires Layout(g) && |meta| == g.metaSize && |data| == g.dataSize
  {
    if g.piType != 1 && g.piType != 2 && g.piType != 3 then -1
    else if Escaped(g, meta) then 0
    else if SetMeta(g, meta, data, lba) == meta then 0 else 1
  }

  /** The occasional escape in iover_generate_data; `nsPiType` is the type of the namespace. */
  function Escape(g: Generator, nsPiType: nat, meta: seq<bv8>): (s: seq<bv8>)
    requires g.piOffset + PI_SIZE <= |meta|
    ensures |s| == |meta|
  {
    var o := g.piOffset;
    if nsPiType == 3 then meta[..o + 2] + [0xFF, 0xFF, 0xFF, 0xFF, 0xFF, 0xFF] + meta[o + 8..]
    else meta[..o + 2] + [0xFF, 0xFF] + meta[o + 4..]
  }

  /** The protection information that set_meta leaves in the buffer. */
  lemma PiWritten(g: Generator, old_: seq<bv8>, data: seq<bv8>, lba: u64)
    requires Layout(g) && |old_| == g.metaSize && |data| == g.dataSize
    ensures var meta := SetMeta(g, old_, data, lba);
            Pi(g, meta)[..2] == Word(Guard(g, data)) && Pi(g, meta)[2..] == Tags(g.piType, lba, Pi(g, old_)[2..])
  {
    hide Word, Guard, Tags;
    var meta := SetMeta(g, old_, data, lba);
    var o := g.piOffset;
    assert meta[o..o + 2] == Word(Guard(g, data));
    assert meta[o + 2..o + 8] == Tags(g.piType, lba, Pi(g, old_)[2..]);
  }

  /** For the known types what the buffer held before does not matter. */
  lemma SetMetaIgnoresOld(g: Generator, a: seq<bv8>, b: seq<bv8>, data: seq<bv8>, lba: u64)
    requires Layout(g) && |a| == |b| == g.metaSize && |data| == g.dataSize && 1 <= g.piType <= 3
    ensures SetMeta(g, a, data, lba) == SetMeta(g, b, data, lba)
  {
    hide Word, Guard, Little, Big;
  }

  /** What set_meta wrote is accepted, and so is its escaped form. */
  lemma MetaRoundTrip(g: Generator, old_: seq<bv8>, data: seq<bv8>, lba: u64, nsPiType: nat)
    requires Layout(g) && |old_| == g.metaSize && |data| == g.dataSize && 1 <= g.piType <= 3
    ensures CompareMeta(g, SetMeta(g, old_, data, lba), data, lba) == 0
    ensures g.piType != 3 || nsPiType == 3 ==>
      CompareMeta(g, Escape(g, nsPiType, SetMeta(g, old_, data, lba)), data, lba) == 0
  {
    hide Word, Guard, Tags, SetMeta;
    var meta := SetMeta(g, old_, data, lba);
    SetMetaIgnoresOld(g, old_, meta, data, lba);
    if g.piType != 3 || nsPiType == 3 { EscapeEscapes(g, nsPiType, meta); }
  }

  lemma EscapeEscapes(g: Generator, nsPiType: nat, meta: seq<bv8>)
    requires g.piOffset + PI_SIZE <= |meta| && (g.piType != 3 || nsPiType == 3)
    ensures Escaped(g, Escape(g, nsPiType, meta))
  {
    var pi := Pi(g, Escape(g, nsPiType, meta));
    assert pi[2] == 0xFF && pi[3] == 0xFF;
    if nsPiType == 3 {
      assert pi[4] == 0xFF && pi[5] == 0xFF && pi[6] == 0xFF && pi[7] == 0xFF;
    }
  }

  /** The guard is one checksum over the data followed by the metadata that precedes it. */
  lemma GuardCovers(g: Generator, old_: seq<bv8>, data: seq<bv8>, lba: u64)
    requires Layout(g) && |old_| == g.metaSize && |data| == g.dataSize
    ensures var meta := SetMeta(g, old_, data, lba);
            Pi(g, meta)[..2] == Word(Crc(0, data + meta[..g.piOffset]))
  {
    hide Word, Tags, Crc;
    PiWritten(g, old_, data, lba);
    CrcAppend(0, data, data[..g.piOffset]);
    assert SetMeta(g, old_, data, lba)[..g.piOffset] == data[..g.piOffset];
  }

  /** The guard as stored, most significant byte first, is the remainder of the long division of the data
      and the metadata before it by the generator polynomial. */
  lemma GuardIsRemainder(g: Generator, old_: seq<bv8>, data: seq<bv8>, lba: u64)
    requires Layout(g) && |old_| == g.metaSize && |data| == g.dataSize
    ensures var meta := SetMeta(g, old_, data, lba);
            Word16(Pi(g, meta)[..2]) == Remainder(MessageBits(data + meta[..g.piOffset]) + ByteBits(0) + ByteBits(0))
  {
    hide Word, Word16, Crc, Remainder, MessageBits, ByteBits, SetMeta;
    var meta := SetMeta(g, old_, data, lba);
    GuardCovers(g, old_, data, lba);
    WordValue(Crc(0, data + meta[..g.piOffset]));
    CrcIsLongDivision(data + meta[..g.piOffset]);
  }

  /** The tags as stored: for types 1 and 2 the application tag 0xFAD0, least significant byte first, and
      the LBA, or twice the LBA, most significant byte first; for type 3 the LBA in both, least
      significant byte first. */
  lemma TagBytes(g: Generator, old_: seq<bv8>, data: seq<bv8>, lba: u64)
    requires Layout(g) && |old_| == g.metaSize && |data| == g.dataSize
    ensures var pi := Pi(g, SetMeta(g, old_, data, lba));
            && (g.piType == 1 || g.piType == 2 ==> pi[2] as nat == 0xD0 && pi[3] as nat == 0xFA)
            && (g.piType == 1 ==> BigValue(pi[4..8]) == lba % U32_LIMIT)
            && (g.piType == 2 ==> BigValue(pi[4..8]) == 2 * lba % U32_LIMIT)
            && (g.piType == 3 ==> FromLittle(pi[4..8]) == lba % U32_LIMIT && FromLittle(pi[2..4]) == lba % U16_LIMIT)
  {
    hide SetMeta, Little, FromLittle, Big, BigValue, Pow256;
    PiWritten(g, old_, data, lba);
    var pi := Pi(g, SetMeta(g, old_, data, lba));
    var tags := Tags(g.piType, lba, Pi(g, old_)[2..]);
    assert pi[2..] == tags;
    assert pi[2..4] == tags[..2] && pi[4..8] == tags[2..6] && pi[2] == tags[0] && pi[3] == tags[1];
    if g.piType == 1 { assert tags[2..6] == Big(lba, 4); }
    if g.piType == 2 { assert tags[2..6] == Big(2 * lba, 4); }
    if g.piType == 3 { assert tags[..2] == Little(lba, 2) && tags[2..6] == Little(lba, 4); }
    Pow256Eight();
    FadBytes();
    BigValueOfBig(lba, 4);
    BigValueOfBig(2 * lba, 4);
    FromLittleOfLittle(lba, 4);
    FromLittleOfLittle(lba, 2);
  }

  lemma FadBytes()
    ensures Little(0xFAD0, 2)[0] as nat == 0xD0 && Little(0xFAD0, 2)[1] as nat == 0xFA
  {
    LittleByte(0xFAD0, 2, 0);
    LittleByte(0xFAD0, 2, 1);
    assert Pow256(0) == 1 && Pow256(1) == 256;
  }

  /** The escape touches the application tag, with type 3 of the namespace the reference tag too, and
      nothing else. */
  lemma EscapeBytes(g: Generator, nsPiType: nat, meta: seq<bv8>, i: nat)
    requires g.piOffset + PI_SIZE <= |meta| && i < |meta|
    ensures var end := g.piOffset + if nsPiType == 3 then 8 else 4;
            Escape(g, nsPiType, meta)[i] == if g.piOffset + 2 <= i < end then 0xFF else meta[i]
  {
  }

  /** When a check is skipped, in bytes. */
  lemma EscapedIff(g: Generator, meta: seq<bv8>)
    requires g.piOffset + PI_SIZE <= |meta|
    ensures var o := g.piOffset;
            Escaped(g, meta) <==>
              && meta[o + 2] == 0xFF && meta[o + 3] == 0xFF
              && (g.piType == 3 ==> forall i | o + 4 <= i < o + 8 :: meta[i] == 0xFF)
  {
    var o, pi := g.piOffset, Pi(g, meta);
    if g.piType == 3 {
      var tags := pi[2..8];
      assert tags == meta[o + 2..o + 8];
      assert tags[0] == meta[o + 2] && tags[1] == meta[o + 3] && tags[2] == meta[o + 4];
      assert tags[3] == meta[o + 5] && tags[4] == meta[o + 6] && tags[5] == meta[o + 7];
    } else {
      assert pi[2..4][0] == meta[o + 2] && pi[2..4][1] == meta[o + 3];
    }
  }

  /** A protection type that datagen_compare_meta does not know is never accepted. */
  lemma UnknownTypeRejected(g: Generator, meta: seq<bv8>, data: seq<bv8>, lba: u64)
    requires Layout(g) && |meta| == g.metaSize && |data| == g.dataSize
    ensures g.piType !in {1, 2, 3} ==> CompareMeta(g, meta, data, lba) != 0
  {
  }

  /** The fields of metadata, one by one: the copied data before and after the protection information,
      the guard over data and leading metadata, and the tags. */
  ghost predicate RightFields(g: Generator, meta: seq<bv8>, data: seq<bv8>, lba: u64)
    requires Layout(g) && |meta| == g.metaSize && |data| == g.dataSize
  {
    && meta[..g.piOffset] == data[..g.piOffset]
    && Pi(g, meta)[..2] == Word(Crc(0, data + meta[..g.piOffset]))
    && Pi(g, meta)[2..] == Tags(g.piType, lba, Pi(g, meta)[2..])
    && meta[g.piOffset + PI_SIZE..] == data[..g.metaSize - PI_SIZE - g.piOffset]
  }

  /** Metadata is accepted exactly when it is escaped or all its fields are right. */
  lemma AcceptedIffRight(g: Generator, meta: seq<bv8>, data: seq<bv8>, lba: u64)
    requires Layout(g) && |meta| == g.metaSize && |data| == g.dataSize && 1 <= g.piType <= 3
    ensures CompareMeta(g, meta, data, lba) == 0 <==> Escaped(g, meta) || RightFields(g, meta, data, lba)
  {
    hide Word, Tags, Crc, Escaped;
    var o := g.piOffset;
    CrcAppend(0, data, data[..o]);
    var right := SetMeta(g, meta, data, lba);
    assert right[..o] == data[..o];
    assert right[o + PI_SIZE..] == data[..g.metaSize - PI_SIZE - o];
    PiWritten(g, meta, data, lba);
    assert meta == meta[..o] + Pi(g, meta)[..2] + Pi(g, meta)[2..] + meta[o + PI_SIZE..];
  }

  /** Unescaped metadata rejects data that differs from what it was written for within two
      adjacent bytes, for both positions of the protection information. */
  lemma DataBurstRejected(g: Generator, old_: seq<bv8>, data: seq<bv8>, data': seq<bv8>, lba: u64, k: nat)
    requires Layout(g) && |old_| == g.metaSize && |data| == |data'| == g.dataSize
    requires DifferWithinTwoBytes(data, data', k)
    requires !Escaped(g, SetMeta(g, old_, data, lba))
    ensures CompareMeta(g, SetMeta(g, old_, data, lba), data', lba) != 0
  {
    hide Word, Tags, Crc, Escaped;
    var meta := SetMeta(g, old_, data, lba);
    var meta' := SetMeta(g, meta, data', lba);
    if meta == meta' {
      PiWritten(g, old_, data, lba);
      PiWritten(g, meta, data', lba);
      WordInjective(Guard(g, data), Guard(g, data'));
      assert meta[..g.piOffset] == data[..g.piOffset] && meta'[..g.piOffset] == data'[..g.piOffset];
      BurstDetected(0, data, data', k);
      CrcStateInjective(Crc(0, data), Crc(0, data'), data[..g.piOffset]);
    }
  }

  lemma FadIsNotEscape()
    ensures Little(0xFAD0, 2)[0] != 0xFF
  {
    assert (0xFAD0 % 256) as bv8 == 0xD0;
  }

  /** The tags of types 1 and 2 are never the escape value. */
  lemma WrittenTagsUnescaped(g: Generator, old_: seq<bv8>, data: seq<bv8>, lba: u64)
    requires Layout(g) && |old_| == g.metaSize && |data| == g.dataSize && (g.piType == 1 || g.piType == 2)
    ensures !Escaped(g, SetMeta(g, old_, data, lba))
  {
    hide Word, Guard, SetMeta, Little;
    var pi := Pi(g, SetMeta(g, old_, data, lba));
    PiWritten(g, old_, data, lba);
    FadIsNotEscape();
    assert pi[2..4][0] == pi[2..][0] == Little(0xFAD0, 2)[0];
  }

  /** Metadata of types 1 and 2 with a wrong guard is rejected. */
  lemma WrongGuardRejected(g: Generator, old_: seq<bv8>, data: seq<bv8>, lba: u64, wrong: bv8)
    requires Layout(g) && |old_| == g.metaSize && |data| == g.dataSize && (g.piType == 1 || g.piType == 2)
    requires wrong != SetMeta(g, old_, data, lba)[g.piOffset]
    ensures CompareMeta(g, SetMeta(g, old_, data, lba)[g.piOffset := wrong], data, lba) != 0
  {
    hide SetMeta, Escaped;
    var meta := SetMeta(g, old_, data, lba);
    var bad := meta[g.piOffset := wrong];
    SetMetaIgnoresOld(g, old_, bad, data, lba);
    WrittenTagsUnescaped(g, old_, data, lba);
    SameTags(g, meta, bad);
  }

  lemma SameTags(g: Generator, a: seq<bv8>, b: seq<bv8>)
    requires |a| == |b| && g.piOffset + PI_SIZE <= |a|
    requires forall i | g.piOffset + 2 <= i < g.piOffset + PI_SIZE :: a[i] == b[i]
    ensures Escaped(g, a) == Escaped(g, b)
  {
    assert forall i | 2 <= i < PI_SIZE :: Pi(g, a)[i] == a[g.piOffset + i] && Pi(g, b)[i] == b[g.piOffset + i];
    assert forall i | 2 <= i < PI_SIZE :: Pi(g, a)[i] == Pi(g, b)[i];
    assert Pi(g, a)[2..4] == Pi(g, b)[2..4] && Pi(g, a)[2..8] == Pi(g, b)[2..8];
  }

  /** Type 1 metadata is bound to the low 32 bits of the LBA: metadata written for another LBA
      is rejected even when the data is right. */
  lemma MisplacedMetaRejected(g: Generator, old_: seq<bv8>, data: seq<bv8>, lba: u64, lba': u64)
    requires Layout(g) && |old_| == g.metaSize && |data| == g.dataSize && g.piType == 1
    requires lba % 0x1_0000_0000 != lba' % 0x1_0000_0000
    ensures CompareMeta(g, SetMeta(g, old_, data, lba'), data, lba) != 0
  {
    hide Word, Guard, SetMeta, Little, Big;
    var meta := SetMeta(g, old_, data, lba');
    WrittenTagsUnescaped(g, old_, data, lba');
    if SetMeta(g, meta, data, lba) == meta {
      PiWritten(g, old_, data, lba');
      PiWritten(g, meta, data, lba);
      var t, t' := Little(0xFAD0, 2) + Big(lba, 4), Little(0xFAD0, 2) + Big(lba', 4);
      assert t == t';
      assert t[2..] == Big(lba, 4) && t'[2..] == Big(lba', 4);
      BigInjective(lba, lba', 4);
      Pow256Eight();
    }
  }

  /** `meta` holds the four parts of set_meta, byte by byte. */
  ghost predicate HasParts(g: Generator, meta: seq<bv8>, data: seq<bv8>, guard: bv16, tags: seq<bv8>)
    requires Layout(g) && |meta| == g.metaSize && |data| == g.dataSize && |tags| == 6
  {
    var o := g.piOffset;
    && (forall i | 0 <= i < o :: meta[i] == data[i])
    && meta[o] == Word(guard)[0] && meta[o + 1] == Word(guard)[1]
    && (forall i | 0 <= i < 6 :: meta[o + 2 + i] == tags[i])
    && (forall i | 0 <= i < g.metaSize - PI_SIZE - o :: meta[o + 8 + i] == data[i])
  }

  lemma Assemble(g: Generator, old_: seq<bv8>, meta: seq<bv8>, data: seq<bv8>, lba: u64)
    requires Layout(g) && |old_| == |meta| == g.metaSize && |data| == g.dataSize
    requires HasParts(g, meta, data, Guard(g, data), Tags(g.piType, lba, Pi(g, old_)[2..]))
    ensures meta == SetMeta(g, old_, data, lba)
  {
    hide Word, Tags, Guard;
    var o, s := g.piOffset, SetMeta(g, old_, data, lba);
    var w, t := Word(Guard(g, data)), Tags(g.piType, lba, Pi(g, old_)[2..]);
    forall i | 0 <= i < g.metaSize ensures meta[i] == s[i] {
      if o <= i < o + 2 {
        assert s[i] == w[i - o];
      } else if o + 2 <= i < o + 8 {
        assert s[i] == t[i - o - 2] && meta[o + 2 + (i - o - 2)] == t[i - o - 2];
      } else if o + 8 <= i {
        assert s[i] == data[i - o - 8] && meta[o + 8 + (i - o - 8)] == data[i - o - 8];
      }
    }
  }

  /** datagen_set_meta in place: tags first, then the guard of the data, then the copied part
      of the data with the guard continued over it. */
  method SetMetaInto(g: Generator, meta: array<bv8>, data: seq<bv8>, lba: u64)
    requires Layout(g) && meta.Length == g.metaSize && |data| == g.dataSize
    modifies meta
    ensures meta[..] == SetMeta(g, old(meta[..]), data, lba)
  {
    hide Word, Tags, Crc, SetMeta;
    var o := g.piOffset;
    ghost var old_ := meta[..];
    assert Pi(g, old_)[2..] == meta[o + 2..o + 8];
    var tags := Tags(g.piType, lba, meta[o + 2..o + 8]);
    BlockBuffer.Copy(tags, meta, o + 2);
    var guard := CrcT10DifGeneric(0, data);
    BlockBuffer.Copy(Word(guard), meta, o);
    EmptyCrc(guard);
    if g.metaSize > PI_SIZE {
      if o > 0 {
        BlockBuffer.Copy(data[..o], meta, 0);
        guard := CrcT10DifGeneric(guard, data[..o]);
        BlockBuffer.Copy(Word(guard), meta, o);
      } else {
        BlockBuffer.Copy(data[..g.metaSize - PI_SIZE], meta, PI_SIZE);
      }
    }
    assert guard == Guard(g, data);
    Assemble(g, old_, meta[..], data, lba);
  }

  lemma EmptyCrc(c: bv16)
    ensures Crc(c, []) == c
  {
  }
}
