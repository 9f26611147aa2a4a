/** What the verifier checks on a read, block by block, and which blocks pass. */
module Verifier {
  import opened Common
  import opened Bytes
  import opened Datagen
  import opened Metadata

  /** The states of a block descriptor. `Stray` is the value 5 that the history stores for a
      write-uncorrectable command; no check knows it. */
  datatype BlockState = Unwritten | Dealloc | Uncor | Zeroes | Data | Stray

  datatype BlockDesc = BlockDesc(state: BlockState, timestamp: nat, pattern: nat)

  datatype Block = Block(data: seq<bv8>, meta: seq<bv8>)

  datatype UnwrittenValue = ReadsZeroes | ReadsOnes

  /** What a deallocated block is expected to read as: zeroes, ones or its last data. */
  datatype DeallocValue = DeallocZeroes | DeallocOnes | DeallocLast

  /** Generator, namespace layout and the job parameters that steer the checks. */
  datatype Config = Config(
    g: Generator,
    nsPiType: nat,                    // protection information type of the namespace, 0 for none
    piFirst: bool,                    // protection information in the first 8 bytes of the metadata
    headerOnly: bool,                 // compare_header_only
    unwrittenChecked: bool,           // unwr_read_result_type is "value"
    unwrittenValue: UnwrittenValue,
    deallocValue: DeallocValue)
  {
    /** The settings iover_init produces. */
    ghost predicate Valid() {
      && g.Valid()
      && (g.metaSize > 0 ==>
            Layout(g) && g.piType == 1 && g.piOffset == if piFirst then 0 else g.metaSize - PI_SIZE)
    }
  }

  ghost predicate Sized(c: Config, b: Block) {
    |b.data| == c.g.dataSize && |b.meta| == c.g.metaSize
  }

  /** is_all: the loop never advances its pointer, so only the first byte counts. */
  method IsAll(data: seq<bv8>, val: bv8) returns (r: bool)
    ensures r == StartsWith(data, val)
  {
    for offset := 0 to |data|
      invariant offset > 0 ==> data[0] == val
    {
      if data[0] != val { return false; }
    }
    return true;
  }

  predicate StartsWith(data: seq<bv8>, val: bv8) {
    |data| == 0 || data[0] == val
  }

  /** verify_block_header and verify_block_body with lba_overlap off. */
  function VerifyBlockData(c: Config, data: seq<bv8>, lba: u64, desc: BlockDesc): int
    requires c.Valid() && |data| == c.g.dataSize
  {
    var f := GetHeader(c.g, data);
    if f.NoHeader? then -1
    else if f.lba != lba then -1
    else if f.timestamp % U16_LIMIT != desc.timestamp then -1
    else if c.headerOnly then 0
    else if f.pattern < |c.g.patterns| && Body(c.g, data) == c.g.patterns[f.pattern].body then 0 else -1
  }

  /** verify_unwritten_block. */
  function VerifyUnwritten(c: Config, b: Block): int
    requires c.Valid() && Sized(c, b)
  {
    if !c.unwrittenChecked then 0
    else match c.unwrittenValue
      case ReadsOnes => if StartsWith(b.data, 0xFF) then 0 else -1
      case ReadsZeroes =>
        if !StartsWith(b.data, 0) then -1
        else if c.g.metaSize == 0 then 0
        else if c.nsPiType == 0 then (if StartsWith(b.data, 0) then 0 else -1)
        else if !StartsWith(Pi(c.g, b.meta), 0xFF) then -1
        else
          var rest := if c.piFirst then b.meta[PI_SIZE..] else b.meta[..c.g.metaSize - PI_SIZE];
          if c.g.metaSize > PI_SIZE && !StartsWith(rest, 0) then -1 else 0
  }

  /** verify_dealloc_block: the comparison with the last data is made and its result dropped. */
  function VerifyDealloc(c: Config, b: Block): int {
    match c.deallocValue
    case DeallocZeroes => if StartsWith(b.data, 0) then 0 else -1
    case DeallocOnes => if StartsWith(b.data, 0xFF) then 0 else -1
    case DeallocLast => 0
  }

  /** One block of verify_bio_read: the results for uncorrectable and zeroed blocks do not reach
      the final result. */
  function VerifyBlock(c: Config, desc: BlockDesc, b: Block, lba: u64): int
    requires c.Valid() && Sized(c, b)
  {
    match desc.state
    case Unwritten => VerifyUnwritten(c, b)
    case Dealloc => VerifyDealloc(c, b)
    case Data =>
      var res := VerifyBlockData(c, b.data, lba, desc);
      if res == 0 && c.g.metaSize > 0 then CompareMeta(c.g, b.meta, b.data, lba) else res
    case _ => 0
  }

  // ----- which blocks are right

  /** The pattern that iover_generate_data chooses. */
  function PatternFor(c: Config, timestamp: u64, lba: u64): (p: nat)
    requires c.Valid()
    ensures p < |c.g.patterns|
  {
    ((timestamp + lba) % U64_LIMIT) % |c.g.patterns|
  }

  /** The block iover_generate_data produces for an LBA; `escape` is its random choice and
      `old_` the previous content of the metadata buffer. */
  function NewBlock(c: Config, lba: u64, timestamp: u64, escape: bool, old_: seq<bv8>): (b: Block)
    requires c.Valid() && |old_| == c.g.metaSize
    ensures Sized(c, b)
  {
    var data := BlockData(c.g, lba, timestamp, PatternFor(c, timestamp, lba));
    if c.g.metaSize == 0 then Block(data, [])
    else
      var meta := SetMeta(c.g, old_, data, lba);
      Block(data, if escape then Escape(c.g, c.nsPiType, meta) else meta)
  }

  /** A block written for this LBA with a stamp that shows as `stamp16` in a descriptor. */
  ghost predicate Generated(c: Config, b: Block, lba: u64, stamp16: nat)
    requires c.Valid()
  {
    exists timestamp: u64, escape: bool, old_: seq<bv8> ::
      |old_| == c.g.metaSize && timestamp % U16_LIMIT == stamp16 && b == NewBlock(c, lba, timestamp, escape, old_)
  }

  /** Content of a block that was never written. */
  ghost predicate Factory(c: Config, b: Block)
    requires c.Valid()
  {
    && Sized(c, b)
    && (c.unwrittenChecked ==>
          match c.unwrittenValue
          case ReadsOnes => forall i | 0 <= i < |b.data| :: b.data[i] == 0xFF
          case ReadsZeroes =>
            && (forall i | 0 <= i < |b.data| :: b.data[i] == 0)
            && (c.g.metaSize > 0 && c.nsPiType > 0 ==>
                  forall i | 0 <= i < |b.meta| ::
                    b.meta[i] == if c.g.piOffset <= i < c.g.piOffset + PI_SIZE then 0xFF else 0))
  }

  /** Content of a deallocated block on a device of the configured kind. */
  ghost predicate Deallocated(c: Config, data: seq<bv8>) {
    match c.deallocValue
    case DeallocZeroes => forall i | 0 <= i < |data| :: data[i] == 0
    case DeallocOnes => forall i | 0 <= i < |data| :: data[i] == 0xFF
    case DeallocLast => true
  }

  /** A generated block passes, and committing it reads back its own stamp. */
  lemma GeneratedPasses(c: Config, b: Block, lba: u64, desc: BlockDesc)
    requires c.Valid() && desc.state == Data && Generated(c, b, lba, desc.timestamp)
    ensures Sized(c, b) && VerifyBlock(c, desc, b, lba) == 0
    ensures GetHeader(c.g, b.data).Found? && GetHeader(c.g, b.data).timestamp % U16_LIMIT == desc.timestamp
  {
    hide GetHeader, SetMeta, Escape, BlockWith, CompareMeta;
    var timestamp: u64, escape: bool, old_: seq<bv8> :|
      |old_| == c.g.metaSize && timestamp % U16_LIMIT == desc.timestamp &&
        b == NewBlock(c, lba, timestamp, escape, old_);
    var p := PatternFor(c, timestamp, lba);
    HeaderRoundTrip(c.g, lba, timestamp, p, 0);
    BlockParts(c.g, lba, timestamp, p, 0);
    if c.g.metaSize > 0 {
      MetaRoundTrip(c.g, old_, BlockData(c.g, lba, timestamp, p), lba, c.nsPiType);
    }
  }

  lemma FactoryPasses(c: Config, b: Block)
    requires c.Valid() && Factory(c, b)
    ensures VerifyUnwritten(c, b) == 0
  {
    if c.unwrittenChecked && c.unwrittenValue.ReadsZeroes? && c.g.metaSize > 0 && c.nsPiType > 0 {
      assert Pi(c.g, b.meta)[0] == b.meta[c.g.piOffset];
    }
  }

  /** The first byte of the metadata outside the protection information. */
  function RestByte(c: Config, meta: seq<bv8>): bv8
    requires c.Valid() && PI_SIZE < c.g.metaSize == |meta|
  {
    if c.piFirst then meta[PI_SIZE] else meta[0]
  }

  /** What a block that was never written must look like, for all settings, in bytes. */
  lemma UnwrittenPassesIff(c: Config, b: Block)
    requires c.Valid() && Sized(c, b)
    ensures VerifyUnwritten(c, b) == 0 <==>
      (c.unwrittenChecked ==>
         match c.unwrittenValue
         case ReadsOnes => b.data[0] == 0xFF
         case ReadsZeroes =>
           && b.data[0] == 0
           && (c.g.metaSize > 0 && c.nsPiType != 0 ==>
                 b.meta[c.g.piOffset] == 0xFF && (c.g.metaSize > PI_SIZE ==> RestByte(c, b.meta) == 0)))
  {
    if c.g.metaSize > 0 {
      assert Pi(c.g, b.meta)[0] == b.meta[c.g.piOffset];
    }
  }

  function Rem(x: nat, n: nat): nat
    requires n > 0
  {
    x % n
  }

  function NextRem(r: nat, n: nat): nat {
    if r + 1 == n then 0 else r + 1
  }

  lemma RemNext(x: nat, n: nat)
    requires n > 0
    ensures Rem(x + 1, n) == NextRem(Rem(x, n), n) && Rem(0, n) == 0
  {
    var q, r := x / n, x % n;
    assert x == n * q + r;
    if r + 1 == n {
      assert x + 1 == n * (q + 1) + 0;
      DivUnique(x + 1, n, q + 1, 0);
    } else {
      DivUnique(x + 1, n, q, r + 1);
    }
    DivUnique(0, n, 0, 0);
  }

  lemma PatternIs(c: Config, timestamp: u64, lba: u64)
    requires c.Valid()
    ensures var sum := timestamp + lba;
            PatternFor(c, timestamp, lba) == Rem(if sum < U64_LIMIT then sum else sum - U64_LIMIT, |c.g.patterns|)
  {
  }

  /** The pattern of a block: 0 for stamp and LBA 0, and one further, modulo their number, for the next
      stamp or the next LBA; the sum of the two is taken in 64 bits. */
  lemma PatternSteps(c: Config, timestamp: u64, lba: u64)
    requires c.Valid()
    ensures PatternFor(c, 0, 0) == 0
    ensures timestamp + lba + 1 < U64_LIMIT ==>
      var next := NextRem(PatternFor(c, timestamp, lba), |c.g.patterns|);
      PatternFor(c, timestamp, lba + 1) == next && PatternFor(c, timestamp + 1, lba) == next
    ensures U64_LIMIT <= timestamp + lba ==>
      PatternFor(c, timestamp, lba) == PatternFor(c, timestamp + lba - U64_LIMIT, 0)
  {
    hide PatternFor, Rem;
    var n, sum := |c.g.patterns|, timestamp + lba;
    RemNext(sum, n);
    PatternIs(c, 0, 0);
    PatternIs(c, timestamp, lba);
    if sum + 1 < U64_LIMIT {
      PatternIs(c, timestamp, lba + 1);
      PatternIs(c, timestamp + 1, lba);
    }
    if U64_LIMIT <= sum { PatternIs(c, sum - U64_LIMIT, 0); }
  }

  /** The metadata of a new block: right in every field and checked by the next read, unless the tags
      were escaped, and then it is that metadata with the escape. */
  lemma NewBlockMeta(c: Config, lba: u64, timestamp: u64, escape: bool, old_: seq<bv8>)
    requires c.Valid() && |old_| == c.g.metaSize && c.g.metaSize > 0
    ensures var plain := NewBlock(c, lba, timestamp, false, old_);
            && plain.data == BlockData(c.g, lba, timestamp, PatternFor(c, timestamp, lba))
            && !Escaped(c.g, plain.meta) && RightFields(c.g, plain.meta, plain.data, lba)
            && (escape ==> NewBlock(c, lba, timestamp, escape, old_) ==
                             Block(plain.data, Escape(c.g, c.nsPiType, plain.meta)))
  {
    hide SetMeta, BlockWith, Escaped, RightFields, CompareMeta, Escape;
    var data := BlockData(c.g, lba, timestamp, PatternFor(c, timestamp, lba));
    var meta := SetMeta(c.g, old_, data, lba);
    WrittenTagsUnescaped(c.g, old_, data, lba);
    MetaRoundTrip(c.g, old_, data, lba, c.nsPiType);
    AcceptedIffRight(c.g, meta, data, lba);
  }

  /** The check of a block that was never written lets others through: whatever value is configured,
      a block with the right first byte of its data and otherwise wrong data passes. */
  lemma FirstByteDecides(c: Config) returns (b: Block)
    requires c.Valid() && c.unwrittenChecked
    ensures Sized(c, b) && !Factory(c, b) && VerifyUnwritten(c, b) == 0
  {
    var fill: bv8 := if c.unwrittenValue.ReadsOnes? then 0xFF else 0;
    var data := seq(c.g.dataSize, i => if i == 0 then fill else 0x55);
    var meta := seq(c.g.metaSize, i => if c.g.piOffset <= i < c.g.piOffset + PI_SIZE then 0xFF else 0);
    b := Block(data, meta);
    assert data[1] == 0x55;
    if c.g.metaSize > 0 { assert Pi(c.g, meta)[0] == meta[c.g.piOffset]; }
  }

  // ----- detection

  /** The part of a block that is compared is what the generator writes with these fields. */
  ghost predicate Written(c: Config, data: seq<bv8>, lba: u64, timestamp: u64, p: nat, rsvd: bv8)
    requires c.Valid() && |data| == c.g.dataSize && p < |c.g.patterns|
  {
    if c.headerOnly then HeaderBytes(c.g, data, lba, timestamp, p, rsvd)
    else data == BlockWith(c.g, lba, timestamp, p, rsvd)
  }

  /** The block is one that the generator writes for this LBA, reserved byte aside, with a stamp
      that shows as `stamp16`; with compare_header_only this is said of header and footer alone. */
  ghost predicate CarriesStamp(c: Config, data: seq<bv8>, lba: u64, stamp16: nat)
    requires c.Valid() && |data| == c.g.dataSize
  {
    exists timestamp: u64, p: nat, rsvd: bv8 ::
      p < |c.g.patterns| && timestamp % U16_LIMIT == stamp16 && Written(c, data, lba, timestamp, p, rsvd)
  }

  /** The comparison accepts exactly the blocks that the generator writes for this LBA, reserved
      byte aside, with a stamp congruent to the descriptor's modulo 2^16. */
  lemma DataAcceptedIff(c: Config, data: seq<bv8>, lba: u64, desc: BlockDesc)
    requires c.Valid() && |data| == c.g.dataSize
    ensures VerifyBlockData(c, data, lba, desc) == 0 <==> CarriesStamp(c, data, lba, desc.timestamp)
  {
    hide GetHeader, BlockWith, HeaderBytes;
    if VerifyBlockData(c, data, lba, desc) == 0 {
      var f := GetHeader(c.g, data);
      var rsvd := HeaderExact(c.g, data);
      if !c.headerOnly {
        BlockExact(c.g, data, lba, f.timestamp, f.pattern);
        rsvd :| data == BlockWith(c.g, lba, f.timestamp, f.pattern, rsvd);
      }
      assert Written(c, data, lba, f.timestamp, f.pattern, rsvd);
    }
    if CarriesStamp(c, data, lba, desc.timestamp) {
      var timestamp: u64, p: nat, rsvd: bv8 :|
        p < |c.g.patterns| && timestamp % U16_LIMIT == desc.timestamp && Written(c, data, lba, timestamp, p, rsvd);
      if c.headerOnly {
        HeaderReadBack(c.g, data, lba, timestamp, p, rsvd);
      } else {
        BlockExact(c.g, data, lba, timestamp, p);
      }
    }
  }

  lemma FilledCarriesNothing(c: Config, data: seq<bv8>, lba: u64, stamp16: nat, fill: bv8)
    requires c.Valid() && |data| == c.g.dataSize && !c.g.randomizeHeader && fill != START_MARKER
    requires forall i | 0 <= i < |data| :: data[i] == fill
    ensures !CarriesStamp(c, data, lba, stamp16)
  {
    hide CarriesStamp;
    DataAcceptedIff(c, data, lba, BlockDesc(Data, stamp16, 0));
    assert FirstBytes(c.g, data)[1] == fill;
  }

  /** A generated block that turns up at `lba` is accepted exactly when it was written for that
      LBA with a stamp congruent modulo 2^16: misdirected blocks, and stale ones unless they are
      a multiple of 65536 stamps old, are always rejected. */
  lemma MisplacedOrStaleRejected(c: Config, lba: u64, desc: BlockDesc, wroteLba: u64, wroteStamp: u64, p: nat)
    requires c.Valid() && p < |c.g.patterns|
    ensures VerifyBlockData(c, BlockData(c.g, wroteLba, wroteStamp, p), lba, desc) == 0
       <==> wroteLba == lba && wroteStamp % U16_LIMIT == desc.timestamp
  {
    hide GetHeader, BlockWith;
    HeaderRoundTrip(c.g, wroteLba, wroteStamp, p, 0);
    BlockParts(c.g, wroteLba, wroteStamp, p, 0);
  }

  /** A change of any single byte of a generated block, wherever it is, is rejected. */
  lemma DamageRejected(c: Config, lba: u64, desc: BlockDesc, timestamp: u64, p: nat, data: seq<bv8>, i: nat)
    requires c.Valid() && p < |c.g.patterns| && !c.headerOnly && |data| == c.g.dataSize
    requires i < c.g.dataSize && data[i] != BlockData(c.g, lba, timestamp, p)[i]
    requires forall j | 0 <= j < c.g.dataSize && j != i :: data[j] == BlockData(c.g, lba, timestamp, p)[j]
    ensures VerifyBlockData(c, data, lba, desc) != 0
  {
    hide GetHeader, BlockWith, Stored;
    var right := BlockData(c.g, lba, timestamp, p);
    var n := c.g.dataSize - HEADER_SIZE;
    BlockParts(c.g, lba, timestamp, p, 0);
    HeaderFoundIff(c.g, data);
    if i < HEADER_SIZE {
      assert FirstBytes(c.g, data)[i] != FirstBytes(c.g, right)[i];
      assert LastBytes(c.g, data) == LastBytes(c.g, right);
    } else if n <= i {
      assert LastBytes(c.g, data)[i - n] != LastBytes(c.g, right)[i - n];
      assert FirstBytes(c.g, data) == FirstBytes(c.g, right);
    } else {
      assert Body(c.g, data)[i - HEADER_SIZE] != Body(c.g, right)[i - HEADER_SIZE];
      if GetHeader(c.g, data).Found? { HeaderPattern(c.g, data); }
    }
  }

  lemma HeaderPattern(g: Generator, data: seq<bv8>)
    requires g.Valid() && |data| == g.dataSize && GetHeader(g, data).Found?
    ensures GetHeader(g, data).pattern == data[0] as int
  {
    hide Stored;
  }
}
