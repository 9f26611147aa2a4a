/** The test bench as a transition system: commands are generated under the range lock, a device
    executes them block by block in any order, completions are checked and committed. */
module Bench {
  import opened Common
  import opened Bytes
  import opened Datagen
  import opened Verifier
  import opened History

  datatype Op = Read | Write | Flush | Deallocate | WriteZeroes | WriteUncorrect

  /** The verifier: locked LBAs, shadow descriptors, write stamp and history ring. */
  datatype Iover = Iover(locked: set<nat>, desc: seq<BlockDesc>, timestamp: u64, ring: Ring)

  /** An in-flight command: its buffer, which blocks the device has executed, and whether the
      device has reported an error. */
  datatype Cmd = Cmd(op: Op, slba: nat, blocks: seq<Block>, done: seq<bool>, failed: bool)

  /** A block on the device; `bad` blocks return an error when read. */
  datatype Cell = Cell(block: Block, bad: bool)

  /** Verifier, device and in-flight commands; `log` is the unbounded sequence of history records
      that the ring keeps the newest part of, and `doubt` the LBAs that were in flight at a power
      loss, for which the shadow is only known to pass the checks. */
  datatype Sys = Sys(v: Iover, device: seq<Cell>, inflight: map<nat, Cmd>, log: seq<HistDesc>, doubt: set<nat>)

  /** The LBAs of a command. */
  function Range(slba: nat, nlbs: nat): (r: set<nat>)
    ensures forall lba: nat :: lba in r <==> slba <= lba < slba + nlbs
  {
    if nlbs == 0 then {} else Range(slba, nlbs - 1) + {slba + nlbs - 1}
  }

  // ----- generate

  function NextStamp(timestamp: u64): u64 {
    (timestamp + 1) % U64_LIMIT
  }

  /** The buffer after iover_generate_data: a write fills every block, a read leaves it alone. */
  function Payload(c: Config, op: Op, slba: nat, stamp: u64, buffers: seq<Block>, escapes: seq<bool>): (s: seq<Block>)
    requires c.Valid() && slba + |buffers| <= NO_LBA && |escapes| == |buffers|
    requires forall k | 0 <= k < |buffers| :: Sized(c, buffers[k])
    ensures |s| == |buffers| && forall k | 0 <= k < |s| :: Sized(c, s[k])
  {
    if op == Write then
      seq(|buffers|, k requires 0 <= k < |buffers| =>
        assert Sized(c, buffers[k]); NewBlock(c, slba + k, stamp, escapes[k], buffers[k].meta))
    else buffers
  }

  // ----- commit

  /** The descriptor commit_block_state leaves for a block of a completed command. */
  function DescAfter(c: Config, op: Op, d: BlockDesc, b: Block): BlockDesc
    requires c.Valid() && Sized(c, b)
  {
    match op
    case Write =>
      var f := GetHeader(c.g, b.data);
      if f.Found? then BlockDesc(Data, f.timestamp % U16_LIMIT, f.pattern % 32) else d
    case Deallocate => d.(state := Dealloc)
    case WriteZeroes => d.(state := Zeroes)
    case WriteUncorrect => d.(state := Uncor)
    case _ => d
  }

  /** The shadow table with the first n blocks of a command committed. */
  function Committed(c: Config, desc: seq<BlockDesc>, op: Op, slba: nat, blocks: seq<Block>, n: nat)
    : (s: seq<BlockDesc>)
    requires c.Valid() && n <= |blocks| && slba + |blocks| <= |desc|
    requires forall k | 0 <= k < |blocks| :: Sized(c, blocks[k])
    ensures |s| == |desc|
    ensures forall i | 0 <= i < |desc| ::
              s[i] == if slba <= i < slba + n then DescAfter(c, op, desc[i], blocks[i - slba]) else desc[i]
  {
    seq(|desc|, i requires 0 <= i < |desc| =>
      if slba <= i < slba + n then DescAfter(c, op, desc[i], blocks[i - slba]) else desc[i])
  }

  // ----- log

  /** The record backup_hist_state stores for one block. `bd[BD_CURR]` is a copy of descriptor 0,
      and only a write sets stamp and pattern of `bd[BD_NEXT]`. */
  function RecordFor(c: Config, desc0: BlockDesc, slot: HistDesc, op: Op, lba: nat, b: Block): HistDesc
    requires c.Valid() && Sized(c, b)
  {
    HistDesc(lba, desc0,
      match op
      case Write =>
        var f := GetHeader(c.g, b.data);
        if f.Found? then BlockDesc(Data, f.timestamp % U16_LIMIT, f.pattern % 32) else slot.next
      case Deallocate => slot.next.(state := Dealloc)
      case WriteZeroes => slot.next.(state := Zeroes)
      case _ => slot.next.(state := Stray))
  }

  predicate Logged(op: Op) {
    op == Write || op == Deallocate || op == WriteZeroes || op == WriteUncorrect
  }

  /** The ring after the first n blocks of a command are logged. */
  function Backup(c: Config, desc0: BlockDesc, ring: Ring, op: Op, slba: nat, blocks: seq<Block>, n: nat): (r: Ring)
    requires c.Valid() && WellFormed(ring) && n <= |blocks|
    requires forall k | 0 <= k < |blocks| :: Sized(c, blocks[k])
    ensures WellFormed(r) && |r.slots| == |ring.slots|
    decreases n
  {
    if n == 0 || !Logged(op) then ring
    else
      var r := Backup(c, desc0, ring, op, slba, blocks, n - 1);
      NextSlot(r.idx, |r.slots|);
      Push(r, RecordFor(c, desc0, r.slots[r.idx], op, slba + n - 1, blocks[n - 1]))
  }

  /** The records that Backup stores, in order. */
  function Records(c: Config, desc0: BlockDesc, ring: Ring, op: Op, slba: nat, blocks: seq<Block>, n: nat)
    : (r: seq<HistDesc>)
    requires c.Valid() && WellFormed(ring) && n <= |blocks|
    requires forall k | 0 <= k < |blocks| :: Sized(c, blocks[k])
    ensures |r| == if Logged(op) then n else 0
    decreases n
  {
    if n == 0 || !Logged(op) then []
    else
      var r := Backup(c, desc0, ring, op, slba, blocks, n - 1);
      Records(c, desc0, ring, op, slba, blocks, n - 1)
        + [RecordFor(c, desc0, r.slots[r.idx], op, slba + n - 1, blocks[n - 1])]
  }

  // ----- completion

  /** What a completion reports: an unexpected command result, a miscompare, the return value. */
  datatype Verdict = Verdict(unexpected: bool, miscompare: bool, ret: int)

  datatype Policy = Policy(stopOnError: bool, stopOnMiscompare: bool)

  /** check_read_error and iover_check_written. */
  predicate HasUncor(desc: seq<BlockDesc>, slba: nat, nlbs: nat)
    requires slba + nlbs <= |desc|
  {
    exists i :: slba <= i < slba + nlbs && desc[i].state == Uncor
  }

  predicate HasWritten(desc: seq<BlockDesc>, slba: nat, nlbs: nat)
    requires slba + nlbs <= |desc|
  {
    exists i :: slba <= i < slba + nlbs && (desc[i].state == Uncor || desc[i].state == Data || desc[i].state == Zeroes)
  }

  /** The result of verify_bio_read over the first n blocks: that of the first failing block. */
  function ReadResult(c: Config, desc: seq<BlockDesc>, slba: nat, blocks: seq<Block>, n: nat): int
    requires c.Valid() && n <= |blocks| && slba + |blocks| <= |desc| <= NO_LBA
    requires forall k | 0 <= k < |blocks| :: Sized(c, blocks[k])
    decreases n
  {
    if n == 0 then 0
    else
      var res := ReadResult(c, desc, slba, blocks, n - 1);
      if res != 0 then res else VerifyBlock(c, desc[slba + n - 1], blocks[n - 1], slba + n - 1)
  }

  /** iover_submit for commands below bio_identify, with lba_overlap off and compare on. */
  function Submit(c: Config, pol: Policy, v: Iover, op: Op, slba: nat, blocks: seq<Block>, failed: bool)
    : (Iover, Verdict)
    requires c.Valid() && slba + |blocks| <= |v.desc| && |v.desc| <= NO_LBA
    requires forall k | 0 <= k < |blocks| :: Sized(c, blocks[k])
  {
    var v1 := v.(locked := v.locked - Range(slba, |blocks|));
    var unexpected := failed && !HasUncor(v.desc, slba, |blocks|) && HasWritten(v.desc, slba, |blocks|);
    if unexpected && pol.stopOnError then (v1, Verdict(true, false, -1))
    else if failed then (v1, Verdict(unexpected, false, 0))
    else if op == Read then
      var res := ReadResult(c, v.desc, slba, blocks, |blocks|);
      (v1, Verdict(false, res != 0, if pol.stopOnMiscompare then res else 0))
    else
      (v1.(desc := Committed(c, v.desc, op, slba, blocks, |blocks|)), Verdict(false, false, 0))
  }

  // ----- moves

  datatype Move =
    | Generate(id: nat, op: Op, slba: nat, buffers: seq<Block>, escapes: seq<bool>)
    | Apply(id: nat, k: nat, content: Block)
    | Complete(id: nat)

  ghost predicate Enabled(c: Config, s: Sys, m: Move) {
    match m
    case Generate(id, op, slba, buffers, escapes) =>
      && id !in s.inflight && slba + |buffers| <= |s.device| && |escapes| == |buffers|
      && (op == Flush ==> buffers == [])
      && forall k | 0 <= k < |buffers| :: Sized(c, buffers[k])
    case Apply(id, k, content) =>
      && id in s.inflight && k < |s.inflight[id].done| && !s.inflight[id].done[k] && Sized(c, content)
      && (s.inflight[id].op == WriteZeroes ==> AllZero(content.data))
      && (s.inflight[id].op == Deallocate ==> Deallocated(c, content.data))
    case Complete(id) =>
      && id in s.inflight && forall k | 0 <= k < |s.inflight[id].done| :: s.inflight[id].done[k]
  }

  ghost predicate AllZero(data: seq<bv8>) {
    forall i | 0 <= i < |data| :: data[i] == 0
  }

  /** The cell after a conforming device executes one block of a command. What a
      deallocated or zeroed block holds afterwards is the device's choice `content`. */
  function Executed(op: Op, cell: Cell, b: Block, content: Block): Cell {
    match op
    case Write => Cell(b, false)
    case Deallocate => Cell(content, false)
    case WriteZeroes => Cell(content, false)
    case WriteUncorrect => cell.(bad := true)
    case _ => cell
  }

  /** Shapes fit: everything the functions above require. */
  ghost predicate Shaped(c: Config, s: Sys) {
    && c.Valid() && 0 < |s.v.desc| == |s.device| <= NO_LBA && WellFormed(s.v.ring)
    && (forall i | 0 <= i < |s.device| :: Sized(c, s.device[i].block))
    && (forall id | id in s.inflight :: CmdShaped(c, s.inflight[id], |s.device|))
  }

  ghost predicate CmdShaped(c: Config, m: Cmd, n: nat) {
    && m.slba + |m.blocks| <= n && |m.done| == |m.blocks|
    && (m.op == Flush ==> m.blocks == [])
    && forall k | 0 <= k < |m.blocks| :: Sized(c, m.blocks[k])
  }

  ghost function GenerateStep(c: Config, s: Sys, id: nat, op: Op, slba: nat, buffers: seq<Block>,
                              escapes: seq<bool>): Sys
    requires Shaped(c, s) && Enabled(c, s, Generate(id, op, slba, buffers, escapes))
  {
    var range := Range(slba, |buffers|);
    if s.v.locked * range != {} then s
    else
      var stamp := if op == Write then NextStamp(s.v.timestamp) else s.v.timestamp;
      var blocks := Payload(c, op, slba, stamp, buffers, escapes);
      var ring := Backup(c, s.v.desc[0], s.v.ring, op, slba, blocks, |blocks|);
      var records := Records(c, s.v.desc[0], s.v.ring, op, slba, blocks, |blocks|);
      Sys(Iover(s.v.locked + range, s.v.desc, stamp, ring), s.device,
          s.inflight[id := Cmd(op, slba, blocks, seq(|blocks|, _ => false), false)], s.log + records, s.doubt)
  }

  ghost function ApplyStep(c: Config, s: Sys, id: nat, k: nat, content: Block): Sys
    requires Shaped(c, s) && Enabled(c, s, Apply(id, k, content))
  {
    var m := s.inflight[id];
    var lba := m.slba + k;
    var cell := s.device[lba];
    var m' := if m.op != Read then m
              else if cell.bad then m.(failed := true)
              else m.(blocks := m.blocks[k := cell.block]);
    s.(device := s.device[lba := Executed(m.op, cell, m.blocks[k], content)],
       inflight := s.inflight[id := m'.(done := m.done[k := true])])
  }

  ghost function CompleteStep(c: Config, pol: Policy, s: Sys, id: nat): (Sys, Verdict)
    requires Shaped(c, s) && id in s.inflight
  {
    var m := s.inflight[id];
    var (v', verdict) := Submit(c, pol, s.v, m.op, m.slba, m.blocks, m.failed);
    (s.(v := v', inflight := s.inflight - {id}), verdict)
  }

  ghost function Step(c: Config, pol: Policy, s: Sys, m: Move): Sys
    requires Shaped(c, s) && Enabled(c, s, m)
  {
    match m
    case Generate(id, op, slba, buffers, escapes) => GenerateStep(c, s, id, op, slba, buffers, escapes)
    case Apply(id, k, content) => ApplyStep(c, s, id, k, content)
    case Complete(id) => CompleteStep(c, pol, s, id).0
  }

  // ----- the agreement invariant

  /** A descriptor says the truth about a cell. */
  ghost predicate Describes(c: Config, d: BlockDesc, cell: Cell, lba: u64)
    requires c.Valid()
  {
    && (cell.bad ==> d.state == Uncor)
    && match d.state
       case Unwritten => Factory(c, cell.block)
       case Data => Generated(c, cell.block, lba, d.timestamp)
       case Dealloc => Deallocated(c, cell.block.data)
       case Zeroes => AllZero(cell.block.data)
       case _ => true
  }

  /** A cell passes the checks against a descriptor. */
  ghost predicate Passes(c: Config, d: BlockDesc, cell: Cell, lba: u64)
    requires c.Valid()
  {
    Sized(c, cell.block) && (cell.bad ==> d.state == Uncor) && VerifyBlock(c, d, cell.block, lba) == 0
  }

  /** The shadow of an LBA is true or, in doubt, at least passes. */
  ghost predicate Agrees(c: Config, d: BlockDesc, cell: Cell, lba: u64, doubtful: bool)
    requires c.Valid()
  {
    if doubtful then Passes(c, d, cell, lba) else Describes(c, d, cell, lba)
  }

  /** An in-flight command and the device: the descriptor that its completion will commit already
      describes an executed block, any other block still agrees with the committed one. */
  ghost predicate CmdAgrees(c: Config, s: Sys, m: Cmd)
    requires Shaped(c, s) && CmdShaped(c, m, |s.device|)
  {
    && (m.failed ==> m.op == Read && HasUncor(s.v.desc, m.slba, |m.blocks|))
    && forall k | 0 <= k < |m.blocks| :: BlockAgrees(c, s, m, k)
  }

  ghost predicate BlockAgrees(c: Config, s: Sys, m: Cmd, k: nat)
    requires Shaped(c, s) && CmdShaped(c, m, |s.device|) && k < |m.blocks|
  {
    var lba := m.slba + k;
    var d, cell, after := s.v.desc[lba], s.device[lba], DescAfter(c, m.op, s.v.desc[lba], m.blocks[k]);
    && (if m.done[k] && Logged(m.op) then Describes(c, after, cell, lba) else Agrees(c, d, cell, lba, lba in s.doubt))
    && (m.op == Write ==> after.state == Data && Describes(c, after, Cell(m.blocks[k], false), lba))
    && (m.op == Write && m.done[k] ==> cell == Cell(m.blocks[k], false))
    && (m.op == WriteUncorrect && m.done[k] ==> cell.bad)
    && (m.op == Read && m.done[k] && !m.failed ==> m.blocks[k] == cell.block)
  }

  ghost predicate InRange(m: Cmd, lba: nat) {
    m.slba <= lba < m.slba + |m.blocks|
  }

  /** The locked LBAs are exactly those of the in-flight commands, each in one command. */
  ghost predicate LockOwned(locked: set<nat>, inflight: map<nat, Cmd>) {
    && (forall lba | lba in locked :: exists id :: id in inflight && InRange(inflight[id], lba))
    && (forall id, lba: nat | id in inflight && InRange(inflight[id], lba) :: lba in locked)
    && (forall i, j, lba: nat |
          i in inflight && j in inflight && InRange(inflight[i], lba) && InRange(inflight[j], lba) :: i == j)
  }

  ghost predicate Inv(c: Config, s: Sys) {
    && Shaped(c, s) && LockOwned(s.v.locked, s.inflight)
    && (forall lba: nat | lba < |s.device| && lba !in s.v.locked ::
          Agrees(c, s.v.desc[lba], s.device[lba], lba, lba in s.doubt))
    && (forall id | id in s.inflight :: CmdAgrees(c, s, s.inflight[id]))
  }

  /** A fresh namespace: nothing written, nothing locked, nothing in flight. */
  ghost predicate Init(c: Config, s: Sys) {
    && Shaped(c, s) && s.inflight == map[] && s.v.locked == {} && Cleared(s.v.ring) && s.log == [] && s.doubt == {}
    && forall i | 0 <= i < |s.device| ::
         s.v.desc[i].state == Unwritten && !s.device[i].bad && Factory(c, s.device[i].block)
  }
}
