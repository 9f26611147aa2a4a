/** atomic_write: 32 contexts read and write one large range; a read that mixes two writes is torn. */
module AtomicWrite {
  import opened Common

  const IO_DEPTH: nat := 32
  const IO_SIZE: nat := 512 * 1024
  const IO_WORDS: nat := IO_SIZE / 8

  datatype Op = OpRead | OpWrite

  /** Where the stamp of block i lies in a payload. */
  function StampIndex(lbaSize: nat, i: nat): nat {
    (i * lbaSize) / 8
  }

  ghost predicate SectorSize(lbaSize: nat) {
    8 <= lbaSize <= IO_SIZE
  }

  lemma StampInBounds(lbaSize: nat, i: nat)
    requires SectorSize(lbaSize) && i < IO_SIZE / lbaSize
    ensures StampIndex(lbaSize, i) < IO_WORDS
  {
    var n := IO_SIZE / lbaSize;
    assert i + 1 <= n;
    assert (i + 1) * lbaSize <= n * lbaSize <= IO_SIZE by { Monotone(i + 1, n, lbaSize); DivBound(lbaSize); }
    assert i * lbaSize + lbaSize == (i + 1) * lbaSize;
  }

  lemma Monotone(a: nat, b: nat, c: nat)
    requires a <= b
    ensures a * c <= b * c
  {
  }

  lemma DivBound(lbaSize: nat)
    requires lbaSize > 0
    ensures (IO_SIZE / lbaSize) * lbaSize <= IO_SIZE
  {
  }

  /** All blocks of a buffer carry the same stamp. */
  ghost predicate Uniform(lbaSize: nat, words: seq<nat>)
    requires SectorSize(lbaSize) && |words| == IO_WORDS
  {
    forall i: nat | i < IO_SIZE / lbaSize ::
      StampIndex(lbaSize, i) < IO_WORDS && words[StampIndex(lbaSize, i)] == words[0]
  }

  lemma FirstStamp(lbaSize: nat)
    requires SectorSize(lbaSize)
    ensures StampIndex(lbaSize, 0) == 0 && 1 <= IO_SIZE / lbaSize
  {
    assert IO_SIZE == lbaSize * (IO_SIZE / lbaSize) + IO_SIZE % lbaSize;
  }

  /** The first n blocks of a buffer carry the given stamp. */
  ghost predicate Stamped(lbaSize: nat, words: seq<nat>, n: nat, stamp: nat)
    requires |words| == IO_WORDS
  {
    forall i: nat | i < n :: StampIndex(lbaSize, i) < IO_WORDS && words[StampIndex(lbaSize, i)] == stamp
  }

  /** The stamp loop of submit_write: whatever the payload held, all its blocks now carry the stamp. */
  method StampPayload(lbaSize: nat, payload: seq<nat>, stamp: nat) returns (words: seq<nat>)
    requires SectorSize(lbaSize) && |payload| == IO_WORDS
    ensures |words| == IO_WORDS && Uniform(lbaSize, words) && words[0] == stamp
  {
    FirstStamp(lbaSize);
    words := payload;
    hide StampIndex;
    for i := 0 to IO_SIZE / lbaSize
      invariant |words| == IO_WORDS && Stamped(lbaSize, words, i, stamp)
    {
      StampInBounds(lbaSize, i);
      words := words[StampIndex(lbaSize, i) := stamp];
    }
  }

  /** The check loop of io_cb: a read is torn exactly when its blocks do not all carry one stamp. */
  method TornRead(lbaSize: nat, payload: seq<nat>) returns (torn: bool)
    requires SectorSize(lbaSize) && |payload| == IO_WORDS
    ensures torn <==> !Uniform(lbaSize, payload)
  {
    FirstStamp(lbaSize);
    hide StampIndex;
    for i := 1 to IO_SIZE / lbaSize
      invariant Stamped(lbaSize, payload, i, payload[0])
    {
      StampInBounds(lbaSize, i);
      if payload[StampIndex(lbaSize, i)] != payload[0] { return true; }
    }
    return false;
  }

  /** Fewer than 2^64 writes apart, two writes carry different stamps. */
  lemma StampsDiffer(i: nat, j: nat)
    requires i < j < i + U64_LIMIT
    ensures Wrap(i) != Wrap(j)
  {
  }

  /** A buffer that holds blocks with different stamps is torn. */
  lemma MixedIsTorn(lbaSize: nat, words: seq<nat>, a: nat, b: nat)
    requires SectorSize(lbaSize) && |words| == IO_WORDS && a < IO_SIZE / lbaSize && b < IO_SIZE / lbaSize
    requires StampOf(lbaSize, words, a) != StampOf(lbaSize, words, b)
    ensures !Uniform(lbaSize, words)
  {
    hide StampIndex;
    StampInBounds(lbaSize, a);
    StampInBounds(lbaSize, b);
  }

  /** The stamp of block i of a buffer. */
  function StampOf(lbaSize: nat, words: seq<nat>, i: nat): nat
    requires SectorSize(lbaSize) && |words| == IO_WORDS && i < IO_SIZE / lbaSize
  {
    StampInBounds(lbaSize, i);
    words[StampIndex(lbaSize, i)]
  }

  /** One step of the program or of the device. */
  datatype Choice =
    | Submit(op: Op)                        // pop a free context and submit a command with it
    | Execute(id: nat)                      // the device executes an outstanding command at once
    | Tear(id: nat, content: seq<nat>)      // the device leaves arbitrary content behind instead
    | Complete(id: nat, error: bool)        // the callback runs for an executed command

  ghost predicate Faultless(c: Choice) {
    !c.Tear? && (c.Complete? ==> !c.error)
  }

  /** Every context is either free, once, or outstanding. */
  ghost predicate Pooled(free: seq<nat>, outstanding: set<nat>) {
    && (forall i | 0 <= i < |free| :: free[i] < IO_DEPTH && free[i] !in outstanding)
    && (forall i, j | 0 <= i < j < |free| :: free[i] != free[j])
    && (forall id | id in outstanding :: id < IO_DEPTH)
    && |free| + |outstanding| == IO_DEPTH
  }

  lemma PoolPop(free: seq<nat>, outstanding: set<nat>)
    requires Pooled(free, outstanding) && free != []
    ensures free[0] !in outstanding && free[0] < IO_DEPTH && Pooled(free[1..], outstanding + {free[0]})
    ensures |outstanding + {free[0]}| == |outstanding| + 1
  {
  }

  lemma PoolPush(free: seq<nat>, outstanding: set<nat>, id: nat)
    requires Pooled(free, outstanding) && id in outstanding
    ensures id < IO_DEPTH && Pooled([id] + free, outstanding - {id})
    ensures |outstanding - {id}| == |outstanding| - 1
  {
  }

  lemma PoolMember(free: seq<nat>, outstanding: set<nat>, id: nat)
    requires Pooled(free, outstanding) && id in outstanding
    ensures id < IO_DEPTH
  {
  }

  /** Write number i has stamp i, in 64 bits. */
  ghost predicate Counted(stamps: seq<nat>, next: nat) {
    next == Wrap(|stamps|) && forall i | 0 <= i < |stamps| :: stamps[i] == Wrap(i)
  }

  lemma CountNext(stamps: seq<nat>, next: nat)
    requires Counted(stamps, next)
    ensures Counted(stamps + [next], Wrap(next + 1))
  {
    hide Wrap;
    WrapAdd(|stamps|, 1);
  }

  class Tester {
    const lbaSize: nat
    var freeIoCtx: seq<nat>
    var opcodes: seq<Op>
    var payloads: seq<seq<nat>>
    var writeTimestamp: nat
    var nrInflightIo: nat
    var foundError: bool
    var device: seq<nat>            // content of the range on the device
    var outstanding: set<nat>       // contexts whose command the device holds
    var executed: set<nat>          // those it has executed
    ghost var stamps: seq<nat>      // the stamps of all writes so far, in order

    /** Every context is either free, once, or outstanding, and nr_inflight_io counts the latter. */
    ghost predicate Valid()
      reads this
    {
      && SectorSize(lbaSize) && |opcodes| == |payloads| == IO_DEPTH && |device| == IO_WORDS
      && (forall id | 0 <= id < IO_DEPTH :: |payloads[id]| == IO_WORDS)
      && Pooled(freeIoCtx, outstanding) && executed <= outstanding && nrInflightIo == |outstanding|
      && Counted(stamps, writeTimestamp)
    }

    /** The device and every payload it may read, or has filled, is one write's. */
    ghost predicate Untorn()
      requires Valid()
      reads this
    {
      && Uniform(lbaSize, device)
      && forall id | id in outstanding && (opcodes[id] == OpWrite || id in executed) :: Uniform(lbaSize, payloads[id])
    }

    constructor (lbaSize: nat, device: seq<nat>, buffers: seq<seq<nat>>)
      requires SectorSize(lbaSize) && |device| == IO_WORDS
      requires |buffers| == IO_DEPTH && forall id | 0 <= id < IO_DEPTH :: |buffers[id]| == IO_WORDS
      ensures Valid() && !foundError && nrInflightIo == 0 && writeTimestamp == 0 && stamps == []
      ensures Uniform(lbaSize, device) ==> Untorn()
    {
      this.lbaSize, this.device, payloads := lbaSize, device, buffers;
      opcodes := seq(IO_DEPTH, _ => OpRead);
      freeIoCtx := seq(IO_DEPTH, i requires 0 <= i < IO_DEPTH => IO_DEPTH - 1 - i);
      writeTimestamp, nrInflightIo, foundError := 0, 0, false;
      outstanding, executed, stamps := {}, {}, [];
    }

    /** submit_read and submit_write up to the call of the driver: a write stamps its payload and advances
        the stamp, a read does neither. */
    method Prepare(id: nat, op: Op)
      requires Valid() && id < IO_DEPTH && id !in outstanding
      modifies this`opcodes, this`payloads, this`writeTimestamp, this`stamps
      ensures Valid() && (old(Untorn()) ==> Untorn()) && opcodes == old(opcodes)[id := op]
      ensures op == OpWrite ==> Uniform(lbaSize, payloads[id]) && payloads[id][0] == old(writeTimestamp)
      ensures op == OpWrite ==> writeTimestamp == Wrap(old(writeTimestamp) + 1)
      ensures op == OpWrite ==> stamps == old(stamps) + [old(writeTimestamp)]
      ensures op == OpRead ==> writeTimestamp == old(writeTimestamp) && stamps == old(stamps)
      ensures forall k | 0 <= k < IO_DEPTH && (k != id || op == OpRead) :: payloads[k] == old(payloads[k])
    {
      hide Uniform, Wrap, Counted;
      if op == OpWrite {
        var words := StampPayload(lbaSize, payloads[id], writeTimestamp);
        payloads := payloads[id := words];
        CountNext(stamps, writeTimestamp);
        stamps := stamps + [writeTimestamp];
        writeTimestamp := Wrap(writeTimestamp + 1);
      }
      opcodes := opcodes[id := op];
    }

    /** One turn of the submission loop. The context popped is no other command's, so no payload is
        shared, and the payloads of the others stay as they are. */
    method SubmitOne(op: Op)
      requires Valid() && freeIoCtx != []
      modifies this`freeIoCtx, this`opcodes, this`payloads, this`writeTimestamp, this`nrInflightIo, this`outstanding,
        this`stamps
      ensures Valid() && (old(Untorn()) ==> Untorn())
      ensures freeIoCtx == old(freeIoCtx)[1..] && outstanding == old(outstanding) + {old(freeIoCtx)[0]}
      ensures old(freeIoCtx)[0] !in old(outstanding) && opcodes == old(opcodes)[old(freeIoCtx)[0] := op]
      ensures op == OpWrite ==> Uniform(lbaSize, payloads[old(freeIoCtx)[0]])
      ensures op == OpWrite ==> payloads[old(freeIoCtx)[0]][0] == old(writeTimestamp)
      ensures op == OpWrite ==> writeTimestamp == Wrap(old(writeTimestamp) + 1)
      ensures op == OpWrite ==> stamps == old(stamps) + [old(writeTimestamp)]
      ensures op == OpRead ==> writeTimestamp == old(writeTimestamp) && stamps == old(stamps)
      ensures forall k | 0 <= k < IO_DEPTH && (k != old(freeIoCtx)[0] || op == OpRead) ::
                payloads[k] == old(payloads[k])
    {
      hide Uniform, Wrap, Pooled, Counted;
      var id := freeIoCtx[0];
      PoolPop(freeIoCtx, outstanding);
      Prepare(id, op);
      freeIoCtx := freeIoCtx[1..];
      outstanding := outstanding + {id};
      nrInflightIo := nrInflightIo + 1;
    }

    /** The device executes a command: content is what it then holds for a write, or returns for a read. */
    method DeviceExecute(id: nat, content: seq<nat>)
      requires Valid() && id in outstanding && id !in executed && |content| == IO_WORDS
      modifies this`device, this`payloads, this`executed
      ensures Valid() && executed == old(executed) + {id}
      ensures old(Untorn()) && Uniform(lbaSize, content) ==> Untorn()
      ensures opcodes[id] == OpRead ==> device == old(device) && payloads == old(payloads)[id := content]
      ensures opcodes[id] == OpWrite ==> device == content && payloads == old(payloads)
    {
      hide Uniform, Wrap;
      if opcodes[id] == OpWrite {
        device := content;
      } else {
        payloads := payloads[id := content];
      }
      executed := executed + {id};
    }

    /** io_cb: an error is found exactly by an error status or a torn read, and the context goes back
        to the free list in every case. */
    method IoCb(id: nat, error: bool)
      requires Valid() && id in executed
      modifies this`freeIoCtx, this`nrInflightIo, this`foundError, this`outstanding, this`executed
      ensures Valid() && (old(Untorn()) ==> Untorn())
      ensures id < IO_DEPTH
      ensures foundError == (old(foundError) || error || (opcodes[id] == OpRead && !Uniform(lbaSize, payloads[id])))
      ensures freeIoCtx == [id] + old(freeIoCtx)
      ensures outstanding == old(outstanding) - {id} && executed == old(executed) - {id}
    {
      hide Uniform, Wrap, Pooled, Counted;
      PoolPush(freeIoCtx, outstanding, id);
      if error {
        foundError := true;
      } else if !foundError && opcodes[id] == OpRead {
        foundError := TornRead(lbaSize, payloads[id]);
      }
      freeIoCtx := [id] + freeIoCtx;
      outstanding := outstanding - {id};
      executed := executed - {id};
      nrInflightIo := nrInflightIo - 1;
    }

    /** One step of any schedule; a choice that is not enabled does nothing. */
    method Step(c: Choice)
      requires Valid()
      modifies this
      ensures Valid() && (old(Untorn()) && Faultless(c) ==> Untorn() && foundError == old(foundError))
      ensures old(foundError) ==> foundError
    {
      hide Uniform, Wrap;
      match c
      case Submit(op) =>
        if freeIoCtx != [] { SubmitOne(op); }
      case Execute(id) =>
        if id in outstanding && id !in executed {
          DeviceExecute(id, if opcodes[id] == OpWrite then payloads[id] else device);
        }
      case Tear(id, content) =>
        if id in outstanding && id !in executed && |content| == IO_WORDS { DeviceExecute(id, content); }
      case Complete(id, error) =>
        if id in executed { IoCb(id, error); }
    }

    /** Over every schedule: contexts are conserved, and a device that executes each command at once
        and without error is never accused. */
    method Run(schedule: seq<Choice>)
      requires Valid()
      modifies this
      ensures Valid() && |freeIoCtx| + nrInflightIo == IO_DEPTH && (old(foundError) ==> foundError)
      ensures old(Untorn()) && (forall c | c in schedule :: Faultless(c)) ==> foundError == old(foundError)
    {
      hide Uniform, Wrap;
      for n := 0 to |schedule|
        invariant Valid() && (old(foundError) ==> foundError)
        invariant old(Untorn()) && (forall c | c in schedule :: Faultless(c)) ==>
          Untorn() && foundError == old(foundError)
      {
        Step(schedule[n]);
      }
    }

    /** The converse: a read completes that holds a block of one write and a block of another, fewer than
        2^64 writes apart. The error is found, and stays found whatever is scheduled afterwards. */
    method MixedReadFound(id: nat, ghost i: nat, ghost j: nat, ghost a: nat, ghost b: nat, rest: seq<Choice>)
      requires Valid() && id in executed && opcodes[id] == OpRead
      requires i < j < |stamps| && j - i < U64_LIMIT && a < IO_SIZE / lbaSize && b < IO_SIZE / lbaSize
      requires StampOf(lbaSize, payloads[id], a) == stamps[i] && StampOf(lbaSize, payloads[id], b) == stamps[j]
      modifies this
      ensures Valid() && foundError
    {
      hide Uniform, StampOf, Wrap;
      StampsDiffer(i, j);
      MixedIsTorn(lbaSize, payloads[id], a, b);
      IoCb(id, false);
      Run(rest);
    }
  }
}
