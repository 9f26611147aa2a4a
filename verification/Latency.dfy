/** Latency accounting: an arithmetic bucket index over 55 marks, and the totals it keeps per opcode. */
module Latency {
  import opened Common

  const U32_MAX: nat := 0xFFFF_FFFF
  const BUCKETS: nat := 55

  // the rows of latency_bucket_marks
  const UNDER_9US: seq<nat> := [1000, 2000, 3000, 4000, 5000, 6000, 7000, 8000, 9000]
  const UNDER_90US: seq<nat> := [10000, 20000, 30000, 40000, 50000, 60000, 70000, 80000, 90000]
  const UNDER_900US: seq<nat> := [100000, 200000, 300000, 400000, 500000, 600000, 700000, 800000, 900000]
  const UNDER_9MS: seq<nat> := [1000000, 2000000, 3000000, 4000000, 5000000, 6000000, 7000000, 8000000, 9000000]
  const UNDER_90MS: seq<nat> :=
    [10000000, 20000000, 30000000, 40000000, 50000000, 60000000, 70000000, 80000000, 90000000]
  const UNDER_900MS: seq<nat> :=
    [100000000, 200000000, 300000000, 400000000, 500000000, 600000000, 700000000, 800000000, 900000000]
  const MARKS: seq<nat> := UNDER_9US + UNDER_90US + UNDER_900US + UNDER_9MS + UNDER_90MS + UNDER_900MS + [U32_MAX]

  function Mark(i: nat): nat
    requires i < BUCKETS
  {
    MARKS[i]
  }

  /** The index that latency_acct_add computes. */
  function BucketIndex(lat: nat): (idx: nat)
    ensures idx < BUCKETS
  {
    if lat < 9000 then lat / 1000
    else if lat < 90000 then 9 + lat / 10000
    else if lat < 900000 then 18 + lat / 100000
    else if lat < 9000000 then 27 + lat / 1000000
    else if lat < 90000000 then 36 + lat / 10000000
    else if lat < 900000000 then 45 + lat / 100000000
    else 54
  }

  /** The first mark above the latency, from i on; the last bucket takes what lies above all others. */
  function FirstAbove(lat: nat, i: nat): nat
    requires i < BUCKETS
    decreases BUCKETS - i
  {
    if i == BUCKETS - 1 || lat < Mark(i) then i else FirstAbove(lat, i + 1)
  }

  /** The width of the buckets of decade k. */
  function Width(k: nat): nat {
    match k
    case 0 => 1000
    case 1 => 10000
    case 2 => 100000
    case 3 => 1000000
    case 4 => 10000000
    case _ => 100000000
  }

  lemma Decade0(j: nat)
    requires j < 9
    ensures Mark(0 + j) == (j + 1) * 1000
  {
    assert MARKS[0 + j] == UNDER_9US[j];
  }

  lemma Decade1(j: nat)
    requires j < 9
    ensures Mark(9 + j) == (j + 1) * 10000
  {
    assert MARKS[9 + j] == UNDER_90US[j];
  }

  lemma Decade2(j: nat)
    requires j < 9
    ensures Mark(18 + j) == (j + 1) * 100000
  {
    assert MARKS[18 + j] == UNDER_900US[j];
  }

  lemma Decade3(j: nat)
    requires j < 9
    ensures Mark(27 + j) == (j + 1) * 1000000
  {
    assert MARKS[27 + j] == UNDER_9MS[j];
  }

  lemma Decade4(j: nat)
    requires j < 9
    ensures Mark(36 + j) == (j + 1) * 10000000
  {
    assert MARKS[36 + j] == UNDER_90MS[j];
  }

  lemma Decade5(j: nat)
    requires j < 9
    ensures Mark(45 + j) == (j + 1) * 100000000
  {
    assert MARKS[45 + j] == UNDER_900MS[j];
  }

  /** The marks are one to nine times the width of their decade. */
  lemma MarkValue(k: nat, j: nat)
    requires k < 6 && j < 9
    ensures Mark(9 * k + j) == (j + 1) * Width(k)
  {
    hide Mark;
    match k
    case 0 => Decade0(j);
    case 1 => Decade1(j);
    case 2 => Decade2(j);
    case 3 => Decade3(j);
    case 4 => Decade4(j);
    case _ => Decade5(j);
  }

  lemma MarkRises(i: nat)
    requires i < 53
    ensures Mark(i) <= Mark(i + 1)
  {
    hide Mark;
    MarkValue(i / 9, i % 9);
    MarkValue((i + 1) / 9, (i + 1) % 9);
  }

  lemma {:induction false} MarksBelow(i: nat, n: nat)
    requires i <= n < 54
    ensures Mark(i) <= Mark(n)
    decreases n
  {
    hide Mark;
    if i < n {
      MarksBelow(i, n - 1);
      MarkRises(n - 1);
    }
  }

  lemma IndexDigit(lat: nat, k: nat)
    requires k < 6 && (k > 0 ==> 9 * Width(k - 1) <= lat) && lat < 9 * Width(k)
    ensures var j := lat / Width(k);
            j < 9 && j * Width(k) <= lat < (j + 1) * Width(k) && 9 * k + j == BucketIndex(lat)
  {
    match k
    case 0 => case 1 => case 2 => case 3 => case 4 => case _ =>
  }

  lemma IndexBrackets(lat: nat, k: nat)
    requires k < 6 && (k > 0 ==> 9 * Width(k - 1) <= lat) && lat < 9 * Width(k)
    ensures var idx := 9 * k + lat / Width(k);
            && idx == BucketIndex(lat) < 54
            && lat < Mark(idx) && (idx > 0 ==> Mark(idx - 1) <= lat)
  {
    hide Mark;
    var j := lat / Width(k);
    IndexDigit(lat, k);
    MarkValue(k, j);
    if j > 0 { MarkValue(k, j - 1); } else if k > 0 { MarkValue(k - 1, 8); }
  }

  /** The branch-and-divide index is the linear search for the first mark above the latency. */
  lemma BucketIsFirstAbove(lat: nat)
    ensures BucketIndex(lat) == FirstAbove(lat, 0)
  {
    hide Mark;
    var idx := BucketIndex(lat);
    if lat < 900000000 {
      var k := if lat < 9000 then 0 else if lat < 90000 then 1 else if lat < 900000 then 2
               else if lat < 9000000 then 3 else if lat < 90000000 then 4 else 5;
      IndexBrackets(lat, k);
    } else {
      MarkValue(5, 8);
    }
    forall i | 0 <= i < idx ensures Mark(i) <= lat {
      MarksBelow(i, idx - 1);
    }
    SearchStops(lat, 0, idx);
  }

  lemma {:induction false} SearchStops(lat: nat, i: nat, idx: nat)
    requires i <= idx < BUCKETS && forall n | i <= n < idx :: Mark(n) <= lat
    requires idx == BUCKETS - 1 || lat < Mark(idx)
    ensures FirstAbove(lat, i) == idx
    decreases idx - i
  {
    if i < idx { SearchStops(lat, i + 1, idx); }
  }

  // ---------- totals ----------

  /** The latencies of a run that fall into a bucket. */
  ghost function InBucket(log: seq<nat>, b: nat): seq<nat> {
    if log == [] then []
    else
      var n := |log| - 1;
      InBucket(log[..n], b) + if FirstAbove(log[n], 0) == b then [log[n]] else []
  }

  ghost function Least(start: nat, log: seq<nat>): nat {
    if log == [] then start
    else
      var rest := Least(start, log[..|log| - 1]);
      if rest > log[|log| - 1] then log[|log| - 1] else rest
  }

  ghost function Greatest(log: seq<nat>): nat {
    if log == [] then 0
    else
      var rest := Greatest(log[..|log| - 1]);
      if rest < log[|log| - 1] then log[|log| - 1] else rest
  }

  lemma ExtremesSnoc(start: nat, log: seq<nat>, lat: nat)
    ensures Least(start, log + [lat]) == if Least(start, log) > lat then lat else Least(start, log)
    ensures Greatest(log + [lat]) == if Greatest(log) < lat then lat else Greatest(log)
  {
    assert (log + [lat])[..|log|] == log;
  }

  lemma InBucketSnoc(log: seq<nat>, lat: nat, b: nat)
    ensures InBucket(log + [lat], b) == InBucket(log, b) + if BucketIndex(lat) == b then [lat] else []
  {
    assert (log + [lat])[..|log|] == log;
    BucketIsFirstAbove(lat);
  }

  /** How many latencies of a run fall into each bucket, and what they add up to. */
  ghost function Counts(log: seq<nat>): (s: seq<nat>)
    ensures |s| == BUCKETS && forall b | 0 <= b < BUCKETS :: s[b] == |InBucket(log, b)|
  {
    seq(BUCKETS, b requires 0 <= b < BUCKETS => |InBucket(log, b)|)
  }

  ghost function Sums(log: seq<nat>): (s: seq<nat>)
    ensures |s| == BUCKETS && forall b | 0 <= b < BUCKETS :: s[b] == Sum(InBucket(log, b))
  {
    seq(BUCKETS, b requires 0 <= b < BUCKETS => Sum(InBucket(log, b)))
  }

  /** One more latency adds to its own bucket only. */
  lemma BucketsNext(log: seq<nat>, lat: nat)
    ensures var i := BucketIndex(lat);
            && Counts(log + [lat]) == Counts(log)[i := Counts(log)[i] + 1]
            && Sums(log + [lat]) == Sums(log)[i := Sums(log)[i] + lat]
  {
    hide BucketIndex, InBucket, Sum, Counts, Sums;
    var i := BucketIndex(lat);
    SumSnoc(InBucket(log, i), lat);
    forall b | 0 <= b < BUCKETS
      ensures InBucket(log + [lat], b) == if b == i then InBucket(log, b) + [lat] else InBucket(log, b)
    {
      InBucketSnoc(log, lat, b);
    }
  }

  /** The buckets of any run together hold all its latencies. */
  lemma {:induction false} BucketsHoldAll(log: seq<nat>)
    ensures Sum(Counts(log)) == |log| && Sum(Sums(log)) == Sum(log)
  {
    hide InBucket, Counts, Sums;
    if log == [] {
      EmptyBuckets();
      ZeroSum(Counts(log));
      ZeroSum(Sums(log));
    } else {
      var n := |log| - 1;
      var i := BucketIndex(log[n]);
      assert log == log[..n] + [log[n]];
      BucketsHoldAll(log[..n]);
      BucketsNext(log[..n], log[n]);
      SumUpdate(Counts(log[..n]), i, Counts(log[..n])[i] + 1);
      SumUpdate(Sums(log[..n]), i, Sums(log[..n])[i] + log[n]);
    }
  }

  lemma EmptyBuckets()
    ensures forall b | 0 <= b < BUCKETS :: InBucket([], b) == [] && Sum([]) == 0
  {
  }

  /** The counters hold the exact numbers modulo 2^64. */
  ghost predicate Wrapped(words: seq<nat>, exact: seq<nat>) {
    |words| == |exact| && forall b | 0 <= b < |exact| :: words[b] == Wrap(exact[b])
  }

  lemma WrappedNext(words: seq<nat>, exact: seq<nat>, i: nat, k: nat)
    requires Wrapped(words, exact) && i < |exact|
    ensures Wrapped(words[i := Wrap(words[i] + k)], exact[i := exact[i] + k])
  {
    hide Wrap;
    WrapAdd(exact[i], k);
  }

  /** latency_acct_add: the buckets of the run with this latency added to it. */
  method LatencyAcctAdd(counts: array<nat>, sums: array<nat>, lat: nat, ghost log: seq<nat>)
    requires counts != sums && Wrapped(counts[..], Counts(log)) && Wrapped(sums[..], Sums(log))
    modifies counts, sums
    ensures Wrapped(counts[..], Counts(log + [lat])) && Wrapped(sums[..], Sums(log + [lat]))
  {
    hide BucketIndex, Wrap, Sum, Counts, Sums;
    var idx := BucketIndex(lat);
    BucketsNext(log, lat);
    WrappedNext(counts[..], Counts(log), idx, 1);
    WrappedNext(sums[..], Sums(log), idx, lat);
    ghost var c, s := counts[..], sums[..];
    hide Wrapped;
    counts[idx] := Wrap(counts[idx] + 1);
    sums[idx] := Wrap(sums[idx] + lat);
    assert counts[..] == c[idx := Wrap(c[idx] + 1)];
    assert sums[..] == s[idx := Wrap(s[idx] + lat)];
  }

  /** The account of one opcode. The log is the run of completions it accounts for. */
  class OpAcct {
    var ops: nat
    var bytes: nat
    var latSum: nat
    var latMax: nat
    var latMin: nat
    const counts: array<nat>
    const sums: array<nat>
    const start: nat            // what the minimum begins with
    ghost var log: seq<nat>

    ghost predicate Valid()
      reads this, counts, sums
    {
      && counts != sums && Wrapped(counts[..], Counts(log)) && Wrapped(sums[..], Sums(log))
      && ops == Wrap(|log|) && latSum == Wrap(Sum(log))
      && latMin == Least(start, log) && latMax == Greatest(log)
    }

    constructor (start: nat)
      ensures Valid() && log == [] && fresh(counts) && fresh(sums) && this.start == start && bytes == 0
    {
      ops, bytes, latSum, latMax, latMin, this.start := 0, 0, 0, 0, start, start;
      counts := new nat[BUCKETS](_ => 0);
      sums := new nat[BUCKETS](_ => 0);
      log := [];
      new;
      EmptyBuckets();
    }

    /** The accounting part of bio_end. */
    method Record(lat: nat, iosize: nat)
      requires Valid()
      modifies this, counts, sums
      ensures Valid() && log == old(log) + [lat] && bytes == Wrap(old(bytes) + iosize)
    {
      hide Wrapped, Wrap, Sum, Counts, Sums, Least, Greatest;
      if latMin > lat { latMin := lat; }
      if latMax < lat { latMax := lat; }
      WrapAdd(|log|, 1);
      WrapAdd(Sum(log), lat);
      SumSnoc(log, lat);
      ExtremesSnoc(start, log, lat);
      ops := Wrap(ops + 1);
      bytes := Wrap(bytes + iosize);
      latSum := Wrap(latSum + lat);
      LatencyAcctAdd(counts, sums, lat, log);
      log := log + [lat];
    }
  }
}
