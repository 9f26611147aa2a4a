/** The opcode lottery of a job: 100 slots, of which every opcode holds as many as its rate says. */
module Lottery {
  import opened Common
  import opened Operations

  const SLOTS: nat := 100

  /** Slot k belongs to the opcode whose interval of cumulated rates it lies in. */
  ghost predicate Spread(rates: seq<nat>, n: nat, slots: seq<nat>)
    requires n <= |rates|
  {
    forall op, k | 0 <= op < n && Sum(rates[..op]) <= k < Sum(rates[..op + 1]) && k < |slots| :: slots[k] == op
  }

  ghost function Count(s: seq<nat>, v: nat): nat {
    if s == [] then 0 else Count(s[..|s| - 1], v) + if s[|s| - 1] == v then 1 else 0
  }

  lemma SumNext(rates: seq<nat>, n: nat)
    requires n < |rates|
    ensures Sum(rates[..n + 1]) == Sum(rates[..n]) + rates[n]
  {
    assert rates[..n + 1][..n] == rates[..n];
  }

  lemma {:induction false} SumMonotone(rates: seq<nat>, m: nat, n: nat)
    requires m <= n <= |rates|
    ensures Sum(rates[..m]) <= Sum(rates[..n])
    decreases n
  {
    if m < n {
      SumNext(rates, n - 1);
      SumMonotone(rates, m, n - 1);
    }
  }

  /** create_opr_lottery, for rates that add up to at most 100; the slots beyond them are not touched. */
  method CreateOprLottery(rates: seq<nat>, slots: array<nat>)
    requires |rates| == BIO_MAX && slots.Length == SLOTS && Sum(rates) <= SLOTS
    modifies slots
    ensures Spread(rates, BIO_MAX, slots[..])
    ensures forall k | Sum(rates) <= k < SLOTS :: slots[k] == old(slots[k])
  {
    var weight, lot := 0, 0;
    assert rates[..BIO_MAX] == rates;
    for op := 0 to BIO_MAX
      invariant lot == weight == Sum(rates[..op]) <= Sum(rates)
      invariant Spread(rates, op, slots[..])
      invariant forall k | lot <= k < SLOTS :: slots[k] == old(slots[k])
    {
      SumNext(rates, op);
      SumMonotone(rates, op + 1, BIO_MAX);
      weight := weight + rates[op];
      ghost var first := lot;
      ghost var before := slots[..];
      while lot < weight
        invariant first <= lot <= weight
        invariant slots[..first] == before[..first]
        invariant forall k | first <= k < lot :: slots[k] == op
        invariant forall k | lot <= k < SLOTS :: slots[k] == old(slots[k])
      {
        slots[lot] := op;
        lot := lot + 1;
      }
      SpreadNext(rates, op, before, slots[..]);
    }
  }

  lemma SpreadNext(rates: seq<nat>, n: nat, before: seq<nat>, slots: seq<nat>)
    requires n < |rates| && |before| == |slots| && Sum(rates[..n + 1]) <= |slots|
    requires Sum(rates[..n]) <= Sum(rates[..n + 1])
    requires Spread(rates, n, before) && slots[..Sum(rates[..n])] == before[..Sum(rates[..n])]
    requires forall k | Sum(rates[..n]) <= k < Sum(rates[..n + 1]) :: slots[k] == n
    ensures Spread(rates, n + 1, slots)
  {
    forall op, k | 0 <= op < n + 1 && Sum(rates[..op]) <= k < Sum(rates[..op + 1]) && k < |slots|
      ensures slots[k] == op
    {
      if op < n {
        SumMonotone(rates, op + 1, n);
        assert slots[k] == slots[..Sum(rates[..n])][k];
      }
    }
  }

  lemma {:induction false} CountRun(s: seq<nat>, from: nat, v: nat, w: nat)
    requires from <= |s| && forall k | from <= k < |s| :: s[k] == w
    ensures Count(s, v) == Count(s[..from], v) + if v == w then |s| - from else 0
    decreases |s|
  {
    if from == |s| {
      assert s[..from] == s;
    } else {
      assert s[..|s| - 1][..from] == s[..from];
      CountRun(s[..|s| - 1], from, v, w);
    }
  }

  lemma {:induction false} CountsUpTo(rates: seq<nat>, n: nat, slots: seq<nat>, v: nat)
    requires n <= |rates| && Spread(rates, n, slots) && Sum(rates[..n]) <= |slots|
    ensures Count(slots[..Sum(rates[..n])], v) == if v < n then rates[v] else 0
    decreases n
  {
    if n > 0 {
      var m := n - 1;
      SumNext(rates, m);
      CountsUpTo(rates, m, slots, v);
      var a, b := Sum(rates[..m]), Sum(rates[..n]);
      assert slots[..b][..a] == slots[..a];
      CountRun(slots[..b], a, v, m);
    }
  }

  /** With rates that add up to 100, which is what the parser leaves, a slot drawn at random is an
      opcode with exactly its rate in a hundred, and no slot holds anything else. */
  lemma LotteryIsFair(rates: seq<nat>, slots: seq<nat>, op: nat)
    requires |rates| == BIO_MAX && Sum(rates) == SLOTS == |slots| && Spread(rates, BIO_MAX, slots)
    ensures Count(slots, op) == if op < BIO_MAX then rates[op] else 0
  {
    assert rates[..BIO_MAX] == rates && slots[..SLOTS] == slots;
    CountsUpTo(rates, BIO_MAX, slots, op);
  }
}
