/** The circular doubly linked lists of list.h and the two lists a job keeps its bios on. */
module BioPool {

  class Node {
    var next: Node?
    var prev: Node?

    constructor ()
      ensures next == null && prev == null
    {
      next, prev := null, null;
    }
  }

  ghost predicate Distinct(s: seq<Node>) {
    forall i, j | 0 <= i < j < |s| :: s[i] != s[j]
  }

  lemma DistinctCons(n: Node, s: seq<Node>)
    requires Distinct(s) && n !in s
    ensures Distinct([n] + s) && Distinct(s + [n])
  {
    forall i, j | 0 <= i < j < |s| + 1 ensures ([n] + s)[i] != ([n] + s)[j] && (s + [n])[i] != (s + [n])[j] {
    }
  }

  lemma DistinctWithout(s: seq<Node>, k: nat)
    requires Distinct(s) && k < |s|
    ensures Distinct(Without(s, k)) && s[k] !in Without(s, k)
    ensures forall x | x in s :: x == s[k] || x in Without(s, k)
    ensures forall x | x in Without(s, k) :: x in s
  {
    var t := Without(s, k);
    assert forall i | 0 <= i < |t| :: t[i] == if i < k then s[i] else s[i + 1];
    forall x | x in s ensures x == s[k] || x in t {
      var i :| 0 <= i < |s| && s[i] == x;
      if i < k { assert t[i] == x; } else if i > k { assert t[i - 1] == x; }
    }
  }

  /** `head` is the sentinel of a well-formed circular list of the nodes `s`. */
  ghost predicate List(head: Node, s: seq<Node>)
    reads head, s
  {
    var c := [head] + s + [head];
    && Distinct(s) && head !in s
    && forall i | 0 <= i <= |s| :: c[i].next == c[i + 1] && c[i + 1].prev == c[i]
  }

  /** INIT_LIST_HEAD. */
  method InitListHead(head: Node)
    modifies head
    ensures List(head, [])
  {
    head.next := head;
    head.prev := head;
  }

  /** list_add: insert behind the head. */
  method ListAdd(n: Node, head: Node, ghost s: seq<Node>)
    requires List(head, s) && n != head && n !in s
    modifies n, head, s
    ensures List(head, [n] + s)
  {
    ghost var c := [head] + s + [head];
    assert c[0].next == c[1] && c[1].prev == c[0];
    var next := head.next;
    next.prev := n;
    n.next := next;
    n.prev := head;
    head.next := n;
    DistinctCons(n, s);
    ghost var d := [head] + ([n] + s) + [head];
    forall i | 0 <= i <= |s| + 1 ensures d[i].next == d[i + 1] && d[i + 1].prev == d[i] {
      if i >= 2 { assert d[i] == c[i - 1] && d[i + 1] == c[i]; }
    }
  }

  /** list_add_tail: insert before the head. */
  method ListAddTail(n: Node, head: Node, ghost s: seq<Node>)
    requires List(head, s) && n != head && n !in s
    modifies n, head, s
    ensures List(head, s + [n])
  {
    ghost var c := [head] + s + [head];
    assert c[|s|].next == c[|s| + 1] && c[|s| + 1].prev == c[|s|];
    var prev := head.prev;
    head.prev := n;
    n.next := head;
    n.prev := prev;
    prev.next := n;
    DistinctCons(n, s);
    ghost var d := [head] + (s + [n]) + [head];
    forall i | 0 <= i <= |s| + 1 ensures d[i].next == d[i + 1] && d[i + 1].prev == d[i] {
      if i < |s| { assert d[i] == c[i] && d[i + 1] == c[i + 1]; }
    }
  }

  ghost function Without(s: seq<Node>, i: nat): seq<Node>
    requires i < |s|
  {
    s[..i] + s[i + 1..]
  }

  /** list_del: unlink and poison. */
  method ListDel(n: Node, ghost head: Node, ghost s: seq<Node>, ghost k: nat)
    requires List(head, s) && k < |s| && s[k] == n
    modifies head, s
    ensures List(head, Without(s, k)) && n.next == null && n.prev == null
  {
    ghost var c := [head] + s + [head];
    assert c[k + 1] == n;
    assert c[k].next == c[k + 1] && c[k + 1].prev == c[k];
    assert c[k + 1].next == c[k + 2] && c[k + 2].prev == c[k + 1];
    var prev, next := n.prev, n.next;
    next.prev := prev;
    prev.next := next;
    n.next, n.prev := null, null;
    DistinctWithout(s, k);
    ghost var d := [head] + Without(s, k) + [head];
    forall i | 0 <= i < |s| ensures d[i].next == d[i + 1] && d[i + 1].prev == d[i] {
      assert d[i] == if i <= k then c[i] else c[i + 1];
      assert d[i + 1] == if i < k then c[i + 1] else c[i + 2];
    }
  }

  /** The loop of create_bio_pool: each new bio is appended to the free list. */
  method CreatePool(iodepth: nat) returns (head: Node, ghost s: seq<Node>)
    ensures List(head, s) && |s| == iodepth && fresh(head) && forall x | x in s :: fresh(x)
  {
    hide List;
    head := new Node();
    InitListHead(head);
    s := [];
    for i := 0 to iodepth
      invariant List(head, s) && |s| == i && fresh(head)
      invariant forall k | 0 <= k < |s| :: fresh(s[k])
    {
      var n := new Node();
      assert n !in s;
      InitListHead(n);
      ListAddTail(n, head, s);
      s := s + [n];
    }
  }

  lemma ListFacts(head: Node, s: seq<Node>)
    requires List(head, s)
    ensures Distinct(s) && head !in s && (s != [] ==> head.next == s[0])
  {
    var c := [head] + s + [head];
    assert c[0].next == c[1];
    assert s != [] ==> c[1] == s[0];
  }

  ghost predicate Apart(s: seq<Node>, t: seq<Node>) {
    forall i, j | 0 <= i < |s| && 0 <= j < |t| :: s[i] != t[j]
  }

  lemma ApartByMembers(s: seq<Node>, t: seq<Node>)
    requires forall x | x in s :: x !in t
    ensures Apart(s, t) && Apart(t, s)
  {
    forall i, j | 0 <= i < |s| && 0 <= j < |t| ensures s[i] != t[j] {
      assert s[i] in s && t[j] in t;
    }
  }

  /** list_del from one list and list_add to another. */
  method Transfer(n: Node, ghost from: Node, ghost s: seq<Node>, ghost k: nat, to: Node, ghost t: seq<Node>)
    requires List(from, s) && List(to, t) && k < |s| && s[k] == n
    requires from != to && from !in t && to !in s && Apart(s, t)
    modifies from, s, to, t
    ensures List(from, Without(s, k)) && List(to, [n] + t)
  {
    ListDel(n, from, s, k);
    ghost var rest := Without(s, k);
    DistinctWithout(s, k);
    assert forall i | 0 <= i < |rest| :: rest[i] == if i < k then s[i] else s[i + 1];
    ListAdd(n, to, t);
  }

  /** The bio lists of a job. */
  class Job {
    const iodepth: nat
    const bioFree: Node
    const bioInflight: Node
    var numInflight: nat
    ghost const pool: seq<Node>
    ghost var free: seq<Node>
    ghost var inflight: seq<Node>

    ghost predicate Valid()
      reads this, bioFree, bioInflight, free, inflight
    {
      && List(bioFree, free) && List(bioInflight, inflight)
      && bioFree != bioInflight && bioFree !in inflight && bioInflight !in free
      && (forall x | x in free :: x !in inflight)
      && (forall x | x in pool :: x in free || x in inflight)
      && (forall x | x in free :: x in pool) && (forall x | x in inflight :: x in pool)
      && |pool| == iodepth && Distinct(pool) && bioFree !in pool && bioInflight !in pool
      && numInflight == |inflight| && |free| + |inflight| == iodepth
    }

    /** create_bio_pool: iodepth bios, all on the free list. */
    constructor (iodepth: nat)
      ensures Valid() && this.iodepth == iodepth && inflight == [] && free == pool
      ensures fresh(bioFree) && fresh(bioInflight) && forall x | x in pool :: fresh(x)
    {
      var f, s := CreatePool(iodepth);
      var b := new Node();
      InitListHead(b);
      this.iodepth, bioFree, bioInflight, numInflight := iodepth, f, b, 0;
      pool, free, inflight := s, s, [];
      new;
      hide List;
    }

    /** The end of generate_bio and the runner's bookkeeping: the first free bio goes in flight.
        The guard of the runner makes that first entry a real bio, never the list head. */
    method Issue() returns (bio: Node)
      requires Valid() && numInflight < iodepth
      modifies this`numInflight, this`free, this`inflight, bioFree, bioInflight, free, inflight
      ensures Valid()
      ensures bio in pool && bio == old(free)[0]
      ensures free == old(free)[1..] && inflight == [bio] + old(inflight)
    {
      hide List;
      ListFacts(bioFree, free);
      ApartByMembers(free, inflight);
      bio := bioFree.next;
      Transfer(bio, bioFree, free, 0, bioInflight, inflight);
      DistinctWithout(free, 0);
      assert Without(free, 0) == free[1..];
      numInflight := numInflight + 1;
      free, inflight := free[1..], [bio] + inflight;
    }

    /** The end of bio_end: a completed bio goes back to the front of the free list. */
    method BioEnd(bio: Node, ghost k: nat)
      requires Valid() && k < |inflight| && inflight[k] == bio
      modifies this`numInflight, this`free, this`inflight, bioFree, bioInflight, free, inflight
      ensures Valid()
      ensures free == [bio] + old(free) && inflight == Without(old(inflight), k)
    {
      hide List;
      ListFacts(bioInflight, inflight);
      ApartByMembers(free, inflight);
      Transfer(bio, bioInflight, inflight, k, bioFree, free);
      DistinctWithout(inflight, k);
      free, inflight := [bio] + free, Without(inflight, k);
      numInflight := numInflight - 1;
    }

    /** The k-th bio in flight, found along the list. */
    method Nth(k: nat) returns (bio: Node)
      requires Valid() && k < numInflight
      ensures bio == inflight[k]
    {
      ListFacts(bioInflight, inflight);
      bio := bioInflight.next;
      for i := 0 to k
        invariant bio == inflight[i]
      {
        ListLink(bioInflight, inflight, i);
        bio := bio.next;
      }
    }

    /** Any run of the job: bios are issued while the depth allows and complete in any order. The
        pool is conserved at every step boundary. */
    method Run(schedule: seq<Choice>)
      requires Valid()
      modifies this`numInflight, this`free, this`inflight, bioFree, bioInflight, pool
      ensures Valid() && numInflight <= iodepth
      ensures multiset(free + inflight) == multiset(pool)
    {
      hide List;
      for n := 0 to |schedule|
        invariant Valid()
      {
        assert forall i | 0 <= i < |free| :: free[i] in pool;
        assert forall i | 0 <= i < |inflight| :: inflight[i] in pool;
        match schedule[n]
        case Generate =>
          if numInflight < iodepth { var _ := Issue(); }
        case Complete(k) =>
          if k < numInflight {
            var bio := Nth(k);
            BioEnd(bio, k);
          }
      }
      ListFacts(bioFree, free);
      ListFacts(bioInflight, inflight);
      SamePool(pool, free, inflight);
    }
  }

  /** One turn of the runner: generate a bio, or end the k-th one in flight. */
  datatype Choice = Generate | Complete(k: nat)

  lemma ListLink(head: Node, s: seq<Node>, i: nat)
    requires List(head, s) && i + 1 < |s|
    ensures s[i].next == s[i + 1] && head.next == s[0]
  {
    var c := [head] + s + [head];
    assert c[i + 1] == s[i] && c[i + 2] == s[i + 1] && c[1] == s[0] && c[0] == head;
  }

  lemma {:induction false} OnceEach(s: seq<Node>)
    requires Distinct(s)
    ensures forall x: Node {:trigger multiset(s)[x]} | x in s :: multiset(s)[x] == 1
  {
    if s != [] {
      OnceEach(s[1..]);
      assert s == [s[0]] + s[1..];
    }
  }

  lemma SamePool(pool: seq<Node>, free: seq<Node>, inflight: seq<Node>)
    requires Distinct(pool) && Distinct(free) && Distinct(inflight)
    requires (forall x | x in free :: x !in inflight) && (forall x | x in pool :: x in free || x in inflight)
    requires (forall x | x in free :: x in pool) && (forall x | x in inflight :: x in pool)
    ensures multiset(free + inflight) == multiset(pool)
  {
    OnceEach(pool);
    OnceEach(free);
    OnceEach(inflight);
  }
}
