/** The linked range nodes of src/range.c: a global pool of spare nodes and a request's list, spliced
    in place by the parser, the fixup and the reset. Nodes move between the two and are never lost. */
module RangeLists {
  import opened RangeSpecs
  import opened Options

  class RangeNode {
    var start: nat
    var stop: nat
    var next: RangeNode?

    constructor ()
      ensures start == 0 && stop == 0 && next == null
    {
      start, stop, next := 0, 0, null;
    }
  }

  /** Following `next` from head visits the nodes in order and ends at `end`. */
  ghost predicate Chain(head: RangeNode?, nodes: seq<RangeNode>, end: RangeNode?)
    reads (set n | n in nodes)`next
  {
    if nodes == [] then head == end else head == nodes[0] && Chain(nodes[0].next, nodes[1..], end)
  }

  ghost predicate Distinct(nodes: seq<RangeNode>) {
    forall i, j :: 0 <= i < j < |nodes| ==> nodes[i] != nodes[j]
  }

  ghost predicate Apart(a: seq<RangeNode>, b: seq<RangeNode>) {
    forall n :: n in a ==> n !in b
  }

  ghost predicate Holds(nodes: seq<RangeNode>, specs: seq<Range>)
    reads (set n | n in nodes)`start, (set n | n in nodes)`stop
  {
    |nodes| == |specs|
    && forall i :: 0 <= i < |nodes| ==> nodes[i].start == specs[i].start && nodes[i].stop == specs[i].stop
  }

  lemma ChainTail(head: RangeNode?, nodes: seq<RangeNode>, end: RangeNode?)
    requires Chain(head, nodes, end) && nodes != [] && Distinct(nodes)
    ensures head == nodes[0] && Chain(nodes[0].next, nodes[1..], end)
    ensures Distinct(nodes[1..]) && nodes[0] !in nodes[1..]
    ensures nodes == [nodes[0]] + nodes[1..]
  {
  }

  lemma ChainCons(n: RangeNode, nodes: seq<RangeNode>, end: RangeNode?)
    requires Chain(n.next, nodes, end) && n !in nodes && Distinct(nodes)
    ensures Chain(n, [n] + nodes, end) && Distinct([n] + nodes)
  {
    assert ([n] + nodes)[1..] == nodes;
  }

  lemma NonNull(head: RangeNode?, nodes: seq<RangeNode>)
    requires Chain(head, nodes, null) && head != null
    ensures nodes != []
  {
  }

  lemma NullIsEnd(head: RangeNode?, nodes: seq<RangeNode>)
    requires Chain(head, nodes, null)
    ensures head == null <==> nodes == []
  {
  }

  lemma ChainEmpty(nodes: seq<RangeNode>)
    requires Chain(null, nodes, null)
    ensures nodes == []
  {
  }

  /** Two chains meeting at a node make one. */
  lemma {:induction false} ChainJoin(head: RangeNode?, a: seq<RangeNode>, b: seq<RangeNode>, mid: RangeNode?,
                                     end: RangeNode?)
    requires Chain(head, a, mid) && Chain(mid, b, end)
    ensures Chain(head, a + b, end)
  {
    if a == [] {
      assert a + b == b;
    } else {
      ChainJoin(a[0].next, a[1..], b, mid, end);
      assert (a + b)[1..] == a[1..] + b;
    }
  }

  /** A chain cut at one of its nodes. */
  lemma {:induction false} ChainSplit(head: RangeNode?, nodes: seq<RangeNode>, end: RangeNode?, k: nat)
    requires Chain(head, nodes, end) && k < |nodes|
    ensures Chain(head, nodes[..k], nodes[k]) && Chain(nodes[k], nodes[k..], end)
  {
    if k > 0 {
      ChainSplit(nodes[0].next, nodes[1..], end, k - 1);
      assert nodes[1..][..k - 1] == nodes[..k][1..];
      assert nodes[1..][k - 1..] == nodes[k..];
    } else {
      assert nodes[0..] == nodes;
    }
  }

  /** A node at the end of a chain joins it. */
  lemma ChainSnoc(head: RangeNode?, init: seq<RangeNode>, last: RangeNode)
    requires Chain(head, init, last)
    ensures Chain(head, init + [last], last.next)
  {
    assert [last][1..] == [];
    ChainJoin(head, init, [last], last, last.next);
  }

  lemma DistinctSnoc(nodes: seq<RangeNode>, r: RangeNode)
    requires Distinct(nodes) && r !in nodes
    ensures Distinct(nodes + [r])
  {
  }

  class RangeState {
    var rangePool: RangeNode?
    /** The request's list, `req->ranges`. */
    var ranges: RangeNode?
    var numranges: nat
    ghost var pooled: seq<RangeNode>
    ghost var listed: seq<RangeNode>
    /** Every node of the two. */
    ghost var nodes: set<RangeNode>
    /** What the listed nodes hold. */
    ghost var specs: seq<Range>

    ghost predicate Valid()
      reads this, nodes
    {
      && (forall n :: n in nodes ==> n in pooled || n in listed)
      && (forall n :: n in pooled ==> n in nodes) && (forall n :: n in listed ==> n in nodes)
      && Chain(rangePool, pooled, null) && Distinct(pooled)
      && Chain(ranges, listed, null) && Distinct(listed)
      && Apart(pooled, listed) && Holds(listed, specs)
    }

    constructor ()
      ensures Valid() && nodes == {} && numranges == 0 && specs == []
    {
      rangePool, ranges, numranges := null, null, 0;
      pooled, listed, specs, nodes := [], [], [], {};
    }

    /** The two writes of `range_pool_push`. */
    method Spare(r: RangeNode)
      requires Chain(rangePool, pooled, null) && Distinct(pooled) && r !in pooled
      modifies `rangePool, `pooled, r`next
      ensures Chain(rangePool, pooled, null) && Distinct(pooled) && pooled == [r] + old(pooled)
    {
      hide Chain, Distinct;
      r.next := rangePool;
      rangePool := r;
      ChainCons(r, pooled, null);
      pooled := [r] + pooled;
    }

    /** `range_pool_push`. */
    method PoolPush(r: RangeNode)
      requires Valid() && r !in pooled && r !in listed
      modifies `rangePool, `pooled, `nodes, r`next
      ensures Valid() && pooled == [r] + old(pooled) && nodes == old(nodes) + {r}
    {
      hide Chain, Distinct, Holds;
      Spare(r);
      nodes := nodes + {r};
    }

    /** `range_pool_pop`: a spare node, or a new one when there is none. */
    method PoolPop() returns (r: RangeNode)
      requires Valid()
      modifies `rangePool, `pooled, `nodes, nodes
      ensures Valid() && r !in pooled && r !in listed
      ensures r.start == 0 && r.stop == 0 && r.next == null
      ensures nodes == old(nodes) - {r} && (fresh(r) || r in old(nodes))
      ensures if old(pooled) == [] then fresh(r) && pooled == [] else old(pooled) == [r] + pooled
    {
      PoolHead();
      hide Chain, Distinct, Holds;
      if rangePool != null {
        r := rangePool;
        ChainTail(rangePool, pooled, null);
        assert r in pooled;
        rangePool := rangePool.next;
        pooled := pooled[1..];
        nodes := nodes - {r};
        r.start, r.stop, r.next := 0, 0, null;
      } else {
        r := new RangeNode();
      }
    }

    lemma PoolHead()
      requires Valid()
      ensures rangePool == null <==> pooled == []
      ensures rangePool != null ==> rangePool in pooled
    {
    }

    /** `ranges_reset`: the whole list goes back to the pool. */
    method Reset()
      requires Valid()
      modifies this, nodes
      ensures Valid() && listed == [] && specs == [] && numranges == old(numranges)
      ensures nodes == old(nodes)
    {
      var r := ranges;
      ghost var rest := listed;
      listed, specs, ranges := [], [], null;
      nodes := set n | n in pooled;
      assert Chain(ranges, listed, null) by { }
      assert Distinct(listed) && Holds(listed, specs) by { }
      hide Chain, Distinct, Holds;
      while r != null
        invariant Valid() && listed == [] && specs == [] && numranges == old(numranges)
        invariant Chain(r, rest, null) && Distinct(rest) && Apart(pooled, rest)
        invariant forall n :: n in old(nodes) ==> n in nodes || n in rest
        invariant nodes <= old(nodes) && forall n :: n in rest ==> n in old(nodes)
        decreases |rest|
      {
        var bob := r.next;
        NonNull(r, rest);
        ChainTail(r, rest, null);
        assert r in rest;
        PoolPush(r);
        rest := rest[1..];
        r := bob;
      }
      ChainEmpty(rest);
    }

    /** The walk of `range_add` to the last node. */
    method FindLast() returns (prev: RangeNode?)
      requires Valid()
      ensures prev == null <==> listed == []
      ensures prev != null ==> prev == listed[|listed| - 1] && prev.next == null
    {
      ChainHead();
      hide Chain, Distinct, Holds;
      prev := ranges;
      ghost var k := 0;
      if prev != null {
        ChainSplit(ranges, listed, null, 0);
        ChainTail(prev, listed, null);
      }
      while prev != null && prev.next != null
        invariant prev == null <==> listed == []
        invariant prev != null ==> k < |listed| && prev == listed[k] && Chain(prev, listed[k..], null)
        decreases |listed| - k
      {
        StepInto(prev, listed, k);
        prev := prev.next;
        k := k + 1;
      }
      if prev != null {
        LastOne(prev, listed, k);
      }
    }

    /** The link to a node that becomes the last of the request's. */
    method Attach(prev: RangeNode?, r: RangeNode)
      requires Chain(ranges, listed, null) && Distinct(listed) && r !in listed && r.next == null
      requires prev == null ==> listed == []
      requires prev != null ==> listed != [] && prev == listed[|listed| - 1]
      modifies `ranges, (if prev == null then {} else {prev})`next
      ensures Chain(ranges, listed + [r], null)
    {
      if prev != null {
        var k := |listed| - 1;
        ChainSplit(ranges, listed, null, k);
        InitExcludesLast(listed, k);
        hide Chain, Distinct;
        prev.next := r;
        TwoMore(ranges, listed[..k], prev, r);
        assert listed[..k] + [prev, r] == listed + [r];
      } else {
        hide Chain, Distinct;
        ranges := r;
        OneNode(r);
        assert listed + [r] == [r];
      }
    }

    /** A node outside the lists joins the request's. */
    method LinkLast(prev: RangeNode?, r: RangeNode)
      requires Valid() && r !in pooled && r !in listed && r.next == null
      requires prev == null ==> listed == []
      requires prev != null ==> listed != [] && prev == listed[|listed| - 1]
      modifies `ranges, `listed, `specs, `nodes, (if prev == null then {} else {prev})`next
      ensures Valid() && nodes == old(nodes) + {r} && listed == old(listed) + [r]
      ensures specs == old(specs) + [Range(r.start, r.stop)]
    {
      HoldsSnoc(listed, specs, r);
      DistinctSnoc(listed, r);
      assert prev != null ==> prev in listed;
      hide Chain, Distinct, Holds;
      Attach(prev, r);
      listed := listed + [r];
      nodes := nodes + {r};
      specs := specs + [Range(r.start, r.stop)];
    }

    /** `range_add`: a node from the pool goes behind the last one. */
    method Add(start: nat, stop: nat)
      requires Valid()
      modifies this, nodes
      ensures Valid() && specs == old(specs) + [Range(start, stop)] && numranges == old(numranges) + 1
      ensures old(nodes) <= nodes && fresh(nodes - old(nodes))
    {
      hide Chain, Distinct, Holds, Apart;
      var r := PoolPop();
      r.start := start;
      r.stop := stop;
      var prev := FindLast();
      assert prev != null ==> prev in listed;
      LinkLast(prev, r);
      numranges := numranges + 1;
    }

    /** `range_abort`: the list is replaced by a single node flagged with the marker. */
    method Abort()
      requires Valid()
      modifies this, nodes
      ensures Valid() && specs == [Range(0, MARK)] && numranges == old(numranges)
      ensures old(nodes) <= nodes && fresh(nodes - old(nodes))
    {
      Reset();
      PoolHead();
      hide Chain, Distinct, Holds;
      Flag();
    }

    /** An empty list receives one node with the marker as its end. */
    method Flag()
      requires Valid() && listed == []
      modifies this, nodes
      ensures Valid() && specs == [Range(0, MARK)] && numranges == old(numranges)
      ensures old(nodes) <= nodes && fresh(nodes - old(nodes))
    {
      hide Chain, Distinct, Holds;
      var r := PoolPop();
      r.stop := MARK;
      OneNode(r);
      OneHolds(r);
      ranges := r;
      listed, specs := [r], [Range(0, MARK)];
      nodes := nodes + {r};
    }

    /** The pop of `complete_response`: the first node returns to the pool. */
    method PopFirst()
      requires Valid() && listed != []
      modifies this, nodes
      ensures Valid() && specs == old(specs)[1..] && nodes == old(nodes) && numranges == old(numranges)
    {
      HoldsTail(listed, specs);
      hide Chain, Distinct, Holds;
      ChainHead();
      ChainTail(ranges, listed, null);
      var r := ranges;
      assert r in listed;
      ranges := ranges.next;
      listed, specs := listed[1..], specs[1..];
      nodes := nodes - {r};
      PoolPush(r);
    }

    /** What the list holds, read off node by node. */
    method Listed() returns (rs: seq<Range>)
      requires Valid()
      ensures rs == specs
    {
      hide *;
      var r := ranges;
      rs := [];
      ghost var k := 0;
      ReadStart();
      while r != null
        invariant ReadUpTo(r, k, rs)
        decreases |listed| - k
      {
        ReadOne(r, k, rs);
        rs := rs + [Range(r.start, r.stop)];
        r := r.next;
        k := k + 1;
      }
      ReadEnd(k, rs);
    }

    /** The first k nodes have been read and r is the next. */
    ghost predicate ReadUpTo(r: RangeNode?, k: nat, rs: seq<Range>)
      reads this, listed
    {
      && Holds(listed, specs) && k <= |listed| && |listed| == |specs| && rs == specs[..k]
      && Chain(r, listed[k..], null)
    }

    lemma ReadStart()
      requires Valid()
      ensures ReadUpTo(ranges, 0, [])
    {
      assert listed[0..] == listed;
      HoldsLength(listed, specs);
    }

    lemma ReadOne(r: RangeNode, k: nat, rs: seq<Range>)
      requires ReadUpTo(r, k, rs)
      ensures k < |listed| && ReadUpTo(r.next, k + 1, rs + [Range(r.start, r.stop)])
    {
      assert listed[k..][1..] == listed[k + 1..];
    }

    lemma ReadEnd(k: nat, rs: seq<Range>)
      requires ReadUpTo(null, k, rs)
      ensures rs == specs
    {
    }

    lemma ChainHead()
      requires Valid()
      ensures ranges == null <==> listed == []
    {
    }

    /** The splicing state of `ranges_fixup`: `kept` is linked from `ranges` up to r, `todo` from r
        to the end, and the pool holds everything else. */
    ghost predicate Splicing(prev: RangeNode?, r: RangeNode?, kept: seq<RangeNode>, todo: seq<RangeNode>)
      reads `rangePool, `pooled, `ranges, `nodes, nodes`next
    {
      && (forall n :: n in nodes ==> n in pooled || n in kept || n in todo)
      && (forall n :: n in pooled ==> n in nodes) && (forall n :: n in kept ==> n in nodes)
      && (forall n :: n in todo ==> n in nodes)
      && Chain(rangePool, pooled, null) && Distinct(pooled)
      && (if kept == [] then prev == null && ranges == null
          else prev == kept[|kept| - 1] && Chain(ranges, kept, r))
      && Chain(r, todo, null) && Distinct(kept) && Distinct(todo)
      && Apart(kept, todo) && Apart(pooled, kept) && Apart(pooled, todo)
    }

    /** `ranges_fixup` unlinks a range that is not satisfiable. */
    method DropRange(prev: RangeNode?, r: RangeNode, ghost kept: seq<RangeNode>, ghost todo: seq<RangeNode>)
      returns (r': RangeNode?)
      requires Splicing(prev, r, kept, todo) && todo != []
      modifies `rangePool, `pooled, (if prev == null then {r} else {prev, r})`next
      ensures Splicing(prev, r', kept, todo[1..]) && r' == old(r.next)
    {
      ChainTail(r, todo, null);
      assert r in todo && forall n :: n in todo[1..] ==> n in todo;
      assert r !in kept && r !in pooled;
      if prev != null {
        assert prev in kept;
      }
      hide Chain, Distinct, Holds;
      r' := r.next;
      if prev != null {
        Relink(prev, r, kept);
      }
      Spare(r);
    }

    /** The last kept node is linked past r. */
    method Relink(prev: RangeNode, r: RangeNode, ghost kept: seq<RangeNode>)
      requires kept != [] && prev == kept[|kept| - 1] && r !in kept && r != prev
      requires Chain(ranges, kept, r) && Distinct(kept)
      modifies prev`next
      ensures Chain(ranges, kept, r.next)
    {
      hide Chain, Distinct;
      ghost var k := |kept| - 1;
      ChainSplit(ranges, kept, r, k);
      InitExcludesLast(kept, k);
      prev.next := r.next;
      ChainSnoc(ranges, kept[..k], prev);
      assert kept[..k] + [prev] == kept;
    }

    /** `ranges_fixup` goes past a range it keeps. */
    method KeepRange(prev: RangeNode?, r: RangeNode, ghost kept: seq<RangeNode>, ghost todo: seq<RangeNode>)
      returns (r': RangeNode?)
      requires Splicing(prev, r, kept, todo) && todo != []
      modifies `ranges
      ensures Splicing(r, r', kept + [r], todo[1..]) && r' == r.next
    {
      ChainTail(r, todo, null);
      assert r in todo && forall n :: n in todo[1..] ==> n in todo;
      assert r !in kept && r !in pooled;
      if prev == null {
        ranges := r;
      }
      ChainSnoc(ranges, kept, r);
      DistinctSnoc(kept, r);
      hide Chain, Distinct;
      r' := r.next;
    }

    /** The rewriting of one range in place; false when it is not satisfiable. */
    static method FixNode(r: RangeNode, filesize: nat) returns (keep: bool)
      requires 0 < filesize <= MARK
      modifies r`start, r`stop
      ensures var fixed := FixOne(Range(old(r.start), old(r.stop)), filesize);
              keep == fixed.Some? && (keep ==> fixed.value == Range(r.start, r.stop))
    {
      if r.stop == MARK || r.stop >= filesize {
        r.stop := filesize - 1;
      }
      if r.start == MARK {
        r.start := filesize - r.stop;
        r.stop := filesize - 1;
      }
      keep := !(r.start > LONG_MAX || r.start > r.stop);
    }

    /** `ranges_fixup`: the list becomes the satisfiable ranges of a file of this size, in order;
        false, for a 416 reply, when none is left. Dropped nodes go to the pool. */
    method Fixup(filesize: nat) returns (ok: bool)
      requires Valid() && filesize <= MARK
      modifies this, nodes
      ensures Valid() && nodes == old(nodes) && numranges == old(numranges)
      ensures specs == if filesize == 0 then [] else FixAll(old(specs), filesize)
      ensures ok <==> specs != []
    {
      hide Chain, Distinct, Holds, FixAll;
      if filesize == 0 {
        Reset();
        return false;
      }
      ok := FixLoop(filesize);
    }

    /** The loop of `ranges_fixup`. */
    method FixLoop(filesize: nat) returns (ok: bool)
      requires Valid() && 0 < filesize <= MARK
      modifies this, nodes
      ensures Valid() && nodes == old(nodes) && numranges == old(numranges)
      ensures specs == FixAll(old(specs), filesize) && (ok <==> specs != [])
    {
      hide *;
      ghost var before, todo := specs, listed;
      ghost var kept: seq<RangeNode> := [];
      ghost var k := 0;
      var prev: RangeNode? := null;
      var r := Detach(filesize);
      while r != null
        invariant Fixing(prev, r, kept, todo, before, k, filesize) && nodes == old(nodes) && numranges == old(numranges)
        decreases |todo|
      {
        prev, r, kept, todo := FixStep(prev, r, kept, todo, filesize, before, k);
        k := k + 1;
      }
      listed, specs := kept, FixAll(before, filesize);
      FixEnd(prev, kept, todo, before, k, filesize);
      return ranges != null;
    }

    /** That loop with k ranges done. */
    ghost predicate Fixing(prev: RangeNode?, r: RangeNode?, kept: seq<RangeNode>, todo: seq<RangeNode>,
                           before: seq<Range>, k: nat, filesize: nat)
      reads `rangePool, `pooled, `ranges, `nodes, nodes
    {
      && k <= |before| && 0 < filesize <= MARK && Splicing(prev, r, kept, todo) && (r == null <==> todo == [])
      && Holds(kept, FixAll(before[..k], filesize)) && Holds(todo, before[k..])
    }

    /** The list is taken over by the loop: nothing kept yet, everything to do. */
    method Detach(filesize: nat) returns (r: RangeNode?)
      requires Valid() && 0 < filesize <= MARK
      modifies `ranges
      ensures Fixing(null, r, [], listed, specs, 0, filesize)
    {
      assert specs[0..] == specs && specs[..0] == [];
      NullIsEnd(ranges, listed);
      hide Chain, Distinct, Holds, FixOne;
      r := ranges;
      ranges := null;
      HoldsNothing();
    }

    lemma FixEnd(prev: RangeNode?, kept: seq<RangeNode>, todo: seq<RangeNode>, before: seq<Range>, k: nat,
                 filesize: nat)
      requires Fixing(prev, null, kept, todo, before, k, filesize)
      requires listed == kept && specs == FixAll(before, filesize)
      ensures Valid() && (ranges == null <==> specs == [])
    {
      HoldsEnd(todo, before[k..]);
      assert before[..k] == before;
      HoldsLength(kept, FixAll(before, filesize));
      Spliced(prev, kept);
    }

    /** One turn of it. */
    method FixStep(prev: RangeNode?, r: RangeNode, ghost kept: seq<RangeNode>, ghost todo: seq<RangeNode>,
                   filesize: nat, ghost before: seq<Range>, ghost k: nat)
      returns (prev': RangeNode?, r': RangeNode?, ghost kept': seq<RangeNode>, ghost todo': seq<RangeNode>)
      requires Fixing(prev, r, kept, todo, before, k, filesize)
      modifies `ranges, `rangePool, `pooled, nodes
      ensures Fixing(prev', r', kept', todo', before, k + 1, filesize) && |todo'| < |todo|
    {
      hide *;
      FixHead(prev, r, kept, todo, before, k, filesize);
      ghost var done := FixAll(before[..k], filesize);
      todo' := todo[1..];
      var keep := FixNode(r, filesize);
      if keep {
        HoldsSnoc(kept, done, r);
        r' := KeepRange(prev, r, kept, todo);
        kept', prev' := kept + [r], r;
      } else {
        r' := DropRange(prev, r, kept, todo);
        kept', prev' := kept, prev;
      }
      FixTail(prev', r', kept', todo', before, k + 1, filesize);
    }

    lemma FixHead(prev: RangeNode?, r: RangeNode, kept: seq<RangeNode>, todo: seq<RangeNode>,
                  before: seq<Range>, k: nat, filesize: nat)
      requires Fixing(prev, r, kept, todo, before, k, filesize)
      ensures k < |before| && 0 < filesize <= MARK && Splicing(prev, r, kept, todo)
      ensures todo != [] && r in nodes && r !in kept && r !in todo[1..] && r !in pooled
      ensures prev != null ==> prev in nodes && prev != r
      ensures before[k] == Range(r.start, r.stop)
      ensures Holds(kept, FixAll(before[..k], filesize)) && Holds(todo[1..], before[k + 1..])
      ensures var fixed := FixOne(before[k], filesize);
              FixAll(before[..k + 1], filesize)
              == if fixed.Some? then FixAll(before[..k], filesize) + [fixed.value] else FixAll(before[..k], filesize)
    {
      HoldsFirst(todo, before[k..]);
      FixAllSnoc(before, k, filesize);
      NonNull(r, todo);
      ChainTail(r, todo, null);
      assert r in todo;
      assert prev != null ==> prev in kept;
      assert FixAll(before[..k], filesize) + [] == FixAll(before[..k], filesize);
    }

    lemma FixTail(prev: RangeNode?, r: RangeNode?, kept: seq<RangeNode>, todo: seq<RangeNode>,
                  before: seq<Range>, k: nat, filesize: nat)
      requires k <= |before| && 0 < filesize <= MARK && Splicing(prev, r, kept, todo)
      requires Holds(kept, FixAll(before[..k], filesize)) && Holds(todo, before[k..])
      ensures Fixing(prev, r, kept, todo, before, k, filesize)
    {
      NullIsEnd(r, todo);
    }

    lemma Spliced(prev: RangeNode?, kept: seq<RangeNode>)
      requires Splicing(prev, null, kept, [])
      ensures Chain(ranges, kept, null) && Distinct(kept) && Apart(pooled, kept)
      ensures Chain(rangePool, pooled, null) && Distinct(pooled)
      ensures forall n :: n in nodes ==> n in pooled || n in kept
      ensures forall n :: n in pooled ==> n in nodes
      ensures forall n :: n in kept ==> n in nodes
      ensures ranges == null <==> kept == []
    {
    }

    /** `range_parse`: scans the text behind "bytes=" through the table. A well-formed list is
        appended in order; anything else is reported and, past the unit, replaces the list by the flag. */
    method Parse(str: string) returns (ok: bool)
      requires Valid() && '\0' !in str
      modifies this, nodes
      ensures Valid()
      ensures !BytesUnit(str) ==> !ok && specs == old(specs) && numranges == old(numranges)
      ensures BytesUnit(str) ==> ok == SpecList(str[6..]).Some?
      ensures BytesUnit(str) ==> numranges == old(numranges) + Submitted(Initial, 0, 0, str[6..])
      ensures ok ==> specs == old(specs) + SpecList(str[6..]).value
                     && numranges == old(numranges) + |SpecList(str[6..]).value|
      ensures BytesUnit(str) && !ok ==> specs == [Range(0, MARK)]
      ensures old(nodes) <= nodes && fresh(nodes - old(nodes))
    {
      if !BytesUnit(str) {
        return false;
      }
      var s := str[6..];
      AutomatonIsReference(s);
      AllSubmitted(Initial, 0, 0, s);
      hide *;
      ok := Scan(s);
    }

    /** The loop of `range_parse`. */
    method Scan(s: string) returns (ok: bool)
      requires Valid() && '\0' !in s
      modifies this, nodes
      ensures Valid() && ok == Run(Initial, 0, 0, s).Some?
      ensures ok ==> specs == old(specs) + Run(Initial, 0, 0, s).value
      ensures numranges == old(numranges) + Submitted(Initial, 0, 0, s)
      ensures !ok ==> specs == [Range(0, MARK)]
      ensures old(nodes) <= nodes && fresh(nodes - old(nodes))
    {
      hide Run, Submitted, Chain, Distinct, Holds, Apart;
      var mode, start, stop, i := Initial, 0, 0, 0;
      ghost var added: seq<Range> := [];
      assert s[0..] == s;
      JoinNothing(Run(Initial, 0, 0, s));
      while true
        invariant i <= |s| && Valid()
        invariant specs == old(specs) + added && numranges == old(numranges) + |added|
        invariant Submitted(Initial, 0, 0, s) == |added| + Submitted(mode, start, stop, s[i..])
        invariant Run(Initial, 0, 0, s) == Join(added, Run(mode, start, stop, s[i..]))
        invariant old(nodes) <= nodes && fresh(nodes - old(nodes))
        decreases |s| - i
      {
        var c := if i < |s| then s[i] else '\0';
        var entry := Table(mode, CodeOf(c));
        RunStep(mode, start, stop, s[i..]);
        SubmittedStep(mode, start, stop, s[i..]);
        start, stop := NextStart(start, entry.push, c), NextStop(stop, entry.push, c);
        if entry.action == AbortRange || (entry.action == SubmitRange && start == stop == MARK) {
          Abort();
          return false;
        }
        ghost var out := [];
        if entry.action == SubmitRange {
          Add(start, stop);
          out := [Range(start, stop)];
          start, stop := 0, 0;
        }
        if i < |s| {
          assert s[i..][1..] == s[i + 1..];
          JoinTwice(added, out, Run(entry.next, start, stop, s[i + 1..]));
        }
        added := added + out;
        if i == |s| {
          return true;
        }
        mode := entry.next;
        i := i + 1;
      }
    }
  }

  /** The text starts with the unit, in any case. */
  predicate BytesUnit(str: string) {
    |str| >= 6 && Lower(str[0]) == 'b' && Lower(str[1]) == 'y' && Lower(str[2]) == 't'
    && Lower(str[3]) == 'e' && Lower(str[4]) == 's' && str[5] == '='
  }

  function Lower(c: char): char {
    if 'A' <= c <= 'Z' then c + 32 as char else c
  }

  lemma StepInto(prev: RangeNode, nodes: seq<RangeNode>, k: nat)
    requires k < |nodes| && Chain(prev, nodes[k..], null) && prev.next != null
    ensures k + 1 < |nodes| && prev.next == nodes[k + 1] && Chain(prev.next, nodes[k + 1..], null)
  {
    assert nodes[k..][1..] == nodes[k + 1..];
  }

  lemma LastOne(prev: RangeNode, nodes: seq<RangeNode>, k: nat)
    requires k < |nodes| && Chain(prev, nodes[k..], null) && prev.next == null
    ensures k + 1 == |nodes| && nodes == nodes[..k] + [nodes[k]]
  {
    assert nodes[k..][1..] == nodes[k + 1..];
  }

  lemma InitExcludesLast(nodes: seq<RangeNode>, k: nat)
    requires Distinct(nodes) && k < |nodes|
    ensures nodes[k] !in nodes[..k]
  {
  }

  /** Behind a chain that leads to `a`, which leads to `b`, the last. */
  lemma TwoMore(head: RangeNode?, init: seq<RangeNode>, a: RangeNode, b: RangeNode?)
    requires Chain(head, init, a) || (init == [] && head == a)
    requires a.next == b && (b != null ==> b.next == null)
    ensures Chain(head, init + if b == null then [a] else [a, b], null)
  {
    var tail := if b == null then [a] else [a, b];
    assert Chain(a, tail, null) by {
      if b != null {
        assert tail[1..] == [b] && [b][1..] == [];
      }
    }
    ChainJoin(head, init, tail, a, null);
  }

  lemma HoldsSnoc(nodes: seq<RangeNode>, specs: seq<Range>, r: RangeNode)
    requires Holds(nodes, specs)
    ensures Holds(nodes + [r], specs + [Range(r.start, r.stop)])
  {
  }

  lemma OneNode(r: RangeNode)
    requires r.next == null
    ensures Chain(r, [r], null) && Distinct([r])
  {
    assert [r][1..] == [];
  }

  lemma OneHolds(r: RangeNode)
    ensures Holds([r], [Range(r.start, r.stop)])
  {
  }

  lemma HoldsNothing()
    ensures Holds([], [])
  {
  }

  lemma HoldsFirst(nodes: seq<RangeNode>, specs: seq<Range>)
    requires Holds(nodes, specs) && nodes != []
    ensures specs != [] && specs[0] == Range(nodes[0].start, nodes[0].stop) && Holds(nodes[1..], specs[1..])
  {
  }

  lemma HoldsEnd(nodes: seq<RangeNode>, specs: seq<Range>)
    requires Holds(nodes, specs) && nodes == []
    ensures specs == []
  {
  }

  lemma HoldsLength(nodes: seq<RangeNode>, specs: seq<Range>)
    requires Holds(nodes, specs)
    ensures |nodes| == |specs|
  {
  }

  lemma FixAllSnoc(specs: seq<Range>, k: nat, size: nat)
    requires k < |specs| && 0 < size <= MARK
    ensures FixAll(specs[..k + 1], size)
            == FixAll(specs[..k], size) + if FixOne(specs[k], size).Some? then [FixOne(specs[k], size).value] else []
    ensures specs[k..][1..] == specs[k + 1..] && specs[k..][0] == specs[k]
  {
    hide FixOne;
    assert specs[..k + 1] == specs[..k] + [specs[k]];
    FixAllConcat(specs[..k], [specs[k]], size);
    assert [specs[k]][1..] == [];
  }

  lemma HoldsTail(nodes: seq<RangeNode>, specs: seq<Range>)
    requires Holds(nodes, specs) && nodes != []
    ensures Holds(nodes[1..], specs[1..]) && specs != []
  {
  }
}
