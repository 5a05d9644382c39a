/** Requests and the intrusive doubly-linked lists of src/queue.c that hold them. */
module RequestQueues {

  /** `enum REQ_STATUS`. */
  datatype Status =
    | ReadHeader | OneCr | OneLf | TwoCr | BodyRead | BodyWrite | Write
    | BuffPoll | BuffRead | BuffWrite | PipeRead | PipeWrite | IoShuffle
    | Done | TimedOut | Dead

  /** `enum KA_STATUS`. */
  datatype KeepAliveStatus = Inactive | Active | Stopped

  class Request {
    var next: Request?
    var prev: Request?
    var fd: int
    var dataFd: int
    var postDataFd: int
    var status: Status
    var keepalive: KeepAliveStatus
    var responseStatus: nat
    var bufferStart: nat
    var bufferEnd: nat
    /** The slot of the poll array a blocked request waits in. */
    var pollfdId: nat
    /** Requests the connection may still answer after this one. */
    var kacount: nat
    /** Requests answered on this connection before this one. */
    ghost var served: nat

    constructor ()
      ensures next == null && prev == null
    {
      next, prev := null, null;
    }
  }

  /** Following `next` from head visits the members in order and ends at `after`; each `prev` points
      to the member before, the first one's to `before`. */
  ghost predicate Linked(before: Request?, head: Request?, members: seq<Request>, after: Request?)
    reads (set r | r in members)`next, (set r | r in members)`prev
    decreases |members|
  {
    if members == [] then head == after
    else head == members[0] && members[0].prev == before && Linked(members[0], members[0].next, members[1..], after)
  }

  ghost predicate Distinct(members: seq<Request>) {
    forall i, j :: 0 <= i < j < |members| ==> members[i] != members[j]
  }

  ghost function LastOr(before: Request?, members: seq<Request>): Request? {
    if members == [] then before else members[|members| - 1]
  }

  lemma {:induction false} LinkedSplit(before: Request?, head: Request?, members: seq<Request>, after: Request?, k: nat)
    requires Linked(before, head, members, after) && k < |members|
    ensures Linked(before, head, members[..k], members[k])
    ensures members[k].prev == LastOr(before, members[..k])
    ensures Linked(members[k], members[k].next, members[k + 1..], after)
    decreases |members|
  {
    if k > 0 {
      LinkedSplit(members[0], members[0].next, members[1..], after, k - 1);
      assert members[1..][..k - 1] == members[..k][1..];
      assert members[1..][k..] == members[k + 1..];
    }
  }

  lemma {:induction false} LinkedJoin(before: Request?, head: Request?, a: seq<Request>, mid: Request?,
                                      b: seq<Request>, after: Request?)
    requires Linked(before, head, a, mid) && Linked(LastOr(before, a), mid, b, after)
    ensures Linked(before, head, a + b, after)
    decreases |a|
  {
    if a == [] {
      assert a + b == b;
    } else {
      assert LastOr(a[0], a[1..]) == LastOr(before, a);
      LinkedJoin(a[0], a[0].next, a[1..], mid, b, after);
      assert (a + b)[1..] == a[1..] + b;
    }
  }

  /** One more node at the end. */
  lemma LinkedSnoc(before: Request?, head: Request?, a: seq<Request>, last: Request)
    requires Linked(before, head, a, last) && last.prev == LastOr(before, a)
    ensures Linked(before, head, a + [last], last.next)
  {
    assert [last][1..] == [];
    LinkedJoin(before, head, a, last, [last], last.next);
  }

  ghost function Elems(members: seq<Request>): set<Request> {
    set r | r in members
  }

  /** Where a duplicate-free list is split, the parts share nothing. */
  lemma ElemsSplit(a: seq<Request>, b: seq<Request>)
    requires Distinct(a + b)
    ensures Elems(a) !! Elems(b) && Elems(a + b) == Elems(a) + Elems(b) && Distinct(a) && Distinct(b)
  {
    forall i, j | 0 <= i < |a| && 0 <= j < |b| ensures a[i] != b[j] {
      assert (a + b)[i] != (a + b)[|a| + j];
    }
    forall i, j | 0 <= i < j < |b| ensures b[i] != b[j] {
      assert (a + b)[|a| + i] != (a + b)[|a| + j];
    }
    assert forall i, j :: 0 <= i < j < |a| ==> (a + b)[i] == a[i] && (a + b)[j] == a[j];
  }

  lemma WithoutMiddle(a: seq<Request>, r: Request, b: seq<Request>)
    ensures (a + [r] + b)[|a|] == r && Without(a + [r] + b, |a|) == a + b
  {
  }

  /** The members without the one at k. */
  ghost function Without(members: seq<Request>, k: nat): seq<Request>
    requires k < |members|
  {
    members[..k] + members[k + 1..]
  }

  lemma WithoutTail(members: seq<Request>, k: nat)
    requires k < |members|
    ensures |Without(members, k)| == |members| - 1 && Without(members, k)[k..] == members[k + 1..]
  {
  }

  class Queue {
    var head: Request?
    ghost var members: seq<Request>
    ghost var elems: set<Request>

    ghost predicate Valid()
      reads this, elems`next, elems`prev
    {
      && (forall r :: r in members ==> r in elems) && (forall r :: r in elems ==> r in members)
      && Linked(null, head, members, null) && Distinct(members)
    }

    constructor ()
      ensures Valid() && members == [] && elems == {}
    {
      head, members, elems := null, [], {};
    }

    lemma HeadIs()
      requires Valid()
      ensures head == if members == [] then null else members[0]
    {
    }

    /** From a member, `next` leads to the following one. */
    lemma NextIs(k: nat)
      requires Valid() && k < |members|
      ensures members[k].next == if k + 1 < |members| then members[k + 1] else null
    {
      LinkedSplit(null, head, members, null, k);
    }

    /** `enqueue`: the request becomes the head. */
    method Enqueue(req: Request)
      requires Valid() && req !in elems
      modifies `head, `members, `elems, req`next, req`prev, elems`prev
      ensures Valid() && members == [req] + old(members) && elems == old(elems) + {req}
    {
      if head != null {
        LinkedSplit(null, head, members, null, 0);
        HeadIs();
        head.prev := req;
      }
      req.next := head;
      req.prev := null;
      head := req;
      Rehead(old(head), req);
      members := [req] + members;
      elems := elems + {req};
    }

    lemma Rehead(old': Request?, req: Request)
      requires Distinct(members) && req !in members
      requires req.next == old' && req.prev == null
      requires members == [] ==> old' == null
      requires members != [] ==> old' == members[0] && old'.prev == req && Linked(old', old'.next, members[1..], null)
      ensures Linked(null, req, [req] + members, null) && Distinct([req] + members)
    {
      assert ([req] + members)[1..] == members;
    }

    /** `dequeue`: the request is unlinked, wherever it stands. */
    method Dequeue(req: Request, ghost k: nat)
      requires Valid() && k < |members| && members[k] == req
      modifies `head, `members, `elems, elems`next, elems`prev
      ensures Valid() && members == Without(old(members), k) && elems == old(elems) - {req}
      ensures |members| == |old(members)| - 1
      ensures req.next == null && req.prev == null
    {
      ghost var a, b := members[..k], members[k + 1..];
      Pieces(k);
      hide Linked, Distinct, Without, LastOr;
      var after, before := req.next, req.prev;
      if head == req {
        head := after;
      }
      Unlink(a, b, req, before, after);
      req.next, req.prev := null, null;
      members := Without(members, k);
      elems := elems - {req};
    }

    /** What taking out the member at k leaves. */
    lemma Pieces(k: nat)
      requires Valid() && k < |members|
      ensures var req, a, b := members[k], members[..k], members[k + 1..];
              && req in elems && req !in a && req !in b && (forall r :: r in a ==> r in elems && r !in b)
              && (forall r :: r in b ==> r in elems) && Distinct(a) && Distinct(b)
              && Linked(null, if a == [] then req else head, a, req) && req.prev == LastOr(null, a)
              && Linked(req, req.next, b, null) && (a == [] <==> head == req)
              && Without(members, k) == a + b && |Without(members, k)| == |members| - 1
      ensures Distinct(Without(members, k))
      ensures forall r :: r in Without(members, k) <==> r in elems && r != members[k]
    {
      LinkedSplit(null, head, members, null, k);
      Apart(k);
      WithoutMember(members, k);
      DistinctWithout(k);
      assert k > 0 ==> members[0] in members[..k];
      HeadIs();
    }

    /** The two links around the request. */
    method Unlink(ghost a: seq<Request>, ghost b: seq<Request>, req: Request, before: Request?, after: Request?)
      requires req !in a && req !in b && Distinct(a) && Distinct(b) && (forall r :: r in a ==> r !in b)
      requires Linked(null, if a == [] then req else head, a, req) && before == LastOr(null, a)
      requires a == [] ==> head == after
      requires Linked(req, after, b, null)
      modifies (set r | r in a)`next, (set r | r in b)`prev
      ensures Linked(null, head, a + b, null)
    {
      if before != null {
        ghost var n := |a| - 1;
        LinkedSplit(null, head, a, req, n);
        assert before in a && before !in a[..n] && before !in b;
        assert a[..n] + [before] == a;
        hide Linked;
        before.next := after;
        LinkedSnoc(null, head, a[..n], before);
      }
      if after != null {
        assert b != [] && after == b[0] && after in b && after !in a;
        assert after !in b[1..];
        after.prev := before;
      }
      LinkedJoin(null, head, a, after, b, null);
    }

    lemma Apart(k: nat)
      requires Distinct(members) && k < |members|
      ensures members[k] !in members[..k] && members[k] !in members[k + 1..]
      ensures Distinct(members[..k]) && Distinct(members[k + 1..])
      ensures forall r :: r in members[..k] ==> r !in members[k + 1..]
    {
    }

    lemma DistinctWithout(k: nat)
      requires Distinct(members) && k < |members|
      ensures Distinct(Without(members, k))
    {
    }
  }

  lemma WithoutMember(members: seq<Request>, k: nat)
    requires Distinct(members) && k < |members|
    ensures members[k] !in Without(members, k)
    ensures forall r :: r in Without(members, k) ==> r in members
    ensures forall r :: r in members ==> r == members[k] || r in Without(members, k)
  {
    var w := Without(members, k);
    forall r | r in members && r != members[k] ensures r in w {
      var i :| 0 <= i < |members| && members[i] == r;
      assert r == if i < k then w[i] else w[i - 1];
    }
  }
}
