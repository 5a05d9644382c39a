/** The event loop: connection accounting and the pass over the ready list in src/request.c, the poll
    arrays of src/poll.c and the moves between lists of src/queue.c. What accept, poll, the handlers
    and the flushes report is a parameter. */
module Scheduler {
  import Sequences
  import opened RequestQueues

  /** `MAX_FD`, and the room the configuration leaves below it (src/config.c:695). */
  const MAX_FD := 1024
  const SPARE_FDS := 20

  datatype Events = ReadEvents | WriteEvents

  /** A slot of the poll array. */
  datatype PollFd = PollFd(fd: int, events: Events)

  /** The direction a blocked request waits in: out as long as something is to be sent. */
  ghost function Direction(r: Request): Events
    reads r`status, r`bufferStart, r`bufferEnd
  {
    if r.bufferEnd > 0 || r.status in {Write, PipeWrite, Done, BodyWrite} || (r.status.IoShuffle? && r.bufferStart > 0)
    then WriteEvents else ReadEvents
  }

  /** The descriptor it waits on: the client's, unless its buffer is empty and it moves a body. */
  ghost function Descriptor(r: Request): int
    reads r`fd, r`dataFd, r`postDataFd, r`status, r`bufferStart, r`bufferEnd
  {
    if r.bufferEnd > 0 then r.fd
    else if r.status.BodyWrite? then r.postDataFd
    else if r.status.PipeRead? || (r.status.IoShuffle? && r.bufferStart == 0) then r.dataFd
    else r.fd
  }

  ghost function Waits(r: Request): PollFd
    reads r`fd, r`dataFd, r`postDataFd, r`status, r`bufferStart, r`bufferEnd
  {
    PollFd(Descriptor(r), Direction(r))
  }

  /** Each of these requests owns a slot of its own below len, holding what it waits for. */
  ghost predicate Slots(a: array<PollFd>, elems: set<Request>, len: nat)
    reads a, elems`pollfdId, elems`fd, elems`dataFd, elems`postDataFd, elems`status, elems`bufferStart, elems`bufferEnd
  {
    && len <= a.Length
    && (forall r :: r in elems ==> r.pollfdId < len && a[r.pollfdId] == Waits(r))
    && (forall r, s :: r in elems && s in elems && r != s ==> r.pollfdId != s.pollfdId)
  }

  /** Every connection has answered and may still answer kaMax requests besides the current one. */
  ghost predicate Quota(elems: set<Request>, kaMax: nat)
    reads elems`served, elems`kacount
  {
    forall r :: r in elems ==> r.served + r.kacount == kaMax
  }

  /** What a write to the client reports. */
  datatype Socket = Wrote(taken: nat) | WouldBlock | Failed

  /** How a handler leaves the request. */
  datatype Handler = Handler(retval: int, status: Status, bufferStart: nat, bufferEnd: nat, dataFd: int,
                             postDataFd: int, keepalive: KeepAliveStatus, responseStatus: nat)

  /** What comes of asking for a connection: none waits; one is given up at once; or one is accepted,
      with or without memory for its request, and its socket can be prepared or not. The buffer is
      what a refusal with status 503 leaves unsent. */
  datatype Accept =
    | NoneWaits
    | GivenUp
    | Accepted(fd: int, memory: bool, prepared: bool, bufferStart: nat, bufferEnd: nat)

  /** What happens while one request has its turn. */
  datatype Turn = Turn(flush: Socket, handler: Handler, done: Socket, accept: Accept, last: Socket)

  /** What a poll shows of a blocked request: an error on its socket; time since its last progress
      beyond the limit, or beyond the keep-alive limit with nothing read yet; no event at all. */
  datatype Seen = Seen(error: bool, overdue: bool, idle: bool, silent: bool)

  /** Whether `update_blocked` leaves a request blocked; kept says it has answered before. */
  predicate Stays(seen: Seen, kept: bool) {
    !seen.error && !seen.overdue && !(kept && seen.idle) && seen.silent
  }

  /** The status a request has after `update_blocked`. */
  function Verdict(seen: Seen, kept: bool, status: Status): Status {
    if seen.error then Dead else if seen.overdue || (kept && seen.idle) then TimedOut else status
  }

  /** The flags say which of the first requests `update_blocked` leaves blocked. */
  ghost predicate Flags(stays: seq<bool>, members: seq<Request>, seen: seq<Seen>, kaMax: nat)
    reads Elems(members)`kacount
  {
    && |stays| <= |members| && |stays| <= |seen|
    && forall i :: 0 <= i < |stays| ==> stays[i] == Stays(seen[i], members[i].kacount < kaMax)
  }

  /** The first n requests have the status `update_blocked` gives them, the others the one they had. */
  ghost predicate Judged(n: nat, statuses: seq<Status>, members: seq<Request>, seen: seq<Seen>, kaMax: nat)
    reads Elems(members)`kacount, Elems(members)`status
  {
    && n <= |members| == |statuses| && n <= |seen|
    && (forall i :: 0 <= i < n ==> members[i].status == Verdict(seen[i], members[i].kacount < kaMax, statuses[i]))
    && (forall i :: n <= i < |members| ==> members[i].status == statuses[i])
  }

  ghost function StatusesOf(members: seq<Request>): (r: seq<Status>)
    reads Elems(members)`status
    ensures |r| == |members| && forall i :: 0 <= i < |members| ==> r[i] == members[i].status
  {
    if members == [] then []
    else
      assert forall m :: m in members[1..] ==> m in members;
      [members[0].status] + StatusesOf(members[1..])
  }

  /** Of the first requests, those a flag marks as staying blocked, in order. */
  ghost function Staying(members: seq<Request>, stays: seq<bool>): seq<Request>
    requires |stays| <= |members|
  {
    if stays == [] then []
    else
      var n := |stays| - 1;
      Staying(members, stays[..n]) + if stays[n] then [members[n]] else []
  }

  /** Of the first requests, those made ready: the last one stands first. */
  ghost function Woken(members: seq<Request>, stays: seq<bool>): seq<Request>
    requires |stays| <= |members|
  {
    if stays == [] then []
    else
      var n := |stays| - 1;
      (if stays[n] then [] else [members[n]]) + Woken(members, stays[..n])
  }

  /** The same selection from what the requests look like. */
  ghost function WokenLooks(looks: seq<Look>, stays: seq<bool>): seq<Look>
    requires |stays| <= |looks|
  {
    if stays == [] then []
    else
      var n := |stays| - 1;
      (if stays[n] then [] else [looks[n]]) + WokenLooks(looks, stays[..n])
  }

  /** What requests look like once `update_blocked` has settled their statuses. */
  ghost function JudgedLooks(looks: seq<Look>, seen: seq<Seen>, kaMax: nat): seq<Look>
    requires |looks| <= |seen|
  {
    seq(|looks|, i requires 0 <= i < |looks| =>
      looks[i].(status := Verdict(seen[i], looks[i].kacount < kaMax, looks[i].status)))
  }

  /** What a poll brings: a signal, or news of the server socket and of each blocked request in turn. */
  datatype Poll = Interrupted | Polled(serverReady: bool, seen: seq<Seen>)

  function SeenIn(poll: Poll): seq<Seen> {
    match poll
    case Interrupted => []
    case Polled(_, seen) => seen
  }

  /** One round of the event loop from outside. */
  datatype Cycle = Cycle(poll: Poll, first: Accept, schedule: nat -> Turn)

  /** Among the next spare + 1 rounds, not all are interrupted. */
  ghost predicate PollSoon(cycles: nat -> Cycle, i: nat, spare: nat) {
    exists j :: i <= j <= i + spare && cycles(j).poll.Polled?
  }

  ghost predicate AlwaysSoon(cycles: nat -> Cycle, spare: nat) {
    forall i: nat :: PollSoon(cycles, i, spare)
  }

  /** The slots in use after k interrupted rounds: one more for each in which the server is watched. */
  function SlotsAfter(len: nat, watched: bool, k: nat): nat {
    if watched then len + k else len
  }

  /** Each of the next k interrupted rounds finds room for its slot. */
  predicate Inside(len: nat, watched: bool, k: nat)
    decreases k
  {
    k == 0 || ((watched ==> len < MAX_FD) && Inside(SlotsAfter(len, watched, 1), watched, k - 1))
  }

  /** Exactly how many interrupted rounds in a row the poll array has room for. */
  lemma {:induction false} InsideIff(len: nat, watched: bool, k: nat)
    requires len <= MAX_FD
    ensures Inside(len, watched, k) <==> !watched || len + k <= MAX_FD
    decreases k
  {
    if k > 0 && (watched ==> len < MAX_FD) {
      InsideIff(SlotsAfter(len, watched, 1), watched, k - 1);
    }
  }

  /** How `free_request` ends. */
  datatype Ending = StillFlushing | KeptAlive | Closed

  /** `req_flush`: -2 on error, -1 when blocked, otherwise where the buffered bytes end. */
  method Flush(req: Request, socket: Socket) returns (left: int)
    modifies req`bufferStart, req`bufferEnd, req`status
    ensures left == -2 <==> req.status in {TimedOut, Dead}
    ensures left != -2 ==> req.status == old(req.status)
    ensures left == -1 ==> req.bufferStart == old(req.bufferStart) && req.bufferEnd == old(req.bufferEnd)
    ensures left >= 0 ==> left == req.bufferEnd
    ensures left >= -2
    ensures old(req.status) !in {TimedOut, Dead} && old(req.bufferStart != req.bufferEnd) ==>
              && (socket.WouldBlock? <==> left == -1) && (socket.Failed? <==> left == -2)
              && (socket.Wrote? ==>
                    left == if old(req.bufferStart) + socket.taken == old(req.bufferEnd) then 0 else old(req.bufferEnd))
    ensures old(req.status) !in {TimedOut, Dead} && old(req.bufferStart == req.bufferEnd) ==> left == 0
    ensures left == -2 && old(req.status) !in {TimedOut, Dead} ==> req.bufferEnd == 0
    ensures (left, LookOf(req)) == Flushed(old(LookOf(req)), socket)
  {
    if req.status == TimedOut || req.status == Dead {
      return -2;
    }
    var taken := 0;
    if req.bufferStart != req.bufferEnd {
      match socket
      case Wrote(n) => taken := n;
      case WouldBlock => return -1;
      case Failed =>
        req.bufferStart, req.bufferEnd, req.status := 0, 0, Dead;
        return -2;
    }
    req.bufferStart := req.bufferStart + taken;
    if req.bufferStart == req.bufferEnd {
      req.bufferStart, req.bufferEnd := 0, 0;
    }
    return req.bufferEnd;
  }

  /** Whether bytes are waiting to be sent on a live request. */
  ghost predicate Waiting(req: Request)
    reads req
  {
    req.bufferEnd > 0 && req.bufferStart != req.bufferEnd && req.status !in {TimedOut, Dead}
  }

  /** The flush before the handler blocks. */
  ghost predicate Held(req: Request, flush: Socket)
    reads req
  {
    Waiting(req) && flush.WouldBlock?
  }

  /** The flush before the handler fails. */
  ghost predicate Cut(req: Request, flush: Socket)
    reads req
  {
    Waiting(req) && flush.Failed?
  }

  /** The handler of an unfinished request runs: nothing waits, or some of it could be sent. */
  ghost predicate Runs(req: Request, flush: Socket)
    reads req
  {
    req.status !in {Done, TimedOut, Dead} && (Waiting(req) ==> flush.Wrote?)
  }

  /** The request is as the handler leaves it. */
  ghost predicate LeftBy(req: Request, h: Handler)
    reads req
  {
    && req.status == h.status && req.bufferStart == h.bufferStart && req.bufferEnd == h.bufferEnd
    && req.dataFd == h.dataFd && req.postDataFd == h.postDataFd
    && req.keepalive == h.keepalive && req.responseStatus == h.responseStatus
  }

  /** What a turn of a request depends on. */
  datatype Look = Look(status: Status, bufferStart: nat, bufferEnd: nat, keepalive: KeepAliveStatus,
                       responseStatus: nat, kacount: nat)

  ghost function LookOf(r: Request): Look
    reads r`status, r`bufferStart, r`bufferEnd, r`keepalive, r`responseStatus, r`kacount
  {
    Look(r.status, r.bufferStart, r.bufferEnd, r.keepalive, r.responseStatus, r.kacount)
  }

  /** The list a request is on. */
  datatype Place = OnReady | OnBlocked | OnFree

  /** What a flush reports and leaves. */
  function Flushed(l: Look, socket: Socket): (int, Look) {
    if l.status in {TimedOut, Dead} then (-2, l)
    else if l.bufferStart == l.bufferEnd then (0, l.(bufferStart := 0, bufferEnd := 0))
    else
      match socket
      case WouldBlock => (-1, l)
      case Failed => (-2, l.(bufferStart := 0, bufferEnd := 0, status := Dead))
      case Wrote(n) =>
        if l.bufferStart + n == l.bufferEnd then (0, l.(bufferStart := 0, bufferEnd := 0))
        else
          var left: int := l.bufferEnd;
          (left, l.(bufferStart := l.bufferStart + n))
  }

  /** What the switch on the status returns and leaves. */
  function Switched(l: Look, turn: Turn): (int, Look) {
    if l.status in {TimedOut, Dead} then (0, l.(bufferEnd := 0, keepalive := Stopped))
    else if l.status.Done? then
      var (left, m) := Flushed(l, turn.done);
      (if left == -2 then 0 else if left > 0 then 1 else left, m)
    else
      var h := turn.handler;
      (h.retval, Look(h.status, h.bufferStart, h.bufferEnd, h.keepalive, h.responseStatus, l.kacount))
  }

  /** What a turn returns and leaves: the flush, then the switch. */
  function Handled(l: Look, turn: Turn): (int, Look) {
    if l.bufferEnd > 0 && l.status !in {TimedOut, Dead} then
      var (left, m) := Flushed(l, turn.flush);
      if left == -2 then (0, m) else if left == -1 then (-1, m) else Switched(m, turn)
    else Switched(l, turn)
  }

  /** Where a request goes after a turn: by the return value, and for a complete one by what one more
      flush leaves and by its claim to be kept alive. */
  function PlaceOf(l: Look, retval: int, last: Socket): Place {
    if retval == -1 then OnBlocked
    else if retval != 0 then OnReady
    else if l.bufferEnd > 0 && l.status !in {TimedOut, Dead} && Flushed(l, last).0 > 0 then OnReady
    else if l.bufferEnd > 0 && l.bufferStart != l.bufferEnd && last.Failed? then OnFree
    else if l.status in {TimedOut, Dead} || l.keepalive != Active || l.responseStatus >= 500
            || l.responseStatus == 0 || l.kacount == 0 then OnFree
    else OnBlocked
  }

  /** Where a turn takes a request. */
  function PlaceAfter(l: Look, turn: Turn): Place {
    PlaceOf(Handled(l, turn).1, Handled(l, turn).0, turn.last)
  }

  /** A turn that was given: to whom, with what outcomes around it, and what it returned. */
  datatype Had = Had(req: Request, turn: Turn, retval: int)

  /** One turn for each of these requests, found looking like this, with the outcomes of the schedule. */
  ghost function Turns(to: seq<Request>, looks: seq<Look>, schedule: nat -> Turn): (had: seq<Had>)
    requires |to| == |looks|
    ensures |had| == |to|
    ensures forall i :: 0 <= i < |to| ==> had[i] == Had(to[i], schedule(i), Handled(looks[i], schedule(i)).0)
  {
    if to == [] then []
    else
      var n := |to| - 1;
      Turns(to[..n], looks[..n], schedule) + [Had(to[n], schedule(n), Handled(looks[n], schedule(n)).0)]
  }

  ghost function LooksOf(members: seq<Request>): (r: seq<Look>)
    reads Elems(members)`status, Elems(members)`bufferStart, Elems(members)`bufferEnd
    reads Elems(members)`keepalive, Elems(members)`responseStatus, Elems(members)`kacount
    ensures |r| == |members| && forall i :: 0 <= i < |members| ==> r[i] == LookOf(members[i])
  {
    if members == [] then []
    else
      assert forall m :: m in members[1..] ==> m in members;
      [LookOf(members[0])] + LooksOf(members[1..])
  }

  /** The turn of one request in `process_requests`, up to its return value. */
  method Handle(req: Request, turn: Turn) returns (retval: int)
    modifies req`bufferStart, req`bufferEnd, req`status, req`dataFd, req`postDataFd, req`keepalive, req`responseStatus
    ensures old(req.status) in {TimedOut, Dead} ==> retval == 0 && req.bufferEnd == 0 && req.keepalive == Stopped
    ensures old(Held(req, turn.flush)) ==>
              retval == -1 && req.status == old(req.status) && req.bufferEnd == old(req.bufferEnd)
    ensures old(Cut(req, turn.flush)) ==> retval == 0 && req.status == Dead && req.bufferEnd == 0
    ensures old(req.status).Done? ==>
              retval in {-1, 0, 1} && (retval == 0 ==> req.bufferEnd == 0) && (retval == 1 ==> req.bufferEnd > 0)
    ensures old(Runs(req, turn.flush)) ==> retval == turn.handler.retval && LeftBy(req, turn.handler)
    ensures (retval, LookOf(req)) == Handled(old(LookOf(req)), turn)
  {
    hide Switched;
    retval := 1;
    if req.bufferEnd > 0 && req.status != TimedOut && req.status != Dead {
      retval := Flush(req, turn.flush);
      if retval == -2 {
        req.status := Dead;
        retval := 0;
      } else if retval >= 0 {
        retval := 1;
      }
    }
    if retval == 1 {
      retval := Switch(req, turn);
    }
  }

  /** The switch on the status. */
  method Switch(req: Request, turn: Turn) returns (retval: int)
    modifies req`bufferStart, req`bufferEnd, req`status, req`dataFd, req`postDataFd, req`keepalive, req`responseStatus
    ensures old(req.status) in {TimedOut, Dead} ==> retval == 0 && req.bufferEnd == 0 && req.keepalive == Stopped
    ensures old(req.status).Done? ==>
              retval in {-1, 0, 1} && (retval == 0 ==> req.bufferEnd == 0) && (retval == 1 ==> req.bufferEnd > 0)
    ensures old(req.status) !in {Done, TimedOut, Dead} ==> retval == turn.handler.retval && LeftBy(req, turn.handler)
    ensures (retval, LookOf(req)) == Switched(old(LookOf(req)), turn)
  {
    match req.status
    case Done =>
      retval := Flush(req, turn.done);
      if retval == -2 {
        req.status := Dead;
        retval := 0;
      } else if retval > 0 {
        retval := 1;
      }
    case TimedOut =>
      retval := 0;
      req.bufferEnd, req.keepalive := 0, Stopped;
    case Dead =>
      retval := 0;
      req.bufferEnd, req.keepalive := 0, Stopped;
    case _ =>
      var h := turn.handler;
      retval := h.retval;
      req.status, req.bufferStart, req.bufferEnd := h.status, h.bufferStart, h.bufferEnd;
      req.dataFd, req.postDataFd := h.dataFd, h.postDataFd;
      req.keepalive, req.responseStatus := h.keepalive, h.responseStatus;
  }

  lemma PlaceIs(req: Request, retval: int, last: Socket)
    ensures PlaceOf(LookOf(req), retval, last)
            == if retval == -1 then OnBlocked
               else if retval != 0 || LeftOver(req, last) then OnReady
               else if MayStay(req) && !Lost(req, last) then OnBlocked
               else OnFree
  {
  }

  /** `sanitize_request`: the fields above `fd` are cleared, and a new connection gets its quota. */
  method Sanitize(req: Request, fresh': bool, kaMax: nat)
    modifies req`status, req`keepalive, req`responseStatus, req`pollfdId, req`dataFd, req`postDataFd
    modifies req`bufferStart, req`bufferEnd, req`kacount, req`served
    ensures req.status == ReadHeader && req.keepalive == Inactive && req.bufferEnd == 0
    ensures req.kacount == if fresh' then kaMax else old(req.kacount)
    ensures req.served == if fresh' then 0 else old(req.served)
  {
    if fresh' {
      req.kacount, req.served := kaMax, 0;
    }
    req.keepalive, req.responseStatus, req.pollfdId := Inactive, 0, 0;
    req.dataFd, req.postDataFd, req.bufferStart, req.bufferEnd := 0, 0, 0, 0;
    req.status := ReadHeader;
  }

  /** Whether something is left in the buffer after one more write. */
  ghost predicate LeftOver(req: Request, socket: Socket)
    reads req
  {
    && req.bufferEnd > 0 && req.status !in {TimedOut, Dead}
    && req.bufferStart != req.bufferEnd && socket.Wrote? && req.bufferStart + socket.taken != req.bufferEnd
  }

  /** Whether the connection may serve another request. */
  predicate MayStay(req: Request)
    reads req
  {
    && req.status != TimedOut && req.status != Dead && req.keepalive == Active
    && req.responseStatus < 500 && req.responseStatus != 0 && req.kacount > 0
  }

  /** Whether the socket refuses what is still buffered. */
  ghost predicate Lost(req: Request, socket: Socket)
    reads req
  {
    req.bufferEnd > 0 && req.bufferStart != req.bufferEnd && socket.Failed?
  }

  /** The flush at the head of `free_request`: whether the request stays to send the rest. */
  method LastFlush(req: Request, socket: Socket) returns (stays: bool)
    modifies req`bufferStart, req`bufferEnd, req`status
    ensures stays <==> old(LeftOver(req, socket))
    ensures !stays ==> (MayStay(req) <==> old(MayStay(req) && !Lost(req, socket)))
  {
    if req.bufferEnd > 0 && req.status != TimedOut && req.status != Dead {
      req.status := Done;
      var left := Flush(req, socket);
      if left == -2 {
        req.status := Dead;
      } else if left > 0 {
        return true;
      }
    }
    return false;
  }

  /** The loop between two rounds: the ready and the blocked list, what the requests on them look
      like, the slots in use, the connections, the polls interrupted in a row and the turns given. */
  datatype State = State(ready: seq<Request>, blocked: seq<Request>, readyLooks: seq<Look>, blockedLooks: seq<Look>,
                         pfdLen: nat, total: nat, interrupted: nat, log: seq<Had>)

  /** What was settled in a round. */
  datatype Rounded = Rounded(polled: bool, stays: seq<bool>, handled: seq<Request>, looks: seq<Look>)

  /** Where a request is in such a state; one on neither list was freed. */
  ghost predicate In(b: State, r: Request, place: Place) {
    match place
    case OnReady => r in b.ready
    case OnBlocked => r in b.blocked
    case OnFree => r !in b.blocked
  }

  class Loop {
    const ready: Queue
    const blocked: Queue
    const free: Queue
    const maxConnections: nat
    const kaMax: nat
    var totalConnections: nat
    var pendingRequests: bool
    var pfds: array<PollFd>
    var other: array<PollFd>
    var pfdLen: nat
    /** Every request ever allocated. */
    ghost var requests: set<Request>
    /** How many polls in a row a signal has interrupted. */
    ghost var interrupted: nat
    /** The rounds begun so far. */
    ghost var rounds: nat
    /** The turns given so far, first one first. */
    ghost var log: seq<Had>

    /** The three lists are well formed and share nothing; every request is on one of them, except
        those on their way from one to another. */
    ghost predicate Lists(moving: set<Request>)
      reads `requests, ready, blocked, free
      reads ready.elems`next, blocked.elems`next, free.elems`next, ready.elems`prev, blocked.elems`prev, free.elems`prev
    {
      && ready != blocked && ready != free && blocked != free
      && ready.Valid() && blocked.Valid() && free.Valid()
      && ready.elems !! blocked.elems && ready.elems !! free.elems && blocked.elems !! free.elems
      && moving !! ready.elems && moving !! blocked.elems && moving !! free.elems
      && requests == ready.elems + blocked.elems + free.elems + moving
    }

    ghost predicate Counts()
      reads `totalConnections, `pendingRequests, ready`members, blocked`members
    {
      && totalConnections == |ready.members| + |blocked.members| <= maxConnections + 1
      && (pendingRequests ==> totalConnections <= maxConnections)
    }

    /** Within a pass the poll array holds the blocked requests and nothing else. */
    ghost predicate InPass()
      reads `requests, `totalConnections, `pendingRequests, `pfds, `other, `pfdLen
      reads ready, blocked, free, pfds, ready.elems, blocked.elems, free.elems, requests
    {
      && Lists({}) && Counts() && Arrays()
      && Slots(pfds, blocked.elems, pfdLen) && pfdLen == |blocked.members|
      && Quota(requests, kaMax)
    }

    /** Another connection may be taken, so the server socket is polled too. */
    predicate Watching()
      reads `totalConnections
    {
      totalConnections < maxConnections
    }

    /** The next round's slot for the server, if it needs one, lies inside the array. */
    predicate SlotLeft()
      reads `totalConnections, `pfdLen
    {
      Watching() ==> pfdLen < MAX_FD
    }

    /** The invariant of the event loop. Each interrupted poll has left a slot for a watched server. */
    ghost predicate Valid()
      reads `requests, `totalConnections, `pendingRequests, `pfds, `other, `pfdLen, `interrupted
      reads ready, blocked, free, pfds, ready.elems, blocked.elems, free.elems, requests
    {
      && Lists({}) && Counts() && Arrays()
      && Slots(pfds, blocked.elems, pfdLen) && pfdLen == SlotsAfter(|blocked.members|, Watching(), interrupted)
      && Quota(requests, kaMax)
    }

    ghost predicate Arrays()
      reads `pfds, `other
    {
      pfds != other && pfds.Length == other.Length == MAX_FD && maxConnections + SPARE_FDS <= MAX_FD
    }

    constructor (maxConnections: nat, kaMax: nat)
      requires maxConnections + SPARE_FDS <= MAX_FD
      ensures Valid() && requests == {} && interrupted == 0 && !pendingRequests && rounds == 0 && log == []
      ensures this.maxConnections == maxConnections && this.kaMax == kaMax && pfdLen == 0 && totalConnections == 0
      ensures fresh(ready) && fresh(blocked) && fresh(free) && fresh(pfds) && fresh(other)
    {
      ready := new Queue();
      blocked := new Queue();
      free := new Queue();
      this.maxConnections, this.kaMax := maxConnections, kaMax;
      totalConnections, pendingRequests := 0, false;
      pfds := new PollFd[MAX_FD](_ => PollFd(0, ReadEvents));
      other := new PollFd[MAX_FD](_ => PollFd(0, ReadEvents));
      pfdLen := 0;
      requests := {};
      interrupted, rounds, log := 0, 0, [];
      new;
      NothingYet();
    }

    lemma NothingYet()
      requires ready.Valid() && blocked.Valid() && free.Valid() && ready != blocked && ready != free && blocked != free
      requires ready.elems == {} && blocked.elems == {} && free.elems == {} && requests == {}
      requires ready.members == [] && blocked.members == []
      requires Arrays() && totalConnections == 0 && !pendingRequests && pfdLen == 0 && interrupted == 0
      ensures Valid()
    {
    }

    /** Where a request is; one that was freed may have become a new connection since. */
    ghost predicate At(r: Request, place: Place)
      reads ready`elems, blocked`elems, free`elems
    {
      match place
      case OnReady => r in ready.elems
      case OnBlocked => r in blocked.elems
      case OnFree => r in free.elems || r in ready.elems
    }

    /** Each of these requests is where a turn of the schedule took it. */
    ghost predicate Settled(to: seq<Request>, looks: seq<Look>, schedule: nat -> Turn)
      reads ready`elems, blocked`elems, free`elems
    {
      |to| == |looks| && forall i :: 0 <= i < |to| ==> At(to[i], PlaceAfter(looks[i], schedule(i)))
    }

    /** `BOA_FD_SET`: the request takes the next slot. */
    method Assign(req: Request, slot: PollFd, ghost elems: set<Request>)
      requires Slots(pfds, elems, pfdLen) && req !in elems && pfdLen < pfds.Length && slot == Waits(req)
      modifies pfds, `pfdLen, req`pollfdId
      ensures Slots(pfds, elems + {req}, pfdLen) && pfdLen == old(pfdLen) + 1
    {
      pfds[pfdLen] := slot;
      req.pollfdId := pfdLen;
      pfdLen := pfdLen + 1;
    }

    lemma ThreeLists(moving: set<Request>)
      requires Lists(moving)
      ensures ready != blocked && ready != free && blocked != free
      ensures ready.elems !! free.elems && moving !! ready.elems
    {
    }

    lemma ReadyMember(k: nat)
      requires Lists({}) && k < |ready.members|
      ensures ready.members[k] in ready.elems - blocked.elems - free.elems
    {
    }

    /** A ready request is taken off its list. */
    method TakeReady(req: Request, ghost k: nat)
      requires Lists({}) && k < |ready.members| && ready.members[k] == req
      modifies ready, ready.elems`next, ready.elems`prev
      ensures Lists({req}) && ready.members == Without(old(ready.members), k)
      ensures |ready.members| == |old(ready.members)| - 1 && ready.elems == old(ready.elems) - {req}
      ensures req in old(ready.elems) && req !in blocked.elems && req !in free.elems
    {
      hide Linked, Distinct, Without;
      assert req in ready.elems;
      ready.Dequeue(req, k);
    }

    method PutReady(req: Request)
      requires Lists({req})
      modifies ready, ready.elems`prev, req`next, req`prev
      ensures Lists({}) && ready.members == [req] + old(ready.members) && ready.elems == old(ready.elems) + {req}
      ensures req !in old(ready.elems)
    {
      hide Linked, Distinct;
      ready.Enqueue(req);
    }

    method PutBlocked(req: Request)
      requires Lists({req})
      modifies blocked, blocked.elems`prev, req`next, req`prev
      ensures Lists({}) && blocked.members == [req] + old(blocked.members)
      ensures blocked.elems == old(blocked.elems) + {req}
      ensures req !in old(blocked.elems)
    {
      hide Linked, Distinct;
      blocked.Enqueue(req);
    }

    method PutFree(req: Request)
      requires Lists({req})
      modifies free, free.elems`prev, req`next, req`prev
      ensures Lists({}) && free.members == [req] + old(free.members) && free.elems == old(free.elems) + {req}
    {
      hide Linked, Distinct;
      free.Enqueue(req);
    }

    /** `block_request`: from ready to blocked, with a slot for what the request waits for. */
    method BlockRequest(req: Request, ghost k: nat)
      requires Lists({}) && k < |ready.members| && ready.members[k] == req
      requires Slots(pfds, blocked.elems, pfdLen) && pfdLen < pfds.Length
      modifies ready, blocked, ready.elems`next, ready.elems`prev, blocked.elems`prev, pfds, `pfdLen, req`pollfdId
      ensures Lists({}) && ready.members == Without(old(ready.members), k)
      ensures |ready.members| == |old(ready.members)| - 1
      ensures blocked.members == [req] + old(blocked.members)
      ensures ready.elems == old(ready.elems) - {req} && blocked.elems == old(blocked.elems) + {req}
      ensures Slots(pfds, blocked.elems, pfdLen) && pfdLen == old(pfdLen) + 1
    {
      hide Lists, Without, Slots;
      ThreeLists({});
      ghost var was := blocked.elems;
      TakeReady(req, k);
      PutBlocked(req);
      Wait(req, was);
    }

    /** The switch of `block_request`: which descriptor and direction go into the slot. */
    method Wait(req: Request, ghost elems: set<Request>)
      requires Slots(pfds, elems, pfdLen) && req !in elems && pfdLen < pfds.Length
      modifies pfds, `pfdLen, req`pollfdId
      ensures Slots(pfds, elems + {req}, pfdLen) && pfdLen == old(pfdLen) + 1
    {
      hide Slots;
      if req.bufferEnd > 0 {
        Assign(req, PollFd(req.fd, WriteEvents), elems);
      } else {
        match req.status
        case IoShuffle =>
          if req.bufferEnd - req.bufferStart == 0 {
            Assign(req, PollFd(req.dataFd, ReadEvents), elems);
          } else {
            Assign(req, PollFd(req.fd, WriteEvents), elems);
          }
        case Write => Assign(req, PollFd(req.fd, WriteEvents), elems);
        case PipeWrite => Assign(req, PollFd(req.fd, WriteEvents), elems);
        case Done => Assign(req, PollFd(req.fd, WriteEvents), elems);
        case PipeRead => Assign(req, PollFd(req.dataFd, ReadEvents), elems);
        case BodyWrite => Assign(req, PollFd(req.postDataFd, WriteEvents), elems);
        case _ => Assign(req, PollFd(req.fd, ReadEvents), elems);
      }
    }

    /** `ready_request`: from blocked to ready. */
    method ReadyRequest(req: Request, ghost k: nat)
      requires Lists({}) && k < |blocked.members| && blocked.members[k] == req
      modifies ready`head, ready`members, ready`elems, blocked`head, blocked`members, blocked`elems
      modifies blocked.elems`next, blocked.elems`prev, ready.elems`prev
      ensures Lists({}) && blocked.members == Without(old(blocked.members), k)
      ensures |blocked.members| == |old(blocked.members)| - 1
      ensures ready.members == [req] + old(ready.members)
      ensures ready.elems == old(ready.elems) + {req} && blocked.elems == old(blocked.elems) - {req}
    {
      hide Linked, Distinct, Without;
      assert req in blocked.elems;
      blocked.Dequeue(req, k);
      ready.Enqueue(req);
    }

    /** `free_request` on the request at k of the ready list. */
    method FreeRequest(req: Request, ghost k: nat, last: Socket) returns (ending: Ending)
      requires Lists({}) && k < |ready.members| && ready.members[k] == req
      requires Slots(pfds, blocked.elems, pfdLen) && pfdLen < pfds.Length && totalConnections > 0
      requires Quota(requests, kaMax)
      modifies ready, blocked, free, ready.elems`next, ready.elems`prev, blocked.elems`prev, free.elems`prev
      modifies req, pfds, `pfdLen, `totalConnections
      ensures Lists({}) && Slots(pfds, blocked.elems, pfdLen) && Quota(requests, kaMax)
      ensures ending.StillFlushing? <==> old(LeftOver(req, last))
      ensures ending.KeptAlive? <==> old(MayStay(req) && !LeftOver(req, last) && !Lost(req, last))
      ensures ending.StillFlushing? ==>
                && ready.members == old(ready.members) && blocked.members == old(blocked.members)
                && ready.elems == old(ready.elems) && blocked.elems == old(blocked.elems)
                && pfdLen == old(pfdLen) && totalConnections == old(totalConnections)
      ensures !ending.StillFlushing? ==>
                && ready.members == Without(old(ready.members), k) && |ready.members| == |old(ready.members)| - 1
                && ready.elems == old(ready.elems) - {req}
      ensures ending.KeptAlive? ==>
                && blocked.members == [req] + old(blocked.members) && blocked.elems == old(blocked.elems) + {req}
                && pfdLen == old(pfdLen) + 1 && totalConnections == old(totalConnections)
                && req.status == ReadHeader && req.bufferEnd == 0
                && req.served == old(req.served) + 1
      ensures ending.Closed? ==>
                && blocked.members == old(blocked.members) && blocked.elems == old(blocked.elems)
                && free.members == [req] + old(free.members)
                && req in free.elems
                && pfdLen == old(pfdLen) && totalConnections == old(totalConnections) - 1
    {
      hide Lists, Without, Slots, Quota;
      ThreeLists({});
      ReadyMember(k);
      hide LeftOver, Lost;
      var stays := LastFlush(req, last);
      if stays {
        return StillFlushing;
      }
      TakeReady(req, k);
      if MayStay(req) {
        KeepAlive(req);
        return KeptAlive;
      }
      totalConnections := totalConnections - 1;
      PutFree(req);
      return Closed;
    }

    /** The connection goes back to waiting for its next request. */
    method KeepAlive(req: Request)
      requires Lists({req}) && req.kacount > 0 && Quota(requests, kaMax)
      requires Slots(pfds, blocked.elems, pfdLen) && pfdLen < pfds.Length
      modifies blocked, blocked.elems`prev, req, pfds, `pfdLen
      ensures Lists({}) && Slots(pfds, blocked.elems, pfdLen) && pfdLen == old(pfdLen) + 1 && Quota(requests, kaMax)
      ensures blocked.members == [req] + old(blocked.members) && blocked.elems == old(blocked.elems) + {req}
      ensures req.kacount == old(req.kacount) - 1 && req.served == old(req.served) + 1
      ensures req.status == ReadHeader && req.bufferEnd == 0
    {
      hide Lists, Slots;
      ThreeLists({req});
      Sanitize(req, false, kaMax);
      req.kacount, req.served := req.kacount - 1, req.served + 1;
      ghost var was := blocked.elems;
      PutBlocked(req);
      Assign(req, PollFd(req.fd, ReadEvents), was);
    }

    /** `new_request`: from the head of the free list, or allocated. */
    method NewRequest(memory: bool) returns (req: Request?)
      requires Lists({}) && Quota(requests, kaMax)
      modifies `requests, free, free.elems
      ensures Quota(requests, kaMax)
      ensures req == null <==> old(free.members) == [] && !memory
      ensures req == null ==> Lists({}) && requests == old(requests)
      ensures req != null ==>
                && Lists({req}) && (requests == old(requests) || (fresh(req) && requests == old(requests) + {req}))
                && (fresh(req) || req in old(free.elems)) && free.elems <= old(free.elems)
                && req.status == ReadHeader && req.bufferEnd == 0 && req.served == 0 && req.kacount == kaMax
                && req.keepalive == Inactive
    {
      hide Linked, Distinct, Without;
      free.HeadIs();
      if free.head != null {
        req := free.head;
        free.Dequeue(free.head, 0);
      } else {
        if !memory {
          return null;
        }
        req := new Request();
        requests := requests + {req};
      }
      Sanitize(req, true, kaMax);
    }

    /** `get_request`: a new connection becomes the head of the ready list. */
    method GetRequest(accept: Accept) returns (conn: Request?)
      requires Lists({}) && Counts() && pendingRequests && Quota(requests, kaMax)
      modifies `requests, `pendingRequests, `totalConnections, ready, free, free.elems, ready.elems`prev
      ensures Lists({}) && Counts() && Quota(requests, kaMax)
      ensures fresh(requests - old(requests)) && old(requests) <= requests
      ensures conn != null <==> accept.Accepted? && accept.prepared && (accept.memory || old(free.members) != [])
      ensures conn == null ==> ready.members == old(ready.members) && ready.elems == old(ready.elems)
      ensures conn != null ==>
                && ready.members == [conn] + old(ready.members) && ready.elems == old(ready.elems) + {conn}
                && conn !in old(ready.elems) && (fresh(conn) || conn in old(free.elems))
                && conn.fd == accept.fd && conn.served == 0 && totalConnections == old(totalConnections) + 1
                && conn.status == (if old(totalConnections) < maxConnections then ReadHeader else Done)
    {
      hide Lists, Quota;
      ThreeLists({});
      conn := null;
      if accept.NoneWaits? {
        pendingRequests := false;
        return;
      }
      if accept.GivenUp? {
        return;
      }
      var req := NewRequest(accept.memory);
      if req == null {
        return;
      }
      ThreeLists({req});
      req.fd := accept.fd;
      req.status := ReadHeader;
      req.kacount := kaMax;
      if !accept.prepared {
        PutFree(req);
        return;
      }
      conn := req;
      Admit(conn, accept);
    }

    /** The new connection is counted; the one too many is answered with status 503. */
    method Admit(conn: Request, accept: Accept)
      requires Lists({conn}) && Counts() && pendingRequests && Quota(requests, kaMax) && accept.Accepted?
      requires conn.served == 0 && conn.kacount == kaMax && conn.status == ReadHeader
      modifies `pendingRequests, `totalConnections, ready, ready.elems`prev, conn
      ensures Lists({}) && Counts() && Quota(requests, kaMax)
      ensures ready.members == [conn] + old(ready.members) && ready.elems == old(ready.elems) + {conn}
      ensures conn !in old(ready.elems)
      ensures conn.fd == old(conn.fd) && conn.served == 0 && totalConnections == old(totalConnections) + 1
      ensures conn.status == (if old(totalConnections) < maxConnections then ReadHeader else Done)
    {
      hide Lists;
      ThreeLists({conn});
      totalConnections := totalConnections + 1;
      if totalConnections > maxConnections {
        pendingRequests := false;
        conn.keepalive, conn.responseStatus := Stopped, 503;
        conn.bufferStart, conn.bufferEnd := accept.bufferStart, accept.bufferEnd;
        conn.status := Done;
      }
      PutReady(conn);
    }

    /** A request that reported it is blocked. */
    method Block(current: Request, ghost k: nat)
      requires InPass() && k < |ready.members| && ready.members[k] == current
      modifies `pfdLen, pfds, ready, blocked, ready.elems`next, ready.elems`prev, current`pollfdId, blocked.elems`prev
      ensures InPass() && ready.members == Without(old(ready.members), k) && current in blocked.elems
      ensures ready.elems == old(ready.elems) - {current} && blocked.elems == old(blocked.elems) + {current}
    {
      ThreeLists({});
      ReadyMember(k);
      hide Lists, Slots, Without, Quota;
      BlockRequest(current, k);
    }

    /** A request that reported it is complete. */
    method Finish(current: Request, ghost k: nat, last: Socket) returns (ending: Ending)
      requires InPass() && k < |ready.members| && ready.members[k] == current
      modifies `totalConnections, `pfdLen, pfds, ready, blocked, free
      modifies ready.elems`next, ready.elems`prev, current, blocked.elems`prev, free.elems`prev
      ensures InPass()
      ensures ready.members == if ending.StillFlushing? then old(ready.members) else Without(old(ready.members), k)
      ensures ending.StillFlushing? <==> old(LeftOver(current, last))
      ensures ending.KeptAlive? <==> old(MayStay(current) && !LeftOver(current, last) && !Lost(current, last))
      ensures ending.StillFlushing? ==> current in ready.elems
      ensures ending.KeptAlive? ==> current in blocked.elems
      ensures ending.Closed? ==> current in free.elems
      ensures old(ready.elems) - {current} <= ready.elems
      ensures old(blocked.elems) <= blocked.elems <= old(blocked.elems) + {current}
    {
      hide Lists, Slots, Without, LeftOver, Lost, MayStay, Quota;
      ThreeLists({});
      ReadyMember(k);
      ending := FreeRequest(current, k, last);
    }

    /** A request whose handler returned something else is to be closed in the next pass. */
    method Bury(current: Request, ghost k: nat)
      requires InPass() && k < |ready.members| && ready.members[k] == current
      modifies current`status
      ensures InPass() && current.status == Dead
    {
      ReadyMember(k);
      hide Lists, Counts, Quota;
      current.status := Dead;
    }

    /** From a ready request, `next` leads to the one after it. */
    lemma ReadyNext(k: nat)
      requires Lists({}) && k < |ready.members|
      ensures ready.members[k].next == if k + 1 < |ready.members| then ready.members[k + 1] else null
    {
      ready.NextIs(k);
    }

    /** What becomes of a request after its turn; the next one is looked up first. */
    method Dispatch(current: Request, ghost k: nat, retval: int, last: Socket) returns (next: Request?, ghost k': nat)
      requires InPass() && k < |ready.members| && ready.members[k] == current
      modifies `totalConnections, `pfdLen, pfds, ready, blocked, free
      modifies ready.elems`next, ready.elems`prev, current, blocked.elems`prev, free.elems`prev
      ensures InPass()
      ensures k' <= |ready.members| && ready.members[k'..] == old(ready.members)[k + 1..]
      ensures next == if k' < |ready.members| then ready.members[k'] else null
      ensures retval == -1 ==> current in blocked.elems
      ensures retval == 0 ==>
                current in (if old(LeftOver(current, last)) then ready
                            else if old(MayStay(current) && !Lost(current, last)) then blocked
                            else free).elems
      ensures retval != -1 && retval != 0 ==>
                && ready.members == old(ready.members) && current in ready.elems
                && (retval != 1 ==> current.status == Dead)
      ensures At(current, PlaceOf(old(LookOf(current)), retval, last))
      ensures PlaceOf(old(LookOf(current)), retval, last).OnFree? ==> current in free.elems
      ensures old(ready.elems) - {current} <= ready.elems
      ensures old(blocked.elems) <= blocked.elems <= old(blocked.elems) + {current}
    {
      PlaceIs(current, retval, last);
      ReadyNext(k);
      WithoutTail(ready.members, k);
      next := current.next;
      ghost var rest := ready.members[k + 1..];
      assert next == if rest == [] then null else rest[0];
      hide InPass, Without, LeftOver, Lost, MayStay, PlaceOf;
      if retval == -1 {
        k' := k;
        Block(current, k);
      } else if retval == 0 {
        var ending := Finish(current, k, last);
        k' := if ending.StillFlushing? then k + 1 else k;
      } else {
        k' := k + 1;
        if retval != 1 {
          Bury(current, k);
        }
      }
      assert rest == ready.members[k'..];
    }

    /** A waiting connection is let in during a pass; the current request moves back by one. */
    method LetIn(accept: Accept, ghost k: nat) returns (ghost k': nat)
      requires InPass() && k < |ready.members|
      modifies `requests, `pendingRequests, `totalConnections, ready, free, free.elems, ready.elems`prev
      ensures InPass() && fresh(requests - old(requests)) && old(requests) <= requests
      ensures k' < |ready.members| && ready.members[k'..] == old(ready.members)[k..]
      ensures old(ready.elems) <= ready.elems
    {
      k' := k;
      ThreeLists({});
      hide Lists, Slots, Quota, Counts;
      if pendingRequests {
        var conn := GetRequest(accept);
        if conn != null {
          k' := k + 1;
          assert ready.members[k'..] == old(ready.members)[k..];
        }
      }
    }

    /** The handler runs on a ready request; nothing the lists or the slots depend on moves. */
    method HandleReady(current: Request, ghost k: nat, turn: Turn) returns (retval: int)
      requires InPass() && k < |ready.members| && ready.members[k] == current
      modifies current`bufferStart, current`bufferEnd, current`status, current`dataFd, current`postDataFd
      modifies current`keepalive, current`responseStatus
      ensures InPass()
      ensures old(current.status) in {TimedOut, Dead} ==>
                retval == 0 && current.bufferEnd == 0 && current.keepalive == Stopped
      ensures old(Held(current, turn.flush)) ==> retval == -1
      ensures old(Cut(current, turn.flush)) ==> retval == 0 && current.status == Dead
      ensures old(Runs(current, turn.flush)) ==> retval == turn.handler.retval && LeftBy(current, turn.handler)
      ensures (retval, LookOf(current)) == Handled(old(LookOf(current)), turn)
    {
      ReadyMember(k);
      hide Lists, Counts, Quota;
      retval := Handle(current, turn);
    }

    lemma AllKnown()
      requires InPass()
      ensures ready.elems <= requests && blocked.elems <= requests && free.elems <= requests
      ensures ready.elems !! free.elems && ready.elems !! blocked.elems && blocked.elems !! free.elems
      ensures requests == ready.elems + blocked.elems + free.elems
      ensures forall r :: r in ready.members <==> r in ready.elems
    {
    }

    /** The turn of a ready request, and the connection that may be let in after it. */
    method HaveTurn(current: Request, ghost k: nat, turn: Turn) returns (retval: int, ghost k': nat)
      requires InPass() && k < |ready.members| && ready.members[k] == current
      modifies `requests, `pendingRequests, `totalConnections, `log
      modifies ready, free, free.elems, ready.elems`prev, current
      ensures log == old(log) + [Had(current, turn, retval)]
      ensures (retval, LookOf(current)) == Handled(old(LookOf(current)), turn)
      ensures old(ready.elems) <= ready.elems
      ensures InPass() && fresh(requests - old(requests)) && old(requests) <= requests
      ensures k' < |ready.members| && ready.members[k'] == current
      ensures ready.members[k' + 1..] == old(ready.members)[k + 1..]
      ensures old(current.status) in {TimedOut, Dead} ==>
                retval == 0 && current.bufferEnd == 0 && current.keepalive == Stopped
      ensures old(Held(current, turn.flush)) ==> retval == -1
      ensures old(Cut(current, turn.flush)) ==> retval == 0 && current.status == Dead
      ensures old(Runs(current, turn.flush)) ==> retval == turn.handler.retval && LeftBy(current, turn.handler)
    {
      hide InPass, Held, Cut, Runs, Handled;
      AllKnown();
      ghost var list := ready.members;
      retval := HandleReady(current, k, turn);
      log := log + [Had(current, turn, retval)];
      k' := LetIn(turn.accept, k);
      assert ready.members[k'..][1..] == list[k + 1..];
      assert ready.members[k'..][0] == list[k];
    }

    /** One round of the loop in `process_requests`: a ready request has its turn, a waiting
        connection may be let in, and only then is the next request looked up. */
    method Step(current: Request, ghost k: nat, turn: Turn) returns (next: Request?, ghost k': nat)
      requires InPass() && k < |ready.members| && ready.members[k] == current
      modifies `requests, `pendingRequests, `totalConnections, `pfdLen, `log, pfds, ready, blocked, free, requests
      ensures InPass() && fresh(requests - old(requests)) && old(requests) <= requests
      ensures k' <= |ready.members| && ready.members[k'..] == old(ready.members)[k + 1..]
      ensures next == if k' < |ready.members| then ready.members[k'] else null
      ensures old(current.status) in {TimedOut, Dead} || old(Cut(current, turn.flush)) ==> current in free.elems
      ensures old(Held(current, turn.flush)) ==> current in blocked.elems
      ensures old(Runs(current, turn.flush)) && turn.handler.retval == -1 ==> current in blocked.elems
      ensures old(Runs(current, turn.flush)) && turn.handler.retval == 1 ==> current in ready.elems
      ensures log == old(log) + [Had(current, turn, Handled(old(LookOf(current)), turn).0)]
      ensures At(current, PlaceAfter(old(LookOf(current)), turn))
      ensures forall r :: r in old(ready.elems) && r != current ==> r in ready.elems && LookOf(r) == old(LookOf(r))
      ensures old(blocked.elems) <= blocked.elems
      ensures forall r :: r in old(free.elems) ==> r in free.elems || r in ready.elems
    {
      hide InPass, Handled, PlaceOf, Held, Cut, Runs, Lost;
      AllKnown();
      var retval;
      retval, k' := HaveTurn(current, k, turn);
      AllKnown();
      assert current in requests;
      next, k' := Dispatch(current, k', retval, turn.last);
      AllKnown();
    }

    lemma Begin(schedule: nat -> Turn)
      requires InPass()
      ensures ready.head == if ready.members == [] then null else ready.members[0]
      ensures Distinct(ready.members) && Halfway(ready.members, 0, 0, ready.head)
      ensures Walked(ready.members, LooksOf(ready.members), schedule, 0, log)
    {
      ready.HeadIs();
      assert log + [] == log;
    }

    /** The connection `process_requests` may let in before its walk. */
    method FirstIn(first: Accept)
      requires InPass() && pendingRequests
      modifies `requests, `pendingRequests, `totalConnections, ready, free, free.elems, ready.elems`prev
      ensures InPass() && fresh(requests - old(requests)) && old(requests) <= requests
      ensures |old(ready.members)| <= |ready.members| <= |old(ready.members)| + 1
      ensures ready.members[|ready.members| - |old(ready.members)|..] == old(ready.members)
      ensures |ready.members| > |old(ready.members)| <==>
                first.Accepted? && first.prepared && (first.memory || old(free.members) != [])
      ensures LooksOf(old(ready.members)) == old(LooksOf(ready.members))
    {
      hide InPass, LooksOf, Elems;
      AllKnown();
      ghost var members, looks := ready.members, LooksOf(ready.members);
      Accepting(first);
      LooksAre(members, looks);
    }

    /** The call of `get_request` at the head of a pass. */
    method Accepting(first: Accept)
      requires InPass() && pendingRequests
      modifies `requests, `pendingRequests, `totalConnections, ready, free, free.elems, ready.elems`prev
      ensures InPass() && fresh(requests - old(requests)) && old(requests) <= requests
      ensures |old(ready.members)| <= |ready.members| <= |old(ready.members)| + 1
      ensures ready.members[|ready.members| - |old(ready.members)|..] == old(ready.members)
      ensures |ready.members| > |old(ready.members)| <==>
                first.Accepted? && first.prepared && (first.memory || old(free.members) != [])
    {
      ThreeLists({});
      hide Lists, Slots, Quota, Counts;
      var conn := GetRequest(first);
    }

    /** The walk over the ready list: each request on it has exactly one turn, in order, whatever
        becomes of each and whoever is put in front of them meanwhile. The turns given are on record,
        and each request is on the list its turn takes it to. */
    method Walk(schedule: nat -> Turn)
      requires InPass()
      modifies `requests, `pendingRequests, `totalConnections, `pfdLen, `log, pfds, ready, blocked, free, requests
      ensures InPass() && fresh(requests - old(requests)) && old(requests) <= requests
      ensures log == old(log) + Turns(old(ready.members), old(LooksOf(ready.members)), schedule)
      ensures Settled(old(ready.members), old(LooksOf(ready.members)), schedule)
      ensures Distinct(old(ready.members))
    {
      hide InPass, Distinct, Halfway, Walked;
      AllKnown();
      Begin(schedule);
      var current := ready.head;
      var turns := 0;
      ghost var k: nat := 0;
      ghost var start, looks, was := ready.members, LooksOf(ready.members), log;
      while current != null
        invariant InPass() && fresh(requests - old(requests)) && old(requests) <= requests
        invariant turns <= |start| && Halfway(start, turns, k, current) && Walked(start, looks, schedule, turns, was)
        decreases |start| - turns
      {
        current, k := Advance(current, k, schedule, start, looks, turns, was);
        turns := turns + 1;
      }
      AllWalked(start, looks, schedule, turns, k, was);
    }

    /** The walk with the first n requests handled: the others stand at the end of the list, from k on. */
    ghost predicate Halfway(start: seq<Request>, n: nat, k: nat, current: Request?)
      reads ready`members
    {
      && n <= |start| && k <= |ready.members| && ready.members[k..] == start[n..] && Distinct(start)
      && current == if k < |ready.members| then ready.members[k] else null
    }

    /** The first n have had their turns and are where these took them; the others look as they did. */
    ghost predicate Walked(start: seq<Request>, looks: seq<Look>, schedule: nat -> Turn, n: nat, was: seq<Had>)
      reads `log, ready`elems, blocked`elems, free`elems
      reads Elems(start)`status, Elems(start)`bufferStart, Elems(start)`bufferEnd
      reads Elems(start)`keepalive, Elems(start)`responseStatus, Elems(start)`kacount
    {
      && n <= |start| == |looks| && log == was + Turns(start[..n], looks[..n], schedule)
      && Settled(start[..n], looks[..n], schedule)
      && (forall i :: n <= i < |start| ==> LookOf(start[i]) == looks[i])
    }

    lemma AllWalked(start: seq<Request>, looks: seq<Look>, schedule: nat -> Turn, n: nat, k: nat, was: seq<Had>)
      requires Halfway(start, n, k, null) && Walked(start, looks, schedule, n, was)
      ensures n == |start| == |looks| && log == was + Turns(start, looks, schedule) && Distinct(start)
      ensures Settled(start, looks, schedule)
    {
      assert |start[n..]| == 0;
      assert start[..n] == start && looks[..n] == looks;
    }

    lemma OneTurn(start: seq<Request>, looks: seq<Look>, schedule: nat -> Turn, n: nat, k: nat, current: Request,
                  was: seq<Had>)
      requires Halfway(start, n, k, current) && Walked(start, looks, schedule, n, was) && InPass()
      ensures n < |start| && k < |ready.members| && ready.members[k] == current == start[n]
      ensures looks[n] == LookOf(current) && ready.members[k + 1..] == start[n + 1..]
      ensures log + [Had(current, schedule(n), Handled(looks[n], schedule(n)).0)]
              == was + Turns(start[..n + 1], looks[..n + 1], schedule)
      ensures forall i :: 0 <= i < |start| && i != n ==> start[i] != current
      ensures forall i :: n < i < |start| ==> start[i] in ready.elems
    {
      assert start[n..][0] == start[n] && start[n..][1..] == start[n + 1..];
      assert ready.members[k..][0] == ready.members[k] && ready.members[k..][1..] == ready.members[k + 1..];
      assert start[..n + 1][..n] == start[..n] && looks[..n + 1][..n] == looks[..n];
      Sequences.Assoc(was, Turns(start[..n], looks[..n], schedule),
                      [Had(current, schedule(n), Handled(looks[n], schedule(n)).0)]);
      forall i | n < i < |start| ensures start[i] in ready.elems {
        assert start[n..][i - n] == start[i] && start[i] in ready.members[k..];
        assert start[i] in ready.members;
      }
    }

    /** One more request is handled. */
    method Advance(current: Request, ghost k: nat, schedule: nat -> Turn, ghost start: seq<Request>,
                   ghost looks: seq<Look>, n: nat, ghost was: seq<Had>)
      returns (next: Request?, ghost k': nat)
      requires InPass() && Halfway(start, n, k, current) && Walked(start, looks, schedule, n, was)
      modifies `requests, `pendingRequests, `totalConnections, `pfdLen, `log, pfds, ready, blocked, free, requests
      ensures InPass() && fresh(requests - old(requests)) && old(requests) <= requests
      ensures n < |start| && Halfway(start, n + 1, k', next) && Walked(start, looks, schedule, n + 1, was)
    {
      hide InPass, PlaceAfter, Handled;
      OneTurn(start, looks, schedule, n, k, current, was);
      AllKnown();
      next, k' := Step(current, k, schedule(n));
    }

    /** `process_requests`: the connection let in first, then the walk. */
    method ProcessRequests(first: Accept, schedule: nat -> Turn)
      returns (ghost handled: seq<Request>, ghost looks: seq<Look>)
      requires InPass()
      modifies `requests, `pendingRequests, `totalConnections, `pfdLen, `log, pfds, ready, blocked, free, requests
      ensures InPass() && fresh(requests - old(requests)) && old(requests) <= requests
      ensures Distinct(handled) && |handled| == |looks| && |old(ready.members)| <= |handled| <= |old(ready.members)| + 1
      ensures handled[|handled| - |old(ready.members)|..] == old(ready.members)
      ensures looks[|handled| - |old(ready.members)|..] == old(LooksOf(ready.members))
      ensures |handled| > |old(ready.members)| <==>
                old(pendingRequests) && first.Accepted? && first.prepared && (first.memory || old(free.members) != [])
      ensures log == old(log) + Turns(handled, looks, schedule)
      ensures Settled(handled, looks, schedule)
    {
      hide InPass, Distinct, Settled, Elems, LooksOf, Turns;
      AllKnown();
      ghost var n := |ready.members|;
      if pendingRequests {
        FirstIn(first);
      }
      handled, looks := ready.members, LooksOf(ready.members);
      SameLooks(handled, |handled| - n);
      Walk(schedule);
    }

    lemma SameLooks(members: seq<Request>, d: nat)
      requires d <= |members|
      ensures LooksOf(members[d..]) == LooksOf(members)[d..]
    {
    }

    lemma LooksJudged(members: seq<Request>, looks: seq<Look>, seen: seq<Seen>)
      requires |looks| == |members| <= |seen|
      requires forall i :: 0 <= i < |members| ==>
                 && members[i].status == Verdict(seen[i], members[i].kacount < kaMax, looks[i].status)
                 && looks[i] == LookOf(members[i]).(status := looks[i].status)
      ensures LooksOf(members) == JudgedLooks(looks, seen, kaMax)
    {
    }

    lemma LooksAre(members: seq<Request>, looks: seq<Look>)
      requires |looks| == |members| && forall i :: 0 <= i < |members| ==> looks[i] == LookOf(members[i])
      ensures LooksOf(members) == looks
    {
    }

    /** A slot of the one array becomes the next slot of the other. */
    method CopySlot(current: Request, slot: PollFd, ghost kept: set<Request>)
      requires Slots(other, kept, pfdLen) && pfdLen < other.Length && current !in kept && slot == Waits(current)
      modifies other, `pfdLen, current`pollfdId
      ensures pfdLen == old(pfdLen) + 1 && Slots(other, kept + {current}, pfdLen)
    {
      other[pfdLen] := slot;
      current.pollfdId := pfdLen;
      pfdLen := pfdLen + 1;
    }

    /** A request still blocked: its slot moves to the other array. */
    method KeepSlot(current: Request, ghost kept: set<Request>, ghost rest: set<Request>, ghost was: nat)
      requires Arrays() && Slots(other, kept, pfdLen) && Slots(pfds, rest + {current}, was)
      requires current !in rest && current !in kept && pfdLen < other.Length && kept !! rest
      modifies other, `pfdLen, current`pollfdId
      ensures pfdLen == old(pfdLen) + 1
      ensures Slots(other, kept + {current}, pfdLen) && Slots(pfds, rest, was)
    {
      SlotHolds(pfds, rest, current, was);
      hide Slots;
      CopySlot(current, pfds[current.pollfdId], kept);
    }

    /** What the poll showed of a request settles its status. */
    method Settle(current: Request, seen: Seen)
      modifies current`status
      ensures current.status == Verdict(seen, current.kacount < kaMax, old(current.status))
    {
      if seen.error {
        current.status := Dead;
      } else if seen.overdue {
        current.status := TimedOut;
      } else if current.kacount < kaMax && seen.idle {
        current.status := TimedOut;
      }
    }

    /** A request that is not: its status is settled and it becomes ready. */
    method Wake(current: Request, seen: Seen, ghost kept: seq<Request>, ghost rest: seq<Request>, ghost was: nat)
      requires Arrays() && Lists({}) && blocked.members == kept + [current] + rest
      requires Slots(other, Elems(kept), pfdLen) && Slots(pfds, Elems(rest) + {current}, was)
      modifies ready`head, ready`members, ready`elems, blocked`head, blocked`members, blocked`elems
      modifies blocked.elems`next, blocked.elems`prev, ready.elems`prev, current`status
      ensures Lists({}) && blocked.members == kept + rest && ready.members == [current] + old(ready.members)
      ensures Slots(other, Elems(kept), pfdLen) && Slots(pfds, Elems(rest), was)
      ensures current.status == Verdict(seen, current.kacount < kaMax, old(current.status))
    {
      WithoutMiddle(kept, current, rest);
      Threefold(kept, current, rest);
      SlotHolds(pfds, Elems(rest), current, was);
      hide Lists, Without, Slots, Elems, Verdict;
      Settle(current, seen);
      ReadyRequest(current, |kept|);
    }

    lemma Threefold(kept: seq<Request>, current: Request, rest: seq<Request>)
      requires Lists({}) && blocked.members == kept + [current] + rest
      ensures current !in Elems(kept) && current !in Elems(rest) && Elems(kept) !! Elems(rest)
      ensures blocked.elems == Elems(kept) + Elems(rest) + {current}
    {
      ElemsSplit(kept + [current], rest);
      ElemsSplit(kept, [current]);
      assert current in [current];
    }

    lemma BlockedNext(kept: seq<Request>, current: Request, rest: seq<Request>)
      requires Lists({}) && blocked.members == kept + [current] + rest
      ensures current.next == if rest == [] then null else rest[0]
    {
      blocked.NextIs(|kept|);
      assert blocked.members[|kept|] == current;
      assert rest != [] ==> blocked.members[|kept| + 1] == rest[0];
    }

    /** One round of the loop in `update_blocked`. */
    method Visit(current: Request, seen: Seen, ghost kept: seq<Request>, ghost rest: seq<Request>, ghost was: nat)
        returns (next: Request?, ghost kept': seq<Request>)
      requires Arrays() && Lists({}) && blocked.members == kept + [current] + rest
      requires Slots(other, Elems(kept), pfdLen) && Slots(pfds, Elems(rest) + {current}, was) && pfdLen < MAX_FD
      modifies ready`head, ready`members, ready`elems, blocked`head, blocked`members, blocked`elems
      modifies blocked.elems`next, blocked.elems`prev, ready.elems`prev, current`status
      modifies other, `pfdLen, current`pollfdId
      ensures Lists({}) && blocked.members == kept' + rest
      ensures Slots(other, Elems(kept'), pfdLen) && Slots(pfds, Elems(rest), was)
      ensures next == if rest == [] then null else rest[0]
      ensures current.status == Verdict(seen, current.kacount < kaMax, old(current.status))
      ensures Stays(seen, current.kacount < kaMax) ==>
                && kept' == kept + [current] && ready.members == old(ready.members)
                && pfdLen == old(pfdLen) + 1
      ensures !Stays(seen, current.kacount < kaMax) ==>
                && kept' == kept && ready.members == [current] + old(ready.members)
                && pfdLen == old(pfdLen)
      ensures blocked.elems + ready.elems == old(blocked.elems + ready.elems) && blocked.elems <= old(blocked.elems)
    {
      Threefold(kept, current, rest);
      BlockedNext(kept, current, rest);
      next := current.next;
      kept' := kept;
      if seen.error || seen.overdue || (current.kacount < kaMax && seen.idle) || !seen.silent {
        hide Lists, Slots, Elems;
        Wake(current, seen, kept, rest, was);
      } else {
        ElemsSnoc(kept, current);
        hide Lists, Slots, Elems;
        KeepSlot(current, Elems(kept), Elems(rest), was);
        kept' := kept + [current];
      }
    }

    /** The loop of `update_blocked` with i requests visited. */
    ghost predicate Visited(start: seq<Request>, statuses: seq<Status>, i: nat, current: Request?, kept: seq<Request>,
                            stays: seq<bool>, seen: seq<Seen>, base: seq<Request>, was: nat)
      reads this, ready, blocked, free, pfds, other, ready.elems, blocked.elems, free.elems, Elems(start), Elems(kept)
    {
      && i <= |start| <= |seen| && |start| <= MAX_FD && |stays| == i && |kept| == pfdLen <= i && Arrays()
      && current == (if i < |start| then start[i] else null)
      && Lists({}) && blocked.members == kept + start[i..]
      && Slots(other, Elems(kept), pfdLen) && Slots(pfds, Elems(start[i..]), was)
      && Flags(stays, start, seen, kaMax) && Judged(i, statuses, start, seen, kaMax) && Distinct(start)
      && kept == Staying(start, stays) && ready.members == Woken(start, stays) + base
    }

    /** One round of that loop. */
    method Round(current: Request, ghost start: seq<Request>, ghost statuses: seq<Status>, i: nat,
                 ghost kept: seq<Request>, ghost stays: seq<bool>, seen: seq<Seen>, ghost base: seq<Request>,
                 ghost was: nat)
        returns (next: Request?, ghost kept': seq<Request>, ghost stays': seq<bool>)
      requires Visited(start, statuses, i, current, kept, stays, seen, base, was)
      modifies ready`head, ready`members, ready`elems, blocked`head, blocked`members, blocked`elems
      modifies requests`next, requests`prev, current`status, requests`pollfdId, other, `pfdLen
      ensures Visited(start, statuses, i + 1, next, kept', stays', seen, base, was) && i < |start|
    {
      hide Lists, Slots, Elems, Staying, Woken, Visited, Stays, Verdict, Linked, Distinct, Waits;
      Within(start, statuses, i, current, kept, stays, seen, base, was);
      ghost var one := Stays(seen[i], current.kacount < kaMax);
      stays' := stays + [one];
      Open(start, statuses, i, current, kept, stays, one, seen, base, was);
      next, kept' := Visit(current, seen[i], kept, start[i + 1..], was);
      Shut(start, statuses, i + 1, next, kept', stays', seen, base, was);
    }

    lemma BlockedOnes()
      requires Lists({})
      ensures forall r :: r in blocked.members ==> r in blocked.elems && r in requests
      ensures ready.elems !! blocked.elems && forall r :: r in ready.members ==> r in ready.elems
    {
    }

    lemma CurrentIs(start: seq<Request>, statuses: seq<Status>, i: nat, current: Request,
                    kept: seq<Request>, stays: seq<bool>, seen: seq<Seen>, base: seq<Request>, was: nat)
      requires Visited(start, statuses, i, current, kept, stays, seen, base, was)
      ensures current in start
    {
    }

    lemma Within(start: seq<Request>, statuses: seq<Status>, i: nat, current: Request,
                 kept: seq<Request>, stays: seq<bool>, seen: seq<Seen>, base: seq<Request>, was: nat)
      requires Visited(start, statuses, i, current, kept, stays, seen, base, was)
      ensures i < |start| <= |seen| && ready.elems <= requests && blocked.elems <= requests
    {
    }

    /** What one round finds. */
    lemma Open(start: seq<Request>, statuses: seq<Status>, i: nat, current: Request,
               kept: seq<Request>, stays: seq<bool>, one: bool, seen: seq<Seen>, base: seq<Request>, was: nat)
      requires Visited(start, statuses, i, current, kept, stays, seen, base, was)
      requires one == Stays(seen[i], current.kacount < kaMax)
      ensures Arrays() && Lists({}) && |stays| == i && |kept| == pfdLen <= i < |start| <= |seen| && |start| <= MAX_FD
      ensures blocked.members == kept + [current] + start[i + 1..] && current in blocked.elems
      ensures Slots(other, Elems(kept), pfdLen) && Slots(pfds, Elems(start[i + 1..]) + {current}, was)
      ensures Flags(stays + [one], start, seen, kaMax)
      ensures Judged(i, statuses, start, seen, kaMax) && Distinct(start) && start[i] == current
      ensures forall j :: 0 <= j < |start| && j != i ==> start[j] != current
      ensures Staying(start, stays + [one]) == (if one then kept + [current] else kept)
      ensures Woken(start, stays + [one]) + base == if one then ready.members else [current] + ready.members
    {
      Split(kept, start, i);
      BeginBlocked();
      assert blocked.members[|kept|] == current;
      hide Lists, Slots, Stays;
      Flag(stays, start, seen, kaMax);
      hide Flags;
      Sorted(start, stays, one);
      Sequences.Assoc(if one then [] else [current], Woken(start, stays), base);
      Sequences.Neutral(Woken(start, stays));
    }

    /** What it leaves. */
    lemma Shut(start: seq<Request>, statuses: seq<Status>, i: nat, current: Request?,
               kept: seq<Request>, stays: seq<bool>, seen: seq<Seen>, base: seq<Request>, was: nat)
      requires i <= |start| <= |seen| && |start| <= MAX_FD && |stays| == i && |kept| == pfdLen <= i && Arrays()
      requires current == if start[i..] == [] then null else start[i..][0]
      requires Lists({}) && blocked.members == kept + start[i..]
      requires Slots(other, Elems(kept), pfdLen) && Slots(pfds, Elems(start[i..]), was)
      requires Flags(stays, start, seen, kaMax) && Judged(i, statuses, start, seen, kaMax) && Distinct(start)
      requires kept == Staying(start, stays) && ready.members == Woken(start, stays) + base
      ensures Visited(start, statuses, i, current, kept, stays, seen, base, was)
    {
    }

    /** `update_blocked`: the requests nothing happened to keep their order and get slots in the other
        array; the others become ready, the last one first. */
    method UpdateBlocked(seen: seq<Seen>, ghost was: nat) returns (ghost stays: seq<bool>)
      requires Arrays() && Lists({}) && |blocked.members| <= |seen| && |blocked.members| <= MAX_FD
      requires Slots(pfds, blocked.elems, was)
      modifies ready`head, ready`members, ready`elems, blocked`head, blocked`members, blocked`elems
      modifies requests`next, requests`prev, blocked.elems`status, requests`pollfdId, other, `pfdLen
      ensures Lists({}) && Slots(other, blocked.elems, pfdLen) && pfdLen == |blocked.members|
      ensures |stays| == |old(blocked.members)| && Flags(stays, old(blocked.members), seen, kaMax)
      ensures blocked.members == Staying(old(blocked.members), stays)
      ensures ready.members == Woken(old(blocked.members), stays) + old(ready.members)
      ensures forall i :: 0 <= i < |stays| ==>
                var r := old(blocked.members)[i];
                r.status == Verdict(seen[i], r.kacount < kaMax, old(blocked.members[i].status))
      ensures LooksOf(old(ready.members)) == old(LooksOf(ready.members))
      ensures LooksOf(old(blocked.members)) == JudgedLooks(old(LooksOf(blocked.members)), seen, kaMax)
    {
      hide Lists, Slots, Flags, Staying, Woken, Elems, Verdict, JudgedLooks;
      BlockedOnes();
      ghost var base, start := ready.members, blocked.members;
      ghost var readyLooks, looks := LooksOf(base), LooksOf(start);
      stays := VisitAll(seen, was);
      LooksAre(base, readyLooks);
      LooksJudged(start, looks, seen);
    }

    /** Its loop. */
    method VisitAll(seen: seq<Seen>, ghost was: nat) returns (ghost stays: seq<bool>)
      requires Arrays() && Lists({}) && |blocked.members| <= |seen| && |blocked.members| <= MAX_FD
      requires Slots(pfds, blocked.elems, was)
      modifies ready`head, ready`members, ready`elems, blocked`head, blocked`members, blocked`elems
      modifies requests`next, requests`prev, blocked.elems`status, requests`pollfdId, other, `pfdLen
      ensures Lists({}) && Slots(other, blocked.elems, pfdLen) && pfdLen == |blocked.members|
      ensures |stays| == |old(blocked.members)| && Flags(stays, old(blocked.members), seen, kaMax)
      ensures blocked.members == Staying(old(blocked.members), stays)
      ensures ready.members == Woken(old(blocked.members), stays) + old(ready.members)
      ensures forall i :: 0 <= i < |stays| ==>
                var r := old(blocked.members)[i];
                r.status == Verdict(seen[i], r.kacount < kaMax, old(blocked.members[i].status))
    {
      hide *;
      ghost var start, base := blocked.members, ready.members;
      BlockedOnes();
      ghost var kept: seq<Request>;
      kept, stays := [], [];
      pfdLen := 0;
      var current, i := blocked.head, 0;
      ghost var statuses := NoneVisited(seen, was);
      while current != null
        invariant Visited(start, statuses, i, current, kept, stays, seen, base, was) && i <= |start|
        decreases |start| - i
      {
        CurrentIs(start, statuses, i, current, kept, stays, seen, base, was);
        current, kept, stays := Round(current, start, statuses, i, kept, stays, seen, base, was);
        i := i + 1;
      }
      AllVisited(start, statuses, i, kept, stays, seen, base, was);
    }

    lemma NoneVisited(seen: seq<Seen>, was: nat) returns (statuses: seq<Status>)
      requires Arrays() && Lists({}) && |blocked.members| <= |seen| && |blocked.members| <= MAX_FD
      requires Slots(pfds, blocked.elems, was) && pfdLen == 0
      ensures Visited(blocked.members, statuses, 0, blocked.head, [], [], seen, ready.members, was)
      ensures |statuses| == |blocked.members|
      ensures forall i :: 0 <= i < |statuses| ==> statuses[i] == blocked.members[i].status
    {
      statuses := StatusesOf(blocked.members);
      BeginBlocked();
      Nothing(other, blocked.members, seen, kaMax);
      hide Lists, Slots, Flags;
    }

    lemma AllVisited(start: seq<Request>, statuses: seq<Status>, i: nat, kept: seq<Request>, stays: seq<bool>,
                     seen: seq<Seen>, base: seq<Request>, was: nat)
      requires Visited(start, statuses, i, null, kept, stays, seen, base, was)
      ensures Lists({}) && Slots(other, blocked.elems, pfdLen) && pfdLen == |blocked.members|
      ensures |stays| == |start| && Flags(stays, start, seen, kaMax) && Judged(|start|, statuses, start, seen, kaMax)
      ensures blocked.members == Staying(start, stays) && ready.members == Woken(start, stays) + base
    {
      BeginBlocked();
      assert kept + start[|start|..] == kept;
    }

    /** What holds between the poll and `update_blocked`. */
    ghost predicate Looking()
      reads `requests, `totalConnections, `pendingRequests, `pfds, `other, `pfdLen
      reads ready, blocked, free, pfds, ready.elems, blocked.elems, free.elems, requests
    {
      && Lists({}) && Counts() && Arrays() && Quota(requests, kaMax)
      && Slots(pfds, blocked.elems, pfdLen)
    }

    /** `loop` up to the poll: the server is watched while another connection may be taken. */
    method Watch(server: int) returns (watch: bool)
      requires Looking() && SlotLeft()
      modifies pfds, `pfdLen, `pendingRequests
      ensures Looking() && !pendingRequests && pfdLen == SlotsAfter(old(pfdLen), watch, 1)
      ensures watch <==> Watching()
      ensures watch ==> 0 < pfdLen <= pfds.Length && pfds[pfdLen - 1] == PollFd(server, ReadEvents)
    {
      hide Lists, Slots, Quota;
      watch := totalConnections < maxConnections;
      if watch {
        WatchServer(server);
      }
      pendingRequests := false;
    }

    /** The poll and what it says about the server socket. */
    method PollOnce(server: int, poll: Poll) returns (polled: bool)
      requires Valid() && SlotLeft()
      modifies pfds, `pfdLen, `pendingRequests, `interrupted
      ensures polled <==> !(poll.Interrupted? && (old(pfdLen) > 0 || Watching()))
      ensures polled ==> Looking() && interrupted == 0 && (blocked.members != [] ==> poll.Polled?)
      ensures polled ==> (pendingRequests <==> Watching() && poll.Polled? && poll.serverReady)
      ensures !polled ==>
                && Valid() && interrupted == old(interrupted) + 1 && !pendingRequests
                && pfdLen == SlotsAfter(old(pfdLen), Watching(), 1)
    {
      hide Lists, Slots, Quota;
      var watch := Watch(server);
      NoSlots();
      polled := true;
      if pfdLen > 0 {
        if poll.Interrupted? {
          polled := false;
        } else if watch && poll.serverReady {
          pendingRequests := true;
        }
      }
      interrupted := if polled then 0 else interrupted + 1;
    }

    /** The call of `update_blocked`, if any request is blocked. */
    method GoThrough(seen: seq<Seen>) returns (ghost stays: seq<bool>)
      requires Looking() && (blocked.members != [] ==> |seen| == MAX_FD)
      modifies ready`head, ready`members, ready`elems, blocked`head, blocked`members, blocked`elems
      modifies requests`next, requests`prev, blocked.elems`status, requests`pollfdId, other, `pfdLen
      ensures Lists({}) && Slots(other, blocked.elems, pfdLen) && pfdLen == |blocked.members|
      ensures |stays| == |old(blocked.members)| && Flags(stays, old(blocked.members), seen, kaMax)
      ensures blocked.members == Staying(old(blocked.members), stays)
      ensures ready.members == Woken(old(blocked.members), stays) + old(ready.members)
      ensures LooksOf(old(ready.members)) == old(LooksOf(ready.members))
      ensures |old(blocked.members)| <= |seen|
      ensures LooksOf(old(blocked.members)) == JudgedLooks(old(LooksOf(blocked.members)), seen, kaMax)
    {
      hide Lists, Slots, Flags, Staying, Woken, Elems, JudgedLooks, LooksOf;
      NoneBlocked(seen);
      NoLooks(seen);
      ghost var was := pfdLen;
      pfdLen := 0;
      stays := [];
      if blocked.head != null {
        stays := UpdateBlocked(seen, was);
      }
    }

    lemma NoLooks(seen: seq<Seen>)
      ensures LooksOf([]) == JudgedLooks([], seen, kaMax) == []
    {
    }

    /** `loop` from there to the pass: the blocked requests are gone through and the arrays swapped. */
    method Unblock(seen: seq<Seen>) returns (ghost stays: seq<bool>)
      requires Looking() && (blocked.members != [] ==> |seen| == MAX_FD)
      modifies ready`head, ready`members, ready`elems, blocked`head, blocked`members, blocked`elems
      modifies requests`next, requests`prev, blocked.elems`status, requests`pollfdId, other, `pfdLen, `pfds, `other
      ensures InPass() && |stays| == |old(blocked.members)| && old(Flags(stays, blocked.members, seen, kaMax))
      ensures pfds == old(other) && other == old(pfds)
      ensures blocked.members == Staying(old(blocked.members), stays)
      ensures ready.members == Woken(old(blocked.members), stays) + old(ready.members)
      ensures |old(blocked.members)| <= |seen|
      ensures LooksOf(ready.members)
              == WokenLooks(JudgedLooks(old(LooksOf(blocked.members)), seen, kaMax), stays)
                 + old(LooksOf(ready.members))
    {
      hide Lists, Slots, Quota, Stays, Staying, Woken, WokenLooks, JudgedLooks, LooksOf, Elems;
      ghost var start, base := blocked.members, ready.members;
      stays := GoThrough(seen);
      SortedLengths(start, stays);
      LooksOfWoken(start, stays);
      LooksJoin(Woken(start, stays), base);
      pfds, other := other, pfds;
    }

    lemma {:induction false} LooksOfWoken(members: seq<Request>, stays: seq<bool>)
      requires |stays| <= |members|
      ensures LooksOf(Woken(members, stays)) == WokenLooks(LooksOf(members), stays)
    {
      if stays != [] {
        var n := |stays| - 1;
        LooksOfWoken(members, stays[..n]);
        LooksJoin(if stays[n] then [] else [members[n]], Woken(members, stays[..n]));
      }
    }

    lemma LooksJoin(a: seq<Request>, b: seq<Request>)
      ensures LooksOf(a + b) == LooksOf(a) + LooksOf(b)
    {
    }


    lemma NoSlots()
      requires Lists({}) && Slots(pfds, blocked.elems, pfdLen)
      ensures pfdLen == 0 ==> blocked.members == []
    {
      if blocked.members != [] {
        assert blocked.members[0] in blocked.elems;
      }
    }

    lemma NoneBlocked(seen: seq<Seen>)
      requires Lists({})
      ensures blocked.head == null <==> blocked.members == []
      ensures blocked.members == [] ==>
                && Slots(other, blocked.elems, 0) && Flags([], [], seen, kaMax)
                && Staying([], []) == [] && Woken([], []) + ready.members == ready.members
    {
      BeginBlocked();
    }

    /** The server's slot goes after those of the blocked requests. */
    method WatchServer(server: int)
      requires Lists({}) && Slots(pfds, blocked.elems, pfdLen) && pfdLen < pfds.Length
      modifies pfds, `pfdLen
      ensures Slots(pfds, blocked.elems, pfdLen) && pfdLen == old(pfdLen) + 1
      ensures pfds[pfdLen - 1] == PollFd(server, ReadEvents)
    {
      pfds[pfdLen] := PollFd(server, ReadEvents);
      pfdLen := pfdLen + 1;
    }

    lemma BeginBlocked()
      requires Lists({})
      ensures blocked.head == if blocked.members == [] then null else blocked.members[0]
      ensures blocked.elems == Elems(blocked.members) && forall r :: r in blocked.members ==> r in blocked.elems
    {
      blocked.HeadIs();
    }

    /** One round of `loop`: unless a signal interrupts the poll, every request that was ready and
        every blocked one something happened to has exactly one turn. */
    method Iterate(server: int, cycle: Cycle)
      returns (polled: bool, ghost stays: seq<bool>, ghost handled: seq<Request>, ghost looks: seq<Look>)
      requires Valid() && SlotLeft() && (cycle.poll.Polled? ==> |cycle.poll.seen| == MAX_FD)
      modifies this, pfds, other, ready, blocked, free, requests
      ensures Valid() && fresh(requests - old(requests)) && old(requests) <= requests
      ensures {pfds, other} == {old(pfds), old(other)} && rounds == old(rounds) + 1
      ensures Follows(old(Now()), cycle, Now(), polled, stays, handled, looks)
    {
      hide Lists, Slots, Quota, Stays, Looking, LooksOf, HaveHad, LookLike, Settled, Turns, Follows;
      ghost var a := Now();
      stays, handled, looks := [], [], [];
      rounds := rounds + 1;
      AllThere();
      polled := PollOnce(server, cycle.poll);
      assert LooksOf(blocked.members) == a.blockedLooks && LooksOf(ready.members) == a.readyLooks;
      if polled {
        stays, handled, looks := Pass(cycle);
        StaysAsLooked(a, stays, SeenIn(cycle.poll));
        Concluded(a, cycle, stays, handled, looks);
      } else {
        StillFollows(a, cycle);
      }
    }

    ghost function Now(): State
      reads this, ready`members, blocked`members, Elems(ready.members), Elems(blocked.members)
    {
      State(ready.members, blocked.members, LooksOf(ready.members), LooksOf(blocked.members), pfdLen, totalConnections,
            interrupted, log)
    }

    /** What one round of the loop does. An interrupted poll costs a slot if the server is watched and
        changes nothing else. Otherwise every request that was ready and every blocked one something
        happened to has exactly one turn, in list order, found as the poll left it, and is then where
        this turn takes it; at most one new connection has one before them. */
    ghost predicate Follows(a: State, cycle: Cycle, b: State, polled: bool, stays: seq<bool>, handled: seq<Request>,
                            looks: seq<Look>)
    {
      && (polled <==> !(cycle.poll.Interrupted? && (a.pfdLen > 0 || a.total < maxConnections)))
      && (!polled ==>
            b == a.(pfdLen := SlotsAfter(a.pfdLen, a.total < maxConnections, 1), interrupted := a.interrupted + 1))
      && (polled ==>
            && b.interrupted == 0 && b.pfdLen == |b.blocked|
            && SplitBy(a, stays, SeenIn(cycle.poll))
            && HaveHad(handled, looks, a.blocked, a.ready, stays)
            && LookLike(looks, a.blockedLooks, a.readyLooks, stays, SeenIn(cycle.poll))
            && b.log == a.log + Turns(handled, looks, cycle.schedule)
            && forall i :: 0 <= i < |handled| ==> In(b, handled[i], PlaceAfter(looks[i], cycle.schedule(i))))
    }

    /** Which blocked requests stay so, by what the poll shows of them. */
    ghost predicate SplitBy(a: State, stays: seq<bool>, seen: seq<Seen>) {
      && |stays| == |a.blocked| == |a.blockedLooks| <= |seen|
      && forall i :: 0 <= i < |stays| ==> stays[i] == Stays(seen[i], a.blockedLooks[i].kacount < kaMax)
    }

    lemma StaysAsLooked(a: State, stays: seq<bool>, seen: seq<Seen>)
      requires |stays| == |a.blocked| <= |seen| && |a.blockedLooks| == |a.blocked|
      requires forall i :: 0 <= i < |stays| ==> stays[i] == Stays(seen[i], a.blockedLooks[i].kacount < kaMax)
      ensures SplitBy(a, stays, seen)
    {
    }

    lemma StillFollows(a: State, cycle: Cycle)
      requires cycle.poll.Interrupted? && (a.pfdLen > 0 || a.total < maxConnections)
      requires Now()
               == a.(pfdLen := SlotsAfter(a.pfdLen, a.total < maxConnections, 1), interrupted := a.interrupted + 1)
      ensures Follows(a, cycle, Now(), false, [], [], [])
    {
    }

    lemma Concluded(a: State, cycle: Cycle, stays: seq<bool>, handled: seq<Request>, looks: seq<Look>)
      requires Valid() && interrupted == 0
      requires !(cycle.poll.Interrupted? && (a.pfdLen > 0 || a.total < maxConnections))
      requires SplitBy(a, stays, SeenIn(cycle.poll)) && HaveHad(handled, looks, a.blocked, a.ready, stays)
      requires LookLike(looks, a.blockedLooks, a.readyLooks, stays, SeenIn(cycle.poll))
      requires log == a.log + Turns(handled, looks, cycle.schedule) && Settled(handled, looks, cycle.schedule)
      ensures Follows(a, cycle, Now(), true, stays, handled, looks)
    {
      hide PlaceAfter, Turns, LookLike, HaveHad, LooksOf;
      OnLists();
      assert |handled| == |looks|;
      forall i | 0 <= i < |handled| ensures In(Now(), handled[i], PlaceAfter(looks[i], cycle.schedule(i))) {
        assert At(handled[i], PlaceAfter(looks[i], cycle.schedule(i)));
      }
    }

    lemma OnLists()
      requires Valid()
      ensures forall r :: r in ready.elems <==> r in ready.members
      ensures forall r :: r in blocked.elems <==> r in blocked.members
      ensures ready.elems !! blocked.elems && free.elems !! blocked.elems
    {
    }

    /** The requests that have a turn in a round: those woken, those that were ready, and at most one
        connection in front of them. */
    ghost predicate HaveHad(handled: seq<Request>, looks: seq<Look>, blocked: seq<Request>, ready: seq<Request>,
                            stays: seq<bool>)
    {
      && |stays| <= |blocked| && |handled| == |looks| && Distinct(handled)
      && var due := Woken(blocked, stays) + ready;
         |due| <= |handled| <= |due| + 1 && handled[|handled| - |due|..] == due
    }

    /** What they look like when the pass reaches them. */
    ghost predicate LookLike(looks: seq<Look>, blocked: seq<Look>, ready: seq<Look>, stays: seq<bool>,
                             seen: seq<Seen>)
    {
      && |stays| <= |blocked| <= |seen|
      && var due := WokenLooks(JudgedLooks(blocked, seen, kaMax), stays) + ready;
         |due| <= |looks| && looks[|looks| - |due|..] == due
    }

    lemma AllThere()
      requires Valid()
      ensures blocked.elems <= requests && ready.elems <= requests
    {
    }

    /** The round after the poll: the blocked requests something happened to become ready, and the pass
        over the ready list. */
    method Pass(cycle: Cycle) returns (ghost stays: seq<bool>, ghost handled: seq<Request>, ghost looks: seq<Look>)
      requires Looking() && interrupted == 0 && blocked.elems <= requests
      requires cycle.poll.Polled? ==> |cycle.poll.seen| == MAX_FD
      requires blocked.members != [] ==> cycle.poll.Polled?
      modifies `requests, `pendingRequests, `totalConnections, `pfdLen, `log, `pfds, `other
      modifies pfds, other, ready, blocked, free, requests
      ensures Valid() && interrupted == 0 && fresh(requests - old(requests)) && old(requests) <= requests
      ensures {pfds, other} == {old(pfds), old(other)}
      ensures |stays| == |old(blocked.members)| <= |SeenIn(cycle.poll)|
      ensures old(Flags(stays, blocked.members, SeenIn(cycle.poll), kaMax))
      ensures HaveHad(handled, looks, old(blocked.members), old(ready.members), stays)
      ensures LookLike(looks, old(LooksOf(blocked.members)), old(LooksOf(ready.members)), stays, SeenIn(cycle.poll))
      ensures log == old(log) + Turns(handled, looks, cycle.schedule) && Settled(handled, looks, cycle.schedule)
    {
      hide Lists, Slots, Quota, Stays, Looking, InPass, Staying, Woken, WokenLooks, JudgedLooks, LooksOf, Elems;
      hide Distinct, Settled, Turns, Flags;
      stays := Unblock(SeenIn(cycle.poll));
      ghost var n := |ready.members|;
      handled, looks := ProcessRequests(cycle.first, cycle.schedule);
      Between();
    }

    /** After a pass the loop's invariant holds. */
    lemma Between()
      requires InPass() && interrupted == 0
      ensures Valid()
    {
    }

    /** Any number of rounds of `loop`, whatever arrives in them: the invariant holds after each. The
        run stops before its end exactly where the next slot for the server would lie outside the
        array, which takes as many interrupted rounds in a row as there are slots not in use; fewer
        than the configuration leaves room for are always harmless. */
    method Run(server: int, n: nat, cycles: nat -> Cycle)
      returns (done: nat, ghost trace: seq<State>, ghost how: seq<Rounded>)
      requires Valid() && interrupted == 0
      requires forall i :: cycles(i).poll.Polled? ==> |cycles(i).poll.seen| == MAX_FD
      modifies this, pfds, other, ready, blocked, free, requests
      ensures Valid() && fresh(requests - old(requests))
      ensures done <= n && (done < n ==> !SlotLeft())
      ensures rounds == old(rounds) + done
      ensures |trace| == done + 1 == |how| + 1 && trace[0] == old(Now()) && trace[done] == Now()
      ensures Course(trace, how, cycles)
      ensures !SlotLeft() ==>
                && interrupted == MAX_FD - |blocked.members| <= done
                && forall j :: done - interrupted <= j < done ==> cycles(j).poll.Interrupted?
      ensures AlwaysSoon(cycles, MAX_FD - maxConnections) ==> done == n
    {
      hide Valid, SlotLeft, Now, Follows, Course;
      done, trace, how := 0, [Now()], [];
      Started(Now(), cycles);
      Interruptions();
      while done < n && SlotLeft()
        invariant done <= n && Valid() && fresh(requests - old(requests)) && old(requests) <= requests
        invariant {pfds, other} == {old(pfds), old(other)} && rounds == old(rounds) + done
        invariant |trace| == done + 1 == |how| + 1 && trace[0] == old(Now()) && trace[done] == Now()
        invariant Course(trace, how, cycles) && trace[done].interrupted == interrupted
        invariant interrupted <= done && forall j :: done - interrupted <= j < done ==> cycles(j).poll.Interrupted?
      {
        var polled, stays, handled, looks := Iterate(server, cycles(done));
        Counted(trace[|how|], cycles(|how|), polled, stays, handled, looks);
        Continued(trace, how, cycles, Now(), Rounded(polled, stays, handled, looks));
        done, trace, how := done + 1, trace + [Now()], how + [Rounded(polled, stays, handled, looks)];
        Interruptions();
      }
      if !SlotLeft() {
        NoSlotLeft();
        assert PollSoon(cycles, done - interrupted, MAX_FD - maxConnections) ==> interrupted <= MAX_FD - maxConnections;
      }
    }

    lemma Counted(a: State, cycle: Cycle, polled: bool, stays: seq<bool>, handled: seq<Request>, looks: seq<Look>)
      requires Follows(a, cycle, Now(), polled, stays, handled, looks)
      ensures interrupted == 0 || (interrupted == a.interrupted + 1 && cycle.poll.Interrupted?)
    {
    }

    lemma Interruptions()
      ensures Now().interrupted == interrupted
    {
    }

    /** Each state of the trace follows from the one before by one round of the cycles given. */
    ghost predicate Course(trace: seq<State>, how: seq<Rounded>, cycles: nat -> Cycle) {
      && |trace| == |how| + 1
      && forall i :: 0 <= i < |how| ==>
           Follows(trace[i], cycles(i), trace[i + 1], how[i].polled, how[i].stays, how[i].handled, how[i].looks)
    }

    lemma Started(a: State, cycles: nat -> Cycle)
      ensures Course([a], [], cycles)
    {
    }

    lemma Continued(trace: seq<State>, how: seq<Rounded>, cycles: nat -> Cycle, b: State, last: Rounded)
      requires Course(trace, how, cycles)
      requires Follows(trace[|how|], cycles(|how|), b, last.polled, last.stays, last.handled, last.looks)
      ensures Course(trace + [b], how + [last], cycles)
    {
      hide Follows;
    }

    /** How the room runs out. */
    lemma NoSlotLeft()
      requires Valid() && !SlotLeft()
      ensures pfdLen == MAX_FD && interrupted == MAX_FD - |blocked.members| > MAX_FD - maxConnections >= 0
    {
    }

    /** k polls in a row interrupted, as long as there is room: only the poll array grows. */
    method Interrupt(server: int, k: nat)
      requires Valid() && (pfdLen > 0 || Watching()) && Inside(pfdLen, Watching(), k)
      modifies this, pfds, other, ready, blocked, free, requests
      ensures Valid() && pfdLen == SlotsAfter(old(pfdLen), old(Watching()), k)
      ensures ready.members == old(ready.members) && blocked.members == old(blocked.members)
      ensures totalConnections == old(totalConnections)
    {
      hide Valid;
      var poll, i := Interrupted, 0;
      Room();
      InsideIff(pfdLen, Watching(), k);
      var turn := Turn(WouldBlock, Handler(1, Done, 0, 0, 0, 0, Inactive, 0), WouldBlock, NoneWaits, WouldBlock);
      while i < k
        invariant i <= k && Valid() && pfdLen == SlotsAfter(old(pfdLen), old(Watching()), i)
        invariant fresh(requests - old(requests)) && {pfds, other} == {old(pfds), old(other)}
        invariant ready.members == old(ready.members) && blocked.members == old(blocked.members)
        invariant totalConnections == old(totalConnections)
      {
        var _, _, _, _ := Iterate(server, Cycle(poll, NoneWaits, _ => turn));
        i := i + 1;
      }
    }

    lemma Room()
      requires Valid()
      ensures pfdLen <= MAX_FD
    {
    }

    /** What the invariant says of every reachable state. */
    lemma Guarantees()
      requires Valid()
      ensures forall r :: r in requests <==> r in ready.members + blocked.members + free.members
      ensures Distinct(ready.members + blocked.members + free.members)
      ensures |ready.members| + |blocked.members| <= maxConnections + 1
      ensures forall i :: 0 <= i < |blocked.members| ==>
                var r := blocked.members[i]; r.pollfdId < pfdLen <= MAX_FD && pfds[r.pollfdId] == Waits(r)
      ensures forall i, j :: 0 <= i < j < |blocked.members| ==>
                blocked.members[i].pollfdId != blocked.members[j].pollfdId
      ensures forall r :: r in requests ==> r.served <= kaMax
    {
      var a, b, c := ready.members, blocked.members, free.members;
      assert forall r :: r in a + b + c <==> r in a || r in b || r in c;
      assert forall r :: r in a ==> r in ready.elems;
      assert forall r :: r in b ==> r in blocked.elems;
      assert forall r :: r in c ==> r in free.elems;
      hide Linked, Slots, Quota;
      DistinctJoin(a, b);
      DistinctJoin(a + b, c);
    }
  }

  /** The shortest way out of the array: a server without a connection, interrupted in as many polls as
      the array has slots, is in a state the loop can reach, and the next round's slot lies outside. */
  method InterruptedTooOften(server: int, maxConnections: nat, kaMax: nat) returns (loop: Loop)
    requires 0 < maxConnections && maxConnections + SPARE_FDS <= MAX_FD
    ensures loop.Valid() && loop.pfdLen == loop.pfds.Length && loop.Watching() && !loop.SlotLeft()
  {
    loop := new Loop(maxConnections, kaMax);
    hide Inside;
    InsideIff(0, true, MAX_FD);
    loop.Interrupt(server, MAX_FD);
  }

  lemma DistinctJoin(a: seq<Request>, b: seq<Request>)
    requires Distinct(a) && Distinct(b) && forall r :: r in a ==> r !in b
    ensures Distinct(a + b)
  {
    forall i, j | 0 <= i < j < |a + b| ensures (a + b)[i] != (a + b)[j] {
      if i < |a| && j >= |a| {
        assert (a + b)[i] in a && (a + b)[j] in b;
      }
    }
  }

  lemma Split(kept: seq<Request>, members: seq<Request>, i: nat)
    requires i < |members|
    ensures kept + members[i..] == kept + [members[i]] + members[i + 1..]
    ensures Elems(members[i..]) == Elems(members[i + 1..]) + {members[i]}
  {
    assert members[i..] == [members[i]] + members[i + 1..];
  }

  lemma ElemsSnoc(members: seq<Request>, r: Request)
    ensures Elems(members + [r]) == Elems(members) + {r}
  {
  }

  /** One more request sorted into those that stay and those that wake. */
  lemma Sorted(members: seq<Request>, stays: seq<bool>, one: bool)
    requires |stays| < |members|
    ensures Staying(members, stays + [one]) ==
              if one then Staying(members, stays) + [members[|stays|]] else Staying(members, stays)
    ensures Woken(members, stays + [one]) == (if one then [] else [members[|stays|]]) + Woken(members, stays)
  {
    assert (stays + [one])[..|stays|] == stays;
    assert (stays + [one])[|stays|] == one;
  }

  lemma Flag(stays: seq<bool>, members: seq<Request>, seen: seq<Seen>, kaMax: nat)
    requires Flags(stays, members, seen, kaMax) && |stays| < |members| && |stays| < |seen|
    ensures Flags(stays + [Stays(seen[|stays|], members[|stays|].kacount < kaMax)], members, seen, kaMax)
  {
  }

  /** Where `update_blocked` begins. */
  lemma Nothing(a: array<PollFd>, members: seq<Request>, seen: seq<Seen>, kaMax: nat)
    ensures Slots(a, Elems([]), 0) && Flags([], members, seen, kaMax) && members[0..] == members
    ensures Staying(members, []) == [] && Woken(members, []) == []
  {
  }

  lemma {:induction false} SortedLengths(members: seq<Request>, stays: seq<bool>)
    requires |stays| <= |members|
    ensures |Staying(members, stays)| + |Woken(members, stays)| == |stays|
  {
    if stays != [] {
      SortedLengths(members, stays[..|stays| - 1]);
    }
  }

  /** The two together hold each request as often as the requests gone through do: none is lost and
      none is there twice. */
  lemma {:induction false} SortedAll(members: seq<Request>, stays: seq<bool>, r: Request)
    requires |stays| <= |members|
    ensures Sequences.Times(Staying(members, stays), r) + Sequences.Times(Woken(members, stays), r)
            == Sequences.Times(members[..|stays|], r)
  {
    if stays != [] {
      var k := |stays| - 1;
      SortedAll(members, stays[..k], r);
      Sequences.TimesSnoc(Staying(members, stays[..k]), members[k], r);
      Sequences.TimesCons(Woken(members, stays[..k]), members[k], r);
      Sequences.TimesSnoc(members[..k], members[k], r);
      Sequences.Neutral(Staying(members, stays[..k]));
      Sequences.Neutral(Woken(members, stays[..k]));
      assert members[..k + 1] == members[..k] + [members[k]];
    }
  }

  lemma SlotHolds(a: array<PollFd>, elems: set<Request>, r: Request, len: nat)
    requires Slots(a, elems + {r}, len)
    ensures Slots(a, elems, len) && r.pollfdId < len <= a.Length && a[r.pollfdId] == Waits(r)
  {
  }
}
