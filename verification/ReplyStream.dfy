/** One reply on the wire: the output buffer of src/buffer.c, the refill and drain loop `io_shuffle`
    of src/pipe.c, the range walk of src/response.c and the turns `process_requests` and
    `free_request` of src/request.c give it. The outcome of every system call is a parameter. */
module ReplyStream {
  import opened Numerals
  import opened Options
  import Sequences
  import RangeSpecs

  type Range = RangeSpecs.Range

  const BUFFER_SIZE := 4096
  /** Bytes `io_shuffle` leaves free for the block that follows a range. */
  const TRAILER_ROOM := 256

  const CRLF := "\r\n"
  const SEPARATOR := "\r\n--THIS_STRING_SEPARATES\r\n"
  const CLOSING := "\r\n--THIS_STRING_SEPARATES--\r\n"

  /** The states a static reply passes through once its header is queued. */
  datatype Status = Shuffling | Done | Dead

  /** What a `read` or `write` did: moved at most n bytes, would have blocked, or failed. */
  datatype Transfer = Moved(n: nat) | WouldBlock | Failed

  predicate Willing(t: Transfer) {
    t.Moved? && t.n > 0
  }

  /** The system call outcomes one turn may meet: the flush before the handler, the handler's read,
      write and closing flush, the flush of a finished reply, and the flush of `free_request`. */
  datatype Io = Io(first: Transfer, rd: Transfer, wr: Transfer, closing: Transfer, last: Transfer, free: Transfer)
  {
    predicate AllWilling() {
      first.Moved? && Willing(rd) && Willing(wr) && Willing(closing) && Willing(last) && Willing(free)
    }
  }

  /** How the read half of `io_shuffle` ended: blocked on the file, failed, at the end of a range,
      or on to the write half. */
  datatype Fill = Starved | Broken | RangeDone | Proceed

  /** What stays fixed during a reply: the entity, the request's kind and its content type line. */
  datatype Plan = Plan(file: string, isHead: bool, partial: bool, numranges: nat, contentType: string)
  {
    /** Whether the reply is a multipart one. */
    predicate Multi() {
      partial && numranges > 1
    }

    predicate Within(r: Range) {
      r.start <= r.stop < |file|
    }

    predicate AllWithin(rs: seq<Range>) {
      forall i :: 0 <= i < |rs| ==> Within(rs[i])
    }

    /** The entity bytes a range stands for; HEAD replies carry none. */
    function Body(r: Range): string
      requires Within(r)
    {
      if isHead then [] else file[r.start..r.stop + 1]
    }

    /** The first k entity bytes of a range. */
    function Piece(r: Range, k: nat): string
      requires r.start + k <= |file|
    {
      file[r.start..r.start + k]
    }

    /** The block between two parts: boundary, content type, content range and a blank line. */
    function PartHead(r: Range): string {
      (if numranges > 1 then SEPARATOR else []) + contentType + ContentRange(r) + CRLF
    }

    function ContentRange(r: Range): string {
      "Content-Range: bytes " + Decimal(r.start) + "-" + Decimal(r.stop) + "/" + Decimal(|file|) + CRLF
    }

    /** What follows the body of a range, given the ranges still to come. */
    function Tail(rs: seq<Range>): string
      requires AllWithin(rs)
    {
      if !Multi() then []
      else if rs == [] then CLOSING
      else PartHead(rs[0]) + Body(rs[0]) + Tail(rs[1..])
    }

    /** The whole reply after its header. */
    function Payload(rs: seq<Range>): string
      requires rs != [] && AllWithin(rs)
    {
      Body(rs[0]) + Tail(rs[1..])
    }

    /** The number of ranges the header was written for bounds those still listed. */
    predicate Consistent(rs: seq<Range>) {
      rs != [] && AllWithin(rs) && (Multi() || |rs| == 1) && |file| <= INT_MAX
    }

    /** Whether the heads of the ranges still to come find room in the output buffer of a reply of
        total bytes: in what `io_shuffle` leaves free, or because all up to the head fits. */
    predicate HeadsFit(later: seq<Range>, total: nat)
      requires AllWithin(later)
    {
      later == []
      || ((|PartHead(later[0])| <= TRAILER_ROOM || total - |Payload(later)| <= BUFFER_SIZE)
          && HeadsFit(later[1..], total))
    }

    /** Whether every block finds room whatever the client does. A HEAD reply may pile up in the
        buffer as a whole. */
    predicate Roomy(later: seq<Range>, total: nat)
      requires AllWithin(later)
    {
      !Multi() || if isHead then total <= BUFFER_SIZE else HeadsFit(later, total)
    }
  }

  lemma PartHeadFits(p: Plan, r: Range)
    requires p.Within(r) && |p.file| <= INT_MAX && |p.contentType| <= 172
    ensures |p.PartHead(r)| <= TRAILER_ROOM
  {
    UnsignedFits(r.start);
    UnsignedFits(r.stop);
    UnsignedFits(|p.file|);
    assert |"Content-Range: bytes "| == 21 && |SEPARATOR| == 27;
    assert |p.ContentRange(r)| <= 21 + 10 + 1 + 10 + 1 + 10 + 2;
  }

  /** A GET with a content type line of at most 172 bytes always finds room. */
  lemma {:induction false} ShortTypeIsRoomy(p: Plan, later: seq<Range>, total: nat)
    requires !p.isHead && p.AllWithin(later) && |p.file| <= INT_MAX && |p.contentType| <= 172
    ensures p.Roomy(later, total)
  {
    if later != [] {
      PartHeadFits(p, later[0]);
      ShortTypeIsRoomy(p, later[1..], total);
      assert p.Multi() ==> p.HeadsFit(later[1..], total);
    }
  }

  /** Taking k bytes off the current range leaves the rest of the payload, or the tail once it is used up. */
  lemma SplitPayload(p: Plan, rs: seq<Range>, k: nat) returns (rest: string)
    requires p.Consistent(rs) && !p.isHead && 0 < k <= rs[0].stop - rs[0].start + 1
    ensures p.Payload(rs) == p.Piece(rs[0], k) + rest
    ensures Reply.Advance(rs, k)[1..] == rs[1..]
    ensures k == rs[0].stop - rs[0].start + 1 ==> rest == p.Tail(rs[1..])
    ensures k <= rs[0].stop - rs[0].start ==>
              p.Consistent(Reply.Advance(rs, k)) && rest == p.Payload(Reply.Advance(rs, k))
  {
    var chunk, body := p.Piece(rs[0], k), p.file[rs[0].start + k..rs[0].stop + 1];
    rest := body + p.Tail(rs[1..]);
    assert p.Body(rs[0]) == chunk + body;
    Sequences.Assoc(chunk, body, p.Tail(rs[1..]));
    assert Reply.Advance(rs, k)[1..] == rs[1..];
    if k <= rs[0].stop - rs[0].start {
      assert p.Body(Reply.Advance(rs, k)[0]) == body;
    }
  }

  /** A reply without ranges in the request carries exactly the entity, or nothing for HEAD. */
  lemma WholeEntity(p: Plan)
    requires !p.Multi() && 0 < |p.file| <= INT_MAX
    ensures p.Payload([RangeSpecs.Range(0, |p.file| - 1)]) == if p.isHead then [] else p.file
  {
    assert p.file[0..|p.file|] == p.file;
  }

  lemma {:induction false} TailAt(p: Plan, rs: seq<Range>, i: nat) returns (pre: string)
    requires p.Multi() && p.AllWithin(rs) && i <= |rs|
    ensures p.Tail(rs) == pre + p.Tail(rs[i..])
    ensures !p.isHead && i > 0 ==> |pre| > rs[i - 1].stop - rs[i - 1].start
  {
    if i == 0 {
      pre := [];
      assert rs[0..] == rs;
    } else {
      var inner := TailAt(p, rs[1..], i - 1);
      assert rs[1..][i - 1..] == rs[i..] && (i > 1 ==> rs[1..][i - 2] == rs[i - 1]);
      TailStep(p, rs);
      var first := p.PartHead(rs[0]) + p.Body(rs[0]);
      pre := first + inner;
      Sequences.Assoc(first, inner, p.Tail(rs[i..]));
      assert |first| >= |p.Body(rs[0])|;
    }
  }

  /** In a multipart GET each later range's head is followed by exactly its bytes, in list order. */
  lemma PartPlaced(p: Plan, rs: seq<Range>, i: nat) returns (pre: string)
    requires p.Multi() && !p.isHead && p.AllWithin(rs) && i < |rs|
    ensures p.Tail(rs) == pre + (p.PartHead(rs[i]) + p.file[rs[i].start..rs[i].stop + 1] + p.Tail(rs[i + 1..]))
    ensures i > 0 ==> |pre| > rs[i - 1].stop - rs[i - 1].start
  {
    hide *;
    pre := TailAt(p, rs, i);
    WithinFrom(p, rs, i);
    TailStep(p, rs[i..]);
  }

  lemma WithinFrom(p: Plan, rs: seq<Range>, i: nat)
    requires p.AllWithin(rs) && i < |rs|
    ensures p.AllWithin(rs[i..]) && rs[i..][0] == rs[i] && rs[i..][1..] == rs[i + 1..]
  {
  }

  lemma TailStep(p: Plan, rs: seq<Range>)
    requires p.Multi() && p.AllWithin(rs) && rs != []
    ensures p.Tail(rs) == p.PartHead(rs[0]) + p.Body(rs[0]) + p.Tail(rs[1..])
    ensures !p.isHead ==> p.Body(rs[0]) == p.file[rs[0].start..rs[0].stop + 1]
  {
  }

  /** A multipart reply ends with the closing boundary. */
  lemma {:induction false} LastIsClosing(p: Plan, rs: seq<Range>)
    requires p.Multi() && p.AllWithin(rs)
    ensures |CLOSING| <= |p.Tail(rs)| && p.Tail(rs)[|p.Tail(rs)| - |CLOSING|..] == CLOSING
  {
    if rs != [] {
      LastIsClosing(p, rs[1..]);
      TailStep(p, rs);
      EndOf(p.PartHead(rs[0]) + p.Body(rs[0]), p.Tail(rs[1..]), |CLOSING|);
    }
  }

  lemma EndOf(a: string, b: string, n: nat)
    requires n <= |b|
    ensures (a + b)[|a + b| - n..] == b[|b| - n..]
  {
  }

  lemma PayloadNonempty(p: Plan, rs: seq<Range>)
    requires p.Consistent(rs) && !p.isHead
    ensures p.Payload(rs) != []
  {
    assert |p.Body(rs[0])| > 0;
  }

  /** What parsing and fixing up a Range header leaves is a reply this module can send: ranges inside
      the file, and at most one of them unless the reply is a multipart one. */
  lemma FixedRangesAreServable(file: string, isHead: bool, parsed: seq<Range>, contentType: string)
    requires 0 < |file| <= INT_MAX && RangeSpecs.FixAll(parsed, |file|) != []
    ensures Plan(file, isHead, true, |parsed|, contentType).Consistent(RangeSpecs.FixAll(parsed, |file|))
  {
    RangeSpecs.FixedAreInside(parsed, |file|);
  }

  /** The reply is a multipart one exactly if more than one range was asked for, however many of them
      are left: a single survivor of several is framed as a multipart of one part. */
  lemma MultipartByCount(file: string, isHead: bool, parsed: seq<Range>, contentType: string, r: Range)
    requires 0 < |file| <= INT_MAX && RangeSpecs.FixAll(parsed, |file|) == [r]
    ensures var p := Plan(file, isHead, true, |parsed|, contentType);
            && p.Consistent([r]) && p.Within(r)
            && p.Payload([r]) == p.Body(r) + (if |parsed| > 1 then CLOSING else [])
            && (p.Payload([r]) == p.Body(r) <==> |parsed| <= 1)
  {
    FixedRangesAreServable(file, isHead, parsed, contentType);
    var p := Plan(file, isHead, true, |parsed|, contentType);
    assert [r][0] == r;
    OnePartPayload(p, r);
  }

  lemma OnePartPayload(p: Plan, r: Range)
    requires p.Consistent([r]) && p.Within(r)
    ensures p.Payload([r]) == p.Body(r) + (if p.Multi() then CLOSING else [])
    ensures p.Payload([r]) == p.Body(r) <==> !p.Multi()
  {
    assert [r][1..] == [];
    assert p.Tail([]) == if p.Multi() then CLOSING else [];
    hide Plan.Body;
    assert |p.Body(r) + CLOSING| > |p.Body(r)|;
  }

  /** Of two ranges asked of a one-byte file, one is left, and the reply is a multipart one. */
  lemma OneOfTwoIsMultipart(contentType: string)
    ensures var parsed := [RangeSpecs.Range(0, 0), RangeSpecs.Range(1, RangeSpecs.MARK)];
            && RangeSpecs.FixAll(parsed, 1) == [RangeSpecs.Range(0, 0)]
            && Plan("x", false, true, |parsed|, contentType).Payload([RangeSpecs.Range(0, 0)]) == "x" + CLOSING
  {
    var first, second := RangeSpecs.Range(0, 0), RangeSpecs.Range(1, RangeSpecs.MARK);
    assert [first, second][1..] == [second] && [second][1..] == [];
    assert RangeSpecs.FixOne(first, 1) == Some(first) && RangeSpecs.FixOne(second, 1) == None;
    assert RangeSpecs.FixAll([second], 1) == [];
    MultipartByCount("x", false, [first, second], contentType, first);
  }

  /** Without a Range header the default range is fixed up to the whole entity. */
  lemma DefaultRangeIsWhole(p: Plan)
    requires 0 < |p.file| <= INT_MAX && !p.Multi()
    ensures var whole := RangeSpecs.FixAll([RangeSpecs.Range(0, RangeSpecs.MARK)], |p.file|);
            p.Consistent(whole) && p.Payload(whole) == if p.isHead then [] else p.file
  {
    var x := RangeSpecs.Range(0, RangeSpecs.MARK);
    assert [x][1..] == [];
    assert RangeSpecs.FixOne(x, |p.file|) == Some(RangeSpecs.Range(0, |p.file| - 1));
    WholeEntity(p);
  }

  /** A request while its reply is being sent. */
  class Reply {
    const plan: Plan
    /** Everything the client is owed: header, then payload. */
    ghost const stream: string
    /** Whether every block finds room in the buffer. */
    ghost const roomy: bool
    const buffer: array<char>
    var bufferStart: int
    var bufferEnd: int
    var ranges: seq<Range>
    var dataOpen: bool
    var status: Status
    var bytesWritten: nat
    /** What the socket has accepted. */
    ghost var sent: string
    /** What is buffered and not yet accepted. */
    ghost var pending: string
    /** What is still to be put into the buffer. */
    ghost var owed: string
    /** Set when a block did not fit the output buffer. */
    ghost var overflowed: bool
    /** The turns given so far. */
    ghost var turns: nat

    /** The buffered bytes not yet sent are those between the two marks; an empty buffer is rewound. */
    ghost predicate InOrder()
      requires buffer.Length == BUFFER_SIZE
      reads `bufferStart, `bufferEnd, `pending, buffer
    {
      && 0 <= bufferStart <= bufferEnd <= BUFFER_SIZE
      && (bufferStart == bufferEnd ==> bufferEnd == 0)
      && pending == buffer[bufferStart..bufferEnd]
    }

    ghost predicate BufferOk()
      reads `bufferStart, `bufferEnd, `pending, `status, buffer
    {
      buffer.Length == BUFFER_SIZE && (status != Dead ==> InOrder())
    }

    /** The conservation law: accepted, buffered and outstanding bytes make up the reply. A reply
        given up, or one whose closing boundary did not fit, has sent a proper prefix. */
    ghost predicate Conserved()
      reads `bufferStart, `bufferEnd, `pending, `status, `sent, `owed, `overflowed, `bytesWritten, buffer
    {
      && BufferOk()
      && (status == Shuffling || (status == Done && !overflowed) ==> sent + pending + owed == stream)
      && (status == Done ==> owed == [])
      && (status == Done && overflowed ==> sent + pending <= stream && |sent| + |pending| < |stream|)
      && (status == Dead ==> sent <= stream && |sent| < |stream|)
      && bytesWritten <= |sent| && (status != Dead ==> bufferStart <= |sent|)
    }

    /** While ranges are being sent, what is outstanding is the payload of the ranges still listed. */
    ghost predicate Valid()
      reads `bufferStart, `bufferEnd, `pending, `status, `sent, `owed, `overflowed, `bytesWritten, `ranges, buffer
    {
      && Conserved()
      && (status == Shuffling ==> plan.Consistent(ranges) && owed == plan.Payload(ranges) && !overflowed)
      && (status == Shuffling && roomy ==> plan.Roomy(ranges[1..], |stream|))
      && (roomy ==> !overflowed)
    }

    /** The current range is used up and the next one is due. */
    ghost predicate RangeSent()
      reads `bufferStart, `bufferEnd, `pending, `status, `sent, `owed, `overflowed, `bytesWritten, `ranges, buffer
    {
      && Conserved() && status == Shuffling && !overflowed
      && ranges != [] && plan.AllWithin(ranges[1..]) && |plan.file| <= INT_MAX
      && (plan.Multi() || |ranges| == 1)
      && owed == plan.Tail(ranges[1..])
      && (roomy ==> plan.Roomy(ranges[1..], |stream|))
      && (!plan.isHead ==> bufferEnd <= BUFFER_SIZE - TRAILER_ROOM)
    }

    /** Outstanding bytes cost two moves, buffered ones one. */
    ghost function Work(): nat
      reads `owed, `pending
    {
      2 * |owed| + |pending|
    }

    /** What the read half asks of the file: the rest of the range, capped by the free buffer space. */
    ghost function Asked(): int
      requires ranges != []
      reads `ranges, `bufferEnd
    {
      Min(ranges[0].stop - ranges[0].start + 1, BUFFER_SIZE - bufferEnd - TRAILER_ROOM)
    }

    /** What it gets. */
    ghost function Taken(rd: Transfer): nat
      requires ranges != []
      reads `ranges, `bufferEnd, `dataOpen
    {
      if dataOpen && Asked() > 0 && rd.Moved? then Min(rd.n, Asked()) else 0
    }

    /** The only range of a GET is small, and the file hands it over in one read. */
    ghost predicate OneGulp(rd: Transfer)
      requires plan.Consistent(ranges)
      reads `ranges, `dataOpen
    {
      var want := ranges[0].stop - ranges[0].start + 1;
      !plan.isHead && !plan.Multi() && dataOpen && rd.Moved? && rd.n >= want && want <= BUFFER_SIZE - TRAILER_ROOM
    }

    /** A multipart HEAD whose client takes only part of what is buffered. */
    ghost predicate Trickling(first: Transfer)
      reads `status, `bufferEnd, `pending
    {
      plan.isHead && plan.Multi() && status == Shuffling && bufferEnd > 0 && first.Moved? && first.n < |pending|
    }

    /** The current range without its first k bytes. */
    static function Advance(rs: seq<Range>, k: nat): seq<Range>
      requires rs != []
    {
      [RangeSpecs.Range(rs[0].start + k, rs[0].stop)] + rs[1..]
    }

    /** A reply whose header lines `send_r_request_ok` or `send_r_partial_content` have buffered. */
    constructor (plan: Plan, header: string, ranges: seq<Range>)
      requires plan.Consistent(ranges)
      requires |header| <= BUFFER_SIZE
      ensures Valid() && fresh(buffer)
      ensures this.plan == plan && this.ranges == ranges && status == Shuffling
      ensures stream == header + plan.Payload(ranges) && roomy == plan.Roomy(ranges[1..], |stream|)
      ensures sent == [] && pending == header && dataOpen && !overflowed
    {
      this.plan := plan;
      this.stream := header + plan.Payload(ranges);
      this.roomy := plan.Roomy(ranges[1..], |header + plan.Payload(ranges)|);
      buffer := new char[BUFFER_SIZE](i => if 0 <= i < |header| then header[i] else '\0');
      bufferStart, bufferEnd := 0, |header|;
      this.ranges := ranges;
      dataOpen := true;
      status := Shuffling;
      bytesWritten := 0;
      sent := [];
      pending := header;
      owed := plan.Payload(ranges);
      overflowed := false;
      turns := 0;
      new;
      assert buffer[..|header|] == header;
      assert sent + pending == header;
    }

    /** How a write of msg leaves the buffer: appended, or the connection given up for lack of room. */
    ghost predicate Appended(st: Status, ov: bool, pend: string, end: int, msg: string)
      reads `status, `overflowed, `pending, `bufferEnd
    {
      && status == (if st != Dead && end + |msg| > BUFFER_SIZE then Dead else st)
      && overflowed == (ov || (st != Dead && status == Dead))
      && (status != Dead ==> pending == pend + msg && bufferEnd == end + |msg|)
    }

    /** Copies msg behind what is buffered. */
    method Append(msg: string)
      requires buffer.Length == BUFFER_SIZE && InOrder() && bufferEnd + |msg| <= BUFFER_SIZE && msg != []
      modifies `bufferEnd, `pending, buffer
      ensures InOrder()
      ensures pending == old(pending) + msg && bufferEnd == old(bufferEnd) + |msg|
    {
      forall i | 0 <= i < |msg| {
        buffer[bufferEnd + i] := msg[i];
      }
      bufferEnd := bufferEnd + |msg|;
      pending := pending + msg;
      assert buffer[bufferStart..bufferEnd] == pending;
    }

    /** The socket took the first k buffered bytes; a drained buffer is rewound. */
    method Consume(k: nat)
      requires buffer.Length == BUFFER_SIZE && InOrder() && k <= bufferEnd - bufferStart
      modifies `bufferStart, `bufferEnd, `pending, `sent
      ensures InOrder()
      ensures sent == old(sent) + old(pending)[..k] && pending == old(pending)[k..]
      ensures sent + pending == old(sent) + old(pending)
      ensures bufferEnd == if k == |old(pending)| then 0 else old(bufferEnd)
      ensures old(bufferStart) <= |old(sent)| ==> bufferStart <= |sent|
    {
      Rejoin(sent, pending, k);
      sent, pending := sent + pending[..k], pending[k..];
      bufferStart := bufferStart + k;
      assert buffer[bufferStart..bufferEnd] == pending;
      if bufferStart == bufferEnd {
        bufferStart, bufferEnd := 0, 0;
      }
    }

    /** `req_write`. */
    method ReqWrite(msg: string)
      requires BufferOk()
      modifies this, buffer
      ensures BufferOk()
      ensures unchanged(`ranges, `dataOpen, `bytesWritten, `sent, `owed, `bufferStart)
      ensures Appended(old(status), old(overflowed), old(pending), old(bufferEnd), msg)
      ensures old(status) != Dead ==> InOrder()
      ensures status == Dead ==> pending == old(pending)
    {
      if msg == [] || status == Dead {
        return;
      }
      if bufferEnd + |msg| > BUFFER_SIZE {
        status := Dead;
        overflowed := true;
        return;
      }
      Append(msg);
    }

    /** One more write behind those that have made up acc. */
    method WriteMore(msg: string, ghost st: Status, ghost ov: bool, ghost pend: string, ghost end: int,
                     ghost acc: string)
      returns (ghost more: string)
      requires BufferOk() && Appended(st, ov, pend, end, acc)
      modifies this, buffer
      ensures BufferOk() && more == acc + msg && Appended(st, ov, pend, end, more)
      ensures unchanged(`ranges, `dataOpen, `bytesWritten, `sent, `owed, `bufferStart)
    {
      ReqWrite(msg);
      Sequences.Assoc(pend, acc, msg);
      more := acc + msg;
    }

    lemma NothingAppended()
      requires BufferOk()
      ensures Appended(status, overflowed, pending, bufferEnd, [])
    {
      assert pending + [] == pending;
    }

    /** `print_content_range`. */
    method PrintContentRange(r: Range)
      requires BufferOk() && plan.Within(r) && |plan.file| <= INT_MAX
      modifies this, buffer
      ensures BufferOk()
      ensures unchanged(`ranges, `dataOpen, `bytesWritten, `sent, `owed, `bufferStart)
      ensures Appended(old(status), old(overflowed), old(pending), old(bufferEnd), plan.ContentRange(r))
    {
      hide Appended, BufferOk;
      ghost var st, ov, pend, end := status, overflowed, pending, bufferEnd;
      var from := SimpleItoa(r.start);
      var upto := SimpleItoa(r.stop);
      var total := SimpleItoa(|plan.file|);
      NothingAppended();
      ghost var acc := WriteMore("Content-Range: bytes ", st, ov, pend, end, []);
      assert acc == "Content-Range: bytes ";
      acc := WriteMore(from, st, ov, pend, end, acc);
      acc := WriteMore("-", st, ov, pend, end, acc);
      acc := WriteMore(upto, st, ov, pend, end, acc);
      acc := WriteMore("/", st, ov, pend, end, acc);
      acc := WriteMore(total, st, ov, pend, end, acc);
      acc := WriteMore(CRLF, st, ov, pend, end, acc);
    }

    /** `print_partial_content_continue`, then the blank line `complete_response` adds. */
    method PrintPartHead()
      requires BufferOk() && status != Dead && ranges != []
      requires plan.Within(ranges[0]) && |plan.file| <= INT_MAX
      modifies this, buffer
      ensures BufferOk()
      ensures unchanged(`ranges, `dataOpen, `bytesWritten, `sent, `owed, `bufferStart)
      ensures Appended(old(status), old(overflowed), old(pending), old(bufferEnd), plan.PartHead(ranges[0]))
    {
      ghost var st, ov, pend, end := status, overflowed, pending, bufferEnd;
      NothingAppended();
      ghost var acc := [];
      if plan.numranges > 1 {
        acc := WriteMore(SEPARATOR, st, ov, pend, end, acc);
        assert [] + SEPARATOR == SEPARATOR;
      }
      acc := WriteMore(plan.contentType, st, ov, pend, end, acc);
      PrintContentRange(ranges[0]);
      Sequences.Assoc(pend, acc, plan.ContentRange(ranges[0]));
      acc := acc + plan.ContentRange(ranges[0]);
      acc := WriteMore(CRLF, st, ov, pend, end, acc);
    }

    /** `req_flush` of an unfiltered request: -2 for an error, -1 when blocked, otherwise the new
        end of the buffer. Any failed `write` that is not a block drops the buffer. */
    method ReqFlush(w: Transfer) returns (r: int)
      requires Conserved()
      modifies `status, `sent, `pending, `bufferStart, `bufferEnd
      ensures Conserved()
      ensures r == if old(status) == Dead || (old(bufferEnd) > 0 && w.Failed?) then -2
                   else if old(bufferEnd) > 0 && w.WouldBlock? then -1
                   else if old(bufferEnd) > 0 && w.n >= |old(pending)| then 0
                   else old(bufferEnd)
      ensures r >= 0 ==> status == old(status) && r == bufferEnd
      ensures r >= 0 ==> sent + pending == old(sent) + old(pending)
      ensures r >= 0 ==> var k := if old(bufferEnd) == 0 then 0 else Min(w.n, |old(pending)|);
                         sent == old(sent) + old(pending)[..k] && pending == old(pending)[k..]
      ensures r == -1 ==> unchanged(this)
      ensures r == -2 ==> status == Dead && sent == old(sent) && pending == old(pending)
      ensures old(sent) <= sent
    {
      if status == Dead {
        return -2;
      }
      var bytesToWrite := bufferEnd - bufferStart;
      if bytesToWrite != 0 {
        match w {
          case WouldBlock => return -1;
          case Failed =>
            assert stream[..|sent|] == sent;
            bufferStart, bufferEnd := 0, 0;
            status := Dead;
            return -2;
          case Moved(n) =>
            Consume(if n < bytesToWrite then n else bytesToWrite);
        }
      }
      return bufferEnd;
    }

    /** `complete_response`: leaves the range just finished and opens the next part, or ends the
        reply. Closing a multipart reply sets DONE even when the closing boundary did not fit. */
    method CompleteResponse(w: Transfer) returns (retval: int)
      requires RangeSent()
      modifies this, buffer
      ensures Valid() && old(sent) <= sent && dataOpen == old(dataOpen) && bytesWritten == old(bytesWritten)
      ensures 0 <= retval <= 1 && ranges == old(ranges)[1..]
      ensures retval == 0 ==> status == Done
      ensures status != Dead ==> |pending| + |owed| <= old(|pending| + |owed|) && |owed| <= old(|owed|)
      ensures status != Dead && retval != 0 ==> |owed| < old(|owed|)
      ensures status == Dead ==> (overflowed && !roomy) || w.Failed?
      ensures !plan.Multi() ==>
                && retval == 0 && status == Done
                && unchanged(`pending, `sent, `bufferStart, `bufferEnd, `overflowed, buffer)
      ensures plan.Multi() && ranges != [] ==>
                && retval == 1 && sent == old(sent) && bufferStart == old(bufferStart)
                && Appended(Shuffling, false, old(pending), old(bufferEnd), plan.PartHead(ranges[0]))
      ensures plan.Multi() && ranges == [] ==>
                && retval == 1 && (status == Done || w.Failed?)
                && (overflowed <==> old(bufferEnd) + |CLOSING| > BUFFER_SIZE)
    {
      hide Conserved, RangeSent, Plan.Roomy;
      DropRange();
      if plan.Multi() {
        if ranges != [] {
          RoomForPart();
          OpenPart();
          retval := 1;
        } else {
          RoomForClosing();
          CloseMultipart(CLOSING, w);
          retval := 1;
        }
      } else {
        Finish();
        retval := 0;
      }
    }

    /** Pushes the finished range off the list. */
    method DropRange()
      requires RangeSent()
      modifies `ranges
      ensures Conserved() && status == Shuffling && !overflowed
      ensures ranges == old(ranges)[1..] && plan.AllWithin(ranges) && owed == plan.Tail(ranges)
      ensures |plan.file| <= INT_MAX && (plan.Multi() || ranges == [])
      ensures roomy ==> plan.Roomy(ranges, |stream|)
      ensures !plan.isHead ==> bufferEnd <= BUFFER_SIZE - TRAILER_ROOM
    {
      ranges := ranges[1..];
    }

    /** The only range was sent. */
    method Finish()
      requires Conserved() && status == Shuffling && !overflowed && owed == []
      modifies `status
      ensures Valid() && status == Done
    {
      status := Done;
    }

    /** Why the next part's head finds room in a roomy reply. */
    lemma RoomForPart()
      requires Conserved() && status == Shuffling && plan.Multi() && plan.Consistent(ranges)
      requires owed == plan.Tail(ranges)
      requires roomy ==> plan.Roomy(ranges, |stream|)
      requires !plan.isHead ==> bufferEnd <= BUFFER_SIZE - TRAILER_ROOM
      ensures roomy ==> bufferEnd + |plan.PartHead(ranges[0])| <= BUFFER_SIZE
      ensures roomy ==> plan.Roomy(ranges[1..], |stream|)
    {
      TailStep(plan, ranges);
      assert bufferEnd <= |sent| + |pending| && |stream| == |sent| + |pending| + |owed|;
      assert |owed| == |plan.PartHead(ranges[0])| + |plan.Payload(ranges)|;
    }

    lemma RoomForClosing()
      requires Conserved() && status == Shuffling && plan.Multi() && owed == CLOSING
      requires roomy ==> plan.Roomy([], |stream|)
      requires !plan.isHead ==> bufferEnd <= BUFFER_SIZE - TRAILER_ROOM
      ensures roomy ==> bufferEnd + |CLOSING| <= BUFFER_SIZE
    {
      assert |CLOSING| <= TRAILER_ROOM;
      assert bufferEnd <= |sent| + |pending| && |stream| == |sent| + |pending| + |owed|;
    }

    /** The next part's head goes out; its body is owed. */
    method OpenPart()
      requires Conserved() && status == Shuffling && !overflowed
      requires plan.Multi() && plan.Consistent(ranges) && owed == plan.Tail(ranges)
      requires roomy ==> plan.Roomy(ranges[1..], |stream|) && bufferEnd + |plan.PartHead(ranges[0])| <= BUFFER_SIZE
      modifies this, buffer
      ensures Valid()
      ensures unchanged(`ranges, `dataOpen, `bytesWritten, `sent, `bufferStart)
      ensures Appended(Shuffling, false, old(pending), old(bufferEnd), plan.PartHead(ranges[0]))
      ensures status != Dead ==> |owed| < old(|owed|)
      ensures status != Dead ==> |pending| + |owed| <= old(|pending| + |owed|) && |owed| <= old(|owed|)
      ensures status == Dead ==> overflowed
    {
      hide InOrder;
      ghost var part := plan.PartHead(ranges[0]);
      ghost var rest := plan.Payload(ranges);
      assert owed == part + rest by {
        Sequences.Assoc(part, plan.Body(ranges[0]), plan.Tail(ranges[1..]));
      }
      PrintPartHead();
      if status != Dead {
        Sequences.Regroup(sent, old(pending), part, rest);
        owed := rest;
      } else {
        assert stream[..|sent|] == sent;
      }
    }

    /** The closing boundary goes out and the reply is declared done, whether or not it fitted. */
    method CloseMultipart(closing: string, w: Transfer)
      requires Conserved() && status == Shuffling && !overflowed && owed == closing
      modifies this, buffer
      ensures Conserved() && old(sent) <= sent
      ensures unchanged(`dataOpen, `bytesWritten, `ranges)
      ensures status == Done || (status == Dead && w.Failed?)
      ensures overflowed <==> old(bufferEnd) + |closing| > BUFFER_SIZE
      ensures status != Dead ==> |pending| + |owed| <= old(|pending| + |owed|) && owed == []
    {
      ReqWrite(closing);
      owed := [];
      status := Done;
      assert overflowed ==> stream[..|sent + pending|] == sent + pending;
      var i := ReqFlush(w);
    }

    /** `io_shuffle`: -1 blocked, 0 finished or failed, 1 more to do. `rd` is the outcome of the
        `read` of the file, `wr` that of the `write`, `fl` that of the flush closing a multipart. */
    method IoShuffle(rd: Transfer, wr: Transfer, fl: Transfer) returns (retval: int)
      requires Valid() && status == Shuffling
      modifies this, buffer
      ensures Valid() && old(sent) <= sent
      ensures -1 <= retval <= 1
      ensures retval == 0 && status == Shuffling ==> bufferEnd == 0 && !dataOpen && owed != []
      ensures Willing(rd) && Willing(wr) && Willing(fl) && roomy ==>
                status != Dead && retval != -1
                && (old(dataOpen) ==> dataOpen && ((plan.isHead && retval == 0) || Work() < old(Work())))
      ensures plan.isHead ==> ranges == old(ranges)[1..]
      ensures plan.isHead && !plan.Multi() ==> retval == 0 && status == Done && unchanged(`pending, `sent, `bufferEnd)
      ensures plan.isHead && plan.Multi() && |old(ranges)| > 1 ==>
                && retval == 1 && sent == old(sent)
                && Appended(Shuffling, false, old(pending), old(bufferEnd), plan.PartHead(ranges[0]))
      ensures plan.isHead && plan.Multi() && |old(ranges)| == 1 ==>
                && retval == 1 && (status == Done || fl.Failed?)
                && (overflowed <==> old(bufferEnd) + |CLOSING| > BUFFER_SIZE)
      ensures old(bufferEnd == 0 && OneGulp(rd)) ==>
                retval == 0 && status == Done && pending == old(plan.Body(ranges[0])) && sent == old(sent)
    {
      hide InOrder;
      if plan.isHead {
        retval := CompleteResponse(fl);
        return;
      }
      retval := Pump(rd, wr, fl);
    }

    /** `io_shuffle` for a GET. */
    method Pump(rd: Transfer, wr: Transfer, fl: Transfer) returns (retval: int)
      requires Valid() && status == Shuffling && !plan.isHead
      modifies this, buffer
      ensures Valid() && old(sent) <= sent
      ensures -1 <= retval <= 1
      ensures retval == 0 && status == Shuffling ==> bufferEnd == 0 && !dataOpen && owed != []
      ensures Willing(rd) && Willing(wr) && Willing(fl) && roomy ==>
                status != Dead && retval != -1 && (old(dataOpen) ==> dataOpen && Work() < old(Work()))
      ensures old(bufferEnd == 0 && OneGulp(rd)) ==>
                retval == 0 && status == Done && pending == old(plan.Body(ranges[0])) && sent == old(sent)
    {
      Progress(rd);
      hide Conserved, Valid, RangeSent, OneGulp, Taken, Asked, Plan.Consistent, Plan.Body, Plan.Piece, Plan.Roomy;
      var fill, taken := ReadHalf(rd);
      retval := GoOn(fill, wr, fl);
    }

    /** What `io_shuffle` does after its read half: leave, turn to the next range, or write. */
    method GoOn(fill: Fill, wr: Transfer, fl: Transfer) returns (retval: int)
      requires !plan.isHead
      requires if fill == RangeDone then RangeSent() else Valid() && (fill == Broken || owed != [])
      requires status == if fill == Broken then Dead else Shuffling
      modifies this, buffer
      ensures Valid() && old(sent) <= sent && dataOpen == old(dataOpen)
      ensures -1 <= retval <= 1
      ensures retval == 0 && status == Shuffling ==> bufferEnd == 0 && !dataOpen && owed != []
      ensures fill == Starved ==> retval == -1 && unchanged(this)
      ensures fill == Broken ==> retval == 0 && unchanged(this)
      ensures fill == RangeDone && !plan.Multi() ==>
                retval == 0 && status == Done && pending == old(pending) && sent == old(sent)
      ensures (fill == RangeDone || fill == Proceed) && Willing(wr) && Willing(fl) && roomy ==>
                && status != Dead && retval != -1 && Work() <= old(Work())
                && (fill == Proceed && dataOpen && old(pending) != [] ==> Work() < old(Work()))
    {
      hide Conserved, Valid, RangeSent, Plan.Roomy, Plan.Consistent, Appended;
      match fill {
        case Starved => retval := -1;
        case Broken => retval := 0;
        case RangeDone => retval := CompleteResponse(fl);
        case Proceed => retval := Drain(wr);
      }
    }

    /** A file that keeps its bytes moves the reply on, or there is something to write. */
    lemma Progress(rd: Transfer)
      requires Valid() && status == Shuffling && !plan.isHead
      ensures plan.Consistent(ranges) && 0 <= Taken(rd)
      ensures Taken(rd) == ranges[0].stop - ranges[0].start + 1 ==> Taken(rd) > 0
      ensures Willing(rd) && dataOpen ==> Taken(rd) > 0 || pending != []
      ensures bufferEnd == 0 && OneGulp(rd) ==>
                && !plan.Multi() && Taken(rd) == ranges[0].stop - ranges[0].start + 1
                && pending + plan.Piece(ranges[0], Taken(rd)) == plan.Body(ranges[0])
    {
      NothingTaken();
    }

    /** The read half of `io_shuffle`: at most what the current range and the buffer allow. */
    method ReadHalf(rd: Transfer) returns (fill: Fill, ghost k: nat)
      requires Valid() && status == Shuffling && !plan.isHead
      modifies `status, `bufferEnd, `pending, `owed, `ranges, `dataOpen, buffer
      ensures k == old(Taken(rd)) <= old(ranges[0].stop - ranges[0].start + 1)
      ensures pending == old(pending) + plan.Piece(old(ranges)[0], k)
      ensures |pending| == old(|pending|) + k && |owed| == old(|owed|) - k && bufferEnd == old(bufferEnd) + k
      ensures ranges == if k == 0 then old(ranges) else Advance(old(ranges), k)
      ensures dataOpen == old(dataOpen && !(Asked() > 0 && rd == Moved(0)))
      ensures fill == Broken <==> old(dataOpen && Asked() > 0) && rd.Failed?
      ensures fill == Starved <==> old(dataOpen && Asked() > 0 && pending == []) && rd.WouldBlock?
      ensures fill == RangeDone <==> k == old(ranges[0].stop - ranges[0].start + 1)
      ensures status == if fill == Broken then Dead else Shuffling
      ensures fill == RangeDone ==> RangeSent()
      ensures fill != RangeDone ==> Valid() && (fill == Broken || owed != [])
      ensures sent == old(sent)
    {
      NothingTaken();
      hide Conserved, Valid, RangeSent, Plan.Piece;
      var want := ranges[0].stop - ranges[0].start + 1;
      var bytesToRead := BUFFER_SIZE - bufferEnd - TRAILER_ROOM;
      if bytesToRead > want {
        bytesToRead := want;
      }
      k := 0;
      assert bytesToRead == Asked();
      if bytesToRead > 0 && dataOpen {
        match rd {
          case WouldBlock =>
            if bufferEnd - bufferStart == 0 {
              return Starved, 0;
            }
          case Failed =>
            GiveUp();
            return Broken, 0;
          case Moved(n) =>
            if n == 0 {
              CloseFile();
            } else {
              k := Min(n, bytesToRead);
              var ended := TakeBytes(Min(n, bytesToRead));
              if ended {
                return RangeDone, k;
              }
            }
        }
      }
      return Proceed, k;
    }

    /** Where a turn of the read half starts from. */
    lemma NothingTaken()
      requires Valid() && status == Shuffling && !plan.isHead
      ensures Conserved() && plan.Consistent(ranges) && |pending| == bufferEnd - bufferStart && owed != []
      ensures pending == [] ==> bufferEnd == 0 && Asked() > 0
      ensures bufferEnd == 0 ==> pending == []
      ensures pending + plan.Piece(ranges[0], 0) == pending
    {
      PayloadNonempty(plan, ranges);
    }

    /** The file ended early. */
    method CloseFile()
      requires Valid() && status == Shuffling
      modifies `dataOpen
      ensures Valid() && !dataOpen
    {
      dataOpen := false;
    }

    /** An I/O error ends the reply. */
    method GiveUp()
      requires Valid() && status == Shuffling && owed != []
      modifies `status
      ensures Valid() && status == Dead
    {
      status := Dead;
      assert stream[..|sent|] == sent;
    }

    /** The next k bytes of the current range are read. */
    method TakeBytes(k: nat) returns (ended: bool)
      requires Valid() && status == Shuffling && !plan.isHead
      requires 0 < k <= ranges[0].stop - ranges[0].start + 1 && bufferEnd + k <= BUFFER_SIZE - TRAILER_ROOM
      modifies `bufferEnd, `pending, `owed, `ranges, buffer
      ensures Conserved() && bufferEnd == old(bufferEnd) + k
      ensures pending == old(pending) + plan.Piece(old(ranges)[0], k)
      ensures ranges == Advance(old(ranges), k) && ranges[1..] == old(ranges)[1..]
      ensures |pending| == old(|pending|) + k && |owed| == old(|owed|) - k
      ensures ended <==> k == old(ranges[0].stop - ranges[0].start + 1)
      ensures ended ==> RangeSent()
      ensures !ended ==> Valid() && owed != []
    {
      ghost var rest := SplitPayload(plan, ranges, k);
      PieceLength(k);
      hide Plan.Piece, Plan.Payload, Plan.Tail, Conserved, Plan.Consistent;
      Refill(plan.Piece(ranges[0], k), rest);
      ended := ranges[0].stop + 1 - ranges[0].start == 0;
      if !ended {
        PayloadNonempty(plan, ranges);
      }
    }

    lemma PieceLength(k: nat)
      requires plan.Consistent(ranges) && k <= ranges[0].stop - ranges[0].start + 1
      ensures |plan.Piece(ranges[0], k)| == k
    {
    }

    /** A chunk of what is owed enters the buffer; the current range starts behind it. */
    method Refill(chunk: string, ghost rest: string)
      requires Conserved() && status == Shuffling && ranges != []
      requires owed == chunk + rest && chunk != [] && bufferEnd + |chunk| <= BUFFER_SIZE
      modifies `bufferEnd, `pending, `owed, `ranges, buffer
      ensures Conserved() && bufferEnd == old(bufferEnd) + |chunk| && bufferEnd > bufferStart
      ensures owed == rest && pending == old(pending) + chunk
      ensures ranges == Advance(old(ranges), |chunk|)
    {
      Sequences.Regroup(sent, pending, chunk, rest);
      Append(chunk);
      owed := rest;
      ranges := Advance(ranges, |chunk|);
    }

    /** The write half of `io_shuffle`. */
    method Drain(wr: Transfer) returns (retval: int)
      requires Valid() && status == Shuffling && owed != []
      modifies `status, `sent, `pending, `bufferStart, `bufferEnd, `bytesWritten
      ensures Valid() && old(sent) <= sent
      ensures -1 <= retval <= 1
      ensures retval == if old(pending) == [] then if dataOpen then 1 else 0
                        else if wr.Moved? then 1 else if wr.Failed? then 0 else -1
      ensures status == if old(pending) != [] && wr.Failed? then Dead else Shuffling
      ensures var k := if wr.Moved? then Min(wr.n, |old(pending)|) else 0;
              && sent == old(sent) + old(pending)[..k] && pending == old(pending)[k..]
              && bytesWritten == old(bytesWritten) + k
      ensures status != Dead && pending == [] ==> bufferEnd == 0
    {
      var bytesToWrite := bufferEnd - bufferStart;
      if bytesToWrite == 0 {
        if !dataOpen {
          return 0;
        }
        bufferStart, bufferEnd := 0, 0;
        return 1;
      }
      match wr {
        case WouldBlock => return -1;
        case Failed =>
          GiveUp();
          return 0;
        case Moved(n) =>
          var k := if n < bytesToWrite then n else bytesToWrite;
          Consume(k);
          bytesWritten := bytesWritten + k;
          return 1;
      }
    }

    /** One turn of `process_requests`: -1 blocked, 0 complete, 1 more to do. What is buffered goes
        out first; only then does the switch on the status run. */
    method Turn(io: Io) returns (retval: int)
      requires Valid()
      modifies this, buffer
      ensures Valid() && old(sent) <= sent
      ensures -1 <= retval <= 1 && turns == old(turns) + 1
      ensures retval == 0 && status == Shuffling ==> bufferEnd == 0 && !dataOpen && owed != []
      ensures io.AllWilling() && roomy && old(dataOpen) && old(status) != Dead ==>
                dataOpen && status != Dead && retval != -1
                && (retval == 0 || Work() < old(Work()))
      ensures old(Trickling(io.first)) ==> ranges == old(ranges)[1..] && retval == 1
      ensures old(Trickling(io.first) && |ranges| > 1) ==>
                && sent == old(sent + pending[..io.first.n])
                && Appended(Shuffling, false, old(pending[io.first.n..]), old(bufferEnd), plan.PartHead(ranges[0]))
      ensures old(Trickling(io.first) && |ranges| == 1) ==>
                && (status == Done || io.closing.Failed?)
                && (overflowed <==> old(bufferEnd) + |CLOSING| > BUFFER_SIZE)
      ensures old(status == Shuffling && OneGulp(io.rd) && pending != []) && io.first.Moved?
              && io.first.n >= old(|pending|) ==>
                retval == 0 && status == Done && sent == old(sent + pending) && pending == old(plan.Body(ranges[0]))
    {
      hide Conserved, Plan.Consistent, BufferOk, OneGulp, Plan.Body;
      if status == Shuffling {
        Buffered();
        assert pending[..|pending|] == pending;
      }
      retval := FlushFirst(io.first);
      if retval == 1 {
        retval := Handle(io);
      }
      turns := old(turns) + 1;
    }

    /** The flush before the switch, where a block alone holds a request back. */
    method FlushFirst(first: Transfer) returns (retval: int)
      requires Valid()
      modifies `status, `sent, `pending, `bufferStart, `bufferEnd
      ensures Valid() && old(sent) <= sent
      ensures retval == if old(status == Dead || bufferEnd == 0) || first.Moved? then 1
                        else if first.Failed? then 0 else -1
      ensures retval == 0 <==> status == Dead && old(status) != Dead
      ensures status != Dead ==> status == old(status)
      ensures retval == -1 ==> unchanged(this)
      ensures old(status == Dead) ==> unchanged(this)
      ensures retval == 1 && old(status != Dead && bufferEnd != 0) ==>
                var k := Min(first.n, |old(pending)|);
                && sent == old(sent) + old(pending)[..k] && pending == old(pending)[k..]
                && bufferEnd == if k == |old(pending)| then 0 else old(bufferEnd)
      ensures old(status != Dead && bufferEnd == 0) ==> unchanged(this)
    {
      retval := 1;
      if bufferEnd != 0 && status != Dead {
        retval := ReqFlush(first);
        if retval == -2 {
          status := Dead;
          retval := 0;
        } else if retval >= 0 {
          retval := 1;
        }
      }
    }

    /** The switch on the status. */
    method Handle(io: Io) returns (retval: int)
      requires Valid()
      modifies this, buffer
      ensures Valid() && old(sent) <= sent
      ensures -1 <= retval <= 1
      ensures retval == 0 && status == Shuffling ==> bufferEnd == 0 && !dataOpen && owed != []
      ensures io.AllWilling() && roomy && old(dataOpen && status != Dead) ==>
                dataOpen && status != Dead && retval != -1 && (retval == 0 || Work() < old(Work()))
      ensures old(plan.isHead && plan.Multi() && status == Shuffling) ==> ranges == old(ranges)[1..] && retval == 1
      ensures old(plan.isHead && plan.Multi() && status == Shuffling && |ranges| > 1) ==>
                && sent == old(sent)
                && Appended(Shuffling, false, old(pending), old(bufferEnd), plan.PartHead(ranges[0]))
      ensures old(plan.isHead && plan.Multi() && status == Shuffling && |ranges| == 1) ==>
                && (status == Done || io.closing.Failed?)
                && (overflowed <==> old(bufferEnd) + |CLOSING| > BUFFER_SIZE)
      ensures old(status == Shuffling && bufferEnd == 0 && OneGulp(io.rd)) ==>
                retval == 0 && status == Done && sent == old(sent) && pending == old(plan.Body(ranges[0]))
    {
      match status {
        case Shuffling => retval := IoShuffle(io.rd, io.wr, io.closing);
        case Done =>
          retval := ReqFlush(io.last);
          if retval == -2 {
            retval := 0;
          } else if retval > 0 {
            retval := 1;
          }
        case Dead =>
          retval := 0;
          bufferEnd := 0;
      }
    }

    /** The part of `free_request` that decides whether the connection is let go: a last flush that
        leaves bytes behind keeps the request, but one that reports a block does not. Which of the
        two it is, and whether the reply is then whole, is decided before the call. */
    method FreeRequest(fl: Transfer) returns (released: bool)
      requires Valid() && (status == Shuffling ==> bufferEnd == 0 && owed != [])
      modifies `status, `sent, `pending, `bufferStart, `bufferEnd
      ensures Valid() && old(sent) <= sent && dataOpen == old(dataOpen)
      ensures released <==> !(old(status == Done && bufferEnd > 0) && fl.Moved? && fl.n < |old(pending)|)
      ensures released ==> (sent == stream <==> old(status == Done && !overflowed)
                                                && (old(bufferEnd) == 0 || (fl.Moved? && fl.n >= |old(pending)|)))
      ensures released ==> (sent == stream <==> status == Done && bufferEnd == 0 && !overflowed)
      ensures old(status == Done && bufferEnd > 0) && fl.WouldBlock? ==> released && |sent| < |stream|
      ensures fl.WouldBlock? ==> sent == old(sent)
      ensures !released ==> status == Done && bufferEnd > 0
      ensures !released && Willing(fl) ==> |pending| < old(|pending|)
      ensures Work() <= old(Work())
      ensures fl.Moved? && old(status) == Done ==> status == Done
      ensures fl.Moved? && released && old(status) == Done ==> bufferEnd == 0
      ensures old(status) == Shuffling ==> released && unchanged(this)
    {
      if bufferEnd != 0 && status != Dead {
        status := Done;
        var i := ReqFlush(fl);
        if i == -2 {
          status := Dead;
        } else if i > 0 {
          return false;
        }
      }
      return true;
    }

    /** Any number of turns against any schedule of short reads, short writes, blocks and failures.
        What the client has is always a prefix of the reply; once the request is released it is the
        whole reply exactly if the reply ended DONE with nothing buffered and no block left out. */
    method Serve(script: seq<Io>) returns (released: bool)
      requires Valid()
      modifies this, buffer
      ensures Valid() && old(sent) <= sent <= stream
      ensures turns <= old(turns) + |script| && (!released ==> turns == old(turns) + |script|)
      ensures released ==> (sent == stream <==> status == Done && bufferEnd == 0 && !overflowed)
      ensures released && roomy ==> (sent == stream <==> status == Done && bufferEnd == 0)
    {
      released := false;
      var i := 0;
      while i < |script| && !released
        invariant 0 <= i <= |script| && turns == old(turns) + i
        invariant Valid() && old(sent) <= sent
        invariant released ==> (sent == stream <==> status == Done && bufferEnd == 0 && !overflowed)
      {
        var retval := Turn(script[i]);
        if retval == 0 {
          released := FreeRequest(script[i].free);
        }
        i := i + 1;
      }
      SentIsPrefix();
    }

    lemma Buffered()
      requires Valid() && status == Shuffling
      ensures bufferEnd == bufferStart + |pending| && (pending != [] ==> bufferEnd > 0)
      ensures sent == [] ==> sent + pending == pending
    {
    }

    lemma SentIsPrefix()
      requires Conserved()
      ensures sent <= stream
    {
      assert stream[..|sent|] == sent;
    }

    /** A client that keeps accepting and a file that keeps its bytes always get the whole reply. */
    method ServeWilling(script: nat -> Io)
      requires Valid() && status == Shuffling && dataOpen && roomy
      requires forall i :: script(i).AllWilling()
      modifies this, buffer
      ensures status == Done && sent == stream
    {
      var released := false;
      var i := 0;
      while !released
        invariant Valid() && dataOpen && status != Dead
        invariant released ==> status == Done && bufferEnd == 0
        decreases !released, Work()
      {
        var retval := Turn(script(i));
        if retval == 0 {
          released := FreeRequest(script(i).free);
        }
        i := i + 1;
      }
    }
  }

  /** A client that takes the header and then lets the socket block: the file fits the buffer, so the
      reply is declared done, and the one flush of `free_request` that is left reports the block. The
      connection is let go with the header sent and none of the body. */
  method Truncated(reply: Reply, io: Io) returns (released: bool)
    requires reply.Valid() && reply.status == Shuffling && reply.sent == [] && reply.pending != []
    requires reply.OneGulp(io.rd)
    requires io.first.Moved? && io.first.n >= |reply.pending| && io.free.WouldBlock?
    modifies reply, reply.buffer
    ensures released && reply.sent == old(reply.pending) && |reply.sent| < |reply.stream|
  {
    reply.Buffered();
    var retval := reply.Turn(io);
    assert retval == 0;
    released := reply.FreeRequest(io.free);
  }

  /** Such a reply is the one to a GET for a file of two bytes. */
  method TruncatedReply() returns (reply: Reply, released: bool)
    ensures released && fresh(reply)
    ensures reply.stream == "HTTP/1.0 200 OK\r\n\r\n" + "ab" && reply.sent == "HTTP/1.0 200 OK\r\n\r\n"
  {
    var plan := Plan("ab", false, false, 0, []);
    var header := "HTTP/1.0 200 OK\r\n\r\n";
    WholeEntity(plan);
    reply := new Reply(plan, header, [RangeSpecs.Range(0, 1)]);
    released := Truncated(reply, Io(Moved(19), Moved(2), WouldBlock, WouldBlock, WouldBlock, WouldBlock));
  }

  /** A client of a multipart HEAD that takes at most a byte a turn never gets a reply longer than
      the buffer: what does not fit is lost. It is the closing boundary, with the reply declared done
      all the same, exactly if everything before it fits. */
  method Crawl(reply: Reply, script: seq<Io>)
    requires reply.Valid() && reply.status == Shuffling && reply.plan.isHead && reply.plan.Multi()
    requires reply.sent == [] && reply.bufferStart == 0 && |reply.pending| > 1
    requires |reply.stream| > BUFFER_SIZE
    requires |script| == |reply.ranges|
    requires forall i :: 0 <= i < |script| ==>
               script[i].first.Moved? && script[i].first.n <= 1 && !script[i].closing.Failed?
    modifies reply, reply.buffer
    ensures reply.Valid() && reply.overflowed && |reply.sent| < |reply.stream|
    ensures reply.status == if |reply.stream| <= BUFFER_SIZE + |CLOSING| then Done else Dead
    ensures reply.status == Done ==> |reply.sent| + |reply.pending| < |reply.stream|
  {
    var i := 0;
    reply.Buffered();
    while i < |script| - 1 && reply.status == Shuffling
      invariant 0 <= i <= |script| - 1 && reply.Valid()
      invariant reply.status == Shuffling ==>
                  && |reply.ranges| == |script| - i && |reply.pending| > 1
                  && reply.bufferEnd == |reply.sent| + |reply.pending|
      invariant reply.status != Shuffling ==>
                  reply.status == Dead && reply.overflowed && |reply.stream| > BUFFER_SIZE + |CLOSING|
    {
      BeforeLast(reply);
      var retval := reply.Turn(script[i]);
      i := i + 1;
    }
    if reply.status == Shuffling {
      OnlyClosing(reply);
      var retval := reply.Turn(script[i]);
    }
  }

  /** Up to the last range, the next part's head leaves room for at least the closing boundary. */
  lemma BeforeLast(reply: Reply)
    requires reply.Valid() && reply.status == Shuffling && reply.plan.isHead && reply.plan.Multi()
    requires |reply.ranges| > 1 && reply.bufferEnd == |reply.sent| + |reply.pending|
    ensures var part := reply.plan.PartHead(reply.ranges[1]);
            reply.bufferEnd + |part| + |CLOSING| <= |reply.stream| && |part| > 1
  {
    var p, rest := reply.plan, reply.ranges[1..];
    TailStep(p, rest);
    LastIsClosing(p, rest[1..]);
  }

  lemma OnlyClosing(reply: Reply)
    requires reply.Valid() && reply.status == Shuffling && reply.plan.isHead && reply.plan.Multi()
    requires |reply.ranges| == 1 && reply.bufferEnd == |reply.sent| + |reply.pending|
    ensures reply.bufferEnd + |CLOSING| == |reply.stream| && reply.bufferEnd <= BUFFER_SIZE
  {
  }

  /** Forty-eight ranges over a file of one byte make such a reply, for any header of usual length. */
  method LostBoundary(header: string, script: seq<Io>) returns (reply: Reply)
    requires 166 < |header| <= 195 && |script| == 48
    requires forall i :: 0 <= i < |script| ==>
               script[i].first.Moved? && script[i].first.n <= 1 && !script[i].closing.Failed?
    ensures fresh(reply) && reply.status == Done && |reply.sent| + |reply.pending| < |reply.stream|
  {
    var plan := Plan("x", true, true, 48, "Content-Type: text/plain\r\n");
    var ranges := seq(48, i => RangeSpecs.Range(0, 0));
    AlikeTail(plan, ranges[1..]);
    reply := new Reply(plan, header, ranges);
    Crawl(reply, script);
  }

  lemma {:induction false} AlikeTail(p: Plan, rs: seq<Range>)
    requires p.Multi() && p.isHead && p.AllWithin(rs)
    requires forall i :: 0 <= i < |rs| ==> rs[i] == RangeSpecs.Range(0, 0)
    ensures |p.Tail(rs)| == |rs| * |p.PartHead(RangeSpecs.Range(0, 0))| + |CLOSING|
  {
    if rs != [] {
      AlikeTail(p, rs[1..]);
      TailStep(p, rs);
    }
  }

  function Min(a: int, b: int): int {
    if a < b then a else b
  }

  lemma Rejoin(a: string, b: string, k: nat)
    requires k <= |b|
    ensures a + b[..k] + b[k..] == a + b
  {
  }

}
