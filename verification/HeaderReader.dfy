/** The incremental header scanner of src/read.c and the keep-alive compaction of src/request.c: a
    state machine that persists across reads and terminates lines inside the receive buffer. */
module HeaderReader {
  import opened HeaderFates
  import opened HeaderLines
  import Sequences

  const CLIENT_STREAM_SIZE := 8192

  datatype Status = InLine | OneCr | OneLf | TwoCr | BodyRead

  /** One transition of the scanner. */
  function Next(s: Status, c: char): Status {
    match s
    case InLine => if c == '\r' then OneCr else if c == '\n' then OneLf else InLine
    case OneCr => if c == '\n' then OneLf else if c == '\r' then OneCr else InLine
    case OneLf => if c == '\r' then TwoCr else if c == '\n' then BodyRead else InLine
    case TwoCr => if c == '\n' then BodyRead else if c == '\r' then TwoCr else InLine
    case BodyRead => BodyRead
  }

  /** The state the bytes of an unfinished line call for. */
  function StatusOf(first: bool, cur: string): Status {
    if cur == [] then (if first then InLine else OneLf)
    else if !first && AllCr(cur) then TwoCr
    else if cur[|cur| - 1] == '\r' then OneCr
    else InLine
  }

  lemma StatusStep(first: bool, cur: string, c: char)
    ensures c != '\n' ==> Next(StatusOf(first, cur), c) == StatusOf(first, cur + [c])
    ensures c == '\n' ==> Next(StatusOf(first, cur), c) == if !first && AllCr(cur) then BodyRead else OneLf
    ensures c != '\n' ==> StatusOf(first, cur + [c]) != OneLf && StatusOf(first, cur + [c]) != BodyRead
  {
    var next := cur + [c];
    assert next[|cur|] == c;
    if AllCr(next) {
      assert forall i :: 0 <= i < |cur| ==> cur[i] == next[i];
    }
    if !AllCr(cur) {
      var i :| 0 <= i < |cur| && cur[i] != '\r';
      assert next[i] != '\r';
    }
  }

  /** Where the text of the line so far ends: a new byte extends it unless it is a carriage return
      or the line feed. */
  lemma StripStep(cur: string, c: char)
    ensures c == '\r' ==> StripCr(cur + [c]) == StripCr(cur)
    ensures c != '\r' ==> StripCr(cur + [c]) == cur + [c]
    ensures cur == [] || cur[|cur| - 1] != '\r' ==> StripCr(cur) == cur
  {
    assert (cur + [c])[..|cur|] == cur;
  }

  /** The mark set at the first carriage return or line feed after text is the end of the text. */
  lemma MarkStep(first: bool, cur: string, c: char, mark: nat, base: nat)
    requires StatusOf(first, cur) == OneCr ==> mark == base + |StripCr(cur)|
    ensures var mark' := if StatusOf(first, cur) == InLine && (c == '\r' || c == '\n') then base + |cur| else mark;
            var next := Next(StatusOf(first, cur), c);
            && (next == OneCr ==> mark' == base + |StripCr(cur + [c])|)
            && (next == OneLf ==> mark' == base + |StripCr(cur)|)
  {
    StripStep(cur, c);
  }

  /** One more byte scanned, seen from the buffer and from the input. */
  lemma ByteStep(buf: string, input: string, from: nat, line: nat, at: nat, upto: nat)
    requires line <= at < upto <= |buf| && from + upto == |input|
    requires buf[at..upto] == input[from + at..]
    ensures buf[at + 1..upto] == input[from + at + 1..]
    ensures input[from..from + at + 1] == input[from..from + at] + [buf[at]]
    ensures buf[line..at + 1] == buf[line..at] + [buf[at]]
  {
    assert buf[at] == buf[at..upto][0] == input[from + at];
    assert buf[at + 1..upto] == buf[at..upto][1..];
    assert input[from + at + 1..] == input[from + at..][1..];
  }

  /** The scanner's state after some bytes of a request: complete raw lines, the unfinished one,
      where it starts, the lines delivered and the mark. */
  ghost predicate ScanState(consumed: string, raws: seq<string>, cur: string, line: nat, lines: seq<string>,
                            status: Status, mark: nat)
  {
    && consumed == Join(raws) + cur && |Join(raws)| == line
    && Inner(raws, true) && '\n' !in cur
    && lines == StripAll(raws)
    && status == StatusOf(raws == [], cur)
    && (status == OneCr ==> mark == line + |StripCr(cur)|)
  }

  function NextMark(status: Status, c: char, at: nat, mark: nat): nat {
    if status == InLine && (c == '\r' || c == '\n') then at else mark
  }

  /** A byte other than a line feed continues the line. */
  lemma ScanByte(consumed: string, raws: seq<string>, cur: string, line: nat, lines: seq<string>,
                 status: Status, mark: nat, c: char)
    requires ScanState(consumed, raws, cur, line, lines, status, mark) && c != '\n'
    ensures ScanState(consumed + [c], raws, cur + [c], line, lines, Next(status, c),
                      NextMark(status, c, line + |cur|, mark))
    ensures Next(status, c) != OneLf && Next(status, c) != BodyRead
  {
    hide Join, StripAll, StripCr, StatusOf, Next, Inner, AllCr;
    StatusStep(raws == [], cur, c);
    MarkStep(raws == [], cur, c, mark, line);
    assert Join(raws) + cur + [c] == Join(raws) + (cur + [c]);
  }

  /** A line feed completes a line, delivered without its carriage returns, or ends the header. */
  lemma ScanLineFeed(consumed: string, raws: seq<string>, cur: string, line: nat, lines: seq<string>,
                     status: Status, mark: nat)
    requires ScanState(consumed, raws, cur, line, lines, status, mark)
    ensures var next, mark' := Next(status, '\n'), NextMark(status, '\n', line + |cur|, mark);
            && (next == OneLf || next == BodyRead)
            && (next == OneLf ==>
                  && mark' == line + |StripCr(cur)|
                  && ScanState(consumed + ['\n'], raws + [cur], [], line + |cur| + 1, lines + [StripCr(cur)], next,
                               mark'))
            && (next == BodyRead ==>
                  HeaderOf(consumed + ['\n'], true) == Header(lines, true, |consumed| + 1))
  {
    hide Join, StripAll, StripCr, Next, AllCr, HeaderOf;
    StatusStep(raws == [], cur, '\n');
    MarkStep(raws == [], cur, '\n', mark, line);
    JoinSnoc(raws, cur);
    assert consumed + ['\n'] == Join(raws) + (cur + ['\n']);
    if Next(status, '\n') == OneLf {
      assert Join(raws) + (cur + ['\n']) + [] == Join(raws) + (cur + ['\n']);
    } else {
      HeaderOfJoin(raws, cur + ['\n'], true);
      FirstLine(cur, [], false);
      assert cur + ['\n'] + [] == cur + ['\n'];
      assert StripAll(raws) + [] == StripAll(raws);
    }
  }

  /** The lines delivered are those a one-pass reading of the consumed bytes finds. */
  lemma ScanIsReference(consumed: string, raws: seq<string>, cur: string, line: nat, lines: seq<string>,
                        status: Status, mark: nat)
    requires ScanState(consumed, raws, cur, line, lines, status, mark)
    ensures HeaderOf(consumed, true) == Header(lines, false, 0)
  {
    HeaderOfJoin(raws, cur, true);
    assert HeaderOf(cur, raws == []) == Header([], false, 0);
    assert StripAll(raws) + [] == StripAll(raws);
  }

  /** The outcome of a `read` from the client. */
  datatype Arrival = Bytes(data: string) | Interrupted | WouldBlock | Error | Eof

  /** The bytes taken from the socket when the buffer holds left more. */
  function Accepted(got: Arrival, left: nat): string {
    if !got.Bytes? then [] else if |got.data| <= left then got.data else got.data[..left]
  }

  /** How `read_header` leaves the request: to be closed, blocked, to be called again, with a
      complete header, or with the single line of an HTTP/0.9 request. */
  datatype Outcome = Close | Blocked | Again | Complete | SimpleRequest

  /** What `read_header` returns after its `read`, given the room left in the buffer. */
  function AfterRead(got: Arrival, room: nat): Outcome {
    if room < 1 then Close
    else match got
         case Interrupted => Again
         case WouldBlock => Blocked
         case Error => Close
         case Eof => Close
         case Bytes(data) => if data == [] then Close else Again
  }

  /** What one call of `read_header` returns, given the fate of the bytes at hand. */
  function Expected(fate: Fate, got: Arrival, room: nat): Outcome {
    match fate
    case Refused => Close
    case Ended(_, _) => Complete
    case Single(_, _) => SimpleRequest
    case Waiting(_) => AfterRead(got, room)
  }

  /** An arrival after which an unfinished request is given up. */
  predicate GivesUp(got: Arrival) {
    got.Error? || got.Eof? || (got.Bytes? && got.data == [])
  }

  /** Bytes copied behind those received; whatever starts earlier grows by them or stays. */
  method CopyIn(buf: array<char>, at: nat, data: string, upto: nat, from: nat)
    requires from <= upto <= at && at + |data| <= buf.Length
    modifies buf
    ensures buf[upto..at + |data|] == old(buf[upto..at]) + data
    ensures buf[from..upto] == old(buf[from..upto])
  {
    forall i | 0 <= i < |data| {
      buf[at + i] := data[i];
    }
    assert buf[upto..at] == old(buf[upto..at]);
  }

  lemma StrippedText(line: string, raw: string)
    requires line == raw + ['\n']
    ensures |StripCr(raw)| <= |raw| < |line| && line[..|StripCr(raw)|] == StripCr(raw)
    ensures AllLegal(raw) ==> '\0' !in StripCr(raw)
  {
  }

  lemma Grow(input: string, data: string, from: nat, k: nat)
    requires from <= k <= |input|
    ensures (input + data)[k..] == input[k..] + data && (input + data)[from..k] == input[from..k]
  {
  }

  /** A C string: what stands before the first NUL. */
  function UpToNul(s: string): string {
    if s == [] || s[0] == '\0' then [] else [s[0]] + UpToNul(s[1..])
  }

  lemma {:induction false} UpToFirst(s: string, n: nat)
    requires n < |s| && s[n] == '\0' && '\0' !in s[..n]
    ensures UpToNul(s) == s[..n]
  {
    if n > 0 {
      assert s[0] == s[..n][0] && s[1..][..n - 1] == s[..n][1..];
      UpToFirst(s[1..], n - 1);
    }
  }

  /** A connection from outside: the bytes received, where the current request starts in them, the
      headers handed over, whether it is closed and whether its last read blocked. */
  datatype Link = Link(input: string, from: nat, headers: seq<seq<string>>, closed: bool, idle: bool)
  {
    predicate Proper() {
      from <= |input| <= from + CLIENT_STREAM_SIZE
    }
  }

  /** One call of `read_header`: the one-pass judge decides on the request's bytes, and while they
      decide nothing the arrival is taken as far as there is room. */
  function Call(l: Link, got: Arrival, judge: Judge): (r: Link)
    requires l.Proper()
    ensures r.Proper() && l.input <= r.input
  {
    var fate := FateOf(l.input[l.from..], [], judge);
    var room := CLIENT_STREAM_SIZE - (|l.input| - l.from);
    match Expected(fate, got, room)
    case Close => l.(closed := true, idle := false)
    case SimpleRequest => l.(closed := true, idle := false)
    case Blocked => l.(idle := true)
    case Again => l.(input := l.input + Accepted(got, room), idle := false)
    case Complete => l.(from := l.from + fate.length, headers := l.headers + [fate.lines], idle := false)
  }

  /** The calls of a connection, one for each arrival until it is closed. */
  function Drive(start: Link, script: seq<Arrival>, judge: Judge): (r: Link)
    requires start.Proper()
    ensures r.Proper() && start.input <= r.input
  {
    if script == [] then start
    else
      var l := Drive(start, script[..|script| - 1], judge);
      if l.closed then l else Call(l, script[|script| - 1], judge)
  }

  lemma DriveNothing(start: Link, script: seq<Arrival>, judge: Judge)
    requires start.Proper()
    ensures Drive(start, script[..0], judge) == start
  {
  }

  lemma DriveStep(start: Link, script: seq<Arrival>, i: nat, judge: Judge)
    requires start.Proper() && i < |script|
    ensures var l := Drive(start, script[..i], judge);
            Drive(start, script[..i + 1], judge) == if l.closed then l else Call(l, script[i], judge)
  {
    assert script[..i + 1][..i] == script[..i];
  }

  /** A closed connection takes nothing more. */
  lemma {:induction false} DriveClosed(start: Link, script: seq<Arrival>, i: nat, judge: Judge)
    requires start.Proper() && i <= |script| && Drive(start, script[..i], judge).closed
    ensures Drive(start, script, judge) == Drive(start, script[..i], judge)
    decreases |script| - i
  {
    if i < |script| {
      DriveStep(start, script, i, judge);
      DriveClosed(start, script, i + 1, judge);
    } else {
      assert script[..i] == script;
    }
  }

  class Reader {
    const clientStream: array<char>
    /** Whether a header made of these lines is acceptable so far; stands for `process_logline` and
        `process_option_line`, which also edit the line's own bytes. */
    const judge: Judge
    const edit: string -> string
    var clientStreamPos: nat
    var parsePos: nat
    var headerLine: nat
    var headerEnd: nat
    var status: Status
    /** The lines handed to the handlers for the current request. */
    var lines: seq<string>
    /** Every byte the client's socket delivered, and where the current request starts in it. */
    ghost var input: string
    ghost var from: nat
    /** The complete lines of the current request as received, and the unfinished one. */
    ghost var raws: seq<string>
    ghost var cur: string
    /** What each handler found at its line, up to the first NUL. */
    ghost var found: seq<string>

    /** The receive buffer holds the bytes received for this request; what has not been scanned is
        as the client sent it, and so is the unfinished line. */
    ghost predicate Window()
      reads this, clientStream
    {
      && clientStream.Length == CLIENT_STREAM_SIZE
      && headerLine <= parsePos <= clientStreamPos <= CLIENT_STREAM_SIZE
      && from + clientStreamPos == |input|
      && clientStream[parsePos..clientStreamPos] == input[from + parsePos..]
    }

    /** The scanner is in step with the bytes scanned. */
    ghost predicate Scanning()
      reads this, clientStream
    {
      && Window() && clientStream[headerLine..parsePos] == cur
      && ScanState(input[from..from + parsePos], raws, cur, headerLine, lines, status, headerEnd)
    }

    /** And everything scanned so far was let through. */
    ghost predicate Valid()
      reads this, clientStream
    {
      Scanning() && Passed(raws, judge) && AllLegal(cur)
    }

    /** The room left in the receive buffer. */
    function Room(): nat
      reads `clientStreamPos
    {
      if clientStreamPos < CLIENT_STREAM_SIZE then CLIENT_STREAM_SIZE - clientStreamPos else 0
    }

    /** What becomes of the current request as far as its bytes are known. */
    ghost function CurrentFate(): Fate
      requires from <= |input|
      reads this
    {
      FateOf(input[from..], [], judge)
    }

    /** The requests before the current one are those of a one-pass reading. */
    ghost predicate Served(headers: seq<seq<string>>)
      requires from <= |input|
      reads this
    {
      var c := Conversation(input[..from], judge);
      c.headers == headers && c.length == from
    }

    /** A connection just accepted. */
    constructor (judge: Judge, edit: string -> string)
      ensures Valid() && fresh(clientStream) && input == [] && from == 0 && lines == [] && parsePos == 0
      ensures this.judge == judge && this.edit == edit
    {
      this.judge, this.edit := judge, edit;
      clientStream := new char[CLIENT_STREAM_SIZE](_ => '\0');
      clientStreamPos, parsePos, headerLine, headerEnd := 0, 0, 0, 0;
      status := InLine;
      lines := [];
      input, from, raws, cur, found := [], 0, [], [], [];
    }

    /** The scanner moves over one byte. */
    method TakeByte()
      requires Scanning() && parsePos < clientStreamPos && status != BodyRead
      modifies `status, `parsePos, `headerEnd
      ensures Window() && parsePos == old(parsePos) + 1
      ensures input[from..from + parsePos] == old(input[from..from + parsePos]) + [clientStream[parsePos - 1]]
      ensures clientStream[headerLine..parsePos] == cur + [clientStream[parsePos - 1]]
      ensures status == Next(old(status), clientStream[parsePos - 1])
      ensures headerEnd == NextMark(old(status), clientStream[parsePos - 1], headerLine + |cur|, old(headerEnd))
    {
      hide ScanState, Next;
      var uc := clientStream[parsePos];
      ByteStep(clientStream[..], input, from, headerLine, parsePos, clientStreamPos);
      if status == InLine && (uc == '\r' || uc == '\n') {
        headerEnd := parsePos;
      }
      status := Next(status, uc);
      parsePos := parsePos + 1;
    }

    /** The line just completed is terminated in place and its handler, which sees it as a C string,
        judges it and may rewrite its bytes; the next line starts behind it. */
    method DeliverLine(ghost raw: string) returns (outcome: Outcome)
      requires Window() && status == OneLf && AllLegal(raw)
      requires headerEnd == headerLine + |StripCr(raw)| && headerLine + |raw| + 1 == parsePos
      requires clientStream[headerLine..parsePos] == raw + ['\n']
      requires ScanState(input[from..from + parsePos], raws + [raw], [], parsePos, lines + [StripCr(raw)], status,
                         headerEnd)
      modifies `lines, `headerLine, `raws, `cur, `found, clientStream
      ensures Window()
      ensures outcome == match LineVerdict(old(lines), StripCr(raw), judge)
                         case Refuse => Close
                         case GoOn => Again
                         case Simple => SimpleRequest
      ensures clientStream[headerEnd] == '\0'
      ensures forall i :: 0 <= i < CLIENT_STREAM_SIZE && !(old(headerLine) <= i <= headerEnd) ==>
                clientStream[i] == old(clientStream[i])
      ensures found == old(found) + if |StripCr(raw)| < MAX_HEADER_LENGTH then [StripCr(raw)] else []
      ensures outcome == Close ==> lines == old(lines)
      ensures outcome != Close ==>
                && Scanning() && lines == old(lines) + [StripCr(raw)]
                && raws == old(raws) + [raw] && cur == [] && headerLine == parsePos
    {
      hide ScanState, StripCr, AllLegal;
      StrippedText(clientStream[headerLine..parsePos], raw);
      assert clientStream[headerLine..headerEnd] == clientStream[headerLine..parsePos][..|StripCr(raw)|];
      Terminate();
      if headerEnd - headerLine >= MAX_HEADER_LENGTH {
        return Close;
      }
      var first := lines == [];
      var text, verdict := HandleLine();
      if verdict == Refuse {
        return Close;
      }
      NextLine(text, raw);
      return if first && verdict == Simple then SimpleRequest else Again;
    }

    /** The handler of a line reads it as a C string, judges it and may rewrite its bytes. */
    method HandleLine() returns (text: string, verdict: Verdict)
      requires Window() && headerLine <= headerEnd < parsePos
      requires clientStream[headerEnd] == '\0' && '\0' !in clientStream[headerLine..headerEnd]
      modifies `found, clientStream
      ensures Window() && text == old(clientStream[headerLine..headerEnd]) && verdict == judge(lines + [text])
      ensures found == old(found) + [text]
      ensures forall i :: 0 <= i < CLIENT_STREAM_SIZE && !(headerLine <= i < headerEnd) ==>
                clientStream[i] == old(clientStream[i])
    {
      text := CString(headerLine, headerEnd);
      found := found + [text];
      verdict := judge(lines + [text]);
      Rewrite(edit(text));
    }

    /** The line counts as delivered, and the next one starts behind it. */
    method NextLine(text: string, ghost raw: string)
      requires Window()
      requires ScanState(input[from..from + parsePos], raws + [raw], [], parsePos, lines + [text], status, headerEnd)
      modifies `lines, `headerLine, `raws, `cur
      ensures Window() && Scanning() && lines == old(lines) + [text]
      ensures raws == old(raws) + [raw] && cur == [] && headerLine == parsePos
    {
      hide ScanState;
      lines := lines + [text];
      headerLine := parsePos;
      raws, cur := raws + [raw], [];
    }

    /** The NUL behind the stripped line; no other byte changes. */
    method Terminate()
      requires Window() && headerLine <= headerEnd < parsePos
      modifies clientStream
      ensures Window() && clientStream[headerEnd] == '\0'
      ensures forall i :: 0 <= i < CLIENT_STREAM_SIZE && i != headerEnd ==> clientStream[i] == old(clientStream[i])
      ensures clientStream[headerLine..headerEnd] == old(clientStream[headerLine..headerEnd])
    {
      ghost var unread := clientStream[parsePos..clientStreamPos];
      clientStream[headerEnd] := '\0';
      assert clientStream[parsePos..clientStreamPos] == unread;
    }

    /** The C string a handler finds at `at`: what stands before the first NUL. */
    method CString(at: nat, ghost end: nat) returns (text: string)
      requires at <= end < clientStream.Length && clientStream[end] == '\0' && '\0' !in clientStream[at..end]
      ensures text == UpToNul(clientStream[at..]) == clientStream[at..end]
    {
      var n := at;
      assert forall k :: at <= k < end ==> clientStream[k] == clientStream[at..end][k - at];
      while clientStream[n] != '\0'
        invariant at <= n <= end
        decreases end - n
      {
        n := n + 1;
      }
      text := clientStream[at..n];
      UpToFirst(clientStream[at..], end - at);
    }

    /** A handler's changes to the bytes of its own line. */
    method Rewrite(text: string)
      requires Window() && headerLine <= headerEnd <= parsePos
      modifies clientStream
      ensures Window()
      ensures forall i :: 0 <= i < CLIENT_STREAM_SIZE && !(headerLine <= i < headerEnd) ==>
                clientStream[i] == old(clientStream[i])
    {
      if |text| == headerEnd - headerLine {
        forall i | 0 <= i < |text| {
          clientStream[headerLine + i] := text[i];
        }
      }
      assert clientStream[parsePos..clientStreamPos] == old(clientStream[parsePos..clientStreamPos]);
    }

    /** Where the scanner stands, seen from the reference: the lines that passed are read past. */
    lemma FateHere()
      requires Valid()
      ensures CurrentFate() == Shift(headerLine, FateOf(cur + input[from + parsePos..], lines, judge))
    {
      hide Scanning, Valid, CurrentFate, FateOf, Join, StripAll, Inner, Passed, AllLegal, StatusOf, Shift;
      Position();
      var unread := input[from + parsePos..];
      FateOfJoin(raws, cur + unread, judge);
      Sequences.Assoc(Join(raws), cur, unread);
    }

    lemma Position()
      requires Valid()
      ensures Inner(raws, true) && '\n' !in cur && lines == StripAll(raws) && |Join(raws)| == headerLine
      ensures Passed(raws, judge) && AllLegal(cur) && Window() && CurrentFate() == FateOf(input[from..], [], judge)
      ensures |cur| == parsePos - headerLine
      ensures input[from..] == Join(raws) + cur + input[from + parsePos..]
      ensures status == StatusOf(raws == [], cur) && (lines == [] <==> raws == [])
    {
      hide Join, StripAll, StatusOf, Inner, FateOf, Passed, AllLegal, StripCr;
      assert input[from..] == input[from..from + parsePos] + input[from + parsePos..];
    }

    /** The outcome of the scan is what a one-pass reading of the request's bytes says. */
    ghost predicate Reported(outcome: Outcome)
      requires from <= |input|
      reads this, clientStream
    {
      match outcome
      case Close => CurrentFate() == Refused
      case Complete => CurrentFate() == Ended(lines, parsePos) && status == BodyRead
      case SimpleRequest => CurrentFate() == Single(lines, parsePos) && Scanning()
      case Again => CurrentFate() == Waiting(lines) && parsePos == clientStreamPos && Valid() && status != BodyRead
      case Blocked => false
    }

    /** The scanning loop of `read_header` over the bytes at hand. */
    method ScanBuffered() returns (outcome: Outcome)
      requires Valid() && status != BodyRead
      modifies `status, `parsePos, `headerEnd, `lines, `headerLine, `raws, `cur, `found, clientStream
      ensures Window() && old(lines) <= lines && Reported(outcome)
    {
      Position();
      hide Valid, Scanning, CurrentFate;
      while parsePos < clientStreamPos
        invariant Window() && Valid() && status != BodyRead && old(lines) <= lines
        decreases clientStreamPos - parsePos
      {
        outcome := ScanOne();
        if outcome != Again {
          return;
        }
      }
      AllScanned();
      return Again;
    }

    lemma AllScanned()
      requires Valid() && parsePos == clientStreamPos
      ensures CurrentFate() == Waiting(lines)
    {
      FateHere();
      Position();
      assert input[from + parsePos..] == [];
      Sequences.Neutral(cur);
    }

    /** One byte of that loop. */
    method ScanOne() returns (outcome: Outcome)
      requires Valid() && parsePos < clientStreamPos && status != BodyRead
      modifies `status, `parsePos, `headerEnd, `lines, `headerLine, `raws, `cur, `found, clientStream
      ensures Window() && old(lines) <= lines
      ensures outcome == Again ==> Valid() && status != BodyRead
      ensures outcome != Again ==> Reported(outcome)
      ensures parsePos == old(parsePos) + 1 || outcome == Close
    {
      hide CurrentFate, FateOf, AllLegal, Passed, ScanState, LineVerdict, StripCr;
      var uc := clientStream[parsePos];
      if !Legal(uc) {
        Illegal();
        return Close;
      }
      if uc == '\n' {
        outcome := EndLine();
      } else {
        outcome := Again;
        Extend();
      }
    }

    lemma Illegal()
      requires Valid() && parsePos < clientStreamPos && !Legal(clientStream[parsePos])
      ensures CurrentFate() == Refused
    {
      hide CurrentFate, FateOf, Valid, Scanning, Window, AllLegal, Passed, Join, StripAll, StatusOf, Inner;
      FateHere();
      Position();
      NextByte();
      FateIllegal(cur, input[from + parsePos..], lines, judge);
    }

    lemma NextByte()
      requires Window() && parsePos < clientStreamPos
      ensures from + parsePos < |input| && clientStream[parsePos] == input[from + parsePos]
      ensures input[from + parsePos..] == [clientStream[parsePos]] + input[from + parsePos + 1..]
    {
      assert clientStream[parsePos] == clientStream[parsePos..clientStreamPos][0];
    }

    /** A byte that does not end the line. */
    method Extend()
      requires Valid() && parsePos < clientStreamPos && status != BodyRead
      requires Legal(clientStream[parsePos]) && clientStream[parsePos] != '\n'
      modifies `status, `parsePos, `headerEnd, `cur
      ensures Valid() && status != BodyRead && parsePos == old(parsePos) + 1
    {
      hide ScanState, Next, Passed;
      ghost var consumed, was, mark := input[from..from + parsePos], status, headerEnd;
      var uc := clientStream[parsePos];
      assert |cur| == parsePos - headerLine;
      TakeByte();
      ScanByte(consumed, raws, cur, headerLine, lines, was, mark, uc);
      cur := cur + [uc];
    }

    /** The line feed: the line is delivered, or was the blank one that ends the header. */
    method EndLine() returns (outcome: Outcome)
      requires Valid() && parsePos < clientStreamPos && status != BodyRead && clientStream[parsePos] == '\n'
      modifies `status, `parsePos, `headerEnd, `lines, `headerLine, `raws, `cur, `found, clientStream
      ensures Window() && old(lines) <= lines && parsePos == old(parsePos) + 1
      ensures outcome == Again ==> Valid() && status != BodyRead
      ensures outcome != Again ==> Reported(outcome)
    {
      hide ScanState, Next, FateOf, Passed, StripCr, LineVerdict, StripAll, AllCr;
      ghost var raw, raws0 := cur, raws;
      ghost var fate := LineFate();
      TakeFeed();
      if status == BodyRead {
        return Complete;
      }
      outcome := DeliverLine(raw);
      if outcome == Again {
        PassedSnoc(raws0, raw, judge);
      }
    }

    /** The scan of a line feed. */
    method TakeFeed()
      requires Valid() && parsePos < clientStreamPos && status != BodyRead && clientStream[parsePos] == '\n'
      modifies `status, `parsePos, `headerEnd
      ensures Window() && parsePos == old(parsePos) + 1 == headerLine + |cur| + 1
      ensures status == Next(old(status), '\n') && (status == OneLf || status == BodyRead)
      ensures clientStream[headerLine..parsePos] == cur + ['\n'] && AllLegal(cur) && Passed(raws, judge)
      ensures status == OneLf ==>
                && headerEnd == headerLine + |StripCr(cur)|
                && ScanState(input[from..from + parsePos], raws + [cur], [], parsePos, lines + [StripCr(cur)], status,
                             headerEnd)
    {
      ghost var consumed, was, mark := input[from..from + parsePos], status, headerEnd;
      assert |cur| == parsePos - headerLine;
      hide ScanState, Next, FateOf, Passed, StripCr;
      TakeByte();
      ScanLineFeed(consumed, raws, cur, headerLine, lines, was, mark);
    }

    /** What the reference says at a line feed. */
    lemma LineFate() returns (fate: Fate)
      requires Valid() && parsePos < clientStreamPos && clientStream[parsePos] == '\n'
      ensures fate == CurrentFate() && lines == StripAll(raws)
      ensures Next(status, '\n') == if lines != [] && AllCr(cur) then BodyRead else OneLf
      ensures lines != [] && AllCr(cur) ==> fate == Ended(lines, parsePos + 1)
      ensures !(lines != [] && AllCr(cur)) ==>
                match LineVerdict(lines, StripCr(cur), judge)
                case Refuse => fate == Refused
                case Simple => fate == Single(lines + [StripCr(cur)], parsePos + 1)
                case GoOn => true
    {
      hide CurrentFate, Valid, Scanning, FateOf, ScanState, Next, StripCr, LineVerdict, AllCr, Passed, Join;
      Position();
      fate := CurrentFate();
      FateHere();
      NextByte();
      var rest := input[from + parsePos + 1..];
      StatusStep(raws == [], cur, '\n');
      hide StatusOf;
      FateLine(cur, rest, lines, judge);
      Sequences.Assoc(cur, ['\n'], rest);
    }

    /** `read_header`: scans what is at hand, then reads once if the header is not complete. */
    method ReadHeader(got: Arrival) returns (outcome: Outcome)
      requires Valid() && status != BodyRead
      modifies this, clientStream
      ensures Window() && from == old(from) && old(lines) <= lines
      ensures outcome == Expected(old(CurrentFate()), got, CLIENT_STREAM_SIZE - old(clientStreamPos))
      ensures outcome == Complete ==> old(CurrentFate()) == Ended(lines, parsePos) && status == BodyRead
      ensures outcome == Complete ==> HeaderOf(input[from..from + parsePos], true) == Header(lines, true, parsePos)
      ensures outcome == SimpleRequest ==> old(CurrentFate()) == Single(lines, parsePos)
      ensures outcome == Again || outcome == Blocked ==>
                && Valid() && status != BodyRead && old(CurrentFate()) == Waiting(lines)
                && parsePos == old(clientStreamPos)
      ensures clientStreamPos - old(clientStreamPos) == |input| - |old(input)|
      ensures input == if outcome == Again then old(input) + Accepted(got, CLIENT_STREAM_SIZE - old(clientStreamPos))
                       else old(input)
    {
      hide ScanState, HeaderOf, FateOf, Passed, AllLegal, Scanning, Valid;
      outcome := ScanBuffered();
      if outcome == Complete {
        HeaderComplete();
      }
      if outcome == Again {
        outcome := ReadMore(got);
      }
    }

    lemma HeaderComplete()
      requires Window() && CurrentFate() == Ended(lines, parsePos)
      ensures HeaderOf(input[from..from + parsePos], true) == Header(lines, true, parsePos)
      ensures FateOf(input[from..from + parsePos], [], judge) == Ended(lines, parsePos)
    {
      hide FateOf, HeaderOf;
      var t := input[from..];
      FateCut(t, [], judge);
      assert t[..parsePos] == input[from..from + parsePos];
      FateIsHeader(t[..parsePos], [], judge);
      Sequences.Neutral(HeaderOf(t[..parsePos], true).lines);
    }

    /** The `read` at the end of `read_header`: at most what the buffer still holds. */
    method ReadMore(got: Arrival) returns (outcome: Outcome)
      requires Valid() && status != BodyRead
      modifies `clientStreamPos, `input, clientStream
      ensures Valid() && Window() && outcome == AfterRead(got, CLIENT_STREAM_SIZE - old(clientStreamPos))
      ensures input == if outcome == Again then old(input) + Accepted(got, CLIENT_STREAM_SIZE - old(clientStreamPos))
                       else old(input)
    {
      hide ScanState, Passed, AllLegal;
      var left := CLIENT_STREAM_SIZE - clientStreamPos;
      if left < 1 {
        return Close;
      }
      match got {
        case Interrupted => return Again;
        case WouldBlock => return Blocked;
        case Error => return Close;
        case Eof => return Close;
        case Bytes(data) =>
          if data == [] {
            return Close;
          }
          Receive(Accepted(got, left));
          return Again;
      }
    }

    /** Bytes arrive behind those already received. */
    method Receive(data: string)
      requires Valid() && clientStreamPos + |data| <= CLIENT_STREAM_SIZE
      modifies `clientStreamPos, `input, clientStream
      ensures Valid() && input == old(input) + data
    {
      hide ScanState, Passed, AllLegal;
      Grow(input, data, from, from + parsePos);
      CopyIn(clientStream, clientStreamPos, data, parsePos, headerLine);
      clientStreamPos := clientStreamPos + |data|;
      input := input + data;
    }

    /** The keep-alive half of `sanitize_request`: unread bytes move to the front of the buffer and
        the scanner starts a new request there. */
    method Sanitize()
      requires Window()
      modifies this, clientStream
      ensures Valid() && Window() && status == InLine && parsePos == 0 && lines == []
      ensures input == old(input) && from == old(from + parsePos)
      ensures clientStream[..clientStreamPos] == input[from..]
    {
      var toMove := clientStreamPos - parsePos;
      ghost var unread := clientStream[parsePos..clientStreamPos];
      forall i | 0 <= i < toMove {
        clientStream[i] := clientStream[parsePos + i];
      }
      assert clientStream[..toMove] == unread;
      clientStreamPos := toMove;
      from := from + parsePos;
      parsePos, headerLine, headerEnd := 0, 0, 0;
      status := InLine;
      lines := [];
      raws, cur := [], [];
    }

    /** One call of `read_header` and, after a complete header, the start of the next request. */
    method Turn(got: Arrival, ghost headers: seq<seq<string>>) returns (header: seq<string>, outcome: Outcome)
      requires Valid() && status != BodyRead && Served(headers)
      modifies this, clientStream
      ensures Window() && old(input) <= input && Served(if outcome == Complete then headers + [header] else headers)
      ensures outcome != Close && outcome != SimpleRequest ==> Valid() && status != BodyRead
      ensures outcome == Close ==>
                || CurrentFate().Refused?
                || (CurrentFate().Waiting? && (clientStreamPos == CLIENT_STREAM_SIZE || GivesUp(got)))
      ensures outcome == SimpleRequest ==> CurrentFate().Single?
      ensures outcome == Blocked ==> CurrentFate().Waiting? && parsePos == clientStreamPos && got.WouldBlock?
      ensures outcome == Expected(old(CurrentFate()), got, old(Room()))
      ensures input == if outcome == Again then old(input) + Accepted(got, old(Room())) else old(input)
      ensures outcome == Complete ==> old(from) < from && old(CurrentFate()) == Ended(header, from - old(from))
      ensures outcome != Complete ==> from == old(from)
    {
      ghost var before := input;
      header := [];
      hide ScanState, HeaderOf, FateOf, Passed, AllLegal, Scanning, Conversation;
      outcome := ReadHeader(got);
      Prefix(before, input, from);
      if outcome == Complete {
        header := lines;
        OneServed(headers);
        Sanitize();
      }
    }

    /** The request just completed joins those before it. */
    lemma OneServed(headers: seq<seq<string>>)
      requires Window() && CurrentFate() == Ended(lines, parsePos) && Served(headers)
      ensures var c := Conversation(input[..from + parsePos], judge);
              c.headers == headers + [lines] && c.length == from + parsePos
    {
      hide FateOf, HeaderOf, Conversation;
      var a, b := input[..from], input[from..from + parsePos];
      HeaderComplete();
      ConversationConcat(a, b, judge);
      assert a + b == input[..from + parsePos];
      ConversationOne(b, lines, judge);
    }

    /** With nothing more to come of the current request, the connection's headers are all known. */
    lemma AllServed(headers: seq<seq<string>>)
      requires Window() && Served(headers) && !CurrentFate().Ended?
      ensures Conversation(input, judge) == Talk(headers, from, CurrentFate())
    {
      assert input[..from] + input[from..] == input;
      ConversationConcat(input[..from], input[from..], judge);
      Sequences.Neutral(headers);
    }

    /** A pipelined keep-alive connection under any division of the client's bytes into reads. Once it
        is closed or has scanned all it received, the headers handed over are exactly those a one-pass
        reading of all the bytes received finds; before that they are the first of them. It is closed
        only on a refusal, after a simple request, with a full buffer or by the client. */
    method Converse(script: seq<Arrival>) returns (headers: seq<seq<string>>, closed: bool, idle: bool)
      requires Valid() && status != BodyRead && from == 0
      modifies this, clientStream
      ensures Window() && Served(headers) && old(input) <= input
      ensures old(Seen([], false, false)).Proper()
      ensures Seen(headers, closed, idle) == Drive(old(Seen([], false, false)), script, judge)
      ensures headers <= Conversation(input, judge).headers && headers <= Requests(input).headers
      ensures closed || from + parsePos == |input| ==> Conversation(input, judge) == Talk(headers, from, CurrentFate())
      ensures closed ==>
                || Conversation(input, judge).rest.Refused? || Conversation(input, judge).rest.Single?
                || |input| - from == CLIENT_STREAM_SIZE || exists k :: 0 <= k < |script| && GivesUp(script[k])
      ensures idle ==> !closed && from + parsePos == |input|
      ensures !closed ==> Valid() && HeaderOf(input[from..from + parsePos], true) == Header(lines, false, 0)
      ensures !closed && from + parsePos == |input| ==> headers == Requests(input).headers
    {
      hide ScanState, HeaderOf, Requests, FateOf, Passed, AllLegal, Scanning, Conversation, Served, Drive;
      headers, closed, idle := Exchange(script);
      FirstOnes(headers);
      if closed {
        AllServed(headers);
      } else {
        Open(headers);
      }
    }

    /** The connection from outside. */
    ghost function Seen(headers: seq<seq<string>>, closed: bool, idle: bool): Link
      reads `input, `from
    {
      Link(input, from, headers, closed, idle)
    }

    /** The calls of `read_header`, one for each arrival. */
    method Exchange(script: seq<Arrival>) returns (headers: seq<seq<string>>, closed: bool, idle: bool)
      requires Valid() && status != BodyRead && from == 0
      modifies this, clientStream
      ensures Window() && Served(headers) && old(input) <= input
      ensures old(Seen([], false, false)).Proper()
      ensures Seen(headers, closed, idle) == Drive(old(Seen([], false, false)), script, judge)
      ensures if closed then !CurrentFate().Ended? else Valid() && status != BodyRead
      ensures idle ==> !closed && parsePos == clientStreamPos
      ensures closed && CurrentFate().Waiting? ==>
                clientStreamPos == CLIENT_STREAM_SIZE || exists k :: 0 <= k < |script| && GivesUp(script[k])
    {
      Position();
      NothingServed();
      hide Valid, Served, Drive, Call;
      headers, closed, idle := [], false, false;
      ghost var start := Seen([], false, false);
      var i := 0;
      DriveNothing(start, script, judge);
      while i < |script| && !closed
        invariant i <= |script| && Window() && Served(headers) && start.input <= input
        invariant Seen(headers, closed, idle) == Drive(start, script[..i], judge)
        invariant if closed then !CurrentFate().Ended? else Valid() && status != BodyRead
        invariant idle ==> !closed && parsePos == clientStreamPos
        invariant closed && CurrentFate().Waiting? ==>
                    clientStreamPos == CLIENT_STREAM_SIZE || exists k :: 0 <= k < |script| && GivesUp(script[k])
      {
        DriveStep(start, script, i, judge);
        headers, closed, idle := OneCall(script[i], headers, idle);
        i := i + 1;
      }
      if closed {
        DriveClosed(start, script, i, judge);
      } else {
        assert script[..i] == script;
      }
    }

    /** One of these calls. */
    method OneCall(got: Arrival, headers: seq<seq<string>>, idle: bool)
      returns (headers': seq<seq<string>>, closed: bool, idle': bool)
      requires Valid() && status != BodyRead && Served(headers) && Seen(headers, false, idle).Proper()
      modifies this, clientStream
      ensures Window() && Served(headers') && old(input) <= input
      ensures Seen(headers', closed, idle') == Call(old(Seen(headers, false, idle)), got, judge)
      ensures if closed then !CurrentFate().Ended? else Valid() && status != BodyRead
      ensures idle' ==> !closed && parsePos == clientStreamPos
      ensures closed && CurrentFate().Waiting? ==> clientStreamPos == CLIENT_STREAM_SIZE || GivesUp(got)
    {
      RoomLeft();
      hide Valid, Served, Scanning, ScanState, FateOf;
      var header, outcome := Turn(got, headers);
      headers' := if outcome == Complete then headers + [header] else headers;
      closed := outcome == Close || outcome == SimpleRequest;
      idle' := outcome == Blocked;
    }

    lemma RoomLeft()
      requires Valid()
      ensures Room() == CLIENT_STREAM_SIZE - (|input| - from) && from <= |input|
    {
    }

    lemma NothingServed()
      requires from == 0 && from <= |input|
      ensures Served([])
    {
      assert input[..from] == [];
    }

    /** What was handed over stands at the front of what all the bytes hold. */
    lemma FirstOnes(headers: seq<seq<string>>)
      requires Window() && Served(headers)
      ensures headers <= Conversation(input, judge).headers <= Requests(input).headers
    {
      assert input[..from] + input[from..] == input;
      ConversationGrows(input[..from], input[from..], judge);
      ConversationIsRequests(input, judge);
    }

    /** An open connection that has scanned everything. */
    lemma Open(headers: seq<seq<string>>)
      requires Valid() && Served(headers)
      ensures HeaderOf(input[from..from + parsePos], true) == Header(lines, false, 0)
      ensures from + parsePos == |input| ==>
                Conversation(input, judge) == Talk(headers, from, CurrentFate()) && headers == Requests(input).headers
    {
      hide FateOf, HeaderOf, Requests, Conversation, Passed, AllLegal, ScanState;
      ScanIsReference(input[from..from + parsePos], raws, cur, headerLine, lines, status, headerEnd);
      if from + parsePos == |input| {
        AllScanned();
        AllServed(headers);
        ConversationIsRequests(input, judge);
      }
    }
  }

  /** Two connections judged alike: however each one's bytes are cut into reads, if one received what
      the other received first, the headers handed over agree, and with the same bytes they are the same. */
  method SameBytesSameHeaders(a: Reader, b: Reader, cutA: seq<Arrival>, cutB: seq<Arrival>)
    returns (forA: seq<seq<string>>, forB: seq<seq<string>>, closedA: bool, closedB: bool, idleA: bool, idleB: bool)
    requires a != b && a.clientStream != b.clientStream && a.judge == b.judge
    requires a.Valid() && a.status != BodyRead && a.from == 0
    requires b.Valid() && b.status != BodyRead && b.from == 0
    modifies a, b, a.clientStream, b.clientStream
    ensures a.Window() && b.Window() && a.Served(forA) && b.Served(forB)
    ensures old(a.Seen([], false, false)).Proper() && old(b.Seen([], false, false)).Proper()
    ensures a.Seen(forA, closedA, idleA) == Drive(old(a.Seen([], false, false)), cutA, a.judge)
    ensures b.Seen(forB, closedB, idleB) == Drive(old(b.Seen([], false, false)), cutB, b.judge)
    ensures a.input <= b.input && (closedB || b.from + b.parsePos == |b.input|) ==> forA <= forB
    ensures a.input == b.input && (closedA || a.from + a.parsePos == |a.input|)
            && (closedB || b.from + b.parsePos == |b.input|) ==>
              forA == forB && a.from == b.from
  {
    hide ScanState, HeaderOf, Requests, FateOf, Passed, AllLegal, Conversation, Drive;
    forA, closedA, idleA := a.Converse(cutA);
    forB, closedB, idleB := b.Converse(cutB);
    if a.input <= b.input {
      ConversationGrows(a.input, b.input[|a.input|..], a.judge);
      assert a.input + b.input[|a.input|..] == b.input;
    }
  }

  lemma Prefix(a: string, b: string, n: nat)
    requires a <= b && n <= |a|
    ensures a[..n] == b[..n]
  {
  }
}
