/** The request body of a POST: src/read.c copies it from the client to a temporary file through the
    rest of the header buffer first and the output buffer afterwards, and starts the CGI at the end. */
module BodySpool {
  import opened Numerals
  import opened Options

  const BUFFER_SIZE := 4096

  /** `BODY_READ`, `BODY_WRITE`, or the CGI program running. */
  datatype Status = BodyRead | BodyWrite | CgiStarted

  /** The outcome of a system call; bytes carry what arrived. */
  datatype Arrival = Bytes(data: string) | WouldBlock | Failed
  datatype Transfer = Moved(n: nat) | Busy | Interrupted | Broken

  /** The length a POST announces: a canonical decimal numeral within the configured limit, where a
      limit of zero means none. Anything else is a bad request. */
  method AnnouncedLength(header: Option<string>, singlePostLimit: nat) returns (length: Option<nat>)
    requires header.Some? ==> '\0' !in header.value
    ensures length.Some? <==> header.Some? && Canonical(header.value) && Value(header.value) <= INT_MAX
                              && (singlePostLimit == 0 || Value(header.value) <= singlePostLimit)
    ensures length.Some? ==> header.value == Decimal(length.value)
  {
    if header == None {
      return None;
    }
    var n := BoaAtoi(header.value);
    if n < 0 {
      return None;
    }
    DecimalDenotes(n);
    if singlePostLimit > 0 && n > singlePostLimit {
      return None;
    }
    return Some(n);
  }

  /** A body on its way: what the socket delivered, how much the file has taken, how much is buffered,
      and whether the request goes on. */
  datatype Stage = Stage(input: string, filepos: nat, pending: nat, status: Status, alive: bool)

  function Min(a: int, b: int): int {
    if a < b then a else b
  }

  /** What a write to the file makes of it; with nothing buffered the file is complete or more is read. */
  function Written(v: Stage, filesize: nat, w: Transfer): Stage {
    if v.pending == 0 then
      if v.filepos >= filesize then v.(status := CgiStarted, alive := false) else v.(status := BodyRead)
    else
      match w
      case Busy => v
      case Interrupted => v
      case Broken => v.(alive := false)
      case Moved(n) =>
        var k := Min(n, v.pending);
        v.(filepos := v.filepos + k, pending := v.pending - k)
  }

  /** What a read from the socket makes of it: at most what is missing and what the buffer holds. */
  function Fetched(v: Stage, filesize: nat, got: Arrival): Stage {
    var most := Min(filesize - v.filepos, BUFFER_SIZE - v.pending);
    if most <= 0 then v.(status := BodyWrite)
    else
      match got
      case WouldBlock => v
      case Failed => v.(alive := false)
      case Bytes(data) =>
        if data == [] then v.(alive := false)
        else
          var k := Min(|data|, most);
          v.(input := v.input + data[..k], pending := v.pending + k, status := BodyWrite)
  }

  /** The turns of a request, until it is over. */
  function Course(v: Stage, filesize: nat, gots: nat -> Arrival, writes: nat -> Transfer, turns: nat): Stage {
    if turns == 0 then v
    else
      var u := Course(v, filesize, gots, writes, turns - 1);
      if !u.alive || u.status == CgiStarted then u
      else if u.status == BodyRead then Fetched(u, filesize, gots(turns - 1))
      else Written(u, filesize, writes(turns - 1))
  }

  lemma {:induction false} CourseOver(v: Stage, filesize: nat, gots: nat -> Arrival, writes: nat -> Transfer, i: nat,
                                      turns: nat)
    requires i <= turns
    requires var u := Course(v, filesize, gots, writes, i); !u.alive || u.status == CgiStarted
    ensures Course(v, filesize, gots, writes, turns) == Course(v, filesize, gots, writes, i)
    decreases turns - i
  {
    if i < turns {
      CourseOver(v, filesize, gots, writes, i, turns - 1);
    }
  }

  /** The first k pending bytes go behind what the file holds. */
  lemma TakenOff(a: string, from: nat, upto: nat, input: string, at: nat, k: nat)
    requires from <= from + k <= upto <= |a| && at + (upto - from) <= |input|
    requires a[from..upto] == input[at..at + (upto - from)]
    ensures input[..at] + a[from..from + k] == input[..at + k]
    ensures a[from + k..upto] == input[at + k..at + (upto - from)]
  {
    assert a[from..upto][..k] == a[from..from + k] && a[from..upto][k..] == a[from + k..upto];
  }

  class Spool {
    /** The announced length. */
    const filesize: nat
    const buffer: array<char>
    /** The block `header_line` and `header_end` point into: the receive buffer, later `buffer`. */
    var area: array<char>
    var headerLine: nat
    var headerEnd: nat
    var filepos: nat
    var status: Status
    /** Bytes of the body, and beyond, that the client's socket has delivered. */
    ghost var input: string
    /** How many of them came with the header. */
    ghost const early: nat
    /** What the temporary file holds. */
    ghost var spooled: string

    ghost predicate Valid()
      reads this, area, buffer
    {
      && buffer.Length == BUFFER_SIZE + 1
      && headerLine <= headerEnd <= area.Length
      && filepos + (headerEnd - headerLine) == (if |input| <= filesize then |input| else filesize)
      && |input| <= (if early <= filesize then filesize else early)
      && spooled == input[..filepos]
      && area[headerLine..headerEnd] == input[filepos..filepos + (headerEnd - headerLine)]
      && (status == BodyRead ==> area == buffer && headerLine == headerEnd == 0)
      && (status == CgiStarted ==> filepos == filesize)
    }

    ghost function Now(alive: bool): Stage
      requires Valid()
      reads this, area, buffer
    {
      Stage(input, filepos, headerEnd - headerLine, status, alive)
    }

    /** The header ended at `check`; what was received behind it is the start of the body, cut at
        the announced length. */
    constructor (clientStream: array<char>, check: nat, received: nat, length: nat)
      requires check <= received <= clientStream.Length
      ensures Valid() && fresh(buffer) && area == clientStream && filesize == length
      ensures spooled == [] && status == BodyWrite && early == received - check
      ensures input == clientStream[check..received]
    {
      filesize := length;
      buffer := new char[BUFFER_SIZE + 1];
      area := clientStream;
      headerLine := check;
      headerEnd := if received - check > length then check + length else received;
      filepos := 0;
      status := BodyWrite;
      early := received - check;
      input := clientStream[check..received];
      spooled := [];
    }

    /** `write_body`: -1 blocked, 0 failed or the CGI's start, 1 more to do. */
    method WriteBody(w: Transfer) returns (retval: int)
      requires Valid() && status == BodyWrite
      modifies this
      ensures Valid() && input == old(input) && area in {old(area), buffer}
      ensures Now(retval != 0) == Written(old(Now(true)), filesize, w)
      ensures retval == -1 <==> old(headerLine) < old(headerEnd) && w.Busy?
      ensures old(spooled) <= spooled
      ensures -1 <= retval <= 1
      ensures status == CgiStarted ==> spooled == input[..filesize] && |spooled| == filesize
      ensures w.Moved? && old(headerLine) < old(headerEnd) ==> retval == 1
      ensures |spooled| > |old(spooled)| ==> status == BodyWrite
      ensures status == BodyRead ==> |input| < filesize
      ensures old(headerLine) == old(headerEnd) ==>
                status == if filepos >= filesize then CgiStarted else BodyRead
      ensures old(headerLine) < old(headerEnd) && w.Moved? && w.n > 0 ==> filepos > old(filepos)
      ensures status == BodyWrite ==> area == old(area)
    {
      var bytesToWrite := headerEnd - headerLine;
      if filepos + bytesToWrite > filesize {
        bytesToWrite := filesize - filepos;
      }
      if bytesToWrite == 0 {
        area, headerLine, headerEnd := buffer, 0, 0;
        if filepos >= filesize {
          status := CgiStarted;
          return 0;
        }
        status := BodyRead;
        return 1;
      }
      match w {
        case Busy => return -1;
        case Interrupted => return 1;
        case Broken => return 0;
        case Moved(n) =>
          var k := Min(n, bytesToWrite);
          SpoolBytes(k);
          return 1;
      }
    }

    lemma Pending(k: nat)
      requires Valid() && k <= headerEnd - headerLine
      ensures spooled + area[headerLine..headerLine + k] == input[..filepos + k]
      ensures area[headerLine + k..headerEnd] == input[filepos + k..filepos + (headerEnd - headerLine)]
    {
      TakenOff(area[..], headerLine, headerEnd, input, filepos, k);
    }

    /** The temporary file takes the first k pending bytes. */
    method SpoolBytes(k: nat)
      requires Valid() && status == BodyWrite && k <= headerEnd - headerLine
      modifies `spooled, `filepos, `headerLine
      ensures Valid() && filepos == old(filepos) + k && spooled == old(spooled) + old(area[headerLine..headerLine + k])
    {
      Pending(k);
      spooled := spooled + area[headerLine..headerLine + k];
      filepos := filepos + k;
      headerLine := headerLine + k;
    }

    /** `read_body`: never asks the socket for bytes past the announced length. */
    method ReadBody(got: Arrival) returns (retval: int)
      requires Valid() && status == BodyRead
      modifies this, buffer
      ensures Valid() && spooled == old(spooled) && area == buffer
      ensures Now(retval != 0) == Fetched(old(Now(true)), filesize, got)
      ensures retval == -1 <==> old(filepos) < filesize && got.WouldBlock?
      ensures old(input) <= input && |input| <= (if |old(input)| < filesize then filesize else |old(input)|)
      ensures input != old(input) ==> got.Bytes? && input[|old(input)|..] <= got.data
      ensures -1 <= retval <= 1 && status != CgiStarted
      ensures got.Bytes? && got.data != [] ==> retval == 1 && (|input| > |old(input)| || filepos == filesize)
      ensures retval == 1 ==> status == BodyWrite
      ensures filepos == old(filepos)
    {
      var bytesFree := BUFFER_SIZE - (headerEnd - headerLine);
      var bytesToRead := filesize - filepos;
      if bytesToRead > bytesFree {
        bytesToRead := bytesFree;
      }
      if bytesToRead <= 0 {
        status := BodyWrite;
        return 1;
      }
      match got {
        case WouldBlock => return -1;
        case Failed => return 0;
        case Bytes(data) =>
          var k := Min(|data|, bytesToRead);
          if k == 0 {
            return 0;
          }
          Receive(data[..k]);
          return 1;
      }
    }

    /** Bytes of the body arrive in the empty buffer. */
    method Receive(data: string)
      requires Valid() && status == BodyRead && 0 < |data| <= BUFFER_SIZE && filepos + |data| <= filesize
      modifies `headerEnd, `status, `input, buffer
      ensures Valid() && status == BodyWrite && input == old(input) + data && headerEnd == |data|
    {
      forall i | 0 <= i < |data| {
        area[headerEnd + i] := data[i];
      }
      status := BodyWrite;
      assert area[headerEnd..headerEnd + |data|] == data;
      headerEnd := headerEnd + |data|;
      assert input == input[..filepos];
      input := input + data;
    }

    /** Any interleaving of reads and writes: the file always holds the first bytes of the body, and
        when the CGI starts it holds all of the announced length and nothing else. */
    method Run(gots: nat -> Arrival, writes: nat -> Transfer, turns: nat) returns (alive: bool)
      requires Valid() && status != CgiStarted && area != buffer
      modifies this, buffer
      ensures Valid() && spooled == input[..filepos] && old(input) <= input
      ensures Now(alive) == Course(old(Now(true)), filesize, gots, writes, turns)
      ensures |input| <= (if |old(input)| < filesize then filesize else |old(input)|)
      ensures status == CgiStarted ==> |spooled| == filesize && spooled == input[..filesize]
    {
      hide Written, Fetched;
      alive := true;
      ghost var start := Now(true);
      var i := 0;
      while i < turns && alive && status != CgiStarted
        invariant Valid() && old(input) <= input && i <= turns
        invariant Now(alive) == Course(start, filesize, gots, writes, i)
        invariant |input| <= (if |old(input)| < filesize then filesize else |old(input)|)
      {
        var retval: int;
        if status == BodyRead {
          retval := ReadBody(gots(i));
        } else {
          retval := WriteBody(writes(i));
        }
        alive := retval != 0;
        i := i + 1;
      }
      if i < turns {
        CourseOver(start, filesize, gots, writes, i, turns);
      }
    }

    /** A client that keeps sending and a file that keeps accepting bring the CGI up. */
    method RunWilling(gots: nat -> Arrival, writes: nat -> Transfer)
      requires Valid() && status == BodyWrite
      requires forall i :: gots(i).Bytes? && gots(i).data != []
      requires forall i :: writes(i).Moved? && writes(i).n > 0
      modifies this, buffer
      ensures Valid() && status == CgiStarted && spooled == input[..filesize]
    {
      var i := 0;
      while status != CgiStarted
        invariant Valid()
        invariant status == BodyRead ==> |input| < filesize
        decreases filesize - filepos, status != CgiStarted, if |input| < filesize then filesize - |input| else 0,
                  status == BodyWrite
      {
        if status == BodyRead {
          var _ := ReadBody(gots(i));
        } else {
          var _ := WriteBody(writes(i));
        }
        i := i + 1;
      }
    }
  }
}
