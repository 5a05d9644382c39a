/** From the Range line of a request to the bytes on the socket: the branches of `init_get` in
    src/get.c between `range_parse`, `ranges_fixup` and the reply that `io_shuffle` sends. */
module RangeReply {
  import opened Numerals
  import opened Options
  import opened RangeSpecs
  import opened RangeLists
  import opened ReplyStream
  import Sequences

  const MULTIPART := "Content-Type: multipart/byteranges; boundary=THIS_STRING_SEPARATES\r\n"

  /** What decides a static reply: the value of the Range line if there is one, a file that is not
      empty, the kind of request, the content type line, the header of a 200 reply and the first
      lines of a 206 one. */
  datatype Ask = Ask(value: Option<string>, file: string, isHead: bool, contentType: string, okHead: string,
                     partialHead: string)
  {
    predicate Proper() {
      0 < |file| <= INT_MAX && (value.Some? ==> '\0' !in value.value)
    }

    /** The ranges asked for, none without a Range line; None when the line is refused. */
    function Specs(): Option<seq<Range>> {
      if value == None then Some([])
      else if BytesUnit(value.value) then SpecList(value.value[6..])
      else None
    }

    /** What the reply is made of: the satisfiable ranges, or the whole file if none was asked for. */
    function Ranges(): seq<Range>
      requires Proper() && Specs().Some?
    {
      if Specs().value == [] then [Range(0, |file| - 1)] else FixAll(Specs().value, |file|)
    }

    function ReplyPlan(): Plan
      requires Specs().Some?
    {
      Plan(file, isHead, Specs().value != [], |Specs().value|, contentType)
    }

    /** The lines `send_r_request_ok` or `send_r_partial_content` write. The first part's head ends a 206 header. */
    function Header(): string
      requires Proper() && Specs().Some? && Ranges() != []
    {
      var first := Ranges()[0];
      if Specs().value == [] then okHead
      else partialHead
           + (if |Specs().value| > 1 then MULTIPART + CRLF
              else "Content-Length: " + Decimal(Extent(first)) + CRLF)
           + ReplyPlan().PartHead(first)
    }

    /** Everything the client is owed; None for a 416 reply or a header that does not fit the buffer. */
    function Stream(): Option<string>
      requires Proper()
    {
      if Specs() == None || Ranges() == [] || |Header()| > BUFFER_SIZE then None
      else
        Serviceable();
        Some(Header() + ReplyPlan().Payload(Ranges()))
    }

    /** No block can be lost on the way: one part only, part heads with room, or a short HEAD reply. */
    predicate Roomy()
      requires Proper() && Stream().Some?
    {
      Serviceable();
      ReplyPlan().Roomy(Ranges()[1..], |Stream().value|)
    }

    lemma Serviceable()
      requires Proper() && Specs().Some? && Ranges() != []
      ensures ReplyPlan().Consistent(Ranges())
    {
      if Specs().value != [] {
        FixedRangesAreServable(file, isHead, Specs().value, contentType);
      }
    }
  }

  /** The number of bytes in a range, as the code computes it. */
  function Extent(r: Range): nat {
    if r.start <= r.stop then r.stop - r.start + 1 else 0
  }

  /** `init_get` for a request that has read its Range line: null for a 416 reply, and for a request
      given up because its header does not fit. */
  method Respond(st: RangeState, ask: Ask) returns (reply: Reply?)
    requires st.Valid() && st.specs == [] && st.numranges == 0 && ask.Proper()
    modifies st, st.nodes
    ensures reply != null <==> ask.Stream().Some?
    ensures reply != null ==> fresh(reply) && fresh(reply.buffer) && reply.Valid()
    ensures reply != null ==> reply.status == Shuffling && reply.dataOpen && reply.sent == []
    ensures reply != null ==> reply.stream == ask.Stream().value && reply.roomy == ask.Roomy()
  {
    var ok, partial := Settle(st, ask);
    if !ok {
      return null;
    }
    var rs := st.Listed();
    ask.Serviceable();
    var header := ask.Header();
    if |header| > BUFFER_SIZE {
      return null;
    }
    reply := new Reply(Plan(ask.file, ask.isHead, partial, st.numranges, ask.contentType), header, rs);
  }

  /** `range_parse` for the Range line, if there is one. */
  method ParseLine(st: RangeState, ask: Ask) returns (ok: bool)
    requires st.Valid() && st.specs == [] && st.numranges == 0 && ask.Proper()
    modifies st, st.nodes
    ensures st.Valid() && ok == ask.Specs().Some?
    ensures ok ==> st.specs == ask.Specs().value && st.numranges == |st.specs|
    ensures old(st.nodes) <= st.nodes && fresh(st.nodes - old(st.nodes))
  {
    hide SpecList, Submitted;
    ok := true;
    if ask.value.Some? {
      ok := st.Parse(ask.value.value);
      if ok {
        Sequences.Neutral(ask.Specs().value);
      }
    }
  }

  /** The list is parsed and fixed up, or replaced by the default range when there is none. */
  method Settle(st: RangeState, ask: Ask) returns (ok: bool, partial: bool)
    requires st.Valid() && st.specs == [] && st.numranges == 0 && ask.Proper()
    modifies st, st.nodes
    ensures st.Valid() && (ok <==> ask.Specs().Some? && ask.Ranges() != [])
    ensures ok ==> st.specs == ask.Ranges() && st.numranges == |ask.Specs().value|
    ensures ok ==> partial == (ask.Specs().value != [])
  {
    hide SpecList, FixAll;
    ok := ParseLine(st, ask);
    if !ok {
      return false, false;
    }
    partial := st.ranges != null;
    Listing(st);
    hide Ask.Specs;
    if !partial {
      st.Flag();
      WholeFile(|ask.file|);
    }
    assert FixAll(st.specs, |ask.file|) == ask.Ranges();
    hide Ask.Ranges;
    ok := st.Fixup(|ask.file|);
  }

  lemma Listing(st: RangeState)
    requires st.Valid()
    ensures st.ranges == null <==> st.specs == []
    ensures st.ranges == null ==> st.listed == []
  {
    st.ChainHead();
    HoldsLength(st.listed, st.specs);
  }

  lemma WholeFile(size: nat)
    requires 0 < size <= INT_MAX
    ensures FixAll([Range(0, MARK)], size) == [Range(0, size - 1)]
  {
    assert FixOne(Range(0, MARK), size) == Some(Range(0, size - 1));
    assert [Range(0, MARK)][1..] == [];
  }

  /** From the Range line to the socket: whatever the client and the file do, the client has a prefix
      of the reply its header asked for, and on release the whole of it exactly if the reply ended
      done with nothing buffered. */
  method Answer(st: RangeState, ask: Ask, script: seq<Io>) returns (reply: Reply?, released: bool)
    requires st.Valid() && st.specs == [] && st.numranges == 0 && ask.Proper()
    modifies st, st.nodes
    ensures reply != null <==> ask.Stream().Some?
    ensures reply != null ==> fresh(reply) && reply.sent <= ask.Stream().value
    ensures reply != null && released && ask.Roomy() ==>
              (reply.sent == ask.Stream().value <==> reply.status == Done && reply.bufferEnd == 0)
  {
    released := false;
    reply := Respond(st, ask);
    if reply != null {
      released := reply.Serve(script);
    }
  }

  /** A willing client and a file that keeps its bytes: exactly the bytes asked for arrive. */
  method AnswerWilling(st: RangeState, ask: Ask, script: nat -> Io) returns (reply: Reply?)
    requires st.Valid() && st.specs == [] && st.numranges == 0 && ask.Proper()
    requires forall i :: script(i).AllWilling()
    modifies st, st.nodes
    ensures reply != null <==> ask.Stream().Some?
    ensures reply != null ==> fresh(reply) && reply.sent <= ask.Stream().value
    ensures reply != null && ask.Roomy() ==> reply.sent == ask.Stream().value
  {
    reply := Respond(st, ask);
    if reply != null && ask.Roomy() {
      reply.ServeWilling(script);
    }
  }

  // ---- What a client reads off its own request ----

  /** The line "bytes=" with the specs printed behind it. */
  function RangeLine(xs: seq<Range>): string
    requires forall i :: 0 <= i < |xs| ==> Sayable(xs[i])
  {
    "bytes=" + ShowList(xs)
  }

  lemma LineIsRead(xs: seq<Range>)
    requires forall i :: 0 <= i < |xs| ==> Sayable(xs[i])
    ensures BytesUnit(RangeLine(xs)) && SpecList(RangeLine(xs)[6..]) == Some(xs)
  {
    PrintedListIsRead(xs);
    hide SpecList, ShowList;
    assert RangeLine(xs)[6..] == ShowList(xs);
  }

  lemma LineIsAsked(ask: Ask, xs: seq<Range>)
    requires forall i :: 0 <= i < |xs| ==> Sayable(xs[i])
    requires ask.value == Some(RangeLine(xs))
    ensures ask.Specs() == Some(xs)
  {
    LineIsRead(xs);
  }

  lemma AskedRanges(ask: Ask, xs: seq<Range>)
    requires ask.Proper() && ask.Specs() == Some(xs) && xs != []
    ensures ask.Ranges() == FixAll(xs, |ask.file|)
    ensures ask.Stream().Some? <==> ask.Ranges() != [] && |ask.Header()| <= BUFFER_SIZE
  {
    hide FixAll, Ask.Specs;
  }

  /** Specs the fixup gives their meaning: none is a suffix as long as the file. */
  predicate Plain(xs: seq<Range>, size: nat) {
    && (forall i :: 0 <= i < |xs| ==> Sayable(xs[i]))
    && (forall i :: 0 <= i < |xs| ==> !(xs[i].start == MARK && xs[i].stop >= size))
  }

  lemma PlainIsMeant(xs: seq<Range>, size: nat)
    requires 0 < size <= INT_MAX && Plain(xs, size)
    ensures FixAll(xs, size) == Meanings(xs, size)
  {
    HeaderMeansWhatItSays(xs, size);
  }

  /** A printed line without a suffix as long as the file is answered with what RFC 2616 says it means. */
  lemma AnsweredAsMeant(ask: Ask, xs: seq<Range>)
    requires ask.Proper() && xs != [] && Plain(xs, |ask.file|)
    requires ask.value == Some(RangeLine(xs))
    ensures ask.Specs() == Some(xs) && ask.Ranges() == Meanings(xs, |ask.file|)
    ensures ask.Stream().Some? <==> ask.Ranges() != [] && |ask.Header()| <= BUFFER_SIZE
  {
    hide FixAll, Meanings, SpecList, ShowList, Ask.Header, BytesUnit;
    LineIsAsked(ask, xs);
    AskedRanges(ask, xs);
    PlainIsMeant(xs, |ask.file|);
  }

  /** One range from a to b asked with GET: the bytes from a to b, or to the end of a shorter file. */
  lemma OneRangeAnswered(ask: Ask, a: nat, b: nat)
    requires ask.Proper() && !ask.isHead && a <= b < MARK && a < |ask.file|
    requires ask.value == Some(RangeLine([Range(a, b)]))
    ensures ask.Specs() == Some([Range(a, b)])
    ensures var last := Min(b, |ask.file| - 1);
            && ask.Ranges() == [Range(a, last)]
            && (|ask.Header()| <= BUFFER_SIZE ==>
                  ask.Stream() == Some(ask.Header() + ask.file[a..last + 1]) && ask.Roomy())
  {
    var r := Range(a, Min(b, |ask.file| - 1));
    AnsweredAsMeant(ask, [Range(a, b)]);
    OneMeaning(Range(a, b), |ask.file|);
    assert ask.Ranges() == [r];
    ask.Serviceable();
    hide Meanings, SpecList;
    OnePartPayload(ask.ReplyPlan(), r);
    Sequences.Neutral(ask.file[a..r.stop + 1]);
  }

  lemma OneMeaning(x: Range, size: nat)
    requires 0 < size && Sayable(x)
    ensures Meanings([x], size) == if Meaning(x, size).Some? then [Meaning(x, size).value] else []
  {
    assert [x][1..] == [];
  }

  /** Without a Range line, or with one that lists nothing, the whole file follows the 200 header. */
  lemma WholeAnswered(ask: Ask)
    requires ask.Proper() && ask.Specs() == Some([]) && |ask.okHead| <= BUFFER_SIZE
    ensures ask.Stream() == Some(ask.okHead + if ask.isHead then [] else ask.file) && ask.Roomy()
  {
    WholeEntity(ask.ReplyPlan());
  }

  /** The length announced for a single range is that of the payload. */
  lemma LengthIsTrue(ask: Ask)
    requires ask.Proper() && !ask.isHead && ask.Specs().Some? && |ask.Specs().value| == 1 && ask.Ranges() != []
    ensures ask.ReplyPlan().Consistent(ask.Ranges())
    ensures |ask.ReplyPlan().Payload(ask.Ranges())| == Extent(ask.Ranges()[0])
    ensures var n := |ask.ReplyPlan().Payload(ask.Ranges())|;
            ask.partialHead + ("Content-Length: " + Decimal(n) + CRLF) <= ask.Header()
  {
    ask.Serviceable();
  }

  /** When no block can be lost: a GET with a content type line of usual length, a single range, or a
      HEAD reply that fits the buffer. */
  lemma UsuallyRoomy(ask: Ask)
    requires ask.Proper() && ask.Stream().Some?
    ensures !ask.isHead && |ask.contentType| <= 172 ==> ask.Roomy()
    ensures |ask.Specs().value| <= 1 ==> ask.Roomy()
    ensures ask.isHead && |ask.Specs().value| > 1 ==> (ask.Roomy() <==> |ask.Stream().value| <= BUFFER_SIZE)
  {
    ask.Serviceable();
    if !ask.isHead && |ask.contentType| <= 172 {
      ShortTypeIsRoomy(ask.ReplyPlan(), ask.Ranges()[1..], |ask.Stream().value|);
    }
  }
}
