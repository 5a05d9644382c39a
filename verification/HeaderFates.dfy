/** What becomes of a connection's bytes, read in one pass: which headers are complete, and whether
    the server refuses what follows. The judgement of a line stands for `process_logline` and
    `process_option_line`; everything else that ends a request is src/read.c's own. */
module HeaderFates {
  import opened HeaderLines
  import Sequences

  const MAX_HEADER_LENGTH := 1024

  /** The bytes the scanner lets through. */
  predicate Legal(c: char) {
    c == '\r' || c == '\n' || c == '\t' || 32 <= c as int <= 127
  }

  predicate AllLegal(s: string) {
    forall i :: 0 <= i < |s| ==> Legal(s[i])
  }

  /** What the handler of a line says: refuse the request, go on, or answer at once (HTTP/0.9). */
  datatype Verdict = Refuse | GoOn | Simple

  type Judge = seq<string> -> Verdict

  /** The verdict on one more line: too long a line is refused unseen, and only the first line of a
      request can make it a simple one. */
  function LineVerdict(lines: seq<string>, text: string, judge: Judge): Verdict {
    if |text| >= MAX_HEADER_LENGTH then Refuse
    else if judge(lines + [text]) == Simple && lines != [] then GoOn
    else judge(lines + [text])
  }

  /** A request so far: unfinished, with a complete header, answered after its only line, or refused. */
  datatype Fate =
    | Waiting(lines: seq<string>)
    | Ended(lines: seq<string>, length: nat)
    | Single(lines: seq<string>, length: nat)
    | Refused

  /** A fate seen from n bytes earlier. */
  function Shift(n: nat, f: Fate): Fate {
    match f
    case Ended(lines, length) => Ended(lines, n + length)
    case Single(lines, length) => Single(lines, n + length)
    case _ => f
  }

  function FateOf(t: string, lines: seq<string>, judge: Judge): (f: Fate)
    ensures f.Ended? ==> 0 < f.length <= |t|
    decreases |t|
  {
    if '\n' !in t then if AllLegal(t) then Waiting(lines) else Refused
    else
      var raw := t[..LineEnd(t)];
      if !AllLegal(raw) then Refused
      else if lines != [] && AllCr(raw) then Ended(lines, |raw| + 1)
      else
        var text := StripCr(raw);
        match LineVerdict(lines, text, judge)
        case Refuse => Refused
        case Simple => Single(lines + [text], |raw| + 1)
        case GoOn => Shift(|raw| + 1, FateOf(t[|raw| + 1..], lines + [text], judge))
  }

  /** The fate of a complete line and what follows it. */
  lemma FateLine(raw: string, rest: string, lines: seq<string>, judge: Judge)
    requires '\n' !in raw
    ensures FateOf(raw + ['\n'] + rest, lines, judge) ==
            if !AllLegal(raw) then Refused
            else if lines != [] && AllCr(raw) then Ended(lines, |raw| + 1)
            else match LineVerdict(lines, StripCr(raw), judge)
                 case Refuse => Refused
                 case Simple => Single(lines + [StripCr(raw)], |raw| + 1)
                 case GoOn => Shift(|raw| + 1, FateOf(rest, lines + [StripCr(raw)], judge))
  {
    hide LineVerdict, StripCr;
    LineEndIs(raw, rest);
  }

  /** An illegal byte in the unfinished line is the end, whatever follows. */
  lemma FateIllegal(cur: string, more: string, lines: seq<string>, judge: Judge)
    requires '\n' !in cur && more != [] && !Legal(more[0])
    ensures FateOf(cur + more, lines, judge) == Refused
  {
    var t := cur + more;
    assert t[|cur|] == more[0];
    if '\n' in t {
      var i := LineEnd(t);
      assert forall j :: 0 <= j < |cur| ==> t[j] == cur[j] != '\n';
      assert t[..i][|cur|] == more[0];
    }
  }

  /** Lines that were let through one after the other. */
  predicate Passed(raws: seq<string>, judge: Judge) {
    forall k :: 0 <= k < |raws| ==>
      AllLegal(raws[k]) && LineVerdict(StripAll(raws)[..k], StripAll(raws)[k], judge) == GoOn
  }

  lemma {:induction false} StripAllAt(raws: seq<string>, k: nat)
    requires k < |raws|
    ensures StripAll(raws)[k] == StripCr(raws[k])
  {
    if k > 0 {
      StripAllAt(raws[1..], k - 1);
    }
  }

  lemma PassedSnoc(raws: seq<string>, raw: string, judge: Judge)
    requires Passed(raws, judge) && AllLegal(raw) && LineVerdict(StripAll(raws), StripCr(raw), judge) == GoOn
    ensures Passed(raws + [raw], judge)
  {
    var all := StripAll(raws) + [StripCr(raw)];
    JoinSnoc(raws, raw);
    hide StripAll, StripCr, LineVerdict;
    assert all[..|raws|] == StripAll(raws);
    assert forall k :: 0 <= k < |raws| ==> all[..k] == StripAll(raws)[..k] && all[k] == StripAll(raws)[k];
  }

  /** Lines that passed are read past. */
  lemma {:induction false} FateFrom(raws: seq<string>, i: nat, rest: string, judge: Judge)
    requires Inner(raws, true) && Passed(raws, judge) && i <= |raws|
    ensures FateOf(Join(raws[i..]) + rest, StripAll(raws)[..i], judge)
            == Shift(|Join(raws[i..])|, FateOf(rest, StripAll(raws), judge))
    decreases |raws| - i
  {
    hide *;
    var lines := StripAll(raws);
    if i == |raws| {
      NoneLeft(raws, rest);
    } else {
      var raw, later := raws[i], Join(raws[i + 1..]);
      FateFrom(raws, i + 1, rest, judge);
      OneLeft(raws, i, judge);
      FateLine(raw, later + rest, lines[..i], judge);
      Sequences.Assoc(raw + ['\n'], later, rest);
      ShiftTwice(|raw| + 1, |later|, FateOf(rest, lines, judge));
    }
  }

  lemma ShiftTwice(n: nat, m: nat, f: Fate)
    ensures Shift(n, Shift(m, f)) == Shift(n + m, f)
  {
  }

  lemma NoneLeft(raws: seq<string>, rest: string)
    ensures StripAll(raws)[..|raws|] == StripAll(raws)
    ensures Join(raws[|raws|..]) == [] && Join(raws[|raws|..]) + rest == rest
    ensures forall f :: Shift(0, f) == f
  {
    assert Join([]) == [];
  }

  lemma OneLeft(raws: seq<string>, i: nat, judge: Judge)
    requires Inner(raws, true) && Passed(raws, judge) && i < |raws|
    ensures '\n' !in raws[i] && AllLegal(raws[i]) && !(i > 0 && AllCr(raws[i]))
    ensures Join(raws[i..]) == raws[i] + ['\n'] + Join(raws[i + 1..])
    ensures |Join(raws[i..])| == |raws[i]| + 1 + |Join(raws[i + 1..])|
    ensures var lines := StripAll(raws);
            lines[..i] + [StripCr(raws[i])] == lines[..i + 1] && (lines[..i] == [] <==> i == 0)
            && LineVerdict(lines[..i], StripCr(raws[i]), judge) == GoOn
  {
    StripAllAt(raws, i);
    hide StripAll, StripCr, LineVerdict, AllLegal, AllCr;
    assert raws[i..][0] == raws[i] && raws[i..][1..] == raws[i + 1..];
  }

  lemma FateOfJoin(raws: seq<string>, rest: string, judge: Judge)
    requires Inner(raws, true) && Passed(raws, judge)
    ensures FateOf(Join(raws) + rest, [], judge) == Shift(|Join(raws)|, FateOf(rest, StripAll(raws), judge))
  {
    FateFrom(raws, 0, rest, judge);
    assert raws[0..] == raws && StripAll(raws)[..0] == [];
  }

  /** A fate once settled is not changed by further bytes. */
  lemma {:induction false} FateExtends(t: string, more: string, lines: seq<string>, judge: Judge)
    requires !FateOf(t, lines, judge).Waiting?
    ensures FateOf(t + more, lines, judge) == FateOf(t, lines, judge)
    decreases |t|
  {
    if '\n' in t {
      var i := LineEnd(t);
      Recut(t, i, more);
      FateLine(t[..i], t[i + 1..], lines, judge);
      FateLine(t[..i], t[i + 1..] + more, lines, judge);
      if AllLegal(t[..i]) && !(lines != [] && AllCr(t[..i])) && LineVerdict(lines, StripCr(t[..i]), judge) == GoOn {
        FateExtends(t[i + 1..], more, lines + [StripCr(t[..i])], judge);
      }
    } else {
      var k :| 0 <= k < |t| && !Legal(t[k]);
      FateIllegal(t[..k], t[k..] + more, lines, judge);
      assert t[..k] + (t[k..] + more) == t + more;
    }
  }

  /** A complete header is complete without the bytes behind it. */
  lemma {:induction false} FateCut(t: string, lines: seq<string>, judge: Judge)
    requires FateOf(t, lines, judge).Ended?
    ensures FateOf(t[..FateOf(t, lines, judge).length], lines, judge) == FateOf(t, lines, judge)
    decreases |t|
  {
    var i := LineEnd(t);
    var raw, rest, n := t[..i], t[i + 1..], FateOf(t, lines, judge).length;
    Recut(t, i, []);
    FateLine(raw, rest, lines, judge);
    if lines != [] && AllCr(raw) {
      FateLine(raw, [], lines, judge);
      assert t[..n] == raw + ['\n'] + [];
    } else {
      var lines' := lines + [StripCr(raw)];
      var m := FateOf(rest, lines', judge).length;
      FateCut(rest, lines', judge);
      FateLine(raw, rest[..m], lines, judge);
      assert t[..n] == raw + ['\n'] + rest[..m];
    }
  }

  /** As far as nothing is refused, the fate is the header read without a judge. */
  lemma {:induction false} FateIsHeader(t: string, lines: seq<string>, judge: Judge)
    ensures var f, h := FateOf(t, lines, judge), HeaderOf(t, lines == []);
            && (f.Ended? ==> h.ended && h.length == f.length && f.lines == lines + h.lines)
            && (f.Waiting? ==> !h.ended && f.lines == lines + h.lines)
    decreases |t|
  {
    if '\n' !in t {
      Sequences.Neutral(lines);
    } else {
      var i := LineEnd(t);
      var raw, rest := t[..i], t[i + 1..];
      Recut(t, i, []);
      hide *;
      FateLine(raw, rest, lines, judge);
      FirstLine(raw, rest, lines == []);
      var text := StripCr(raw);
      if AllLegal(raw) && !(lines != [] && AllCr(raw)) && LineVerdict(lines, text, judge) == GoOn {
        FateIsHeader(rest, lines + [text], judge);
        OneMoreLine(lines, text, |raw| + 1, FateOf(rest, lines + [text], judge), HeaderOf(rest, false));
      } else {
        Sequences.Neutral(lines);
      }
    }
  }

  lemma OneMoreLine(lines: seq<string>, text: string, n: nat, f: Fate, h: Header)
    requires f.Ended? ==> h.ended && h.length == f.length && f.lines == lines + [text] + h.lines
    requires f.Waiting? ==> !h.ended && f.lines == lines + [text] + h.lines
    ensures var f', h' := Shift(n, f), Preceded([text], n, h);
            && (f'.Ended? ==> h'.ended && h'.length == f'.length && f'.lines == lines + h'.lines)
            && (f'.Waiting? ==> !h'.ended && f'.lines == lines + h'.lines)
  {
    Sequences.Assoc(lines, [text], h.lines);
  }

  // ---- A whole connection ----

  /** The headers of the complete requests, the bytes they take, and the fate of what follows. */
  datatype Talk = Talk(headers: seq<seq<string>>, length: nat, rest: Fate)

  function Conversation(t: string, judge: Judge): (c: Talk)
    ensures c.length <= |t| && !c.rest.Ended?
    decreases |t|
  {
    var f := FateOf(t, [], judge);
    if !f.Ended? then Talk([], 0, f)
    else
      var c := Conversation(t[f.length..], judge);
      Talk([f.lines] + c.headers, f.length + c.length, c.rest)
  }

  /** Bytes behind requests consumed to the end are read as if they came first. */
  lemma {:induction false} ConversationConcat(a: string, b: string, judge: Judge)
    requires Conversation(a, judge).length == |a|
    ensures var c := Conversation(b, judge);
            Conversation(a + b, judge) == Talk(Conversation(a, judge).headers + c.headers, |a| + c.length, c.rest)
    decreases |a|
  {
    var f, c := FateOf(a, [], judge), Conversation(b, judge);
    hide FateOf;
    if f.Ended? {
      FateExtends(a, b, [], judge);
      var rest := a[f.length..];
      ConversationConcat(rest, b, judge);
      assert (a + b)[f.length..] == rest + b;
      Sequences.Assoc([f.lines], Conversation(rest, judge).headers, c.headers);
    } else {
      assert a == [];
      Sequences.Neutral(b);
      Sequences.Neutral(c.headers);
    }
  }

  lemma ConversationOne(t: string, lines: seq<string>, judge: Judge)
    requires FateOf(t, [], judge) == Ended(lines, |t|)
    ensures Conversation(t, judge).headers == [lines] && Conversation(t, judge).length == |t|
  {
    assert t[|t|..] == [];
    assert Conversation([], judge).headers == [] && Conversation([], judge).length == 0;
    hide FateOf;
    Sequences.Neutral([lines]);
  }

  /** More bytes never take a header back. */
  lemma {:induction false} ConversationGrows(t: string, more: string, judge: Judge)
    ensures Conversation(t, judge).headers <= Conversation(t + more, judge).headers
    decreases |t|
  {
    var f := FateOf(t, [], judge);
    hide FateOf;
    if f.Ended? {
      FateExtends(t, more, [], judge);
      ConversationGrows(t[f.length..], more, judge);
      assert (t + more)[f.length..] == t[f.length..] + more;
    }
  }

  /** The headers are those of a reading without a judge: all of them while nothing is refused. */
  lemma {:induction false} ConversationIsRequests(t: string, judge: Judge)
    ensures var c, p := Conversation(t, judge), Requests(t);
            && c.headers <= p.headers
            && (c.rest.Waiting? ==> c.headers == p.headers && c.length == p.length)
    decreases |t|
  {
    var f := FateOf(t, [], judge);
    FateIsHeader(t, [], judge);
    hide FateOf, HeaderOf;
    RequestsStep(t);
    if f.Ended? {
      assert [] + HeaderOf(t, true).lines == HeaderOf(t, true).lines;
      ConversationIsRequests(t[f.length..], judge);
    }
  }
}
