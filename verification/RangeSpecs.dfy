/** Byte ranges as values: the table automaton of src/range.c against a recursive-descent reading of
    section 14.35.1 of RFC 2616, and the fixup against the size of the file. `unsigned long` has
    32 bits. */
module RangeSpecs {
  import Sequences
  import opened Numerals
  import opened Options

  /** The marker for "not given", (unsigned long) -1. */
  const MARK := 0xFFFF_FFFF
  const LONG_MAX := 0x7FFF_FFFF

  /** A range of bytes, both ends inclusive; as parsed, either end may be the marker. */
  datatype Range = Range(start: nat, stop: nat)

  // ---- The automaton ----

  datatype Mode = Initial | StartNum | Gap1 | Gap2 | StopNum
  datatype Code = Digit | White | Comma | Hyphen | Null | Other
  datatype Push = Keep | PushBeginning | PushEnd | DisableBeginning | DisableEnd
  datatype Action = Continue | AbortRange | SubmitRange
  datatype Entry = Entry(push: Push, action: Action, next: Mode)

  function CodeOf(c: char): Code {
    if IsDigit(c) then Digit
    else if c == ' ' || c == '\n' || c == '\r' || c == '\t' || c == 11 as char || c == 12 as char then White
    else if c == ',' then Comma
    else if c == '-' then Hyphen
    else if c == '\0' then Null
    else Other
  }

  /** The transition table; an abort leaves no next state that matters. */
  function Table(mode: Mode, code: Code): Entry {
    var abort := Entry(Keep, AbortRange, Initial);
    match mode
    case Initial => (
      match code
      case Digit => Entry(PushBeginning, Continue, StartNum)
      case White => Entry(Keep, Continue, Initial)
      case Comma => Entry(Keep, Continue, Initial)
      case Hyphen => Entry(DisableBeginning, Continue, Gap2)
      case Null => Entry(Keep, Continue, Initial)
      case Other => abort)
    case StartNum => (
      match code
      case Digit => Entry(PushBeginning, Continue, StartNum)
      case White => Entry(Keep, Continue, Gap1)
      case Hyphen => Entry(Keep, Continue, Gap2)
      case _ => abort)
    case Gap1 => (
      match code
      case White => Entry(Keep, Continue, Gap1)
      case Hyphen => Entry(Keep, Continue, Gap2)
      case _ => abort)
    case Gap2 => (
      match code
      case Digit => Entry(PushEnd, Continue, StopNum)
      case White => Entry(Keep, Continue, Gap2)
      case Comma => Entry(DisableEnd, SubmitRange, Initial)
      case Null => Entry(DisableEnd, SubmitRange, Initial)
      case _ => abort)
    case StopNum => (
      match code
      case Digit => Entry(PushEnd, Continue, StopNum)
      case White => Entry(Keep, SubmitRange, Initial)
      case Comma => Entry(Keep, SubmitRange, Initial)
      case Null => Entry(Keep, SubmitRange, Initial)
      case _ => abort)
  }

  function PushDigit(n: nat, c: char): (r: nat)
    requires IsDigit(c)
    ensures r <= MARK
  {
    (n * 10 + DigitValue(c)) % (MARK + 1)
  }

  function NextStart(start: nat, push: Push, c: char): nat
    requires push == PushBeginning ==> IsDigit(c)
  {
    if push == PushBeginning then PushDigit(start, c) else if push == DisableBeginning then MARK else start
  }

  function NextStop(stop: nat, push: Push, c: char): nat
    requires push == PushEnd ==> IsDigit(c)
  {
    if push == PushEnd then PushDigit(stop, c) else if push == DisableEnd then MARK else stop
  }

  /** The ranges the automaton submits while reading s and the NUL behind it; None when it aborts. */
  function Run(mode: Mode, start: nat, stop: nat, s: string): Option<seq<Range>>
    decreases |s|
  {
    var c := if s == [] then '\0' else s[0];
    var code := CodeOf(c);
    var entry := Table(mode, code);
    var start', stop' := NextStart(start, entry.push, c), NextStop(stop, entry.push, c);
    if entry.action == AbortRange then None
    else if entry.action == SubmitRange && start' == stop' == MARK then None
    else
      var out := if entry.action == SubmitRange then [Range(start', stop')] else [];
      var (start'', stop'') := if entry.action == SubmitRange then (0, 0) else (start', stop');
      if s == [] || code == Null then Some(out)
      else
        var rest := Run(entry.next, start'', stop'', s[1..]);
        if rest == None then None else Some(out + rest.value)
  }

  /** Ranges already submitted, in front of what the rest submits. */
  function Join(out: seq<Range>, rest: Option<seq<Range>>): Option<seq<Range>> {
    if rest == None then None else Some(out + rest.value)
  }

  lemma JoinNothing(rest: Option<seq<Range>>)
    ensures Join([], rest) == rest
  {
    if rest.Some? {
      assert [] + rest.value == rest.value;
    }
  }

  lemma JoinTwice(a: seq<Range>, b: seq<Range>, rest: Option<seq<Range>>)
    ensures Join(a, Join(b, rest)) == Join(a + b, rest)
  {
    if rest.Some? {
      assert a + (b + rest.value) == a + b + rest.value;
    }
  }

  /** One step of the automaton. */
  lemma RunStep(mode: Mode, start: nat, stop: nat, s: string)
    requires '\0' !in s
    ensures var c := if s == [] then '\0' else s[0];
            var e := Table(mode, CodeOf(c));
            var start', stop' := NextStart(start, e.push, c), NextStop(stop, e.push, c);
            Run(mode, start, stop, s) ==
            if e.action == AbortRange || (e.action == SubmitRange && start' == stop' == MARK) then None
            else
              var out := if e.action == SubmitRange then [Range(start', stop')] else [];
              if s == [] then Some(out)
              else if e.action == SubmitRange then Join(out, Run(e.next, 0, 0, s[1..]))
              else Join(out, Run(e.next, start', stop', s[1..]))
  {
  }

  /** How many ranges are submitted before the text ends or the automaton aborts. */
  function Submitted(mode: Mode, start: nat, stop: nat, s: string): nat
    decreases |s|
  {
    var c := if s == [] then '\0' else s[0];
    var entry := Table(mode, CodeOf(c));
    var start', stop' := NextStart(start, entry.push, c), NextStop(stop, entry.push, c);
    if entry.action == AbortRange || (entry.action == SubmitRange && start' == stop' == MARK) then 0
    else if s == [] then if entry.action == SubmitRange then 1 else 0
    else if entry.action == SubmitRange then 1 + Submitted(entry.next, 0, 0, s[1..])
    else Submitted(entry.next, start', stop', s[1..])
  }

  lemma SubmittedStep(mode: Mode, start: nat, stop: nat, s: string)
    ensures var c := if s == [] then '\0' else s[0];
            var e := Table(mode, CodeOf(c));
            var start', stop' := NextStart(start, e.push, c), NextStop(stop, e.push, c);
            Submitted(mode, start, stop, s) ==
            if e.action == AbortRange || (e.action == SubmitRange && start' == stop' == MARK) then 0
            else if s == [] then if e.action == SubmitRange then 1 else 0
            else if e.action == SubmitRange then 1 + Submitted(e.next, 0, 0, s[1..])
            else Submitted(e.next, start', stop', s[1..])
  {
  }

  /** A text read to its end has had all its ranges submitted. */
  lemma {:induction false} AllSubmitted(mode: Mode, start: nat, stop: nat, s: string)
    requires '\0' !in s
    ensures Run(mode, start, stop, s).Some? ==> Submitted(mode, start, stop, s) == |Run(mode, start, stop, s).value|
    decreases |s|
  {
    RunStep(mode, start, stop, s);
    hide Run;
    var c := if s == [] then '\0' else s[0];
    var entry := Table(mode, CodeOf(c));
    var start', stop' := NextStart(start, entry.push, c), NextStop(stop, entry.push, c);
    if s != [] {
      if entry.action == SubmitRange {
        AllSubmitted(entry.next, 0, 0, s[1..]);
      } else {
        AllSubmitted(entry.next, start', stop', s[1..]);
      }
    }
  }

  // ---- The reference reading ----

  predicate IsWhite(c: char) {
    CodeOf(c) == White
  }

  function SkipWhite(s: string): (r: string)
    ensures |r| <= |s| && (r != [] ==> !IsWhite(r[0]))
  {
    if s != [] && IsWhite(s[0]) then SkipWhite(s[1..]) else s
  }

  /** The number a digit string stands for in 32-bit arithmetic, continuing from n. */
  function Number(n: nat, digits: string): nat
    requires AllDigits(digits)
    decreases |digits|
  {
    if digits == [] then n else Number(PushDigit(n, digits[0]), digits[1..])
  }

  /** One byte-range-spec at the head of s: first-last, first- or -suffix, with white space allowed
      around the hyphen and after the last number. */
  function OneSpec(s: string): (r: Option<(Range, string)>)
    ensures r.Some? ==> |r.value.1| < |s|
  {
    var first := DigitPrefix(s);
    var beforeHyphen := if first == [] then s else SkipWhite(s[|first|..]);
    if beforeHyphen == [] || beforeHyphen[0] != '-' then None
    else
      var start := if first == [] then MARK else Number(0, first);
      var afterHyphen := SkipWhite(beforeHyphen[1..]);
      var last := DigitPrefix(afterHyphen);
      var rest := afterHyphen[|last|..];
      var stop := if last == [] then MARK else Number(0, last);
      if start == stop == MARK then None
      else if rest == [] || rest[0] == ',' || (last != [] && IsWhite(rest[0])) then Some((Range(start, stop), rest))
      else None
  }

  /** A list of specs separated by commas or white space. */
  function SpecList(s: string): Option<seq<Range>>
    decreases |s|
  {
    if s == [] then Some([])
    else if s[0] == ',' || IsWhite(s[0]) then SpecList(s[1..])
    else
      var one := OneSpec(s);
      if one == None then None
      else
        var rest := SpecList(one.value.1);
        if rest == None then None else Some([one.value.0] + rest.value)
  }

  // ---- They agree ----

  lemma {:induction false} DigitsRun(mode: Mode, start: nat, stop: nat, s: string)
    requires mode == StartNum || mode == StopNum
    ensures var d := DigitPrefix(s);
            Run(mode, start, stop, s) ==
            if mode == StartNum then Run(mode, Number(start, d), stop, s[|d|..])
            else Run(mode, start, Number(stop, d), s[|d|..])
    decreases |s|
  {
    var d := DigitPrefix(s);
    if s == [] || !IsDigit(s[0]) {
      assert d == [] && s[0..] == s;
    } else {
      var start' := if mode == StartNum then PushDigit(start, s[0]) else start;
      var stop' := if mode == StartNum then stop else PushDigit(stop, s[0]);
      DigitsRun(mode, start', stop', s[1..]);
      assert d == [s[0]] + DigitPrefix(s[1..]);
      assert d[1..] == DigitPrefix(s[1..]);
      assert s[|d|..] == s[1..][|d| - 1..];
      RunKeeps(mode, start, stop, s);
    }
  }

  /** A step that submits nothing passes the rest on. */
  lemma RunKeeps(mode: Mode, start: nat, stop: nat, s: string)
    requires s != [] && s[0] != '\0' && Table(mode, CodeOf(s[0])).action == Continue
    ensures var e := Table(mode, CodeOf(s[0]));
            Run(mode, start, stop, s)
            == Run(e.next, NextStart(start, e.push, s[0]), NextStop(stop, e.push, s[0]), s[1..])
  {
    var e := Table(mode, CodeOf(s[0]));
    var rest := Run(e.next, NextStart(start, e.push, s[0]), NextStop(stop, e.push, s[0]), s[1..]);
    hide Table;
    if rest.Some? {
      assert [] + rest.value == rest.value;
    }
  }

  lemma {:induction false} WhiteRun(mode: Mode, start: nat, stop: nat, s: string)
    requires mode == Gap1 || mode == Gap2
    ensures Run(mode, start, stop, s) == Run(mode, start, stop, SkipWhite(s))
  {
    if s != [] && IsWhite(s[0]) {
      RunKeeps(mode, start, stop, s);
      WhiteRun(mode, start, stop, s[1..]);
    }
  }

  function Prepend(spec: Range, rest: Option<seq<Range>>): Option<seq<Range>> {
    if rest == None || spec.start == spec.stop == MARK then None else Some([spec] + rest.value)
  }

  /** A step that submits a range and goes on. */
  lemma RunSubmits(mode: Mode, start: nat, stop: nat, s: string)
    requires s != [] && s[0] != '\0' && Table(mode, CodeOf(s[0])).action == SubmitRange
    ensures var e := Table(mode, CodeOf(s[0]));
            Run(mode, start, stop, s)
            == Prepend(Range(NextStart(start, e.push, s[0]), NextStop(stop, e.push, s[0])), Run(Initial, 0, 0, s[1..]))
  {
  }

  /** After the first number: white space, then the hyphen. */
  lemma AfterFirst(start: nat, t: string)
    requires '\0' !in t && (t != [] ==> !IsDigit(t[0]))
    ensures var b := SkipWhite(t);
            Run(StartNum, start, 0, t) == if b == [] || b[0] != '-' then None else Run(Gap2, start, 0, b[1..])
  {
    var b := SkipWhite(t);
    SkipKeeps(t);
    if t != [] && IsWhite(t[0]) {
      RunKeeps(StartNum, start, 0, t);
      WhiteRun(Gap1, start, 0, t[1..]);
      if b != [] && b[0] == '-' {
        RunKeeps(Gap1, start, 0, b);
      }
    } else if t != [] && t[0] == '-' {
      RunKeeps(StartNum, start, 0, t);
    }
  }

  lemma {:induction false} SkipKeeps(t: string)
    requires '\0' !in t
    ensures '\0' !in SkipWhite(t)
  {
    if t != [] && IsWhite(t[0]) {
      SkipKeeps(t[1..]);
    }
  }

  /** The rest of a spec behind its hyphen, and what follows it. */
  function SecondHalf(start: nat, u: string): Option<seq<Range>> {
    var a := SkipWhite(u);
    var last := DigitPrefix(a);
    var rest := a[|last|..];
    var stop := if last == [] then MARK else Number(0, last);
    if rest == [] || rest[0] == ',' || (last != [] && IsWhite(rest[0]))
    then Prepend(Range(start, stop), SpecList(rest)) else None
  }

  /** Behind the last number, or where it would be: the spec is submitted or the list aborted. */
  lemma SpecEnds(mode: Mode, start: nat, stop: nat, rest: string)
    requires mode == StopNum || (mode == Gap2 && (rest != [] ==> !IsWhite(rest[0])))
    requires '\0' !in rest && (rest != [] ==> !IsDigit(rest[0]))
    requires rest != [] ==> Run(Initial, 0, 0, rest[1..]) == SpecList(rest[1..])
    ensures Run(mode, start, stop, rest)
            == if rest == [] || rest[0] == ',' || (mode == StopNum && IsWhite(rest[0]))
               then Prepend(Range(start, if mode == Gap2 then MARK else stop), SpecList(rest)) else None
  {
    var spec := Range(start, if mode == Gap2 then MARK else stop);
    if rest == [] {
      assert [spec] + [] == [spec];
    } else if rest[0] == ',' || (mode == StopNum && IsWhite(rest[0])) {
      RunSubmits(mode, start, stop, rest);
      assert SpecList(rest) == SpecList(rest[1..]);
    } else {
      assert rest[0] != '\0';
    }
  }

  lemma AfterHyphen(start: nat, u: string)
    requires '\0' !in u
    requires forall t :: |t| < |u| && '\0' !in t ==> Run(Initial, 0, 0, t) == SpecList(t)
    ensures Run(Gap2, start, 0, u) == SecondHalf(start, u)
  {
    hide Run, SpecList, Prepend;
    var a := SkipWhite(u);
    WhiteRun(Gap2, start, 0, u);
    SkipKeeps(u);
    var last := DigitPrefix(a);
    var rest := a[|last|..];
    assert '\0' !in rest;
    if rest != [] {
      assert Run(Initial, 0, 0, rest[1..]) == SpecList(rest[1..]);
    }
    if last == [] {
      assert rest == a;
      SpecEnds(Gap2, start, 0, a);
    } else {
      RunKeeps(Gap2, start, 0, a);
      RunKeeps(StopNum, start, 0, a);
      DigitsRun(StopNum, start, 0, a);
      SpecEnds(StopNum, start, Number(0, last), rest);
    }
  }

  /** The automaton and the recursive-descent reading accept the same strings with the same ranges. */
  lemma {:induction false} AutomatonIsReference(s: string)
    requires '\0' !in s
    ensures Run(Initial, 0, 0, s) == SpecList(s)
    decreases |s|, 1
  {
    if s == [] {
    } else if s[0] == ',' || IsWhite(s[0]) {
      RunKeeps(Initial, 0, 0, s);
      AutomatonIsReference(s[1..]);
    } else {
      SpecAtHead(s);
    }
  }

  lemma {:induction false} SpecAtHead(s: string)
    requires '\0' !in s && s != [] && s[0] != ',' && !IsWhite(s[0])
    ensures Run(Initial, 0, 0, s) == SpecList(s)
    decreases |s|, 0
  {
    forall t: string | |t| < |s| && '\0' !in t ensures Run(Initial, 0, 0, t) == SpecList(t) {
      AutomatonIsReference(t);
    }
    SpecListStep(s);
    if IsDigit(s[0]) {
      NumberFirst(s);
    } else if s[0] == '-' {
      HyphenFirst(s);
    }
  }

  lemma NumberFirst(s: string)
    requires '\0' !in s && s != [] && IsDigit(s[0])
    requires forall t :: |t| < |s| && '\0' !in t ==> Run(Initial, 0, 0, t) == SpecList(t)
    ensures var first := DigitPrefix(s);
            var b := SkipWhite(s[|first|..]);
            Run(Initial, 0, 0, s) == if b == [] || b[0] != '-' then None else SecondHalf(Number(0, first), b[1..])
  {
    var first := DigitPrefix(s);
    var t := s[|first|..];
    hide Run, SpecList, SecondHalf;
    RunKeeps(Initial, 0, 0, s);
    RunKeeps(StartNum, 0, 0, s);
    DigitsRun(StartNum, 0, 0, s);
    assert first != [];
    hide DigitPrefix, Number, SkipWhite;
    AfterFirst(Number(0, first), t);
    SkipKeeps(t);
    var b := SkipWhite(t);
    if b != [] && b[0] == '-' {
      AfterHyphen(Number(0, first), b[1..]);
    }
  }

  lemma HyphenFirst(s: string)
    requires '\0' !in s && s != [] && s[0] == '-'
    requires forall t :: |t| < |s| && '\0' !in t ==> Run(Initial, 0, 0, t) == SpecList(t)
    ensures Run(Initial, 0, 0, s) == SecondHalf(MARK, s[1..])
  {
    hide Run, SpecList, SecondHalf;
    RunKeeps(Initial, 0, 0, s);
    AfterHyphen(MARK, s[1..]);
  }

  /** The reference reading of a list that starts with a spec. */
  lemma SpecListStep(s: string)
    requires s != [] && s[0] != ',' && !IsWhite(s[0])
    ensures var first := DigitPrefix(s);
            var b := if first == [] then s else SkipWhite(s[|first|..]);
            SpecList(s) == if b == [] || b[0] != '-' then None
                           else SecondHalf(if first == [] then MARK else Number(0, first), b[1..])
  {
  }

  // ---- Printing and reading back ----

  /** A spec some header can say: numbers below the marker, at least one given. */
  predicate Sayable(x: Range) {
    x.start <= MARK && x.stop <= MARK && !(x.start == x.stop == MARK)
  }

  function Show(x: Range): string
    requires Sayable(x)
  {
    Text(x.start) + ['-'] + Text(x.stop)
  }

  function ShowList(xs: seq<Range>): string
    requires forall i :: 0 <= i < |xs| ==> Sayable(xs[i])
  {
    if xs == [] then []
    else if |xs| == 1 then Show(xs[0])
    else Show(xs[0]) + ([','] + ShowList(xs[1..]))
  }

  lemma {:induction false} DigitPrefixOf(d: string, rest: string)
    requires AllDigits(d) && (rest != [] ==> !IsDigit(rest[0]))
    ensures DigitPrefix(d + rest) == d
  {
    if d == [] {
      assert d + rest == rest;
    } else {
      DigitPrefixOf(d[1..], rest);
      assert (d + rest)[1..] == d[1..] + rest;
    }
  }

  lemma {:induction false} NumberSnoc(n: nat, d: string, c: char)
    requires AllDigits(d) && IsDigit(c)
    ensures AllDigits(d + [c]) && Number(n, d + [c]) == PushDigit(Number(n, d), c)
    decreases |d|
  {
    if d == [] {
      assert [c][1..] == [];
      assert d + [c] == [c];
    } else {
      NumberSnoc(PushDigit(n, d[0]), d[1..], c);
      assert (d + [c])[1..] == d[1..] + [c];
    }
  }

  lemma {:induction false} NumberOfDecimal(n: nat)
    requires n <= MARK
    ensures AllDigits(Decimal(n)) && Number(0, Decimal(n)) == n
  {
    hide Value, PushDigit;
    DecimalDenotes(n);
    PushLast(n);
    if n < 10 {
      var c := DigitChar(n);
      assert Decimal(n) == [c] && [c][1..] == [];
      assert Number(0, [c]) == PushDigit(0, c);
    } else {
      NumberOfDecimal(n / 10);
      assert Decimal(n) == Decimal(n / 10) + [DigitChar(n % 10)];
      hide Number, Decimal;
      NumberSnoc(0, Decimal(n / 10), DigitChar(n % 10));
    }
  }

  lemma PushLast(n: nat)
    requires n <= MARK
    ensures IsDigit(DigitChar(n % 10)) && PushDigit(n / 10, DigitChar(n % 10)) == n
    ensures n < 10 ==> n / 10 == 0 && n % 10 == n
  {
    assert n / 10 * 10 + n % 10 == n;
  }

  function NumberOrMark(text: string): nat
    requires AllDigits(text)
  {
    if text == [] then MARK else Number(0, text)
  }

  /** A number's numeral, or nothing for the marker. */
  function Text(n: nat): (t: string)
    requires n <= MARK
  {
    if n == MARK then [] else Decimal(n)
  }

  lemma TextDenotes(n: nat)
    requires n <= MARK
    ensures AllDigits(Text(n)) && NumberOrMark(Text(n)) == n
  {
    NumberOfDecimal(n);
  }

  /** No white space in front: nothing is skipped. */
  lemma NothingToSkip(s: string)
    requires s == [] || s[0] == '-' || s[0] == ',' || IsDigit(s[0])
    ensures SkipWhite(s) == s && (s != [] ==> !IsWhite(s[0]))
  {
  }

  lemma OneSpecParts(a: string, b: string, rest: string)
    requires AllDigits(a) && AllDigits(b) && (rest == [] || rest[0] == ',')
    requires !(NumberOrMark(a) == NumberOrMark(b) == MARK)
    ensures OneSpec(a + (['-'] + (b + rest))) == Some((Range(NumberOrMark(a), NumberOrMark(b)), rest))
  {
    hide Number, SkipWhite, DigitPrefix, IsWhite, CodeOf;
    var tail := b + rest;
    var hyphen := ['-'] + tail;
    assert tail == [] || tail[0] == ',' || IsDigit(tail[0]) by {
      assert b != [] ==> tail[0] == b[0];
      assert b == [] ==> tail == rest;
    }
    assert hyphen[0] == '-';
    DigitPrefixOf(a, hyphen);
    DigitPrefixOf(b, rest);
    assert (a + hyphen)[|a|..] == hyphen;
    assert hyphen[1..] == tail;
    assert tail[|b|..] == rest;
    NothingToSkip(tail);
    NothingToSkip(hyphen);
    if a == [] {
      assert a + hyphen == hyphen;
    }
  }

  lemma OneSpecOf(x: Range, rest: string)
    requires Sayable(x) && (rest == [] || rest[0] == ',')
    ensures OneSpec(Show(x) + rest) == Some((x, rest))
  {
    TextDenotes(x.start);
    TextDenotes(x.stop);
    hide OneSpec, Text, NumberOrMark, AllDigits;
    var a, b := Text(x.start), Text(x.stop);
    OneSpecParts(a, b, rest);
    Sequences.Assoc(a, ['-'], b + rest);
    Sequences.Assoc(a + ['-'], b, rest);
    assert Show(x) == a + ['-'] + b;
  }

  lemma ShowHead(x: Range)
    requires Sayable(x)
    ensures Show(x) != [] && Show(x)[0] != ',' && !IsWhite(Show(x)[0])
  {
    var c := Show(x)[0];
    TextDenotes(x.start);
    hide Decimal;
    assert c == '-' || IsDigit(c) by {
      if Text(x.start) != [] {
        assert c == Text(x.start)[0];
      }
    }
    NothingToSkip([c]);
  }

  /** Reading a printed list of byte-range-specs gives the list back, in order. */
  lemma {:induction false} PrintedListIsRead(xs: seq<Range>)
    requires forall i :: 0 <= i < |xs| ==> Sayable(xs[i])
    ensures SpecList(ShowList(xs)) == Some(xs)
  {
    if xs != [] {
      var x, more := xs[0], xs[1..];
      var rest := if more == [] then [] else [','] + ShowList(more);
      PrintedListIsRead(more);
      ShowListStep(xs);
      assert [x] + more == xs && Sayable(x);
      hide SpecList, ShowList, Show, OneSpec, Sayable, IsWhite;
      CommaThen(more);
      OneSpecOf(x, rest);
      ShowHead(x);
      ListOfOne(x, rest, Show(x));
    }
  }

  lemma ShowListStep(xs: seq<Range>)
    requires xs != [] && forall i :: 0 <= i < |xs| ==> Sayable(xs[i])
    ensures ShowList(xs) == Show(xs[0]) + if xs[1..] == [] then [] else [','] + ShowList(xs[1..])
  {
    hide Show, Sayable;
    if |xs| == 1 {
      assert xs[1..] == [] && Show(xs[0]) + [] == Show(xs[0]);
    } else {
      assert xs[1..] != [];
    }
  }

  /** A comma in front of a list, or nothing for an empty one, does not change what is read. */
  lemma CommaThen(more: seq<Range>)
    requires forall i :: 0 <= i < |more| ==> Sayable(more[i])
    requires SpecList(ShowList(more)) == Some(more)
    ensures SpecList(if more == [] then [] else [','] + ShowList(more)) == Some(more)
  {
    var text := [','] + ShowList(more);
    assert text[1..] == ShowList(more);
    hide ShowList, OneSpec;
  }

  lemma ListOfOne(x: Range, rest: string, text: string)
    requires text != [] && text[0] != ',' && !IsWhite(text[0])
    requires OneSpec(text + rest) == Some((x, rest)) && SpecList(rest).Some?
    ensures SpecList(text + rest) == Some([x] + SpecList(rest).value)
  {
    hide OneSpec, IsWhite;
    assert (text + rest)[0] == text[0];
  }

  // ---- The fixup against the size of the file ----

  /** What one stored range becomes for a file of size > 0 bytes; None when it is dropped. */
  function FixOne(x: Range, size: nat): Option<Range>
    requires 0 < size <= MARK
  {
    var stop := if x.stop == MARK || x.stop >= size then size - 1 else x.stop;
    var (start', stop') := if x.start == MARK then (size - stop, size - 1) else (x.start, stop);
    if start' > LONG_MAX || start' > stop' then None else Some(Range(start', stop'))
  }

  function FixAll(xs: seq<Range>, size: nat): seq<Range>
    requires 0 < size <= MARK
  {
    if xs == [] then []
    else
      var y := FixOne(xs[0], size);
      (if y.Some? then [y.value] else []) + FixAll(xs[1..], size)
  }

  lemma {:induction false} FixAllConcat(xs: seq<Range>, ys: seq<Range>, size: nat)
    requires 0 < size <= MARK
    ensures FixAll(xs + ys, size) == FixAll(xs, size) + FixAll(ys, size)
  {
    if xs == [] {
      assert xs + ys == ys;
    } else {
      FixAllConcat(xs[1..], ys, size);
      assert (xs + ys)[1..] == xs[1..] + ys;
      hide FixOne;
      var y := FixOne(xs[0], size);
      var head := if y.Some? then [y.value] else [];
      assert head + (FixAll(xs[1..], size) + FixAll(ys, size)) == head + FixAll(xs[1..], size) + FixAll(ys, size);
    }
  }

  /** Every range that survives lies inside the file. */
  lemma {:induction false} FixedAreInside(xs: seq<Range>, size: nat)
    requires 0 < size <= MARK
    ensures |FixAll(xs, size)| <= |xs|
    ensures forall i :: 0 <= i < |FixAll(xs, size)| ==>
              FixAll(xs, size)[i].start <= FixAll(xs, size)[i].stop < size
  {
    if xs != [] {
      FixedAreInside(xs[1..], size);
    }
  }

  /** The bytes a spec means for an entity of the given size: section 14.35.1 of RFC 2616. */
  function Meaning(x: Range, size: nat): Option<Range>
    requires 0 < size && Sayable(x)
  {
    if x.start == MARK then
      if x.stop == 0 then None
      else Some(Range(if x.stop >= size then 0 else size - x.stop, size - 1))
    else if x.start >= size || x.start > x.stop then None
    else Some(Range(x.start, if x.stop >= size then size - 1 else x.stop))
  }

  /** The fixup gives a spec its meaning unless it is a suffix at least as long as the file: such a
      suffix loses the first byte of the file. Files have fewer than 2^31 bytes. */
  lemma FixIsMeaning(x: Range, size: nat)
    requires 0 < size <= LONG_MAX && Sayable(x)
    ensures FixOne(x, size) == Meaning(x, size) <==> !(x.start == MARK && x.stop >= size)
  {
  }

  /** A suffix at least as long as the file loses its first byte: the last byte of a one-byte file is
      refused, and for a longer file everything but the first byte is sent. */
  lemma LongSuffixLosesAByte(n: nat, size: nat)
    requires 0 < size <= LONG_MAX && size <= n < MARK
    ensures Meaning(Range(MARK, n), size) == Some(Range(0, size - 1))
    ensures FixOne(Range(MARK, n), size) == if size == 1 then None else Some(Range(1, size - 1))
  {
  }

  function Meanings(xs: seq<Range>, size: nat): seq<Range>
    requires 0 < size && forall i :: 0 <= i < |xs| ==> Sayable(xs[i])
  {
    if xs == [] then []
    else
      var y := Meaning(xs[0], size);
      (if y.Some? then [y.value] else []) + Meanings(xs[1..], size)
  }

  /** From the header's text to the bytes served: for suffixes shorter than the file the ranges are
      the satisfiable meanings of the specs, in order. */
  lemma {:induction false} HeaderMeansWhatItSays(xs: seq<Range>, size: nat)
    requires 0 < size <= LONG_MAX
    requires forall i :: 0 <= i < |xs| ==> Sayable(xs[i]) && !(xs[i].start == MARK && xs[i].stop >= size)
    ensures SpecList(ShowList(xs)) == Some(xs) && FixAll(xs, size) == Meanings(xs, size)
  {
    PrintedListIsRead(xs);
    hide SpecList, ShowList;
    if xs != [] {
      FixIsMeaning(xs[0], size);
      HeaderMeansWhatItSays(xs[1..], size);
    }
  }
}
