/** What a request header is, read in one pass over its bytes: the reference the incremental
    scanner of src/read.c is compared with. */
module HeaderLines {

  /** The complete lines of a header, whether its blank line was seen, and if so how many bytes
      the header takes. */
  datatype Header = Header(lines: seq<string>, ended: bool, length: nat)

  predicate AllCr(s: string) {
    forall i :: 0 <= i < |s| ==> s[i] == '\r'
  }

  /** s without its maximal run of trailing carriage returns. */
  function StripCr(s: string): (r: string)
    ensures r <= s && AllCr(s[|r|..]) && (r != [] ==> r[|r| - 1] != '\r')
  {
    if s != [] && s[|s| - 1] == '\r' then StripCr(s[..|s| - 1]) else s
  }

  function LineEnd(t: string): (i: nat)
    requires '\n' in t
    ensures i < |t| && t[i] == '\n' && '\n' !in t[..i]
  {
    if t[0] == '\n' then 0 else 1 + LineEnd(t[1..])
  }

  /** Lines end at a line feed and lose the carriage returns before it; a blank line other than
      the first ends the header. */
  function HeaderOf(t: string, first: bool): (h: Header)
    ensures if h.ended then 0 < h.length <= |t| else h.length == 0
  {
    if '\n' !in t then Header([], false, 0)
    else
      var i := LineEnd(t);
      if !first && AllCr(t[..i]) then Header([], true, i + 1)
      else
        var h := HeaderOf(t[i + 1..], false);
        Header([StripCr(t[..i])] + h.lines, h.ended, if h.ended then i + 1 + h.length else 0)
  }

  /** Raw lines put back together. */
  function Join(raws: seq<string>): string {
    if raws == [] then [] else raws[0] + ['\n'] + Join(raws[1..])
  }

  function StripAll(raws: seq<string>): (r: seq<string>)
    ensures |r| == |raws|
  {
    if raws == [] then [] else [StripCr(raws[0])] + StripAll(raws[1..])
  }

  /** Raw lines none of which ends the header. */
  predicate Inner(raws: seq<string>, first: bool) {
    forall i :: 0 <= i < |raws| ==> '\n' !in raws[i] && (i > 0 || !first ==> !AllCr(raws[i]))
  }

  lemma LineEndIs(raw: string, rest: string)
    requires '\n' !in raw
    ensures var t := raw + ['\n'] + rest;
            '\n' in t && LineEnd(t) == |raw| && t[..|raw|] == raw && t[|raw| + 1..] == rest
  {
    var t := raw + ['\n'] + rest;
    assert t[|raw|] == '\n';
    assert t[..|raw|] == raw;
  }

  /** A header with some lines, taking n bytes, in front. */
  function Preceded(lines: seq<string>, n: nat, h: Header): Header {
    Header(lines + h.lines, h.ended, if h.ended then n + h.length else 0)
  }

  lemma PrecededTwice(l1: seq<string>, n1: nat, l2: seq<string>, n2: nat, h: Header)
    ensures Preceded(l1, n1, Preceded(l2, n2, h)) == Preceded(l1 + l2, n1 + n2, h)
  {
    assert l1 + (l2 + h.lines) == l1 + l2 + h.lines;
  }

  lemma FirstLine(raw: string, rest: string, first: bool)
    requires '\n' !in raw
    ensures HeaderOf(raw + ['\n'] + rest, first)
            == if !first && AllCr(raw) then Header([], true, |raw| + 1)
               else Preceded([StripCr(raw)], |raw| + 1, HeaderOf(rest, false))
  {
    LineEndIs(raw, rest);
  }

  lemma InnerTail(raws: seq<string>, first: bool)
    requires Inner(raws, first) && raws != []
    ensures Inner(raws[1..], false)
  {
    forall i | 0 <= i < |raws[1..]| ensures '\n' !in raws[1..][i] && !AllCr(raws[1..][i]) {
      assert raws[1..][i] == raws[i + 1];
    }
  }

  /** A header that starts with given raw lines has their stripped forms first. */
  lemma {:induction false} HeaderOfJoin(raws: seq<string>, rest: string, first: bool)
    requires Inner(raws, first)
    ensures HeaderOf(Join(raws) + rest, first)
            == Preceded(StripAll(raws), |Join(raws)|, HeaderOf(rest, first && raws == []))
  {
    hide HeaderOf;
    var h := HeaderOf(rest, first && raws == []);
    if raws == [] {
      assert Join(raws) + rest == rest;
      assert StripAll(raws) + h.lines == h.lines;
    } else {
      var raw, more := raws[0], raws[1..];
      InnerTail(raws, first);
      HeaderOfJoin(more, rest, false);
      FirstLine(raw, Join(more) + rest, first);
      assert Join(raws) == raw + ['\n'] + Join(more);
      assert Join(raws) + rest == raw + ['\n'] + (Join(more) + rest);
      assert StripAll(raws) == [StripCr(raw)] + StripAll(more);
      PrecededTwice([StripCr(raw)], |raw| + 1, StripAll(more), |Join(more)|, h);
    }
  }

  lemma {:induction false} JoinSnoc(raws: seq<string>, raw: string)
    ensures Join(raws + [raw]) == Join(raws) + (raw + ['\n'])
    ensures StripAll(raws + [raw]) == StripAll(raws) + [StripCr(raw)]
  {
    var all := raws + [raw];
    if raws == [] {
      assert all == [raw];
      assert all[1..] == [];
      assert Join([]) == [] && StripAll([]) == [];
      assert raw + ['\n'] + [] == raw + ['\n'];
    } else {
      JoinSnoc(raws[1..], raw);
      assert all[1..] == raws[1..] + [raw];
      var head := raws[0] + ['\n'];
      assert head + (Join(raws[1..]) + (raw + ['\n'])) == head + Join(raws[1..]) + (raw + ['\n']);
    }
  }

  lemma Recut(t: string, i: nat, more: string)
    requires i < |t| && t[i] == '\n'
    ensures t == t[..i] + ['\n'] + t[i + 1..] && t + more == t[..i] + ['\n'] + (t[i + 1..] + more)
  {
  }

  /** Once a header has ended, further bytes do not change it. */
  lemma {:induction false} HeaderExtends(t: string, more: string, first: bool)
    requires HeaderOf(t, first).ended
    ensures HeaderOf(t + more, first) == HeaderOf(t, first)
  {
    var i := LineEnd(t);
    var raw, rest := t[..i], t[i + 1..];
    hide HeaderOf, AllCr, StripCr;
    Recut(t, i, more);
    FirstLine(raw, rest, first);
    FirstLine(raw, rest + more, first);
    if first || !AllCr(raw) {
      HeaderExtends(rest, more, false);
    }
  }

  /** A pipelined connection: the headers of the complete requests, and the bytes they take. */
  datatype Pipeline = Pipeline(headers: seq<seq<string>>, length: nat)

  function Requests(t: string): (p: Pipeline)
    ensures p.length <= |t|
    decreases |t|
  {
    var h := HeaderOf(t, true);
    if !h.ended then Pipeline([], 0)
    else
      var p := Requests(t[h.length..]);
      Pipeline([h.lines] + p.headers, h.length + p.length)
  }

  lemma NoRequests()
    ensures Requests([]) == Pipeline([], 0)
  {
  }

  lemma RequestsStep(t: string)
    ensures Requests(t) == var h := HeaderOf(t, true);
                           if !h.ended then Pipeline([], 0)
                           else var p := Requests(t[h.length..]); Pipeline([h.lines] + p.headers, h.length + p.length)
  {
    hide HeaderOf;
  }

  lemma RequestsOne(b: string)
    requires HeaderOf(b, true).ended && HeaderOf(b, true).length == |b|
    ensures Requests(b) == Pipeline([HeaderOf(b, true).lines], |b|)
  {
    var l := [HeaderOf(b, true).lines];
    NoRequests();
    RequestsStep(b);
    hide *;
    assert b[|b|..] == [];
    assert l + [] == l;
  }

  /** Appending one more complete header to fully consumed bytes adds its lines. */
  lemma {:induction false} RequestsSnoc(a: string, b: string)
    requires Requests(a).length == |a|
    requires HeaderOf(b, true).ended && HeaderOf(b, true).length == |b|
    ensures Requests(a + b) == Pipeline(Requests(a).headers + [HeaderOf(b, true).lines], |a| + |b|)
    decreases |a|
  {
    hide *;
    var h, l := HeaderOf(a, true), [HeaderOf(b, true).lines];
    RequestsStep(a);
    if !h.ended {
      assert a == [];
      assert a + b == b;
      RequestsOne(b);
      assert Requests(a).headers + l == l;
    } else {
      HeaderExtends(a, b, true);
      RequestsStep(a + b);
      var rest := a[h.length..];
      RequestsSnoc(rest, b);
      assert (a + b)[h.length..] == rest + b;
      assert [h.lines] + (Requests(rest).headers + l) == [h.lines] + Requests(rest).headers + l;
    }
  }
}
