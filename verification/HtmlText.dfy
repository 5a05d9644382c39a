/** Escaping for HTML text and attributes: `req_write_escape_html` of src/buffer.c and
    `html_escape_string` of src/index_dir.c. Text ends at its NUL. */
module HtmlText {
  import Sequences

  function EscapeChar(c: char): (e: string)
    ensures 1 <= |e| <= 6
  {
    match c
    case '>' => "&gt;"
    case '<' => "&lt;"
    case '&' => "&amp;"
    case '"' => "&quot;"
    case _ => [c]
  }

  function Escape(s: string): (t: string)
    ensures |s| <= |t| <= 6 * |s|
  {
    if s == [] then [] else EscapeChar(s[0]) + Escape(s[1..])
  }

  /** What a browser makes of the text, as far as these four references go. */
  function Shown(t: string): string {
    if t == [] then []
    else if "&gt;" <= t then ['>'] + Shown(t[4..])
    else if "&lt;" <= t then ['<'] + Shown(t[4..])
    else if "&amp;" <= t then ['&'] + Shown(t[5..])
    else if "&quot;" <= t then ['"'] + Shown(t[6..])
    else [t[0]] + Shown(t[1..])
  }

  lemma ShownChar(c: char, rest: string)
    ensures Shown(EscapeChar(c) + rest) == [c] + Shown(rest)
  {
    var e := EscapeChar(c);
    var t := e + rest;
    assert t[|e|..] == rest && t[0] == e[0];
    if c == '>' || c == '<' || c == '&' || c == '"' {
      assert e <= t && t[1] == e[1];
    }
  }

  /** No character of escaped text can open a tag or close an attribute. */
  lemma {:induction false} EscapedIsHarmless(s: string)
    ensures forall c :: c in Escape(s) ==> c != '<' && c != '>' && c != '"'
  {
    if s != [] {
      EscapedIsHarmless(s[1..]);
    }
  }

  /** The browser shows the text that was escaped. */
  lemma {:induction false} ShownIsOriginal(s: string)
    ensures Shown(Escape(s)) == s
  {
    if s != [] {
      ShownIsOriginal(s[1..]);
      assert Escape(s) == EscapeChar(s[0]) + Escape(s[1..]) && [s[0]] + s[1..] == s;
      hide *;
      ShownChar(s[0], Escape(s[1..]));
    }
  }

  lemma {:induction false} EscapeSnoc(s: string, c: char)
    ensures Escape(s + [c]) == Escape(s) + EscapeChar(c)
  {
    hide EscapeChar;
    if s == [] {
      assert s + [c] == [c] && [c][1..] == [] && EscapeChar(c) + [] == EscapeChar(c);
    } else {
      EscapeSnoc(s[1..], c);
      assert (s + [c])[1..] == s[1..] + [c];
    }
  }

  lemma {:induction false} EscapeGrows(s: string, i: nat, j: nat)
    requires i <= j <= |s|
    ensures |Escape(s[..i])| <= |Escape(s[..j])|
    decreases j - i
  {
    if i < j {
      EscapeGrows(s, i, j - 1);
      EscapeSnoc(s[..j - 1], s[j - 1]);
      assert s[..j] == s[..j - 1] + [s[j - 1]];
    }
  }

  /** The switch of the two escapers: the reference, or the character itself. */
  method PutEscaped(c: char, buf: array<char>, n: nat) returns (n': nat)
    requires n + 6 <= buf.Length
    modifies buf
    ensures n' == n + |EscapeChar(c)| && buf[..n'] == old(buf[..n]) + EscapeChar(c)
  {
    var e := match c
      case '>' => "&gt;"
      case '<' => "&lt;"
      case '&' => "&amp;"
      case '"' => "&quot;"
      case _ => [c];
    forall i | 0 <= i < |e| {
      buf[n + i] := e[i];
    }
    n' := n + |e|;
  }

  /** `html_escape_string`: six places for each character are always enough. */
  method EscapeString(inp: string, buf: array<char>) returns (n: nat)
    requires buf.Length > 6 * |inp| && '\0' !in inp
    modifies buf
    ensures n < buf.Length && buf[..n] == Escape(inp) && buf[n] == '\0'
  {
    n := 0;
    assert inp[..0] == [];
    hide EscapeChar;
    for i := 0 to |inp|
      invariant n <= 6 * i && buf[..n] == Escape(inp[..i])
    {
      EscapeSnoc(inp[..i], inp[i]);
      assert inp[..i + 1] == inp[..i] + [inp[i]];
      n := PutEscaped(inp[i], buf, n);
    }
    assert inp[..|inp|] == inp;
    buf[n] := '\0';
  }

  /** `req_write_escape_html`: appends while at least six places are left, the guard band; all of
      the text fits exactly if its last character was reached with that much room. */
  method WriteEscaped(msg: string, buf: array<char>, end: nat) returns (ok: bool, end': nat)
    requires end <= buf.Length && '\0' !in msg
    modifies buf
    ensures end <= end' <= buf.Length
    ensures ok <==> msg == [] || end + |Escape(msg[..|msg| - 1])| + 6 <= buf.Length
    ensures ok ==> buf[..end'] == old(buf[..end]) + Escape(msg)
    ensures !ok ==> exists k :: 0 <= k < |msg| && buf[..end'] == old(buf[..end]) + Escape(msg[..k])
  {
    ghost var front := buf[..end];
    end' := end;
    var i := 0;
    assert msg[..0] == [] && front + Escape([]) == front;
    hide Escape, EscapeChar;
    while i < |msg| && buf.Length - end' >= 6
      invariant 0 <= i <= |msg| && end <= end' <= buf.Length
      invariant buf[..end'] == front + Escape(msg[..i])
      invariant i > 0 ==> end + |Escape(msg[..i - 1])| + 6 <= buf.Length
    {
      end' := PutNext(msg, i, buf, front, end');
      i := i + 1;
    }
    ok := i == |msg|;
    assert |buf[..end']| == end';
    hide *;
    if ok {
      assert msg[..i] == msg;
    } else {
      assert 0 <= i < |msg| && buf[..end'] == front + Escape(msg[..i]);
      EscapeGrows(msg, i, |msg| - 1);
    }
  }

  method PutNext(msg: string, i: nat, buf: array<char>, ghost front: string, n: nat) returns (n': nat)
    requires i < |msg| && n + 6 <= buf.Length && buf[..n] == front + Escape(msg[..i])
    modifies buf
    ensures n < n' <= buf.Length && buf[..n'] == front + Escape(msg[..i + 1])
  {
    hide Escape, EscapeChar;
    EscapeSnoc(msg[..i], msg[i]);
    assert msg[..i + 1] == msg[..i] + [msg[i]];
    n' := PutEscaped(msg[i], buf, n);
    Sequences.Assoc(front, Escape(msg[..i]), EscapeChar(msg[i]));
  }

}
