/** Percent-encoding: the bitmap of src/escape.c, the escapers of src/buffer.c and src/index_dir.c and
    the in-place decoder of src/util.c. A char stands for one octet; text ends at its NUL. */
module UriText {
  import Sequences
  import opened Options

  // ---- The bitmap ----

  const BITS := 128
  const WORD := 32

  const UPPER := "ABCDEFGHIJKLMNOPQRSTUVWXYZ"
  const LOWER := "abcdefghijklmnopqrstuvwxyz"
  const DIGITS := "0123456789"
  const MARKS := "-_.!~*'():@&=+$,/?"

  /** The characters that may pass unescaped. */
  const SPECIAL := UPPER + LOWER + DIGITS + MARKS

  /** Unreserved characters of RFC 3986, section 2.3, and the others the server leaves alone. */
  predicate Safe(c: char) {
    || 'A' <= c <= 'Z' || 'a' <= c <= 'z' || '0' <= c <= '9'
    || c == '-' || c == '_' || c == '.' || c == '!' || c == '~' || c == '*' || c == '\'' || c == '(' || c == ')'
    || c == ':' || c == '@' || c == '&' || c == '=' || c == '+' || c == '$' || c == ',' || c == '/' || c == '?'
  }

  lemma Uppers(c: char)
    ensures c in UPPER <==> 'A' <= c <= 'Z'
  {
  }

  lemma Lowers(c: char)
    ensures c in LOWER <==> 'a' <= c <= 'z'
  {
  }

  lemma Digits(c: char)
    ensures c in DIGITS <==> '0' <= c <= '9'
  {
  }

  lemma SpecialIsSafe(c: char)
    ensures c in SPECIAL <==> Safe(c)
    ensures c in SPECIAL ==> 33 <= c as int < BITS - 1
  {
    Uppers(c);
    Lowers(c);
    Digits(c);
    assert c in SPECIAL <==> c in UPPER || c in LOWER || c in DIGITS || c in MARKS;
  }

  /** A word of the bitmap, its bits listed from the least significant one. */
  type Word = w: seq<bool> | |w| == WORD witness seq(WORD, _ => false)

  const ALL_ONES: Word := seq(WORD, _ => true)

  class Bitmap {
    const words: array<Word>

    /** The macro `needs_escape`. */
    predicate NeedsEscape(c: char)
      requires words.Length == BITS / WORD
      reads words
    {
      c as int >= BITS || words[c as int / WORD][c as int % WORD]
    }

    /** The bitmap decides membership in the safe set for every octet. */
    ghost predicate Decides()
      reads words
    {
      words.Length == BITS / WORD && forall c: char :: NeedsEscape(c) <==> !Safe(c)
    }

    /** `build_needs_escape`. */
    constructor ()
      ensures fresh(words) && Decides()
    {
      words := new Word[BITS / WORD](_ => ALL_ONES);
      new;
      forall c: char ensures c in SPECIAL <==> Safe(c) {
        SpecialIsSafe(c);
      }
      forall c: char ensures c in SPECIAL ==> c as int < BITS {
        SpecialIsSafe(c);
      }
      ClearAll(SPECIAL);
    }

    /** The loop over the special characters. */
    method ClearAll(special: string)
      requires words.Length == BITS / WORD && forall c: char :: NeedsEscape(c)
      requires forall c: char :: c in special ==> c as int < BITS
      modifies words
      ensures forall c: char :: NeedsEscape(c) <==> c as int >= BITS || c !in special
    {
      hide NeedsEscape;
      for i := 0 to |special|
        invariant forall c: char :: NeedsEscape(c) <==> c as int >= BITS || c !in special[..i]
      {
        assert special[i] in special;
        assert special[..i + 1] == special[..i] + [special[i]];
        ClearBit(special[i]);
      }
      assert special[..|special|] == special;
    }

    method ClearBit(j: char)
      requires words.Length == BITS / WORD && j as int < BITS
      modifies words
      ensures forall c: char :: NeedsEscape(c) <==> old(NeedsEscape(c)) && (c as int >= BITS || c != j)
    {
      words[j as int / WORD] := words[j as int / WORD][j as int % WORD := false];
    }
  }

  // ---- Encoding ----

  function HexDigit(n: nat): (c: char)
    requires n < 16
  {
    if n > 9 then ('a' as int - 10 + n) as char else ('0' as int + n) as char
  }

  /** An octet as the escapers write it; `alsoQuery` is the directory index's extra test. */
  function EscapeChar(c: char, alsoQuery: bool): (r: string)
    requires c as int < 256
    ensures 1 <= |r| <= 3
  {
    if !Safe(c) || (alsoQuery && c == '?') then ['%', HexDigit(c as int / 16), HexDigit(c as int % 16)] else [c]
  }

  predicate Octets(s: string) {
    forall i :: 0 <= i < |s| ==> s[i] as int < 256
  }

  function Escape(s: string, alsoQuery: bool): string
    requires Octets(s)
  {
    if s == [] then [] else EscapeChar(s[0], alsoQuery) + Escape(s[1..], alsoQuery)
  }

  lemma {:induction false} EscapeSnoc(s: string, c: char, alsoQuery: bool)
    requires Octets(s) && c as int < 256
    ensures Escape(s + [c], alsoQuery) == Escape(s, alsoQuery) + EscapeChar(c, alsoQuery)
  {
    hide EscapeChar;
    if s == [] {
      assert s + [c] == [c] && [c][1..] == [];
      assert EscapeChar(c, alsoQuery) + [] == EscapeChar(c, alsoQuery);
    } else {
      EscapeSnoc(s[1..], c, alsoQuery);
      assert (s + [c])[1..] == s[1..] + [c];
    }
  }

  lemma {:induction false} EscapeLength(s: string, alsoQuery: bool)
    requires Octets(s)
    ensures |s| <= |Escape(s, alsoQuery)| <= 3 * |s|
  {
    hide EscapeChar;
    if s != [] {
      EscapeLength(s[1..], alsoQuery);
    }
  }

  // ---- Decoding ----

  /** The macro `HEX_TO_DECIMAL` on one character, whatever it is: it compares signed characters, so an
      octet from 128 on counts as a negative one. */
  function HexValue(c: char): int {
    if c as int >= 128 then c as int - 256 - '0' as int
    else if c >= 'A' then (if c as int / 32 % 2 == 1 then c as int - 32 else c as int) - 'A' as int + 10
    else c as int - '0' as int
  }

  /** What two characters decode to, as a signed char holds it. */
  function PairValue(c: char, d: char): int {
    var v := (HexValue(c) * 16 + HexValue(d)) % 256;
    if v < 128 then v else v - 256
  }

  /** The decoded path, and where the raw query starts; None for a string the server refuses. */
  datatype Uri = Uri(path: string, query: Option<nat>)

  function Prepend(c: char, r: Option<Uri>): Option<Uri> {
    if r.None? then None else Some(Uri([c] + r.value.path, r.value.query))
  }

  /** `unescape_uri` from position i of s on. */
  function Decode(s: string, i: nat): Option<Uri>
    requires i <= |s|
    decreases |s| - i
  {
    if i == |s| then Some(Uri([], None))
    else if s[i] == '%' then
      if i + 2 >= |s| then None
      else
        var v := PairValue(s[i + 1], s[i + 2]);
        if v < 32 || v > 126 then None else Prepend(v as char, Decode(s, i + 3))
    else if s[i] == '?' then Some(Uri([], Some(i + 1)))
    else if s[i] == '#' then Some(Uri([], AfterQuery(s, i + 1)))
    else Prepend(s[i], Decode(s, i + 1))
  }

  /** The position behind the first question mark from i on. */
  function AfterQuery(s: string, i: nat): (r: Option<nat>)
    requires i <= |s|
    ensures r.Some? ==> i < r.value <= |s| && s[r.value - 1] == '?'
    decreases |s| - i
  {
    if i == |s| then None else if s[i] == '?' then Some(i + 1) else AfterQuery(s, i + 1)
  }

  // ---- Decoding undoes encoding ----

  predicate Printable(s: string) {
    forall i :: 0 <= i < |s| ==> 32 <= s[i] as int <= 126
  }

  lemma HexRoundTrip(c: char)
    requires 32 <= c as int <= 126
    ensures PairValue(HexDigit(c as int / 16), HexDigit(c as int % 16)) == c as int
  {
  }

  lemma DecodeChar(c: char, alsoQuery: bool, all: string, at: nat)
    requires 32 <= c as int <= 126 && (c == '?' ==> alsoQuery)
    requires at <= |all| && EscapeChar(c, alsoQuery) <= all[at..]
    ensures at + |EscapeChar(c, alsoQuery)| <= |all|
    ensures Decode(all, at) == Prepend(c, Decode(all, at + |EscapeChar(c, alsoQuery)|))
  {
    var e := EscapeChar(c, alsoQuery);
    assert forall k :: 0 <= k < |e| ==> all[at + k] == all[at..][k] == e[k];
    if |e| == 3 {
      HexRoundTrip(c);
      assert all[at] == '%' && all[at + 1] == e[1] && all[at + 2] == e[2];
    } else {
      assert all[at] == c;
    }
  }

  lemma Suffix(all: string, at: nat, e: string, rest: string)
    requires at <= |all| && all[at..] == e + rest
    ensures at + |e| <= |all| && all[at + |e|..] == rest && e <= all[at..]
  {
  }

  /** Decoding text that ends escaped: from where the escaped part begins, the original comes back. */
  lemma {:induction false} DecodeEscaped(s: string, alsoQuery: bool, all: string, at: nat)
    requires Printable(s) && (alsoQuery || '?' !in s)
    requires at <= |all| && all[at..] == Escape(s, alsoQuery)
    ensures Decode(all, at) == Some(Uri(s, None))
    decreases |s|
  {
    if s != [] {
      var e, rest := EscapeChar(s[0], alsoQuery), Escape(s[1..], alsoQuery);
      Suffix(all, at, e, rest);
      assert [s[0]] + s[1..] == s && 32 <= s[0] as int <= 126;
      DecodeEscaped(s[1..], alsoQuery, all, at + |e|);
      hide Decode, Escape, EscapeChar, Printable, Safe;
      DecodeChar(s[0], alsoQuery, all, at);
    }
  }

  lemma {:induction false} DecodeStopsAtQuery(s: string, all: string, at: nat)
    requires Printable(s) && '?' in s
    requires at <= |all| && all[at..] == Escape(s, false)
    ensures var r := Decode(all, at); r.Some? && r.value.query.Some?
    decreases |s|
  {
    var e, rest := EscapeChar(s[0], false), Escape(s[1..], false);
    Suffix(all, at, e, rest);
    if s[0] == '?' {
      assert all[at] == all[at..][0] == '?';
    } else {
      DecodeStopsAtQuery(s[1..], all, at + |e|);
      hide Decode, EscapeChar;
      DecodeChar(s[0], false, all, at);
    }
  }

  /** `unescape_uri` undoes `escape_string` on printable text exactly when the text has no question
      mark, which the escaper lets through and the decoder takes for the query. */
  lemma DecodeUndoesEscape(s: string)
    requires Printable(s)
    ensures Decode(Escape(s, false), 0) == Some(Uri(s, None)) <==> '?' !in s
  {
    var all := Escape(s, false);
    assert all[0..] == all;
    if '?' in s {
      DecodeStopsAtQuery(s, all, 0);
    } else {
      DecodeEscaped(s, false, all, 0);
    }
  }

  // ---- The directory index's escaper ----

  /** Whether a colon behind the first character makes the result start with "./". */
  predicate LaterColon(s: string) {
    s != [] && ':' in s[1..]
  }

  /** `http_escape_string`: a name that could be taken for a URI scheme becomes a relative path. */
  function HttpEscape(s: string): string
    requires Octets(s)
  {
    (if LaterColon(s) then "./" else []) + Escape(s, true)
  }

  lemma {:induction false} ColonIsCheap(s: string)
    requires Octets(s) && ':' in s
    ensures |Escape(s, true)| <= 3 * |s| - 2
  {
    if s[0] == ':' {
      EscapeLength(s[1..], true);
    } else {
      ColonIsCheap(s[1..]);
    }
  }

  /** The space the escaper reserves is enough. */
  lemma HttpEscapeFits(s: string)
    requires Octets(s)
    ensures |HttpEscape(s)| <= 3 * |s|
  {
    EscapeLength(s, true);
    if LaterColon(s) {
      assert ':' in s;
      ColonIsCheap(s);
    }
  }

  /** Links in a directory listing lead to the file they were made for. */
  lemma DecodeUndoesHttpEscape(s: string)
    requires Printable(s)
    ensures Decode(HttpEscape(s), 0) == Some(Uri((if LaterColon(s) then "./" else "") + s, None))
  {
    if LaterColon(s) {
      var t := HttpEscape(s);
      assert t[2..] == Escape(s, true);
      DecodeEscaped(s, true, t, 2);
      assert t[0] == '.' && t[1] == '/';
      assert Decode(t, 2) == Some(Uri(s, None));
      assert Decode(t, 1) == Prepend('/', Decode(t, 2));
      assert Decode(t, 0) == Prepend('.', Decode(t, 1));
      assert ['.'] + (['/'] + s) == "./" + s;
    } else {
      var t := HttpEscape(s);
      assert t[0..] == Escape(s, true);
      DecodeEscaped(s, true, t, 0);
      assert "" + s == s;
    }
  }

  // ---- The methods ----

  /** `escape_string`: writes the escaped text and a NUL to buf. */
  method EscapeString(map': Bitmap, inp: string, buf: array<char>) returns (n: nat)
    requires Octets(inp) && buf.Length > 3 * |inp|
    requires map'.Decides()
    requires '\0' !in inp
    modifies buf
    ensures n < buf.Length && buf[..n] == Escape(inp, false) && buf[n] == '\0'
  {
    n := 0;
    assert inp[..0] == [];
    for i := 0 to |inp|
      invariant n <= 3 * i && buf[..n] == Escape(inp[..i], false)
      invariant map'.Decides()
    {
      var c := inp[i];
      EscapeSnoc(inp[..i], c, false);
      assert inp[..i + 1] == inp[..i] + [c];
      hide Escape, EscapeChar;
      n := PutEscaped(map', c, false, buf, n);
    }
    assert inp[..|inp|] == inp;
    buf[n] := '\0';
  }

  /** `http_escape_string`: at the first colon behind the first character what was written moves up
      two places to make room for "./". */
  method HttpEscapeString(map': Bitmap, inp: string, buf: array<char>) returns (n: nat)
    requires Octets(inp) && buf.Length > 3 * |inp| && '\0' !in inp
    requires map'.Decides()
    modifies buf
    ensures n < buf.Length && buf[..n] == HttpEscape(inp) && buf[n] == '\0'
  {
    n := 0;
    var foundAColon := false;
    assert inp[..0] == [];
    EscapeNothing(true);
    hide *;
    for i := 0 to |inp|
      invariant foundAColon == LaterColon(inp[..i])
      invariant n <= 3 * i && (n > 0 <==> i > 0)
      invariant buf[..n] == HttpEscape(inp[..i])
      invariant map'.Decides()
    {
      foundAColon, n := PutHttp(map', inp, i, foundAColon, buf, n);
    }
    assert inp[..|inp|] == inp;
    buf[n] := '\0';
  }

  /** One turn of that loop: the first later colon puts "./" in front. */
  method PutHttp(map': Bitmap, inp: string, i: nat, foundAColon: bool, buf: array<char>, n: nat)
    returns (found': bool, n': nat)
    requires Octets(inp) && i < |inp| && buf.Length > 3 * |inp| && map'.Decides()
    requires foundAColon == LaterColon(inp[..i]) && n <= 3 * i && (n > 0 <==> i > 0)
    requires buf[..n] == HttpEscape(inp[..i])
    modifies buf
    ensures found' == LaterColon(inp[..i + 1]) && 0 < n' <= 3 * (i + 1) && n' <= buf.Length
    ensures buf[..n'] == HttpEscape(inp[..i + 1])
  {
    hide *;
    HttpEscapeSnoc(inp, i);
    found' := foundAColon;
    if inp[i] == ':' && !foundAColon && n > 0 {
      found' := true;
      InsertColon(buf, n);
      n' := n + 3;
    } else {
      n' := PutEscaped(map', inp[i], true, buf, n);
    }
    assert |buf[..n']| == n';
  }

  /** How one more character changes the escaped name. */
  lemma HttpEscapeSnoc(s: string, i: nat)
    requires Octets(s) && i < |s|
    ensures Octets(s[..i]) && Octets(s[..i + 1]) && s[i] as int < 256
    ensures LaterColon(s[..i + 1]) <==> LaterColon(s[..i]) || (i > 0 && s[i] == ':')
    ensures HttpEscape(s[..i + 1]) ==
            if s[i] == ':' && !LaterColon(s[..i]) && i > 0 then "./" + (HttpEscape(s[..i]) + [':'])
            else HttpEscape(s[..i]) + EscapeChar(s[i], true)
    ensures |HttpEscape(s[..i + 1])| <= 3 * (i + 1)
  {
    var t, c := s[..i], s[i];
    assert s[..i + 1] == t + [c];
    HttpEscapeFits(t + [c]);
    EscapeSnoc(t, c, true);
    LaterColonSnoc(t, c);
    ColonUnescaped();
    hide Escape, EscapeChar, LaterColon;
    assert [] + Escape(t, true) == Escape(t, true);
    assert [] + Escape(t + [c], true) == Escape(t + [c], true);
    Sequences.Assoc("./", Escape(t, true), EscapeChar(c, true));
  }

  lemma EscapeNothing(alsoQuery: bool)
    ensures Escape([], alsoQuery) == [] && !LaterColon([]) && HttpEscape([]) == []
  {
  }

  lemma ColonUnescaped()
    ensures EscapeChar(':', true) == [':']
  {
  }

  lemma LaterColonSnoc(s: string, c: char)
    ensures LaterColon(s + [c]) <==> LaterColon(s) || (s != [] && c == ':')
  {
    if s != [] {
      assert (s + [c])[1..] == s[1..] + [c];
    }
  }

  /** The `memmove`, the two characters put in front and the colon behind. */
  method InsertColon(buf: array<char>, n: nat)
    requires n + 3 <= buf.Length
    modifies buf
    ensures buf[..n + 3] == "./" + (old(buf[..n]) + [':'])
  {
    forall k | 0 <= k < n {
      buf[k + 2] := buf[k];
    }
    buf[0] := '.';
    buf[1] := '/';
    buf[n + 2] := ':';
  }

  /** One octet is written at n, escaped if need be. */
  method PutEscaped(map': Bitmap, c: char, alsoQuery: bool, buf: array<char>, n: nat) returns (n': nat)
    requires n + 3 <= buf.Length && c as int < 256
    requires map'.Decides()
    modifies buf
    ensures n' == n + |EscapeChar(c, alsoQuery)| && buf[..n'] == old(buf[..n]) + EscapeChar(c, alsoQuery)
  {
    if map'.NeedsEscape(c) || (alsoQuery && c == '?') {
      buf[n] := '%';
      buf[n + 1] := HexDigit(c as int / 16);
      buf[n + 2] := HexDigit(c as int % 16);
      n' := n + 3;
    } else {
      buf[n] := c;
      n' := n + 1;
    }
  }

  /** One more octet behind those already written. */
  method PutNext(map': Bitmap, msg: string, i: nat, buf: array<char>, ghost front: string, n: nat) returns (n': nat)
    requires Octets(msg) && i < |msg| && n + 3 <= buf.Length && buf[..n] == front + Escape(msg[..i], false)
    requires map'.Decides()
    modifies buf
    ensures n < n' <= buf.Length && buf[..n'] == front + Escape(msg[..i + 1], false)
  {
    hide Escape, EscapeChar;
    EscapeSnoc(msg[..i], msg[i], false);
    assert msg[..i + 1] == msg[..i] + [msg[i]];
    n' := PutEscaped(map', msg[i], false, buf, n);
    Sequences.Assoc(front, Escape(msg[..i], false), EscapeChar(msg[i], false));
  }

  /** `req_write_escape_http`: appends while at least three places are left, the guard band; all of
      the text fits exactly if its last character was reached with that much room. */
  method WriteEscaped(map': Bitmap, msg: string, buf: array<char>, end: nat) returns (ok: bool, end': nat)
    requires Octets(msg) && end <= buf.Length && '\0' !in msg
    requires map'.Decides()
    modifies buf
    ensures end <= end' <= buf.Length
    ensures ok <==> msg == [] || end + |Escape(msg[..|msg| - 1], false)| + 3 <= buf.Length
    ensures ok ==> buf[..end'] == old(buf[..end]) + Escape(msg, false)
    ensures !ok ==> exists k :: 0 <= k < |msg| && buf[..end'] == old(buf[..end]) + Escape(msg[..k], false)
  {
    ghost var front := buf[..end];
    end' := end;
    var i := 0;
    assert msg[..0] == [];
    hide Escape, EscapeChar;
    EscapeNothing(false);
    while i < |msg| && buf.Length - end' >= 3
      invariant 0 <= i <= |msg| && end <= end' <= buf.Length
      invariant buf[..end'] == front + Escape(msg[..i], false)
      invariant i > 0 ==> end + |Escape(msg[..i - 1], false)| + 3 <= buf.Length
      invariant map'.Decides()
    {
      end' := PutNext(map', msg, i, buf, front, end');
      i := i + 1;
    }
    ok := i == |msg|;
    assert |buf[..end']| == end';
    if ok {
      assert msg[..i] == msg;
    } else {
      EscapeGrows(msg, i, |msg| - 1);
    }
  }

  lemma {:induction false} EscapeGrows(s: string, i: nat, j: nat)
    requires Octets(s) && i <= j <= |s|
    ensures |Escape(s[..i], false)| <= |Escape(s[..j], false)|
    decreases j - i
  {
    if i < j {
      EscapeGrows(s, i, j - 1);
      EscapeSnoc(s[..j - 1], s[j - 1], false);
      assert s[..j] == s[..j - 1] + [s[j - 1]];
    }
  }

  /** `unescape_uri`: decodes in place. The write position never passes the read position, so the raw
      query behind the question mark stays as it was received. */
  method UnescapeUri(uri: array<char>, s: string) returns (ok: bool, query: Option<nat>)
    requires |s| < uri.Length && uri[..|s|] == s && uri[|s|] == '\0' && '\0' !in s
    modifies uri
    ensures ok <==> Decode(s, 0).Some?
    ensures ok ==> var u := Decode(s, 0).value;
                   && query == u.query && |u.path| <= |s|
                   && uri[..|u.path|] == u.path && uri[|u.path|] == '\0'
                   && (query.Some? ==>
                         |u.path| < query.value <= |s| && uri[query.value..|s|] == s[query.value..])
    ensures ok ==> uri[|s|] == '\0'
  {
    var w, r := 0, 0;
    query := None;
    ghost var done, raw := [], uri[..];
    JoinedNothing(Decode(s, 0));
    while r < |s|
      invariant w <= r <= |s|
      invariant (forall i :: r <= i < uri.Length ==> uri[i] == raw[i]) && uri[..w] == done
      invariant Decode(s, 0) == Joined(done, Decode(s, r))
      decreases |s| - r
    {
      hide Decode, Joined, PairValue, AfterQuery;
      DecodeStep(s, r);
      assert forall i :: r <= i < |s| ==> uri[i] == raw[..|s|][i];
      var c := uri[r];
      if c == '%' {
        if r + 2 >= |s| {
          uri[w] := '\0';
          JoinedNone(done);
          return false, None;
        }
        var v := PairValue(uri[r + 1], uri[r + 2]);
        if v < 32 || v > 126 {
          uri[w] := '\0';
          JoinedNone(done);
          return false, None;
        }
        JoinedSnoc(done, v as char, Decode(s, r + 3));
        WriteBehind(uri, raw, w, r, 3, v as char);
        done := done + [v as char];
        w, r := w + 1, r + 3;
      } else if c == '?' || c == '#' {
        query := StopAt(uri, raw, s, w, r, done);
        return true, query;
      } else {
        JoinedSnoc(done, c, Decode(s, r + 1));
        WriteBehind(uri, raw, w, r, 1, c);
        done := done + [c];
        w, r := w + 1, r + 1;
      }
    }
    JoinedEnd(done, None);
    uri[w] := '\0';
    return true, None;
  }

  /** A question mark or a fragment ends the path; the raw query stays where it is. */
  method StopAt(uri: array<char>, ghost raw: string, s: string, w: nat, r: nat, ghost done: string)
      returns (query: Option<nat>)
    requires w <= r < |s| < uri.Length == |raw| && raw[..|s|] == s && s[r] in {'?', '#'} && uri[..w] == done
    requires forall i :: r <= i < uri.Length ==> uri[i] == raw[i]
    requires Decode(s, 0) == Joined(done, Decode(s, r))
    modifies uri
    ensures Decode(s, 0) == Some(Uri(done, query)) && uri[..w] == done && uri[w] == '\0'
    ensures uri[|s|] == raw[|s|]
    ensures query.Some? ==> w < query.value <= |s| && uri[query.value..|s|] == s[query.value..]
  {
    DecodeStep(s, r);
    hide Decode, Joined, PairValue, AfterQuery;
    assert forall i :: r <= i < |s| ==> uri[i] == raw[..|s|][i];
    if uri[r] == '?' {
      query := Some(r + 1);
    } else {
      assert uri[r + 1..|s|] == s[r + 1..];
      query := FindQuery(uri, s, r + 1);
    }
    uri[w] := '\0';
    JoinedEnd(done, query);
    AfterQueryLater(s, r + 1);
    if query.Some? {
      RawTail(uri[..], raw, s, r, query.value);
    }
  }

  /** One decoded character is written at or before where it was read. */
  method WriteBehind(uri: array<char>, ghost raw: string, w: nat, r: nat, k: nat, c: char)
    requires w <= r && 0 < k && r + k <= uri.Length == |raw|
    requires forall i :: r <= i < uri.Length ==> uri[i] == raw[i]
    modifies uri
    ensures uri[..w + 1] == old(uri[..w]) + [c]
    ensures forall i :: r + k <= i < uri.Length ==> uri[i] == raw[i]
  {
    uri[w] := c;
  }

  /** The scan for a question mark behind a fragment. */
  method FindQuery(uri: array<char>, s: string, from: nat) returns (query: Option<nat>)
    requires from <= |s| < uri.Length && uri[from..|s|] == s[from..]
    ensures query == AfterQuery(s, from)
  {
    var i := from;
    while i < |s|
      invariant from <= i <= |s| && AfterQuery(s, from) == AfterQuery(s, i)
    {
      assert uri[i] == uri[from..|s|][i - from] == s[i];
      if uri[i] == '?' {
        return Some(i + 1);
      }
      i := i + 1;
    }
    return None;
  }

  /** Text decoded already, in front of the rest. */
  function Joined(done: string, r: Option<Uri>): Option<Uri> {
    if r.None? then None else Some(Uri(done + r.value.path, r.value.query))
  }

  lemma JoinedNothing(r: Option<Uri>)
    ensures Joined([], r) == r
  {
    if r.Some? {
      assert [] + r.value.path == r.value.path;
    }
  }

  /** Bytes the decoder has not reached are as received. */
  lemma RawTail(now: string, was: string, s: string, r: nat, q: nat)
    requires |s| <= |was| == |now| && was[..|s|] == s && r <= q <= |s|
    requires forall i :: q <= i < |now| ==> now[i] == was[i]
    ensures now[q..|s|] == s[q..]
  {
  }

  lemma JoinedNone(done: string)
    ensures Joined(done, None) == None
  {
  }

  lemma JoinedSnoc(done: string, c: char, r: Option<Uri>)
    ensures Joined(done, Prepend(c, r)) == Joined(done + [c], r)
  {
    if r.Some? {
      assert done + ([c] + r.value.path) == done + [c] + r.value.path;
    }
  }

  lemma JoinedEnd(done: string, query: Option<nat>)
    ensures Joined(done, Some(Uri([], query))) == Some(Uri(done, query))
  {
    assert done + [] == done;
  }

  lemma AfterQueryLater(s: string, i: nat)
    requires i <= |s|
    ensures AfterQuery(s, i).Some? ==> i < AfterQuery(s, i).value <= |s|
  {
  }

  lemma DecodeStep(s: string, i: nat)
    requires i < |s|
    ensures Decode(s, |s|) == Some(Uri([], None))
    ensures Decode(s, i) ==
            if s[i] == '%' then
              if i + 2 >= |s| then None
              else if PairValue(s[i + 1], s[i + 2]) < 32 || PairValue(s[i + 1], s[i + 2]) > 126 then None
              else Prepend(PairValue(s[i + 1], s[i + 2]) as char, Decode(s, i + 3))
            else if s[i] == '?' then Some(Uri([], Some(i + 1)))
            else if s[i] == '#' then Some(Uri([], AfterQuery(s, i + 1)))
            else Prepend(s[i], Decode(s, i + 1))
  {
  }
}
