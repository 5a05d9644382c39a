/** Path cleaning in src/util.c, done in place on the decoded URI, against a reading by segments. */
module PathClean {
  import Sequences
  import opened Options
  import opened UriText

  // ---- What the loop computes ----

  /** Behind a slash: further slashes, "./" and "../" are skipped. */
  function Skip(s: string): (r: string)
    ensures |r| <= |s|
  {
    if |s| >= 1 && s[0] == '/' then Skip(s[1..])
    else if |s| >= 2 && s[0] == '.' && s[1] == '/' then Skip(s[2..])
    else if |s| >= 3 && s[0] == '.' && s[1] == '.' && s[2] == '/' then Skip(s[3..])
    else s
  }

  lemma SkipStep(s: string)
    ensures Skip(s) == if |s| >= 1 && s[0] == '/' then Skip(s[1..])
                       else if |s| >= 2 && s[0] == '.' && s[1] == '/' then Skip(s[2..])
                       else if |s| >= 3 && s[0] == '.' && s[1] == '.' && s[2] == '/' then Skip(s[3..])
                       else s
  {
  }

  function Clean(s: string): (r: string)
    ensures |r| <= |s|
    decreases |s|
  {
    if s == [] then [] else [s[0]] + Clean(if s[0] == '/' then Skip(s[1..]) else s[1..])
  }

  // ---- The reading by segments ----

  /** s split at its slashes; always at least one segment. */
  function Segments(s: string): (r: seq<string>)
    ensures r != []
  {
    if s == [] then [[]]
    else
      var rest := Segments(s[1..]);
      if s[0] == '/' then [[]] + rest else [[s[0]] + rest[0]] + rest[1..]
  }

  function Rejoin(segs: seq<string>): string
    requires segs != []
  {
    if |segs| == 1 then segs[0] else segs[0] + ['/'] + Rejoin(segs[1..])
  }

  /** A segment that says nothing, or that would leave the directory. */
  predicate Idle(seg: string) {
    seg == "" || seg == "." || seg == ".."
  }

  /** Idle segments go, except a last one. */
  function DropIdle(segs: seq<string>): (r: seq<string>)
    ensures segs != [] ==> r != []
    ensures |r| <= |segs|
  {
    if |segs| <= 1 then segs
    else if Idle(segs[0]) then DropIdle(segs[1..])
    else [segs[0]] + DropIdle(segs[1..])
  }

  /** First and last segments stay, idle ones in between go. */
  function CleanSegments(segs: seq<string>): (r: seq<string>)
    requires segs != []
    ensures r != []
  {
    [segs[0]] + DropIdle(segs[1..])
  }

  /** Leading idle segments go, except a last one. */
  function DropLeading(segs: seq<string>): (r: seq<string>)
    requires segs != []
    ensures r != []
  {
    if |segs| > 1 && Idle(segs[0]) then DropLeading(segs[1..]) else segs
  }

  lemma {:induction false} DropLeadingFirst(segs: seq<string>)
    requires segs != []
    ensures DropIdle(segs) == CleanSegments(DropLeading(segs))
  {
    if |segs| > 1 && Idle(segs[0]) {
      DropLeadingFirst(segs[1..]);
    } else if |segs| == 1 {
      assert segs == [segs[0]] + [];
      assert segs[1..] == [];
    }
  }

  lemma SegmentsAfter(seg: string, rest: string)
    requires '/' !in seg
    ensures Segments(seg + ['/'] + rest) == [seg] + Segments(rest)
    decreases |seg|
  {
    var s := seg + ['/'] + rest;
    if seg == [] {
      assert s[1..] == rest;
    } else {
      assert s[1..] == seg[1..] + ['/'] + rest;
      SegmentsAfter(seg[1..], rest);
      assert [seg[0]] + seg[1..] == seg;
    }
  }

  lemma DropOne(seg: string, rest: string)
    requires Idle(seg)
    ensures DropLeading(Segments(seg + ['/'] + rest)) == DropLeading(Segments(rest))
  {
    SegmentsAfter(seg, rest);
    hide Segments;
    assert ([seg] + Segments(rest))[1..] == Segments(rest);
  }

  /** The skipping is the dropping of leading idle segments. */
  lemma {:induction false} SkipDropsLeading(s: string)
    ensures Segments(Skip(s)) == DropLeading(Segments(s))
    decreases |s|
  {
    hide Skip, Segments, DropLeading;
    SkipStep(s);
    if |s| >= 1 && s[0] == '/' {
      SkipDropsLeading(s[1..]);
      DropOne("", s[1..]);
      assert s == "" + ['/'] + s[1..];
    } else if |s| >= 2 && s[0] == '.' && s[1] == '/' {
      SkipDropsLeading(s[2..]);
      DropOne(".", s[2..]);
      assert s == "." + ['/'] + s[2..];
    } else if |s| >= 3 && s[0] == '.' && s[1] == '.' && s[2] == '/' {
      SkipDropsLeading(s[3..]);
      DropOne("..", s[3..]);
      assert s == ".." + ['/'] + s[3..];
    } else {
      NotIdleHead(s);
      NothingLeading(Segments(s));
    }
  }

  lemma NothingLeading(segs: seq<string>)
    requires segs != [] && (|segs| > 1 ==> !Idle(segs[0]))
    ensures DropLeading(segs) == segs
  {
  }

  lemma NotIdleHead(s: string)
    requires !(|s| >= 1 && s[0] == '/') && !(|s| >= 2 && s[0] == '.' && s[1] == '/')
    requires !(|s| >= 3 && s[0] == '.' && s[1] == '.' && s[2] == '/')
    ensures |Segments(s)| > 1 ==> !Idle(Segments(s)[0])
  {
    if |s| >= 1 {
      HeadIsPrefix(s);
      HeadIsPrefix(s[1..]);
    }
  }

  /** With more than one segment, a slash follows the first. */
  lemma {:induction false} HeadIsPrefix(s: string)
    ensures var h := Segments(s)[0];
            h <= s && '/' !in h && (|Segments(s)| > 1 <==> |h| < |s|) && (|h| < |s| ==> s[|h|] == '/')
  {
    if s != [] {
      HeadIsPrefix(s[1..]);
    }
  }

  /** `clean_pathname`'s result, segment by segment. */
  lemma {:induction false} CleanIsBySegments(s: string)
    ensures Clean(s) == Rejoin(CleanSegments(Segments(s)))
    decreases |s|
  {
    if s == [] {
    } else if s[0] == '/' {
      var u := Skip(s[1..]);
      CleanIsBySegments(u);
      SkipDropsLeading(s[1..]);
      DropLeadingFirst(Segments(s[1..]));
      assert Segments(s)[1..] == Segments(s[1..]);
    } else {
      CleanIsBySegments(s[1..]);
      ConsHead(s[0], Segments(s[1..]));
    }
  }

  lemma ConsHead(c: char, segs: seq<string>)
    requires segs != []
    ensures Rejoin(CleanSegments([[c] + segs[0]] + segs[1..])) == [c] + Rejoin(CleanSegments(segs))
  {
    var more := DropIdle(segs[1..]);
    assert ([[c] + segs[0]] + segs[1..])[1..] == segs[1..];
    assert ([[c] + segs[0]] + more)[1..] == more && ([segs[0]] + more)[1..] == more;
    if more != [] {
      assert [c] + segs[0] + ['/'] + Rejoin(more) == [c] + (segs[0] + ['/'] + Rejoin(more));
    }
  }

  // ---- Cleaning twice ----

  predicate NoSlashes(segs: seq<string>) {
    forall i :: 0 <= i < |segs| ==> '/' !in segs[i]
  }

  lemma {:induction false} SegmentsHaveNoSlash(s: string)
    ensures NoSlashes(Segments(s))
  {
    if s != [] {
      SegmentsHaveNoSlash(s[1..]);
    }
  }

  lemma {:induction false} SegmentsOfRejoin(segs: seq<string>)
    requires segs != [] && NoSlashes(segs)
    ensures Segments(Rejoin(segs)) == segs
  {
    if |segs| == 1 {
      SegmentsPlain(segs[0]);
    } else {
      SegmentsOfRejoin(segs[1..]);
      SegmentsAfter(segs[0], Rejoin(segs[1..]));
      assert [segs[0]] + segs[1..] == segs;
    }
  }

  lemma {:induction false} SegmentsPlain(seg: string)
    requires '/' !in seg
    ensures Segments(seg) == [seg]
  {
    if seg != [] {
      SegmentsPlain(seg[1..]);
      assert [seg[0]] + seg[1..] == seg;
    }
  }

  lemma {:induction false} DropIdleTwice(segs: seq<string>)
    ensures DropIdle(DropIdle(segs)) == DropIdle(segs)
    ensures NoSlashes(segs) ==> NoSlashes(DropIdle(segs))
  {
    if |segs| > 1 {
      DropIdleTwice(segs[1..]);
      if !Idle(segs[0]) {
        var d := DropIdle(segs[1..]);
        assert ([segs[0]] + d)[1..] == d;
      }
      assert NoSlashes(segs) ==> NoSlashes(segs[1..]) && '/' !in segs[0];
    }
  }

  /** Cleaning is idempotent and never lengthens a path. */
  lemma CleanTwice(s: string)
    ensures Clean(Clean(s)) == Clean(s) && |Clean(s)| <= |s|
  {
    var segs := Segments(s);
    var cleaned := CleanSegments(segs);
    CleanIsBySegments(s);
    SegmentsHaveNoSlash(s);
    DropIdleTwice(segs[1..]);
    assert NoSlashes(segs[1..]);
    assert NoSlashes(cleaned);
    SegmentsOfRejoin(cleaned);
    CleanIsBySegments(Clean(s));
    assert cleaned[1..] == DropIdle(segs[1..]);
  }

  /** A cleaned path names no way out of its directory: between its first and last segments there
      is no "..", no "." and nothing empty. */
  lemma NoIdleInside(s: string, i: nat)
    requires 0 < i < |Segments(Clean(s))| - 1
    ensures !Idle(Segments(Clean(s))[i])
  {
    var segs := Segments(s);
    CleanIsBySegments(s);
    SegmentsHaveNoSlash(s);
    DropIdleTwice(segs[1..]);
    assert NoSlashes(segs[1..]);
    SegmentsOfRejoin(CleanSegments(segs));
    DroppedNone(segs[1..], i - 1);
  }

  lemma {:induction false} DroppedNone(segs: seq<string>, i: nat)
    requires i < |DropIdle(segs)| - 1
    ensures !Idle(DropIdle(segs)[i])
  {
    if |segs| > 1 {
      if Idle(segs[0]) {
        DroppedNone(segs[1..], i);
      } else if i > 0 {
        DroppedNone(segs[1..], i - 1);
      }
    }
  }

  // ---- In place ----

  /** `clean_pathname`: the write position never passes the read position; what lies behind the
      path's NUL is not touched. */
  method CleanPathname(path: array<char>, s: string)
    requires |s| < path.Length && path[..|s|] == s && path[|s|] == '\0' && '\0' !in s
    modifies path
    ensures path[..|Clean(s)|] == Clean(s) && path[|Clean(s)|] == '\0' && |Clean(s)| <= |s|
    ensures path[|s| + 1..] == old(path[|s| + 1..])
  {
    var w: nat, r: nat := 0, 0;
    ghost var done := [];
    assert s[0..] == s && [] + Clean(s) == Clean(s);
    while path[r] != '\0'
      invariant w <= r <= |s|
      invariant path[r..] == old(path[r..]) && path[..w] == done
      invariant Clean(s) == done + Clean(s[r..])
      decreases |s| - r
    {
      hide Clean, Skip;
      BeforeEnd(path, s, old(path[..]), r);
      w, r, done := CopyOne(path, s, old(path[..]), w, r, done);
    }
    AtEnd(path, s, old(path[..]), r);
    assert s[r..] == [];
    assert done + [] == done;
    path[w] := '\0';
  }

  /** One character is kept; behind a slash the idle segments are skipped. */
  method CopyOne(path: array<char>, s: string, ghost was: string, w: nat, r: nat, ghost done: string)
    returns (w': nat, r': nat, ghost done': string)
    requires |s| < |was| == path.Length && was[..|s|] == s && was[|s|] == '\0' && '\0' !in s
    requires w <= r < |s| && path[r..] == was[r..] && path[..w] == done
    modifies path
    ensures w' <= r' <= |s| && r < r' && path[r'..] == was[r'..] && path[..w'] == done'
    ensures done' + Clean(s[r'..]) == done + Clean(s[r..])
  {
    hide Clean, Skip;
    At(path, s, was, r);
    CleanStep(s, r);
    var c := path[r];
    r' := r + 1;
    TailAgain(path[..], was, r, r + 1);
    if c == '/' {
      r' := SkipFrom(path, s, was, r + 1);
    }
    Pointwise(path[..], was, r);
    WriteBehind(path, was, w, r, r' - r, c);
    done' := done + [c];
    Sequences.Assoc(done, [c], Clean(s[r'..]));
    w' := w + 1;
  }

  lemma Pointwise(a: string, b: string, r: nat)
    requires |a| == |b| && r <= |a| && a[r..] == b[r..]
    ensures forall i :: r <= i < |a| ==> a[i] == b[i]
  {
    assert forall i :: r <= i < |a| ==> a[i] == a[r..][i - r] && b[i] == b[r..][i - r];
  }

  lemma TailAgain(a: string, b: string, r: nat, r': nat)
    requires |a| == |b| && r <= r' <= |a| && a[r..] == b[r..]
    ensures a[r'..] == b[r'..]
  {
    assert a[r'..] == a[r..][r' - r..] && b[r'..] == b[r..][r' - r..];
  }

  /** What the loop reads at r is what the path held there at first. */
  lemma At(path: array<char>, s: string, was: string, r: nat)
    requires |s| < |was| == path.Length && was[..|s|] == s && r <= |s| && path[r..] == was[r..] && was[|s|] == '\0'
    ensures forall k :: r <= k < |s| ==> path[k] == s[k]
    ensures path[|s|] == '\0'
  {
    forall k | r <= k <= |s| ensures path[k] == was[k] {
      assert path[r..][k - r] == was[r..][k - r];
    }
  }

  lemma AtEnd(path: array<char>, s: string, was: string, r: nat)
    requires |s| < |was| == path.Length && was[..|s|] == s && r <= |s| && path[r..] == was[r..] && was[|s|] == '\0'
    requires '\0' !in s && path[r] == '\0'
    ensures r == |s|
  {
    At(path, s, was, r);
  }

  lemma BeforeEnd(path: array<char>, s: string, was: string, r: nat)
    requires |s| < |was| == path.Length && was[..|s|] == s && r <= |s| && path[r..] == was[r..] && was[|s|] == '\0'
    requires path[r] != '\0'
    ensures r < |s|
  {
    At(path, s, was, r);
  }

  lemma CleanStep(s: string, r: nat)
    requires r < |s|
    ensures Clean(s[r..]) == [s[r]] + Clean(if s[r] == '/' then Skip(s[r + 1..]) else s[r + 1..])
  {
    assert s[r..][1..] == s[r + 1..];
  }

  /** The inner loop behind a slash. */
  method SkipFrom(path: array<char>, s: string, ghost was: string, from: nat) returns (r: nat)
    requires 0 < from <= |s| < |was| == path.Length && was[..|s|] == s && was[|s|] == '\0' && '\0' !in s
    requires path[from..] == was[from..]
    ensures from <= r <= |s| && s[r..] == Skip(s[from..])
  {
    hide Skip;
    At(path, s, was, from);
    r := from;
    while true
      invariant from <= r <= |s| && Skip(s[r..]) == Skip(s[from..])
      decreases |s| - r
    {
      ghost var rest := s[r..];
      SkipStep(rest);
      assert rest != [] ==> rest[0] == s[r] && rest[1..] == s[r + 1..];
      assert |rest| >= 2 ==> rest[1] == s[r + 1] && rest[2..] == s[r + 2..];
      assert |rest| >= 3 ==> rest[2] == s[r + 2] && rest[3..] == s[r + 3..];
      if path[r] == '/' {
        r := r + 1;
      } else if path[r] == '.' && path[r + 1] == '/' {
        r := r + 2;
      } else if path[r] == '.' && path[r + 1] == '.' && path[r + 2] == '/' {
        r := r + 3;
      } else {
        return;
      }
    }
  }

  /** The part of `process_header_end` that turns the request's URI into a path: decoded, then
      cleaned, in one buffer. The query string keeps the raw text behind the question mark. */
  method DecodeAndClean(uri: array<char>, s: string) returns (ok: bool, query: Option<nat>)
    requires |s| < uri.Length && uri[..|s|] == s && uri[|s|] == '\0' && '\0' !in s
    modifies uri
    ensures ok <==> Decode(s, 0).Some? && var p := Clean(Decode(s, 0).value.path); p != [] && p[0] == '/'
    ensures ok ==> var u := Decode(s, 0).value;
                   && |u.path| <= |s|
                   && uri[..|Clean(u.path)|] == Clean(u.path) && uri[|Clean(u.path)|] == '\0'
                   && query == u.query
                   && (query.Some? ==> query.value <= |s| && uri[query.value..|s|] == s[query.value..])
    ensures ok && query.Some? ==> uri[|s|] == '\0'
  {
    ok, query := UnescapeUri(uri, s);
    if !ok {
      return;
    }
    ghost var u := Decode(s, 0).value;
    DecodedHasNoNul(s, 0);
    hide Decode, Clean;
    var path := PathOf(uri, u.path);
    label decoded:
    CleanPathname(uri, path);
    if query.Some? {
      ghost var k := query.value - |path| - 1;
      assert uri[query.value..|s|] == uri[|path| + 1..][k..k + |s| - query.value];
      assert old@decoded(uri[query.value..|s|]) == old@decoded(uri[|path| + 1..])[k..k + |s| - query.value];
    }
    ghost var p := Clean(path);
    assert p != [] ==> uri[0] == uri[..|p|][0] == p[0];
    ok := uri[0] == '/';
  }

  /** The C string at the head of the buffer. */
  method PathOf(uri: array<char>, ghost p: string) returns (path: string)
    requires |p| < uri.Length && uri[..|p|] == p && uri[|p|] == '\0' && '\0' !in p
    ensures path == p
  {
    var n := 0;
    while uri[n] != '\0'
      invariant n <= |p|
      decreases |p| - n
    {
      n := n + 1;
    }
    path := uri[..n];
  }

  lemma {:induction false} DecodedHasNoNul(s: string, i: nat)
    requires i <= |s| && '\0' !in s && Decode(s, i).Some?
    ensures '\0' !in Decode(s, i).value.path
    decreases |s| - i
  {
    if i < |s| && s[i] != '?' && s[i] != '#' {
      hide PairValue, AfterQuery;
      DecodedHasNoNul(s, if s[i] == '%' then i + 3 else i + 1);
      assert s[i] in s;
    }
  }
}
