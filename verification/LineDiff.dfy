/** The line diff of php/run-tests.php: a bounded lookahead decides which edits to report; what the
    edits add up to does not depend on it. Lines are compared by a given test, equality or a regular
    expression match. */
module LineDiff {
  import Sequences

  /** A reported line: wanted line i is missing, or output line j is extra. */
  datatype Edit = Missing(index: nat, text: string) | Extra(index: nat, text: string)

  // ---- Common subsequences ----

  /** Pairs of matching lines, ascending on both sides, all at or after (i, j). */
  ghost predicate Common(a: seq<string>, b: seq<string>, same: (string, string) -> bool, i: nat,
                         j: nat, ps: seq<(nat, nat)>)
  {
    && (forall k :: 0 <= k < |ps| ==> i <= ps[k].0 < |a| && j <= ps[k].1 < |b| && same(a[ps[k].0], b[ps[k].1]))
    && (forall k, l :: 0 <= k < l < |ps| ==> ps[k].0 < ps[l].0 && ps[k].1 < ps[l].1)
  }

  function Max(x: nat, y: nat): nat {
    if x > y then x else y
  }

  /** The length of the longest common subsequence of the two suffixes. */
  function Lcs(a: seq<string>, b: seq<string>, same: (string, string) -> bool, i: nat, j: nat): nat
    decreases |a| - i + |b| - j
  {
    if i >= |a| || j >= |b| then 0
    else
      var skip := Max(Lcs(a, b, same, i + 1, j), Lcs(a, b, same, i, j + 1));
      if same(a[i], b[j]) then Max(skip, 1 + Lcs(a, b, same, i + 1, j + 1)) else skip
  }

  /** No common subsequence is longer. */
  lemma {:induction false} LcsBounds(a: seq<string>, b: seq<string>, same: (string, string) -> bool, i: nat,
                                     j: nat, ps: seq<(nat, nat)>)
    requires Common(a, b, same, i, j, ps)
    ensures |ps| <= Lcs(a, b, same, i, j)
    decreases |a| - i + |b| - j
  {
    if ps != [] {
      CommonLater(a, b, same, i, j, ps);
      hide Common;
      if ps[0].0 > i {
        LcsBounds(a, b, same, i + 1, j, ps);
      } else if ps[0].1 > j {
        LcsBounds(a, b, same, i, j + 1, ps);
      } else {
        LcsBounds(a, b, same, i + 1, j + 1, ps[1..]);
      }
    }
  }

  /** A common subsequence that does not start with a pair of first lines leaves one of them out. */
  lemma CommonLater(a: seq<string>, b: seq<string>, same: (string, string) -> bool, i: nat, j: nat, ps: seq<(nat, nat)>)
    requires Common(a, b, same, i, j, ps) && ps != []
    ensures i <= ps[0].0 < |a| && j <= ps[0].1 < |b| && same(a[ps[0].0], b[ps[0].1])
    ensures ps[0].0 > i ==> Common(a, b, same, i + 1, j, ps)
    ensures ps[0].1 > j ==> Common(a, b, same, i, j + 1, ps)
    ensures ps[0] == (i, j) ==> Common(a, b, same, i + 1, j + 1, ps[1..])
  {
    assert forall k :: 0 <= k < |ps[1..]| ==> ps[1..][k] == ps[k + 1];
  }

  lemma CommonCons(a: seq<string>, b: seq<string>, same: (string, string) -> bool, i: nat, j: nat, ps: seq<(nat, nat)>)
    requires i < |a| && j < |b| && same(a[i], b[j]) && Common(a, b, same, i + 1, j + 1, ps)
    ensures Common(a, b, same, i, j, [(i, j)] + ps)
  {
    var all := [(i, j)] + ps;
    assert forall k :: 1 <= k < |all| ==> all[k] == ps[k - 1];
  }

  /** Some common subsequence is that long. */
  lemma {:induction false} LcsAttained(a: seq<string>, b: seq<string>, same: (string, string) -> bool, i: nat, j: nat)
    returns (ps: seq<(nat, nat)>)
    ensures Common(a, b, same, i, j, ps) && |ps| == Lcs(a, b, same, i, j)
    decreases |a| - i + |b| - j
  {
    if i >= |a| || j >= |b| {
      ps := [];
    } else {
      var down := LcsAttained(a, b, same, i + 1, j);
      var right := LcsAttained(a, b, same, i, j + 1);
      ps := if |down| > |right| then down else right;
      if same(a[i], b[j]) {
        var both := LcsAttained(a, b, same, i + 1, j + 1);
        CommonCons(a, b, same, i, j, both);
        if 1 + |both| >= |ps| {
          ps := [(i, j)] + both;
        }
      }
    }
  }

  /** A run of matches followed by a common subsequence further on. */
  lemma CommonJoin(a: seq<string>, b: seq<string>, same: (string, string) -> bool, i: nat, j: nat, n: nat,
                   run: seq<(nat, nat)>, i': nat, j': nat, more: seq<(nat, nat)>)
    requires Common(a, b, same, i, j, run) && Common(a, b, same, i', j', more)
    requires i + n <= i' && j + n <= j'
    requires forall k :: 0 <= k < |run| ==> run[k].0 < i + n && run[k].1 < j + n
    ensures Common(a, b, same, i, j, run + more)
  {
    var all := run + more;
    assert forall k :: 0 <= k < |all| ==> all[k] == if k < |run| then run[k] else more[k - |run|];
  }

  /** `count_array_diff`: the length of a common subsequence of the two suffixes that a search
      bounded by `steps` finds. Steps are halved, so they need not be whole. */
  method CountDiff(a: seq<string>, b: seq<string>, same: (string, string) -> bool, first: nat, second: nat, steps: real)
    returns (equal: nat, ghost ps: seq<(nat, nat)>)
    requires first <= |a| && second <= |b|
    ensures Common(a, b, same, first, second, ps) && |ps| == equal
    ensures equal <= Lcs(a, b, same, first, second)
    decreases |a| - first + |b| - second
  {
    hide Lcs;
    var idx1, idx2, left := first, second, steps;
    equal := 0;
    ps := [];
    while idx1 < |a| && idx2 < |b| && same(a[idx1], b[idx2])
      invariant idx1 == first + equal <= |a| && idx2 == second + equal <= |b|
      invariant |ps| == equal && Common(a, b, same, first, second, ps)
      invariant forall k :: 0 <= k < equal ==> ps[k] == (first + k, second + k)
    {
      ps := ps + [(idx1, idx2)];
      idx1 := idx1 + 1;
      idx2 := idx2 + 1;
      equal := equal + 1;
      left := left - 1.0;
    }
    left := left - 1.0;
    if left > 0.0 {
      var eq1, eq2;
      ghost var ps1, ps2;
      eq1, ps1 := BestSkippingFirst(a, b, same, idx1, idx2, left / 2.0);
      eq2, ps2 := BestSkippingSecond(a, b, same, idx1, idx2, left);
      if eq1 > eq2 {
        CommonJoin(a, b, same, first, second, equal, ps, idx1, idx2, ps1);
        ps := ps + ps1;
        equal := equal + eq1;
      } else if eq2 > 0 {
        CommonJoin(a, b, same, first, second, equal, ps, idx1, idx2, ps2);
        ps := ps + ps2;
        equal := equal + eq2;
      }
    }
    LcsBounds(a, b, same, first, second, ps);
  }

  /** The loop of `count_array_diff` that tries later lines of the first side. */
  method BestSkippingFirst(a: seq<string>, b: seq<string>, same: (string, string) -> bool, idx1: nat,
                           idx2: nat, budget: real)
    returns (best: nat, ghost ps: seq<(nat, nat)>)
    requires idx1 <= |a| && idx2 <= |b|
    ensures Common(a, b, same, idx1, idx2, ps) && |ps| == best
    decreases |a| - idx1 + |b| - idx2, 0
  {
    best, ps := 0, [];
    var ofs1, st := idx1 + 1, budget;
    while ofs1 < |a| && st > 0.0
      invariant ofs1 > idx1
      invariant Common(a, b, same, idx1, idx2, ps) && |ps| == best
      decreases |a| - ofs1
    {
      st := st - 1.0;
      var eq;
      ghost var qs;
      eq, qs := CountDiff(a, b, same, ofs1, idx2, st);
      if eq > best {
        best, ps := eq, qs;
      }
      ofs1 := ofs1 + 1;
    }
  }

  /** The same over the second side. */
  method BestSkippingSecond(a: seq<string>, b: seq<string>, same: (string, string) -> bool, idx1: nat,
                            idx2: nat, budget: real)
    returns (best: nat, ghost ps: seq<(nat, nat)>)
    requires idx1 <= |a| && idx2 <= |b|
    ensures Common(a, b, same, idx1, idx2, ps) && |ps| == best
    decreases |a| - idx1 + |b| - idx2, 0
  {
    best, ps := 0, [];
    var ofs2, st := idx2 + 1, budget;
    while ofs2 < |b| && st > 0.0
      invariant ofs2 > idx2
      invariant Common(a, b, same, idx1, idx2, ps) && |ps| == best
      decreases |b| - ofs2
    {
      st := st - 1.0;
      var eq;
      ghost var qs;
      eq, qs := CountDiff(a, b, same, idx1, ofs2, st);
      if eq > best {
        best, ps := eq, qs;
      }
      ofs2 := ofs2 + 1;
    }
  }

  // ---- What an edit list means ----

  /** The edits of one side, in the order of the list. */
  function MissingOf(diff: seq<Edit>): seq<Edit> {
    if diff == [] then []
    else MissingOf(diff[..|diff| - 1]) + if diff[|diff| - 1].Missing? then [diff[|diff| - 1]] else []
  }

  function ExtraOf(diff: seq<Edit>): seq<Edit> {
    if diff == [] then []
    else ExtraOf(diff[..|diff| - 1]) + if diff[|diff| - 1].Extra? then [diff[|diff| - 1]] else []
  }

  /** The wanted lines from number i on that are not reported missing. */
  function DropMissing(w: seq<string>, i: nat, missing: seq<Edit>): seq<string>
    decreases |w| - i
  {
    if i >= |w| then []
    else if missing != [] && missing[0].index == i then DropMissing(w, i + 1, missing[1..])
    else [w[i]] + DropMissing(w, i + 1, missing)
  }

  /** Extra lines put back at their numbers among the kept ones, from output line j on. */
  function PutExtra(kept: seq<string>, j: nat, extra: seq<Edit>): seq<string>
    decreases |kept| + |extra|
  {
    if extra != [] && (kept == [] || extra[0].index == j) then [extra[0].text] + PutExtra(kept, j + 1, extra[1..])
    else if kept == [] then []
    else [kept[0]] + PutExtra(kept[1..], j + 1, extra)
  }

  /** The edits applied to the wanted lines. */
  function Patch(w: seq<string>, diff: seq<Edit>): seq<string> {
    PutExtra(DropMissing(w, 0, MissingOf(diff)), 0, ExtraOf(diff))
  }

  // ---- The walk that produces the edits ----

  /** One move of the walk: a matching pair, a missing line, an extra line. */
  datatype Move = Both | OnlyFirst | OnlySecond

  function FirstEnd(path: seq<Move>): nat
    decreases |path|
  {
    if path == [] then 0 else FirstEnd(path[1..]) + if path[0].OnlySecond? then 0 else 1
  }

  function SecondEnd(path: seq<Move>): nat
    decreases |path|
  {
    if path == [] then 0 else SecondEnd(path[1..]) + if path[0].OnlyFirst? then 0 else 1
  }

  /** The walk from (i, j) stays inside both sides and pairs only lines that compare equal. */
  ghost predicate Walk(a: seq<string>, b: seq<string>, same: (string, string) -> bool, i: nat, j: nat, path: seq<Move>)
    decreases |path|
  {
    if path == [] then i <= |a| && j <= |b|
    else match path[0]
         case Both => i < |a| && j < |b| && same(a[i], b[j]) && Walk(a, b, same, i + 1, j + 1, path[1..])
         case OnlyFirst => i < |a| && Walk(a, b, same, i + 1, j, path[1..])
         case OnlySecond => j < |b| && Walk(a, b, same, i, j + 1, path[1..])
  }

  /** The lines the walk passes over alone. */
  function MissingAlong(w: seq<string>, i: nat, path: seq<Move>): seq<Edit>
    requires i + FirstEnd(path) <= |w|
    decreases |path|
  {
    if path == [] then []
    else match path[0]
         case Both => MissingAlong(w, i + 1, path[1..])
         case OnlyFirst => [Missing(i, w[i])] + MissingAlong(w, i + 1, path[1..])
         case OnlySecond => MissingAlong(w, i, path[1..])
  }

  function ExtraAlong(b: seq<string>, j: nat, path: seq<Move>): seq<Edit>
    requires j + SecondEnd(path) <= |b|
    decreases |path|
  {
    if path == [] then []
    else match path[0]
         case Both => ExtraAlong(b, j + 1, path[1..])
         case OnlyFirst => ExtraAlong(b, j, path[1..])
         case OnlySecond => [Extra(j, b[j])] + ExtraAlong(b, j + 1, path[1..])
  }

  /** The lines of the walk's output side, with the wanted text where a pair matched. */
  function Rewritten(w: seq<string>, b: seq<string>, i: nat, j: nat, path: seq<Move>): seq<string>
    requires i + FirstEnd(path) <= |w| && j + SecondEnd(path) <= |b|
    decreases |path|
  {
    if path == [] then []
    else match path[0]
         case Both => [w[i]] + Rewritten(w, b, i + 1, j + 1, path[1..])
         case OnlyFirst => Rewritten(w, b, i + 1, j, path[1..])
         case OnlySecond => [b[j]] + Rewritten(w, b, i, j + 1, path[1..])
  }

  function KeptAlong(w: seq<string>, i: nat, path: seq<Move>): seq<string>
    requires i + FirstEnd(path) <= |w|
    decreases |path|
  {
    if path == [] then []
    else match path[0]
         case Both => [w[i]] + KeptAlong(w, i + 1, path[1..])
         case OnlyFirst => KeptAlong(w, i + 1, path[1..])
         case OnlySecond => KeptAlong(w, i, path[1..])
  }

  lemma {:induction false} MissingLater(w: seq<string>, i: nat, path: seq<Move>)
    requires i + FirstEnd(path) <= |w|
    ensures MissingAlong(w, i, path) != [] ==> MissingAlong(w, i, path)[0].index >= i
    decreases |path|
  {
    if path != [] {
      MissingLater(w, if path[0].OnlySecond? then i else i + 1, path[1..]);
    }
  }

  lemma {:induction false} ExtraLater(b: seq<string>, j: nat, path: seq<Move>)
    requires j + SecondEnd(path) <= |b|
    ensures ExtraAlong(b, j, path) != [] ==> ExtraAlong(b, j, path)[0].index >= j
    decreases |path|
  {
    if path != [] {
      ExtraLater(b, if path[0].OnlyFirst? then j else j + 1, path[1..]);
    }
  }

  lemma {:induction false} DropMissingAlong(w: seq<string>, i: nat, path: seq<Move>)
    requires i + FirstEnd(path) == |w|
    ensures DropMissing(w, i, MissingAlong(w, i, path)) == KeptAlong(w, i, path)
    decreases |path|
  {
    if path != [] {
      var i' := if path[0].OnlySecond? then i else i + 1;
      DropMissingAlong(w, i', path[1..]);
      if path[0].Both? {
        MissingLater(w, i + 1, path[1..]);
      }
    }
  }

  lemma {:induction false} PutExtraAlong(w: seq<string>, b: seq<string>, i: nat, j: nat, path: seq<Move>)
    requires i + FirstEnd(path) <= |w| && j + SecondEnd(path) <= |b|
    ensures PutExtra(KeptAlong(w, i, path), j, ExtraAlong(b, j, path)) == Rewritten(w, b, i, j, path)
    decreases |path|
  {
    if path != [] {
      match path[0]
      case Both =>
        PutExtraAlong(w, b, i + 1, j + 1, path[1..]);
        ExtraLater(b, j + 1, path[1..]);
      case OnlyFirst => PutExtraAlong(w, b, i + 1, j, path[1..]);
      case OnlySecond => PutExtraAlong(w, b, i, j + 1, path[1..]);
    }
  }

  /** When lines are compared for equality the rewritten lines are the output lines. */
  lemma {:induction false} RewrittenIsOutput(a: seq<string>, b: seq<string>, same: (string, string) -> bool,
                                             i: nat, j: nat, path: seq<Move>)
    requires Walk(a, b, same, i, j, path) && i + FirstEnd(path) <= |a| && j + SecondEnd(path) == |b|
    requires forall x, y :: same(x, y) <==> x == y
    ensures Rewritten(a, b, i, j, path) == b[j..]
    decreases |path|
  {
    if path != [] {
      match path[0]
      case Both => RewrittenIsOutput(a, b, same, i + 1, j + 1, path[1..]);
      case OnlyFirst => RewrittenIsOutput(a, b, same, i + 1, j, path[1..]);
      case OnlySecond => RewrittenIsOutput(a, b, same, i, j + 1, path[1..]);
    }
  }

  /** What the walk so far has reported, split by side. */
  ghost predicate Reported(a: seq<string>, b: seq<string>, w: seq<string>, same: (string, string) -> bool,
                           path: seq<Move>, idx1: nat, idx2: nat, old1: seq<Edit>, old2: seq<Edit>)
  {
    && Walk(a, b, same, 0, 0, path) && idx1 == FirstEnd(path) <= |w| && idx2 == SecondEnd(path) <= |b|
    && old1 == MissingAlong(w, 0, path) && old2 == ExtraAlong(b, 0, path)
  }

  lemma {:induction false} WalkSnoc(a: seq<string>, b: seq<string>, same: (string, string) -> bool, i: nat,
                                    j: nat, path: seq<Move>, m: Move)
    requires Walk(a, b, same, i, j, path)
    requires var i', j' := i + FirstEnd(path), j + SecondEnd(path);
             match m
             case Both => i' < |a| && j' < |b| && same(a[i'], b[j'])
             case OnlyFirst => i' < |a|
             case OnlySecond => j' < |b|
    ensures Walk(a, b, same, i, j, path + [m])
    ensures FirstEnd(path + [m]) == FirstEnd(path) + if m.OnlySecond? then 0 else 1
    ensures SecondEnd(path + [m]) == SecondEnd(path) + if m.OnlyFirst? then 0 else 1
    decreases |path|
  {
    if path == [] {
      assert path + [m] == [m] && [m][1..] == [];
    } else {
      WalkSnoc(a, b, same, if path[0].OnlySecond? then i else i + 1, if path[0].OnlyFirst? then j else j + 1,
               path[1..], m);
      assert (path + [m])[1..] == path[1..] + [m];
    }
  }

  lemma FirstEndStep(path: seq<Move>)
    requires path != []
    ensures FirstEnd(path) == (if path[0].OnlySecond? then 0 else 1) + FirstEnd(path[1..])
  {
  }

  lemma MissingStep(w: seq<string>, i: nat, path: seq<Move>)
    requires path != [] && i + FirstEnd(path) <= |w|
    ensures var i' := if path[0].OnlySecond? then i else i + 1;
            MissingAlong(w, i, path)
            == (if path[0].OnlyFirst? then [Missing(i, w[i])] else []) + MissingAlong(w, i', path[1..])
  {
  }

  lemma {:induction false} MissingSnoc(w: seq<string>, i: nat, path: seq<Move>, m: Move)
    requires i + FirstEnd(path + [m]) <= |w|
    requires FirstEnd(path + [m]) == FirstEnd(path) + if m.OnlySecond? then 0 else 1
    ensures var n := i + FirstEnd(path);
            MissingAlong(w, i, path + [m]) == MissingAlong(w, i, path) + if m.OnlyFirst? then [Missing(n, w[n])] else []
    decreases |path|
  {
    if path == [] {
      assert path + [m] == [m] && [m][1..] == [];
    } else {
      var i' := if path[0].OnlySecond? then i else i + 1;
      assert (path + [m])[0] == path[0] && (path + [m])[1..] == path[1..] + [m];
      FirstEndStep(path);
      FirstEndStep(path + [m]);
      MissingStep(w, i, path);
      MissingStep(w, i, path + [m]);
      hide MissingAlong, FirstEnd;
      MissingSnoc(w, i', path[1..], m);
      var n := i + FirstEnd(path);
      Sequences.Assoc(if path[0].OnlyFirst? then [Missing(i, w[i])] else [], MissingAlong(w, i', path[1..]),
                      if m.OnlyFirst? then [Missing(n, w[n])] else []);
    }
  }

  lemma SecondEndStep(path: seq<Move>)
    requires path != []
    ensures SecondEnd(path) == (if path[0].OnlyFirst? then 0 else 1) + SecondEnd(path[1..])
  {
  }

  lemma ExtraStep(b: seq<string>, j: nat, path: seq<Move>)
    requires path != [] && j + SecondEnd(path) <= |b|
    ensures var j' := if path[0].OnlyFirst? then j else j + 1;
            ExtraAlong(b, j, path)
            == (if path[0].OnlySecond? then [Extra(j, b[j])] else []) + ExtraAlong(b, j', path[1..])
  {
  }

  lemma {:induction false} ExtraSnoc(b: seq<string>, j: nat, path: seq<Move>, m: Move)
    requires j + SecondEnd(path + [m]) <= |b|
    requires SecondEnd(path + [m]) == SecondEnd(path) + if m.OnlyFirst? then 0 else 1
    ensures var n := j + SecondEnd(path);
            ExtraAlong(b, j, path + [m]) == ExtraAlong(b, j, path) + if m.OnlySecond? then [Extra(n, b[n])] else []
    decreases |path|
  {
    if path == [] {
      assert path + [m] == [m] && [m][1..] == [];
    } else {
      var j' := if path[0].OnlyFirst? then j else j + 1;
      assert (path + [m])[0] == path[0] && (path + [m])[1..] == path[1..] + [m];
      SecondEndStep(path);
      SecondEndStep(path + [m]);
      ExtraStep(b, j, path);
      ExtraStep(b, j, path + [m]);
      hide ExtraAlong, SecondEnd;
      ExtraSnoc(b, j', path[1..], m);
      var n := j + SecondEnd(path);
      Sequences.Assoc(if path[0].OnlySecond? then [Extra(j, b[j])] else [], ExtraAlong(b, j', path[1..]),
                      if m.OnlySecond? then [Extra(n, b[n])] else []);
    }
  }

  /** One more move of the walk. */
  lemma ReportedSnoc(a: seq<string>, b: seq<string>, w: seq<string>, same: (string, string) -> bool,
                     path: seq<Move>, idx1: nat, idx2: nat, old1: seq<Edit>, old2: seq<Edit>, m: Move)
    requires Reported(a, b, w, same, path, idx1, idx2, old1, old2) && |w| == |a|
    requires match m
             case Both => idx1 < |a| && idx2 < |b| && same(a[idx1], b[idx2])
             case OnlyFirst => idx1 < |a|
             case OnlySecond => idx2 < |b|
    ensures Reported(a, b, w, same, path + [m],
                     if m.OnlySecond? then idx1 else idx1 + 1, if m.OnlyFirst? then idx2 else idx2 + 1,
                     if m.OnlyFirst? then old1 + [Missing(idx1, w[idx1])] else old1,
                     if m.OnlySecond? then old2 + [Extra(idx2, b[idx2])] else old2)
  {
    WalkSnoc(a, b, same, 0, 0, path, m);
    MissingSnoc(w, 0, path, m);
    ExtraSnoc(b, 0, path, m);
    assert old1 + [] == old1 && old2 + [] == old2;
  }

  lemma FilterSnoc(diff: seq<Edit>, e: Edit)
    ensures MissingOf(diff + [e]) == MissingOf(diff) + if e.Missing? then [e] else []
    ensures ExtraOf(diff + [e]) == ExtraOf(diff) + if e.Extra? then [e] else []
  {
    assert (diff + [e])[..|diff|] == diff;
  }

  /** The walk of `generate_array_diff` up to the end of the shorter side: which unmatched lines are
      reported where is up to the lookahead. */
  method WalkBoth(a: seq<string>, b: seq<string>, w: seq<string>, same: (string, string) -> bool)
    returns (idx1: nat, idx2: nat, old1: seq<Edit>, old2: seq<Edit>, ghost path: seq<Move>)
    requires |w| == |a|
    ensures Reported(a, b, w, same, path, idx1, idx2, old1, old2)
    ensures idx1 == |a| || idx2 == |b|
    ensures forall e :: e in old1 ==> e.Missing?
    ensures forall e :: e in old2 ==> e.Extra?
  {
    idx1, idx2, old1, old2, path := 0, 0, [], [], [];
    assert Reported(a, b, w, same, path, idx1, idx2, old1, old2);
    hide Reported, Lcs, Common;
    while idx1 < |a| && idx2 < |b|
      invariant idx1 <= |a| && idx2 <= |b|
      invariant Reported(a, b, w, same, path, idx1, idx2, old1, old2)
      invariant forall e :: e in old1 ==> e.Missing?
      invariant forall e :: e in old2 ==> e.Extra?
      decreases |a| - idx1 + |b| - idx2
    {
      if same(a[idx1], b[idx2]) {
        ReportedSnoc(a, b, w, same, path, idx1, idx2, old1, old2, Both);
        path := path + [Both];
        idx1, idx2 := idx1 + 1, idx2 + 1;
      } else {
        var c1, c2;
        ghost var ps;
        c1, ps := CountDiff(a, b, same, idx1 + 1, idx2, 10.0);
        c2, ps := CountDiff(a, b, same, idx1, idx2 + 1, 10.0);
        if c1 > c2 {
          ReportedSnoc(a, b, w, same, path, idx1, idx2, old1, old2, OnlyFirst);
          path := path + [OnlyFirst];
          old1 := old1 + [Missing(idx1, w[idx1])];
          idx1 := idx1 + 1;
        } else if c2 > 0 {
          ReportedSnoc(a, b, w, same, path, idx1, idx2, old1, old2, OnlySecond);
          path := path + [OnlySecond];
          old2 := old2 + [Extra(idx2, b[idx2])];
          idx2 := idx2 + 1;
        } else {
          ReportedSnoc(a, b, w, same, path, idx1, idx2, old1, old2, OnlyFirst);
          path := path + [OnlyFirst];
          old1 := old1 + [Missing(idx1, w[idx1])];
          idx1 := idx1 + 1;
          ReportedSnoc(a, b, w, same, path, idx1, idx2, old1, old2, OnlySecond);
          path := path + [OnlySecond];
          old2 := old2 + [Extra(idx2, b[idx2])];
          idx2 := idx2 + 1;
        }
      }
    }
  }

  /** The merge of `generate_array_diff`: runs of consecutive numbers are kept together where it can;
      each entry comes out once and each side keeps its order. */
  method Merge(old1: seq<Edit>, old2: seq<Edit>) returns (diff: seq<Edit>)
    requires forall e :: e in old1 ==> e.Missing?
    requires forall e :: e in old2 ==> e.Extra?
    ensures MissingOf(diff) == old1 && ExtraOf(diff) == old2
  {
    diff := [];
    var p1, p2 := 0, 0;
    var l1: int, l2: int := -2, -2;
    while p1 < |old1| || p2 < |old2|
      invariant p1 <= |old1| && p2 <= |old2|
      invariant MissingOf(diff) == old1[..p1] && ExtraOf(diff) == old2[..p2]
      decreases |old1| - p1 + |old2| - p2
    {
      var fromFirst :=
        if p1 == |old1| then false
        else if p2 == |old2| then true
        else if old1[p1].index == l1 + 1 then true
        else if old2[p2].index == l2 + 1 then false
        else old1[p1].index < old2[p2].index;
      if fromFirst {
        FilterSnoc(diff, old1[p1]);
        assert old1[p1] in old1 && old1[..p1 + 1] == old1[..p1] + [old1[p1]];
        l1 := old1[p1].index;
        diff := diff + [old1[p1]];
        p1 := p1 + 1;
      } else {
        FilterSnoc(diff, old2[p2]);
        assert old2[p2] in old2 && old2[..p2 + 1] == old2[..p2] + [old2[p2]];
        l2 := old2[p2].index;
        diff := diff + [old2[p2]];
        p2 := p2 + 1;
      }
    }
    assert old1[..p1] == old1 && old2[..p2] == old2;
  }

  /** `generate_array_diff`: the reported lines are those a complete walk passes over alone, each
      once and in order on its side; applied to the wanted lines they give back the output, line by
      line the reported text or the wanted text that was found to match. */
  method Generate(a: seq<string>, b: seq<string>, w: seq<string>, same: (string, string) -> bool)
    returns (diff: seq<Edit>, ghost path: seq<Move>)
    requires |w| == |a|
    ensures Walk(a, b, same, 0, 0, path) && FirstEnd(path) == |a| && SecondEnd(path) == |b|
    ensures MissingOf(diff) == MissingAlong(w, 0, path) && ExtraOf(diff) == ExtraAlong(b, 0, path)
    ensures Patch(w, diff) == Rewritten(w, b, 0, 0, path)
    ensures w == a && (forall x, y :: same(x, y) <==> x == y) ==> Patch(w, diff) == b
  {
    var idx1, idx2, old1, old2;
    idx1, idx2, old1, old2, path := WalkBoth(a, b, w, same);
    diff := Merge(old1, old2);
    while idx1 < |a|
      invariant idx1 <= |a| && idx2 <= |b| && (idx1 == |a| || idx2 == |b|)
      invariant Reported(a, b, w, same, path, idx1, idx2, MissingOf(diff), ExtraOf(diff))
    {
      hide *;
      ReportedSnoc(a, b, w, same, path, idx1, idx2, MissingOf(diff), ExtraOf(diff), OnlyFirst);
      FilterSnoc(diff, Missing(idx1, w[idx1]));
      assert ExtraOf(diff) + [] == ExtraOf(diff);
      path := path + [OnlyFirst];
      diff := diff + [Missing(idx1, w[idx1])];
      idx1 := idx1 + 1;
    }
    while idx2 < |b|
      invariant idx1 == |a| && idx2 <= |b|
      invariant Reported(a, b, w, same, path, idx1, idx2, MissingOf(diff), ExtraOf(diff))
    {
      hide *;
      ReportedSnoc(a, b, w, same, path, idx1, idx2, MissingOf(diff), ExtraOf(diff), OnlySecond);
      FilterSnoc(diff, Extra(idx2, b[idx2]));
      assert MissingOf(diff) + [] == MissingOf(diff);
      path := path + [OnlySecond];
      diff := diff + [Extra(idx2, b[idx2])];
      idx2 := idx2 + 1;
    }
    DropMissingAlong(w, 0, path);
    PutExtraAlong(w, b, 0, 0, path);
    if w == a && (forall x, y :: same(x, y) <==> x == y) {
      RewrittenIsOutput(a, b, same, 0, 0, path);
    }
  }
}
