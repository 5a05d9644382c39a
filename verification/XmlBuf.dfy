/** The growable byte buffer of lib/libxml2/buf.c: four growth policies, a sliding window in IO mode
    and the mirrored `compat` fields, refining a plain byte sequence. `size_t` is wide enough for
    every sum here, `unsigned int` has 32 bits. Each operation takes a flag saying whether the
    allocator obliges; a block above INT_MAX bytes is always refused. */
module XmlBuf {
  import Sequences
  import opened Numerals
  import opened Options

  const NUL := '\0'
  /** `BASE_BUFFER_SIZE`, the threshold of the hybrid policy and the default size. */
  const BASE_BUFFER_SIZE := 4096

  datatype Scheme = DoubleIt | Exact | Io | Hybrid

  /** `start` doubled until it reaches need; None when a 32-bit value would overflow. */
  function DoubleUntil(start: nat, need: nat): (r: Option<nat>)
    requires start > 0
    ensures r.Some? ==> need <= r.value && start <= r.value
    ensures r.Some? && start <= UINT_MAX ==> r.value <= UINT_MAX
    ensures r.Some? ==> r.value == start || r.value < 2 * need
    ensures r.None? ==> UINT_MAX / 2 < need
    decreases need - start
  {
    if need <= start then Some(start)
    else if start > UINT_MAX / 2 then None
    else DoubleUntil(2 * start, need)
  }

  /** The size `xmlBufResize` asks for, in 32-bit unsigned arithmetic; None is its memory error. */
  function NewSize(alloc: Scheme, size: nat, use: nat, need: nat): Option<nat> {
    match alloc
    case Exact => Some((need + 10) % (UINT_MAX + 1))
    case Hybrid =>
      if use < BASE_BUFFER_SIZE then Some(need)
      else if size == 0 then None
      else DoubleUntil(size * 2, need)
    case _ =>
      if size > 0 then DoubleUntil(size * 2, need)
      else if need + 10 > UINT_MAX then None
      else Some(need + 10)
  }

  /** A granted size holds what was asked for, except that the exact policy's margin wraps. */
  lemma NewSizeSuffices(alloc: Scheme, size: nat, use: nat, need: nat)
    requires size <= need <= UINT_MAX && (size == 0 || use < size)
    requires NewSize(alloc, size, use, need).Some?
    ensures NewSize(alloc, size, use, need).value >= need <==> !(alloc == Exact && need > UINT_MAX - 10)
  {
  }

  /** Doubling: the new size is at least twice the old one and below twice the request. */
  lemma DoublingIsGeometric(size: nat, use: nat, need: nat)
    requires 0 < size < need
    requires NewSize(DoubleIt, size, use, need).Some?
    ensures 2 * size <= NewSize(DoubleIt, size, use, need).value < 2 * need
  {
  }

  /** The size selection of `xmlBufResize`, with its doubling loop. */
  method ChooseSize(alloc: Scheme, size: nat, use: nat, need: nat) returns (newSize: Option<nat>)
    requires size <= need <= UINT_MAX - 10 && use <= size <= INT_MAX && (use == size ==> size == 0)
    ensures newSize == NewSize(alloc, size, use, need)
    ensures newSize.Some? ==> need <= newSize.value && size <= newSize.value <= UINT_MAX
    ensures newSize.Some? && alloc == DoubleIt && size > 0 ==> 2 * size <= newSize.value <= 2 * need
    ensures newSize.Some? && alloc == DoubleIt && 0 < size < need ==> newSize.value < 2 * need
  {
    var n: nat;
    match alloc {
      case Exact => return Some(need + 10);
      case Hybrid =>
        if use < BASE_BUFFER_SIZE {
          return Some(need);
        }
        n := size * 2;
      case _ =>
        if size == 0 {
          return Some(need + 10);
        }
        n := size * 2;
    }
    ghost var start := n;
    while need > n
      invariant 0 < start <= n
      invariant n == start || n < 2 * need
      invariant DoubleUntil(n, need) == DoubleUntil(start, need)
      decreases need - n
    {
      if n > UINT_MAX / 2 {
        return None;
      }
      n := n * 2;
    }
    return Some(n);
  }

  /** The length of the C string at the head of s: up to its first NUL. */
  function StrLen(s: string): (n: nat)
    requires NUL in s
    ensures n < |s| && s[n] == NUL && NUL !in s[..n]
  {
    if s[0] == NUL then 0 else 1 + StrLen(s[1..])
  }

  lemma SliceJoin(a: string, i: nat, j: nat, k: nat)
    requires i <= j <= k <= |a|
    ensures a[i..k] == a[i..j] + a[j..k]
  {
  }

  /** `memmove` inside one block. */
  method Memmove(a: array<char>, dst: nat, src: nat, n: nat)
    requires dst + n <= a.Length && src + n <= a.Length
    modifies a
    ensures a[dst..dst + n] == old(a[src..src + n])
    ensures forall i :: 0 <= i < a.Length && !(dst <= i < dst + n) ==> a[i] == old(a[i])
  {
    forall i | 0 <= i < n {
      a[dst + i] := a[src + i];
    }
  }

  /** `memcpy` from outside the block. */
  method Memcpy(a: array<char>, dst: nat, s: string)
    requires dst + |s| <= a.Length
    modifies a
    ensures a[dst..dst + |s|] == s
    ensures forall i :: 0 <= i < a.Length && !(dst <= i < dst + |s|) ==> a[i] == old(a[i])
  {
    forall i | 0 <= i < |s| {
      a[dst + i] := s[i];
    }
  }

  /** The two moves of an insertion before n bytes. */
  method Prepend(a: array<char>, at: nat, n: nat, s: string)
    requires at + n + |s| <= a.Length
    modifies a
    ensures a[at..at + |s| + n] == s + old(a[at..at + n])
  {
    Memmove(a, at + |s|, at, n);
    Memcpy(a, at, s);
    assert a[at + |s|..at + |s| + n] == old(a[at..at + n]);
    SliceJoin(a[..], at, at + |s|, at + |s| + n);
  }

  /** Bytes copied to just before n others. */
  method CopyBefore(a: array<char>, at: nat, n: nat, s: string)
    requires |s| <= at && at + n <= a.Length
    modifies a
    ensures a[at - |s|..at + n] == s + old(a[at..at + n])
    ensures forall i :: at <= i < a.Length ==> a[i] == old(a[i])
  {
    Memcpy(a, at - |s|, s);
    assert a[at..at + n] == old(a[at..at + n]);
    SliceJoin(a[..], at - |s|, at, at + n);
  }

  /** Terminates the bytes from..k. */
  method SetNul(a: array<char>, from: nat, k: nat)
    requires from <= k < a.Length
    modifies a
    ensures a[k] == NUL && a[from..k] == old(a[from..k])
  {
    a[k] := NUL;
  }

  /** An operation on a buffer, and on the byte sequence it stands for. */
  datatype Op =
    | Append(s: string) | Prefix(s: string) | Drop(n: nat) | Chop(n: nat) | Clear
    | Reserve(n: nat) | Ensure(n: nat)
  {
    /** Arguments within the `int` range, short of the last few values. */
    predicate Fits() {
      match this
      case Append(s) => |s| <= INT_MAX - 16
      case Prefix(s) => |s| <= INT_MAX - 16
      case Ensure(n) => 0 < n <= INT_MAX
      case _ => true
    }
  }

  /** Whether an operation gives a buffer that has no block one, and whether it leaves a NUL there. */
  predicate Allocates(op: Op) {
    Grounds(op) || op.Reserve? || op.Ensure?
  }

  predicate Grounds(op: Op) {
    (op.Append? || op.Prefix?) && op.s != []
  }

  /** No byte is taken off the end of a missing block: `xmlBufErase` of nothing writes its NUL. */
  predicate NoBlindErase(ops: seq<Op>) {
    forall i :: 0 <= i < |ops| && ops[i] == Chop(0) ==> exists j :: 0 <= j < i && Allocates(ops[j])
  }

  predicate HasBlock(ops: seq<Op>) {
    exists j :: 0 <= j < |ops| && Allocates(ops[j])
  }

  lemma ErasedNext(ops: seq<Op>, i: nat)
    requires i < |ops|
    ensures HasBlock(ops[..i + 1]) <==> HasBlock(ops[..i]) || Allocates(ops[i])
    ensures NoBlindErase(ops[..i + 1]) <==> NoBlindErase(ops[..i]) && (ops[i] == Chop(0) ==> HasBlock(ops[..i]))
  {
    var was, now := ops[..i], ops[..i + 1];
    assert now[i] == ops[i] && forall j :: 0 <= j < i ==> was[j] == now[j];
    if NoBlindErase(now) && ops[i] == Chop(0) {
      var j :| 0 <= j < i && Allocates(now[j]);
      assert Allocates(was[j]);
    }
    if HasBlock(was) {
      var j :| 0 <= j < i && Allocates(was[j]);
      assert Allocates(now[j]);
    }
    forall k | 0 <= k < i && was[k] == Chop(0) && NoBlindErase(now)
      ensures exists j :: 0 <= j < k && Allocates(was[j])
    {
      assert now[k] == Chop(0);
      var j :| 0 <= j < k && Allocates(now[j]);
      assert Allocates(was[j]);
    }
    forall k | 0 <= k < i && now[k] == Chop(0) && NoBlindErase(was)
      ensures exists j :: 0 <= j < k && Allocates(now[j])
    {
      assert was[k] == Chop(0);
      var j :| 0 <= j < k && Allocates(was[j]);
      assert Allocates(now[j]);
    }
  }

  /** Whether anything is erased from a missing block is settled by an operation that would give one. */
  lemma ErasedSettled(ops: seq<Op>, i: nat)
    requires i < |ops|
    ensures NoBlindErase(ops[..i]) && Allocates(ops[i]) ==> NoBlindErase(ops)
    ensures !HasBlock(ops[..i]) && ops[i] == Chop(0) ==> !NoBlindErase(ops)
  {
    var was := ops[..i];
    assert forall j :: 0 <= j < i ==> was[j] == ops[j];
    forall k | 0 <= k < |ops| && ops[k] == Chop(0) && NoBlindErase(was) && Allocates(ops[i])
      ensures exists j :: 0 <= j < k && Allocates(ops[j])
    {
      if k < i {
        assert was[k] == Chop(0);
        var j :| 0 <= j < k && Allocates(was[j]);
        assert Allocates(ops[j]);
      }
    }
    if !HasBlock(was) && ops[i] == Chop(0) {
      forall j | 0 <= j < i ensures !Allocates(ops[j]) {
        assert !Allocates(was[j]);
      }
    }
  }

  lemma {:induction false} MarkedStays(alloc: Scheme, ops: seq<Op>)
    ensures BareAfter(alloc, Marked, ops) == Marked
  {
    if ops != [] {
      MarkedStays(alloc, ops[..|ops| - 1]);
    }
  }

  /** The first block comes with contents, not from growing or resizing, which write no NUL to it. */
  predicate Grounded(ops: seq<Op>) {
    forall i :: 0 <= i < |ops| && (ops[i].Reserve? || ops[i].Ensure?) ==> exists j :: 0 <= j < i && Grounds(ops[j])
  }

  /** What a buffer made without a block has: still none; a block of this size that nothing was
      written to; or a NUL behind its contents. */
  datatype Bare = NoBlock | Blank(size: nat) | Marked

  /** What becomes of it by an operation whose allocation is granted. A blank block is copied blank,
      unless it is replaced by a fresh one and the used part, with a NUL, goes there. */
  function NextBare(alloc: Scheme, b: Bare, op: Op): Bare {
    match b
    case Marked => Marked
    case NoBlock =>
      if Grounds(op) then Marked
      else if op.Reserve? then Blank(op.n + 100)
      else if op.Ensure? && NewSize(alloc, 0, 0, op.n).Some? then Blank(NewSize(alloc, 0, 0, op.n).value)
      else NoBlock
    case Blank(size) =>
      if Grounds(op) || op == Chop(0) || op == Clear then Marked
      else if op.Reserve? && op.n >= size then Blank(op.n + 100)
      else if op.Ensure? && op.n >= size then
        if size >= 100 then Marked
        else if NewSize(alloc, size, 0, op.n).Some? then Blank(NewSize(alloc, size, 0, op.n).value)
        else b
      else b
  }

  function BareAfter(alloc: Scheme, b: Bare, ops: seq<Op>): Bare {
    if ops == [] then b else NextBare(alloc, BareAfter(alloc, b, ops[..|ops| - 1]), ops[|ops| - 1])
  }

  /** With the first block coming with contents, it is never blank. */
  lemma {:induction false} GroundedIsMarked(alloc: Scheme, ops: seq<Op>, k: nat)
    requires Grounded(ops) && k <= |ops|
    ensures !BareAfter(alloc, NoBlock, ops[..k]).Blank?
    ensures BareAfter(alloc, NoBlock, ops[..k]) == NoBlock ==> forall j :: 0 <= j < k ==> !Grounds(ops[j])
  {
    if k > 0 {
      assert ops[..k][..k - 1] == ops[..k - 1];
      GroundedIsMarked(alloc, ops, k - 1);
    }
  }

  /** The bytes an operation may ask for beyond the contents. */
  function Need(op: Op): nat {
    match op
    case Append(s) => |s| + 2
    case Prefix(s) => |s| + 2
    case Reserve(n) => n
    case Ensure(n) => n
    case _ => 0
  }

  function Demand(ops: seq<Op>): nat {
    if ops == [] then 0 else Demand(ops[..|ops| - 1]) + Need(ops[|ops| - 1])
  }

  /** Contents this long, terminator and all, never need a block beyond the `int` range. */
  predicate InRange(n: nat) {
    3 * n + 100 <= INT_MAX
  }

  ghost predicate Obliging(oks: nat -> bool) {
    forall i :: oks(i)
  }

  /** An allocation that is granted, of a size that can be. */
  predicate Quiet(ok: bool, n: nat) {
    ok && InRange(n)
  }

  /** When the allocator does not give n bytes. */
  predicate BlockRefused(n: nat, ok: bool) {
    !ok || n > INT_MAX
  }

  lemma {:induction false} DemandGrows(ops: seq<Op>, i: nat)
    requires i <= |ops|
    ensures Demand(ops[..i]) <= Demand(ops)
  {
    if i < |ops| {
      DemandGrows(ops[..|ops| - 1], i);
      assert ops[..|ops| - 1][..i] == ops[..i];
    } else {
      assert ops[..i] == ops;
    }
  }

  lemma {:induction false} FlattenGrows(strs: seq<string>, i: nat)
    requires i <= |strs|
    ensures |Flatten(strs[..i])| <= |Flatten(strs)|
  {
    if i < |strs| {
      FlattenGrows(strs[..|strs| - 1], i);
      assert strs[..|strs| - 1][..i] == strs[..i];
    } else {
      assert strs[..i] == strs;
    }
  }

  lemma {:induction false} EscapedLength(s: string)
    ensures |s| <= |EscapeQuotes(s)| <= 6 * |s|
  {
    if s != [] {
      EscapedLength(s[1..]);
    }
  }

  /** What an operation makes of the contents is no longer than what it asks for. */
  lemma EffectFits(op: Op, c: string)
    ensures |Effect(op, c)| <= |c| + Need(op)
  {
  }

  function Effect(op: Op, c: string): string {
    match op
    case Append(s) => c + s
    case Prefix(s) => s + c
    case Drop(n) => if n <= |c| then c[n..] else c
    case Chop(n) => if n <= |c| then c[..|c| - n] else c
    case Clear => []
    case Reserve(_) => c
    case Ensure(_) => c
  }

  function Effects(ops: seq<Op>, c: string): string {
    if ops == [] then c else Effect(ops[|ops| - 1], Effects(ops[..|ops| - 1], c))
  }

  function Flatten(strs: seq<string>): string {
    if strs == [] then [] else Flatten(strs[..|strs| - 1]) + strs[|strs| - 1]
  }

  lemma FlattenSnoc(strs: seq<string>, i: nat)
    requires i < |strs|
    ensures Flatten(strs[..i + 1]) == Flatten(strs[..i]) + strs[i]
  {
    assert strs[..i + 1][..i] == strs[..i];
  }

  function EscapeChar(c: char): string {
    if c == '"' then "&quot;" else [c]
  }

  /** Double quotes replaced by their entity. */
  function EscapeQuotes(s: string): string {
    if s == [] then [] else EscapeChar(s[0]) + EscapeQuotes(s[1..])
  }

  function Quoted(s: string): string {
    if '"' in s && '\'' in s then ['"'] + EscapeQuotes(s) + ['"']
    else if '"' in s then ['\''] + s + ['\'']
    else ['"'] + s + ['"']
  }

  lemma {:induction false} EscapeConcat(a: string, b: string)
    ensures EscapeQuotes(a + b) == EscapeQuotes(a) + EscapeQuotes(b)
  {
    if a == [] {
      assert a + b == b;
    } else {
      EscapeConcat(a[1..], b);
      assert (a + b)[1..] == a[1..] + b;
      Sequences.Assoc(EscapeChar(a[0]), EscapeQuotes(a[1..]), EscapeQuotes(b));
    }
  }

  lemma {:induction false} EscapePlain(s: string)
    requires '"' !in s
    ensures EscapeQuotes(s) == s
  {
    if s != [] {
      EscapePlain(s[1..]);
    }
  }

  predicate NoQuote(s: string, base: nat, cur: nat)
    requires base <= cur <= |s|
  {
    '"' !in s[base..cur]
  }

  lemma PlainNone(s: string, start: string)
    ensures start + EscapeQuotes(s[..0]) == start && forall k :: 0 <= k <= |s| ==> NoQuote(s, k, k)
  {
    assert s[..0] == [];
    EscapeNothing(start);
  }

  lemma PlainMore(s: string, base: nat, cur: nat)
    requires base <= cur < |s| && NoQuote(s, base, cur) && s[cur] != '"'
    ensures NoQuote(s, base, cur + 1)
  {
    assert s[base..cur + 1] == s[base..cur] + [s[cur]];
  }

  lemma EscapeNothing(s: string)
    ensures EscapeQuotes([]) == [] && s + EscapeQuotes([]) == s
  {
  }

  lemma EscapeOne(c: char)
    ensures EscapeQuotes([c]) == EscapeChar(c)
  {
    assert EscapeQuotes([c]) == EscapeChar(c) + EscapeQuotes([]);
  }

  lemma EscapeUpTo(s: string, base: nat, cur: nat)
    requires base <= cur <= |s| && '"' !in s[base..cur]
    ensures EscapeQuotes(s[..cur]) == EscapeQuotes(s[..base]) + s[base..cur]
  {
    EscapePlain(s[base..cur]);
    EscapeConcat(s[..base], s[base..cur]);
    assert s[..base] + s[base..cur] == s[..cur];
  }

  lemma EscapeSnoc(s: string, cur: nat)
    requires cur < |s|
    ensures EscapeQuotes(s[..cur + 1]) == EscapeQuotes(s[..cur]) + EscapeChar(s[cur])
  {
    EscapeOne(s[cur]);
    EscapeConcat(s[..cur], [s[cur]]);
    assert s[..cur] + [s[cur]] == s[..cur + 1];
  }

  lemma {:induction false} EscapedHasNoQuote(s: string)
    ensures '"' !in EscapeQuotes(s)
  {
    if s != [] {
      EscapedHasNoQuote(s[1..]);
    }
  }

  /** The literal opens and closes with one kind of quote and holds none of that kind inside. */
  lemma QuotedIsLiteral(s: string)
    ensures var q := Quoted(s); |q| >= 2 && (q[0] == '"' || q[0] == '\'') && q[0] == q[|q| - 1]
                                && q[0] !in q[1..|q| - 1]
  {
    var q := Quoted(s);
    EscapedHasNoQuote(s);
    var inner := if '"' in s && '\'' in s then EscapeQuotes(s) else s;
    assert q[1..|q| - 1] == inner;
  }

  class Buffer {
    /** What the allocator leaves in a block. */
    const junk: char
    /** The block `content` points into, and how far into it. */
    var content: array?<char>
    var off: nat
    /** The base of the block in IO mode. */
    var contentIO: array?<char>
    var alloc: Scheme
    var use: nat
    var size: nat
    var compatUse: nat
    var compatSize: nat
    var failed: bool
    /** The bytes the buffer stands for. */
    ghost var text: string
    /** Bytes copied by resizing so far. */
    ghost var moved: nat

    ghost predicate Valid()
      reads this, content
    {
      && compatUse == use && compatSize == size
      && (content == null ==> size == 0 && use == 0 && off == 0 && contentIO == null)
      && (content != null ==> use < size && off + size == content.Length <= INT_MAX)
      && (contentIO != null ==> contentIO == content && alloc == Io)
      && (contentIO == null ==> off == 0)
      && (content != null ==> off < size)
      && text == (if content == null then [] else content[off..off + use])
    }

    /** A NUL follows the contents. */
    ghost predicate Terminated()
      requires Valid()
      reads this, content
    {
      content != null ==> content[off + use] == NUL
    }

    /** Nothing was written to the block, if there is one. */
    ghost predicate Untouched()
      requires Valid()
      reads this, content
    {
      && use == 0 && contentIO == null
      && (content != null ==> forall i :: 0 <= i < content.Length ==> content[i] == junk)
    }

    ghost predicate IsBare(b: Bare)
      requires Valid()
      reads this, content
    {
      match b
      case NoBlock => content == null
      case Blank(size) => content != null && this.size == size && Untouched()
      case Marked => content != null && Terminated()
    }

    // Exactly when an operation meets a memory error: the doubling overflows, the block would leave
    // the `int` range, or the allocator refuses it.

    ghost predicate GrowRefused(len: nat, ok: bool)
      reads `use, `size, `off
    {
      use + len >= size && BlockRefused(off + if size > len then size * 2 else use + len + 100, ok)
    }

    ghost predicate ResizeRefused(need: nat, ok: bool)
      reads `use, `size, `off, `alloc
    {
      var newSize := NewSize(alloc, size, use, need);
      size <= need && (newSize == None || BlockRefused(off + newSize.value, ok))
    }

    ghost predicate AddRefused(n: nat, ok: bool)
      reads `use, `size, `off, `alloc
    {
      n > 0 && use + n + 2 > size && ResizeRefused(use + n + 2, ok)
    }

    /** A prefix that fits the space slid over before asks for nothing. */
    ghost predicate HeadRefused(n: nat, ok: bool)
      reads `use, `size, `off, `alloc, `contentIO
    {
      !(alloc == Io && contentIO != null && off > n) && AddRefused(n, ok)
    }

    ghost predicate CharRefused(ok: bool)
      reads `use, `size, `off, `alloc
    {
      use + 10 >= size && ResizeRefused(use + 10, ok)
    }

    ghost predicate OpRefused(op: Op, ok: bool)
      reads `use, `size, `off, `alloc, `contentIO
    {
      match op
      case Append(s) => AddRefused(|s|, ok)
      case Prefix(s) => HeadRefused(|s|, ok)
      case Reserve(n) => GrowRefused(n, ok)
      case Ensure(n) => ResizeRefused(n, ok)
      case _ => false
    }

    /** An obliging allocator never refuses a size in range. */
    lemma ResizeGranted(need: nat)
      requires Valid() && 0 < need && InRange(need)
      ensures !ResizeRefused(need, true)
    {
    }

    lemma AddGranted(n: nat)
      requires Valid()
      ensures InRange(use + n + 2) ==> !AddRefused(n, true)
    {
      if InRange(use + n + 2) {
        ResizeGranted(use + n + 2);
      }
    }

    lemma CharGranted()
      requires Valid()
      ensures |text| == use && (InRange(use + 10) ==> !CharRefused(true))
    {
      if InRange(use + 10) {
        ResizeGranted(use + 10);
      }
    }

    lemma OpGranted(op: Op)
      requires Valid() && op.Fits() && InRange(use + Need(op))
      ensures !OpRefused(op, true)
    {
      match op
      case Append(s) => ResizeGranted(use + |s| + 2);
      case Prefix(s) => ResizeGranted(use + |s| + 2);
      case Ensure(n) => ResizeGranted(n);
      case _ =>
    }

    /** `xmlBufCreateSize`; None when memory runs out. */
    static method CreateSize(size: nat, alloc: Scheme, junk: char, ok: bool) returns (b: Buffer?)
      requires size + 2 <= INT_MAX
      ensures b != null ==> fresh(b) && b.Valid() && b.Terminated() && b.text == []
      ensures b != null ==> b.junk == junk && b.alloc == alloc && !b.failed && b.contentIO == null
      ensures b != null ==> (b.content == null <==> size == 0)
      ensures b != null ==> b.size == (if size == 0 then 0 else size + 2)
      ensures b != null && b.content != null ==> fresh(b.content)
      ensures b == null <==> !ok
    {
      if !ok {
        return null;
      }
      b := new Buffer(alloc, if size == 0 then 0 else size + 2, junk);
    }

    /** The state both creation routines leave: `xmlBufCreate` uses the default size as it is. */
    constructor (alloc: Scheme, size: nat, junk: char)
      requires size <= INT_MAX
      ensures Valid() && Terminated() && text == []
      ensures this.junk == junk && this.alloc == alloc && this.size == size
      ensures !failed && contentIO == null && moved == 0
      ensures if size == 0 then content == null else content != null && fresh(content)
    {
      this.junk, this.alloc, this.size, compatSize := junk, alloc, size, size;
      use, compatUse, off := 0, 0, 0;
      contentIO := null;
      failed := false;
      moved := 0;
      text := [];
      content := null;
      new;
      if size > 0 {
        content := new char[size](_ => junk);
        content[0] := NUL;
      }
    }

    /** `xmlBufSetAllocationScheme`: IO mode is entered once and for good. */
    method SetScheme(scheme: Scheme) returns (r: int)
      requires Valid()
      modifies this
      ensures Valid() && text == old(text) && content == old(content) && off == old(off)
      ensures unchanged(`use, `size, `failed, `moved)
      ensures alloc == if old(failed) || old(alloc) == Io then old(alloc) else scheme
      ensures r == 0 <==> !old(failed) && old(alloc) != Io && scheme != Io
      ensures scheme == Io && old(alloc) != Io && !failed ==> contentIO == content
    {
      if failed || alloc == Io {
        return -1;
      }
      if scheme != Io {
        alloc := scheme;
        return 0;
      }
      alloc := Io;
      contentIO := content;
      return -1;
    }

    /** `realloc`: a block of n bytes that starts with what the old one held. */
    static method Realloc(from: array?<char>, n: nat, junk: char, ok: bool) returns (b: array?<char>)
      ensures b == null <==> !ok || n > INT_MAX
      ensures b != null ==> fresh(b) && b.Length == n
      ensures b != null && from != null ==> forall i :: 0 <= i < n && i < from.Length ==> b[i] == from[i]
      ensures b != null ==> forall i :: (if from == null then 0 else from.Length) <= i < n ==> b[i] == junk
    {
      if !ok || n > INT_MAX {
        return null;
      }
      b := new char[n](_ => junk);
      if from != null {
        forall i | 0 <= i < n && i < from.Length {
          b[i] := from[i];
        }
      }
    }

    /** The window's block is replaced by one that starts with the same bytes. */
    method Rebase(b: array<char>, newSize: nat)
      requires Valid() && b.Length == off + newSize <= INT_MAX && use < newSize && off < newSize
      requires content != null ==> forall i :: 0 <= i < off + use ==> b[i] == content[i]
      requires content != null ==> b[off + use] == content[off + use] || b[off + use] == NUL
      modifies `content, `contentIO, `size, `compatSize
      ensures Valid() && content == b && size == newSize && text == old(text)
      ensures old(content) != null && old(Terminated()) ==> Terminated()
      ensures contentIO == if old(contentIO) == null then null else b
    {
      assert content != null ==> b[off..off + use] == text;
      if contentIO != null {
        contentIO := b;
      }
      content := b;
      size := newSize;
      compatSize := newSize;
    }

    /** `xmlBufGrowInternal`: room for more than len further bytes, or a memory error. A buffer that
        had no block yet comes out without a terminator. */
    method GrowInternal(len: nat, ok: bool) returns (r: nat)
      requires Valid()
      modifies this
      ensures Valid() && text == old(text) && unchanged(`alloc, `off, `use, `moved)
      ensures content == old(content) || fresh(content)
      ensures failed <==> r == 0
      ensures failed <==> old(failed) || old(GrowRefused(len, ok))
      ensures r == 0 ==> contentIO == old(contentIO)
      ensures old(failed) ==> unchanged(this)
      ensures r > 0 ==> r == size - use && r > len
      ensures old(content) != null && old(Terminated()) ==> Terminated()
      ensures r == 0 ==> size == old(size) && content == old(content)
      ensures size >= old(size)
      ensures contentIO == null <==> old(contentIO) == null
      ensures r > 0 ==> size == if use + len < old(size) then old(size)
                                else if old(size) > len then 2 * old(size) else use + len + 100
      ensures old(Untouched()) ==> Untouched()
    {
      if failed {
        return 0;
      }
      if use + len < size {
        return size - use;
      }
      var size' := if size > len then size * 2 else use + len + 100;
      var regrown := Regrow(size', ok);
      return if regrown then size - use else 0;
    }

    /** `realloc` of the block to a larger size. */
    method Regrow(newSize: nat, ok: bool) returns (regrown: bool)
      requires Valid() && !failed && newSize > use && newSize >= size && newSize > off
      modifies `failed, `content, `contentIO, `size, `compatSize
      ensures Valid() && text == old(text)
      ensures regrown <==> !failed
      ensures failed <==> BlockRefused(off + newSize, ok)
      ensures if failed then unchanged(`content, `contentIO, `size) else fresh(content) && size == newSize
      ensures contentIO == null <==> old(contentIO) == null
      ensures old(content) != null && old(Terminated()) ==> Terminated()
      ensures old(Untouched()) ==> Untouched()
    {
      var newbuf := Realloc(content, off + newSize, junk, ok);
      if newbuf == null {
        failed := true;
        return false;
      }
      Rebase(newbuf, newSize);
      return true;
    }

    /** `xmlBufResize`: 1 when the buffer holds need bytes afterwards, 0 otherwise. The branch that
        slides the data back to the block's base is never taken: the offset stays below the size. */
    method Resize(need: nat, ok: bool) returns (r: int)
      requires Valid() && 0 < need <= UINT_MAX - 10
      modifies this
      ensures Valid() && text == old(text) && unchanged(`alloc, `off, `use)
      ensures content == old(content) || fresh(content)
      ensures r == 1 <==> !failed
      ensures failed <==> old(failed) || old(ResizeRefused(need, ok))
      ensures r == 0 ==> contentIO == old(contentIO)
      ensures old(failed) ==> unchanged(this)
      ensures r == 0 || r == 1
      ensures r == 1 ==> size >= need && content != null
      ensures r == 1 && old(size) <= need ==> NewSize(old(alloc), old(size), old(use), need) == Some(size)
      ensures r == 0 ==> size == old(size) && content == old(content)
      ensures old(content) != null && old(Terminated()) ==> Terminated()
      ensures contentIO == null <==> old(contentIO) == null
      ensures old(Untouched()) ==>
                if failed || need < old(size) || old(size) < 100 then Untouched() else Terminated()
      ensures need < old(size) && !failed ==> size == old(size) && content == old(content)
      ensures old(alloc) == DoubleIt && old(size) > 0 ==>
                moved - old(moved) <= size - old(size)
                && (size == old(size) || size <= 2 * need)
                && (old(size) < need && r == 1 ==> size < 2 * need)
    {
      if failed {
        return 0;
      }
      if need < size {
        return 1;
      }
      var newSize := ChooseSize(alloc, size, use, need);
      if newSize == None {
        failed := true;
        return 0;
      }
      var enlarged := Enlarge(newSize.value, ok);
      return if enlarged then 1 else 0;
    }

    method Enlarge(newSize: nat, ok: bool) returns (enlarged: bool)
      requires Valid() && !failed && newSize > 0 && newSize >= size
      modifies this
      ensures Valid() && text == old(text) && unchanged(`alloc, `off, `use)
      ensures enlarged <==> !failed
      ensures failed <==> old(BlockRefused(off + newSize, ok))
      ensures !enlarged ==> contentIO == old(contentIO)
      ensures enlarged ==> size == newSize && fresh(content)
      ensures !enlarged ==> content == old(content) && size == old(size) && moved == old(moved)
      ensures old(content) != null && old(Terminated()) ==> Terminated()
      ensures moved - old(moved) <= old(size)
      ensures contentIO == null <==> old(contentIO) == null
      ensures !enlarged ==> unchanged(`content, `size)
      ensures old(Untouched()) && enlarged ==> if old(size) < 100 then Untouched() else Terminated()
    {
      var rebuf := NewBlock(newSize, ok);
      if rebuf == null {
        failed := true;
        return false;
      }
      moved := moved + (if size - use < 100 then size else use);
      Rebase(rebuf, newSize);
      return true;
    }

    /** How `xmlBufResize` obtains the block: `realloc`, or a fresh block and a copy of the used part
        when the old one is far from full. */
    method NewBlock(newSize: nat, ok: bool) returns (rebuf: array?<char>)
      requires Valid() && newSize > use && newSize >= size
      ensures rebuf == null <==> BlockRefused(off + newSize, ok)
      ensures rebuf != null ==> fresh(rebuf) && rebuf.Length == off + newSize <= INT_MAX
      ensures rebuf != null && content != null ==> forall i :: 0 <= i < off + use ==> rebuf[i] == content[i]
      ensures rebuf != null && content != null ==> rebuf[off + use] == content[off + use] || rebuf[off + use] == NUL
      ensures rebuf != null && Untouched() && size < 100 ==> forall i :: 0 <= i < newSize ==> rebuf[i] == junk
      ensures rebuf != null && Untouched() && size >= 100 ==> rebuf[off + use] == NUL
    {
      if alloc == Io && contentIO != null {
        if off > newSize {
          assert false;
        }
        rebuf := Realloc(contentIO, off + newSize, junk, ok);
      } else if content == null || size - use < 100 {
        rebuf := Realloc(content, newSize, junk, ok);
      } else {
        rebuf := Realloc(null, newSize, junk, ok);
        if rebuf != null {
          forall i | 0 <= i < use {
            rebuf[i] := content[i];
          }
          rebuf[use] := NUL;
        }
      }
    }

    /** The space behind the contents takes s and a terminator. */
    method Put(s: string)
      requires Valid() && content != null && use + |s| < size
      modifies this, content
      ensures Valid() && Terminated() && text == old(text) + s
      ensures unchanged(`content, `alloc, `failed, `size, `moved)
    {
      Memcpy(content, off + use, s);
      use, text := use + |s|, text + s;
      content[off + use] := NUL;
      compatUse := use;
      assert content[off..off + use] == text;
    }

    /** The resizing both additions begin with: room for n more bytes and a terminator. */
    method MakeRoom(n: nat, ok: bool) returns (roomy: bool)
      requires Valid() && !failed && n > 0 && use + n + 12 <= UINT_MAX
      modifies this
      ensures Valid() && text == old(text) && unchanged(`alloc, `off, `use)
      ensures content == old(content) || fresh(content)
      ensures !roomy <==> old(AddRefused(n, ok))
      ensures roomy <==> !failed
      ensures roomy ==> content != null && use + n < size
      ensures !roomy ==> unchanged(`size, `content, `contentIO)
      ensures !roomy && old(Untouched()) ==> Untouched()
      ensures old(content) != null && old(Terminated()) ==> Terminated()
      ensures old(alloc) == DoubleIt && old(size) > 0 ==>
                moved - old(moved) <= size - old(size)
                && (size == old(size) || size < 2 * (use + n + 2))
    {
      hide ResizeRefused, Terminated, Untouched;
      var needSize := use + n + 2;
      if needSize > size {
        var resized := Resize(needSize, ok);
        return resized != 0;
      }
      return true;
    }

    /** `xmlBufAdd` with a known length. */
    method AddBytes(s: string, ok: bool) returns (r: int)
      requires Valid() && use + |s| + 12 <= UINT_MAX
      modifies this, content
      ensures Valid() && alloc == old(alloc) && (content == old(content) || fresh(content))
      ensures failed <==> old(failed) || old(AddRefused(|s|, ok))
      ensures r == 0 <==> !failed
      ensures failed ==> unchanged(`use, `size, `off, `alloc, `content, `contentIO)
      ensures old(failed) ==> r == -1 && unchanged(this)
      ensures r == 0 ==> text == old(text) + s && failed == old(failed)
      ensures r != 0 ==> text == old(text)
      ensures old(Terminated()) || (r == 0 && s != []) ==> Terminated()
      ensures r == 0 && s != [] ==> !failed && use == old(use) + |s|
      ensures (r != 0 || s == []) && old(Untouched()) ==> Untouched()
      ensures s == [] ==> unchanged(this)
      ensures old(alloc) == DoubleIt && old(size) > 0 ==>
                moved - old(moved) <= size - old(size)
                && (size == old(size) || size < 2 * (old(use) + |s| + 2))
    {
      assert !AddRefused(0, ok);
      hide AddRefused;
      if failed {
        return -1;
      }
      if s == [] {
        return 0;
      }
      var roomy := MakeRoom(|s|, ok);
      if !roomy {
        return 2;
      }
      Put(s);
      return 0;
    }

    /** `xmlBufAdd`: a length of -1 means the string's own. */
    method Add(str: string, len: int, ok: bool) returns (r: int)
      requires Valid() && len <= |str| && (len == -1 ==> NUL in str)
      requires use + |str| + 12 <= UINT_MAX
      modifies this, content
      ensures Valid() && alloc == old(alloc)
      ensures len < -1 ==> r == -1
      ensures failed <==> old(failed) || (len >= -1 && old(AddRefused(if len == -1 then StrLen(str) else len, ok)))
      ensures r == 0 <==> !failed && len >= -1
      ensures r == 0 ==> text == old(text) + str[..if len == -1 then StrLen(str) else len]
      ensures r != 0 ==> text == old(text)
    {
      if failed || len < -1 {
        return -1;
      }
      var n := if len == -1 then StrLen(str) else len;
      r := AddBytes(str[..n], ok);
    }

    /** `xmlBufAddHead` with a known positive length: into the space slid over before, or by moving
        the contents up. */
    method AddHead(s: string, ok: bool) returns (r: int)
      requires Valid() && use + |s| + 12 <= UINT_MAX
      modifies this, content
      ensures Valid() && alloc == old(alloc) && (content == old(content) || fresh(content))
      ensures failed <==> old(failed) || old(HeadRefused(|s|, ok))
      ensures r == 0 <==> !failed
      ensures failed ==> unchanged(`use, `size, `off, `alloc, `content, `contentIO)
      ensures old(failed) ==> r == -1 && unchanged(this)
      ensures r == 0 ==> text == s + old(text) && failed == old(failed)
      ensures r != 0 ==> text == old(text)
      ensures old(Terminated()) || (r == 0 && s != [] && old(contentIO) == null) ==> Terminated()
      ensures (r != 0 || s == []) && old(Untouched()) ==> Untouched()
      ensures s == [] ==> unchanged(this)
    {
      assert !AddRefused(0, ok);
      hide AddRefused;
      if failed {
        return -1;
      }
      if s == [] {
        return 0;
      }
      if alloc == Io && contentIO != null && off > |s| {
        SlideHead(s);
        return 0;
      }
      var roomy := MakeRoom(|s|, ok);
      if !roomy {
        return 2;
      }
      PutHead(s);
      return 0;
    }

    method PutHead(s: string)
      requires Valid() && content != null && use + |s| < size
      modifies `use, `text, `compatUse, content
      ensures Valid() && Terminated() && text == s + old(text)
    {
      Prepend(content, off, use, s);
      use, text := use + |s|, s + text;
      compatUse := use;
      SetNul(content, off, off + use);
    }

    /** In IO mode the window is opened downwards over s. */
    method SlideHead(s: string)
      requires Valid() && contentIO != null && off > |s|
      modifies `off, `use, `text, `size, `compatUse, `compatSize, content
      ensures Valid() && text == s + old(text)
      ensures old(Terminated()) ==> Terminated()
    {
      text := s + text;
      CopyBefore(content, off, use, s);
      off := off - |s|;
      use, size := use + |s|, size + |s|;
      compatUse, compatSize := use, size;
    }

    /** `xmlBufErase`: -1 on an error or when fewer bytes are there. On a buffer without a block,
        erasing nothing writes the NUL through a null pointer. */
    method Erase(len: nat) returns (r: int, null': bool)
      requires Valid()
      modifies this, content
      ensures Valid() && unchanged(`content, `contentIO, `alloc, `failed, `size)
      ensures null' <==> old(!failed && content == null) && len == 0
      ensures old(failed) || null' ==> unchanged(this)
      ensures r == 0 <==> !failed && len <= old(use)
      ensures r == 0 ==> text == old(text)[..old(use) - len]
      ensures r == 0 && !null' ==> content != null && Terminated()
      ensures r != 0 ==> text == old(text) && (old(Untouched()) ==> Untouched())
      ensures old(Terminated()) ==> Terminated()
    {
      null' := false;
      if failed || len > use {
        return -1, false;
      }
      if content == null {
        return 0, true;
      }
      assert content[off..off + use][..use - len] == content[off..off + (use - len)];
      use := use - len;
      text := text[..use];
      SetNul(content, off, off + use);
      compatUse := use;
      return 0, false;
    }

    /** `xmlBufEmpty`. */
    method Empty()
      requires Valid()
      modifies this, content
      ensures Valid() && unchanged(`content, `contentIO, `alloc, `failed)
      ensures failed ==> unchanged(this)
      ensures text == if failed then old(text) else []
      ensures !failed ==> Terminated() && off == 0
      ensures failed && old(Terminated()) ==> Terminated()
      ensures failed && old(Untouched()) ==> Untouched()
    {
      if failed || content == null {
        return;
      }
      use, text := 0, [];
      if alloc == Io && contentIO != null {
        size := size + off;
        off := 0;
      }
      content[off] := NUL;
      compatUse, compatSize := use, size;
    }

    /** `xmlBufShrink`: drops len bytes from the front, by moving the bytes down or by sliding the
        window; a window past the middle of its block is moved back to the base. */
    method Shrink(len: nat) returns (r: nat)
      requires Valid()
      modifies this, content
      ensures Valid() && unchanged(`content, `contentIO, `alloc, `failed)
      ensures failed ==> unchanged(this)
      ensures r == if failed || len > old(use) then 0 else len
      ensures text == old(text)[r..]
      ensures old(Terminated()) ==> Terminated()
      ensures r == 0 && old(Untouched()) ==> Untouched()
      ensures r == 0 ==> unchanged(this)
    {
      if failed || len == 0 || len > use {
        return 0;
      }
      if alloc == Io && contentIO != null {
        SlideUp(len);
      } else {
        MoveDown(len);
      }
      return len;
    }

    /** In IO mode the window slides over the dropped bytes. */
    method SlideUp(len: nat)
      requires Valid() && contentIO != null && 0 < len <= use
      modifies `off, `use, `size, `compatUse, `compatSize, `text, content
      ensures Valid() && text == old(text)[len..]
      ensures old(Terminated()) ==> Terminated()
    {
      text := text[len..];
      use, off, size := use - len, off + len, size - len;
      compatUse, compatSize := use, size;
      if off >= size {
        MoveToBase();
      }
    }

    /** Without a sliding window the bytes behind the dropped ones move to the front. */
    method MoveDown(len: nat)
      requires Valid() && contentIO == null && 0 < len <= use
      modifies `use, `compatUse, `text, content
      ensures Valid() && Terminated() && text == old(text)[len..]
    {
      text := text[len..];
      use := use - len;
      compatUse := use;
      Memmove(content, 0, len, use);
      SetNul(content, 0, use);
    }

    /** The compaction of a window that has slid to the far half of its block. */
    method MoveToBase()
      requires content != null && content == contentIO && alloc == Io && off + size == content.Length <= INT_MAX
      requires use < size <= off && compatUse == use && compatSize == size && text == content[off..off + use]
      modifies `off, `size, `compatSize, content
      ensures Valid() && Terminated() && off == 0
    {
      Memmove(content, 0, off, use);
      content[use] := NUL;
      size := size + off;
      off := 0;
      compatSize := size;
      assert content[..use] == text;
    }

    /** Any sequence of operations against any allocator: the buffer stands for what the same
        operations make of a plain byte sequence, up to the first refused allocation. It stops early
        exactly on such a refusal, so an obliging allocator and sizes in range take it to the end, or
        on an erasure of nothing from a buffer that has no block: exactly if one comes before any
        operation that would give it one. Exactly a blank block lacks the NUL. */
    method Run(ops: seq<Op>, oks: nat -> bool) returns (done: nat, null': bool)
      requires Valid() && Terminated() && !failed
      requires forall i :: 0 <= i < |ops| ==> ops[i].Fits()
      modifies this, content
      ensures Valid() && alloc == old(alloc)
      ensures done <= |ops| && (done < |ops| <==> failed || null')
      ensures text == Effects(ops[..done], old(text))
      ensures failed ==> OpRefused(ops[done], oks(done))
      ensures Obliging(oks) && InRange(|old(text)| + Demand(ops)) ==> done == |ops| || null'
      ensures null' <==> old(content) == null && !NoBlindErase(ops)
      ensures null' ==> !failed && content == null && ops[done] == Chop(0)
      ensures IsBare(BareAfter(alloc, old(AtFirst()), ops[..done]))
      ensures Terminated() <==> junk == NUL || !BareAfter(alloc, old(AtFirst()), ops[..done]).Blank?
      ensures old(content) != null || Grounded(ops) ==> Terminated()
    {
      ghost var start, first := text, AtFirst();
      done, null' := 0, false;
      hide Effect, Terminated, OpRefused, InRange, Obliging, Demand, Grounded, NoBlindErase, Allocates;
      hide IsBare, BareAfter;
      RunStart(ops, oks);
      while done < |ops| && !failed && !null'
        invariant Along(ops, oks, done, null', start, first) && alloc == old(alloc)
        invariant content == old(content) || fresh(content)
        decreases |ops| - done, !failed, !null'
      {
        done, null' := RunOne(ops, oks, done, start, first);
      }
      RunEnd(ops, oks, done, null', start, first);
    }

    ghost function AtFirst(): Bare
      reads `content
    {
      if content == null then NoBlock else Marked
    }

    /** With the first operations done. */
    ghost predicate Along(ops: seq<Op>, oks: nat -> bool, done: nat, null': bool, start: string, first: Bare)
      reads this, content
    {
      && Valid() && done <= |ops| && text == Effects(ops[..done], start) && !(failed && null')
      && IsBare(BareAfter(alloc, first, ops[..done]))
      && (failed || null' ==> done < |ops|)
      && (failed ==> OpRefused(ops[done], oks(done)))
      && (null' ==> ops[done] == Chop(0) && content == null)
      && (Obliging(oks) && InRange(|start| + Demand(ops)) ==> !failed && |text| <= |start| + Demand(ops[..done]))
      && !first.Blank? && (content == null ==> first == NoBlock)
      && (first == NoBlock && !failed ==> (content == null <==> !HasBlock(ops[..done])))
      && (first == NoBlock ==> NoBlindErase(ops[..done]))
    }

    lemma RunStart(ops: seq<Op>, oks: nat -> bool)
      requires Valid() && Terminated() && !failed
      ensures Along(ops, oks, 0, false, text, AtFirst())
    {
    }

    lemma RunEnd(ops: seq<Op>, oks: nat -> bool, done: nat, null': bool, start: string, first: Bare)
      requires Along(ops, oks, done, null', start, first) && (done < |ops| ==> failed || null')
      ensures null' <==> first == NoBlock && !NoBlindErase(ops)
      ensures Terminated() <==> junk == NUL || !BareAfter(alloc, first, ops[..done]).Blank?
      ensures first == Marked || Grounded(ops) ==> Terminated()
    {
      hide Effects, Effect, Demand, NoBlindErase, HasBlock, BareAfter, Grounded, Obliging, InRange;
      if first == Marked {
        MarkedStays(alloc, ops[..done]);
      } else if Grounded(ops) {
        GroundedIsMarked(alloc, ops, done);
      }
      if done < |ops| {
        ErasedSettled(ops, done);
      } else {
        assert ops[..done] == ops;
      }
    }

    method RunOne(ops: seq<Op>, oks: nat -> bool, done: nat, ghost start: string, ghost first: Bare)
      returns (done': nat, null': bool)
      requires Along(ops, oks, done, false, start, first) && done < |ops| && !failed && ops[done].Fits()
      modifies this, content
      ensures Along(ops, oks, done', null', start, first) && alloc == old(alloc)
      ensures content == old(content) || fresh(content)
      ensures done' == if failed || null' then done else done + 1
    {
      hide Effects, Effect, Terminated, OpRefused, InRange, Obliging, Demand, Grounded, NoBlindErase, HasBlock;
      hide Allocates, IsBare, BareAfter;
      StepInRange(ops, oks, done, |start|);
      NextOp(ops, done, first, start);
      ErasedNext(ops, done);
      null' := Step(ops[done], oks(done), BareAfter(alloc, first, ops[..done]));
      done' := if failed || null' then done else done + 1;
    }

    lemma NextOp(ops: seq<Op>, i: nat, first: Bare, start: string)
      requires i < |ops|
      ensures Effects(ops[..i + 1], start) == Effect(ops[i], Effects(ops[..i], start))
      ensures BareAfter(alloc, first, ops[..i + 1]) == NextBare(alloc, BareAfter(alloc, first, ops[..i]), ops[i])
    {
      assert ops[..i + 1][..i] == ops[..i];
    }

    lemma StepInRange(ops: seq<Op>, oks: nat -> bool, i: nat, n: nat)
      requires Valid() && i < |ops| && ops[i].Fits()
      ensures Demand(ops[..i + 1]) == Demand(ops[..i]) + Need(ops[i])
      ensures |Effect(ops[i], text)| <= |text| + Need(ops[i])
      ensures Obliging(oks) && InRange(n + Demand(ops)) && |text| <= n + Demand(ops[..i]) ==> !OpRefused(ops[i], oks(i))
    {
      assert ops[..i + 1][..i] == ops[..i];
      DemandGrows(ops, i + 1);
      EffectFits(ops[i], text);
      if InRange(use + Need(ops[i])) {
        OpGranted(ops[i]);
      }
    }

    method Step(op: Op, ok: bool, ghost b: Bare) returns (null': bool)
      requires Valid() && op.Fits() && IsBare(b)
      modifies this, content
      ensures Valid() && alloc == old(alloc) && (content == old(content) || fresh(content))
      ensures null' <==> old(!failed && content == null) && op == Chop(0)
      ensures null' ==> unchanged(this)
      ensures old(content) != null ==> content != null
      ensures old(content) == null && !failed ==> (content == null <==> !Allocates(op))
      ensures failed <==> old(failed) || old(OpRefused(op, ok))
      ensures failed ==> unchanged(`use, `size, `off, `alloc, `content, `contentIO)
      ensures text == if failed then old(text) else Effect(op, old(text))
      ensures IsBare(if failed || null' then b else NextBare(alloc, b, op))
      ensures old(Terminated()) && (old(content) != null || failed || !(op.Reserve? || op.Ensure?)) ==> Terminated()
    {
      null' := false;
      match op {
        case Append(_) => PutIn(op, ok, b);
        case Prefix(_) => PutIn(op, ok, b);
        case Reserve(_) => MakeBigger(op, ok, b);
        case Ensure(_) => MakeBigger(op, ok, b);
        case _ => null' := TakeOut(op, b);
      }
    }

    /** The operations that put bytes in. */
    method PutIn(op: Op, ok: bool, ghost b: Bare)
      requires Valid() && (op.Append? || op.Prefix?) && op.Fits() && IsBare(b)
      modifies this, content
      ensures Valid() && alloc == old(alloc) && (content == old(content) || fresh(content))
      ensures old(content) != null ==> content != null
      ensures old(content) == null && !failed ==> (content == null <==> !Allocates(op))
      ensures failed <==> old(failed) || old(OpRefused(op, ok))
      ensures failed ==> unchanged(`use, `size, `off, `alloc, `content, `contentIO)
      ensures text == if failed then old(text) else Effect(op, old(text))
      ensures IsBare(if failed then b else NextBare(alloc, b, op))
      ensures old(Terminated()) ==> Terminated()
    {
      hide AddRefused, HeadRefused;
      match op {
        case Append(s) => var _ := AddBytes(s, ok);
        case Prefix(s) => var _ := AddHead(s, ok);
      }
    }

    /** Those that take bytes out. */
    method TakeOut(op: Op, ghost b: Bare) returns (null': bool)
      requires Valid() && (op.Drop? || op.Chop? || op.Clear?) && IsBare(b)
      modifies this, content
      ensures Valid() && unchanged(`content, `contentIO, `alloc, `failed)
      ensures null' <==> old(!failed && content == null) && op == Chop(0)
      ensures null' || failed ==> unchanged(this)
      ensures text == if failed then old(text) else Effect(op, old(text))
      ensures IsBare(if failed || null' then b else NextBare(alloc, b, op))
      ensures old(Terminated()) ==> Terminated()
    {
      null' := false;
      match op {
        case Drop(n) => var _ := Shrink(n);
        case Chop(n) =>
          var r;
          r, null' := Erase(n);
        case Clear => Empty();
      }
    }

    /** Those that only ask for room. */
    method MakeBigger(op: Op, ok: bool, ghost b: Bare)
      requires Valid() && (op.Reserve? || op.Ensure?) && op.Fits() && IsBare(b)
      modifies this
      ensures Valid() && alloc == old(alloc) && (content == old(content) || fresh(content)) && text == old(text)
      ensures !failed ==> content != null
      ensures failed <==> old(failed) || old(OpRefused(op, ok))
      ensures failed ==> unchanged(`use, `size, `off, `alloc, `content, `contentIO)
      ensures IsBare(if failed then b else NextBare(alloc, b, op))
      ensures old(Terminated()) && (old(content) != null || failed) ==> Terminated()
    {
      hide GrowRefused, ResizeRefused, NewSize;
      match op {
        case Reserve(n) => var _ := GrowInternal(n, ok);
        case Ensure(n) => var _ := Resize(n, ok);
      }
    }

    /** Appending under the doubling policy: over any run, resizing copies no more bytes than the
        size grows by, and the size stays below twice the largest request. The strings before the
        first refused allocation are appended, all of them unless there is one. */
    method AppendAll(strs: seq<string>, oks: nat -> bool) returns (ghost k: nat, done: nat)
      requires Valid() && alloc == DoubleIt && size > 0 && !failed
      requires forall i :: 0 <= i < |strs| ==> |strs[i]| <= INT_MAX - 16
      modifies this, content
      ensures Valid() && alloc == DoubleIt
      ensures moved - old(moved) <= size - old(size)
      ensures done <= |strs| && (done < |strs| <==> failed) && text == old(text) + Flatten(strs[..done])
      ensures failed ==> AddRefused(|strs[done]|, oks(done))
      ensures Obliging(oks) && InRange(|old(text)| + |Flatten(strs)| + 2) ==>
                !failed && text == old(text) + Flatten(strs)
      ensures size == old(size) || (0 < k <= |strs| && size < 2 * (|old(text)| + |Flatten(strs[..k])| + 2))
    {
      ghost var start, size0, moved0 := text, size, moved;
      k, done := 0, 0;
      assert strs[..|strs|] == strs && start + Flatten(strs[..0]) == start;
      hide Flatten, AddRefused, InRange, Obliging;
      for i := 0 to |strs|
        invariant Valid() && alloc == DoubleIt && size > 0
        invariant content == old(content) || fresh(content)
        invariant Through(strs, oks, i, done, k, start, size0, moved0)
      {
        done, k := AppendOne(strs, oks, i, done, k, start, size0, moved0);
      }
    }

    /** After i of the strings. */
    ghost predicate Through(strs: seq<string>, oks: nat -> bool, i: nat, done: nat, k: nat, start: string,
                            size0: nat, moved0: nat)
      reads this
    {
      && i <= |strs| && done <= i && (done < i <==> failed) && text == start + Flatten(strs[..done])
      && (failed ==> AddRefused(|strs[done]|, oks(done)))
      && (Obliging(oks) && InRange(|start| + |Flatten(strs)| + 2) ==> !failed)
      && moved - moved0 <= size - size0
      && (size == size0 || (0 < k <= i && size < 2 * (|start| + |Flatten(strs[..k])| + 2)))
    }

    method AppendOne(strs: seq<string>, oks: nat -> bool, i: nat, done: nat, ghost k: nat, ghost start: string,
                     ghost size0: nat, ghost moved0: nat)
      returns (done': nat, ghost k': nat)
      requires Valid() && alloc == DoubleIt && size > 0 && i < |strs| && |strs[i]| <= INT_MAX - 16
      requires Through(strs, oks, i, done, k, start, size0, moved0)
      modifies this, content
      ensures Valid() && alloc == DoubleIt && size > 0 && (content == old(content) || fresh(content))
      ensures Through(strs, oks, i + 1, done', k', start, size0, moved0)
    {
      hide Flatten, Terminated, AddRefused, InRange, Obliging;
      FlattenSnoc(strs, i);
      NextInRange(strs, oks, i, |start|);
      var r := AddBytes(strs[i], oks(i));
      Sequences.Assoc(start, Flatten(strs[..i]), strs[i]);
      done' := if r == 0 then i + 1 else done;
      k' := if size != old(size) then i + 1 else k;
    }

    lemma NextInRange(strs: seq<string>, oks: nat -> bool, i: nat, n: nat)
      requires Valid() && i < |strs|
      ensures Obliging(oks) && InRange(n + |Flatten(strs)| + 2) && |text| == n + |Flatten(strs[..i])| ==>
                !AddRefused(|strs[i]|, oks(i))
    {
      FlattenSnoc(strs, i);
      FlattenGrows(strs, i + 1);
      AddGranted(|strs[i]|);
    }

    /** `xmlBufCCat` of a one-character string. */
    method AddChar(c: char, ok: bool)
      requires Valid()
      modifies this, content
      ensures Valid() && (content == old(content) || fresh(content))
      ensures failed <==> old(failed) || old(CharRefused(ok))
      ensures Quiet(ok, |old(text)| + 10) && failed ==> old(failed)
      ensures text == if failed then old(text) else old(text) + [c]
      ensures !failed ==> Terminated()
    {
      hide CharRefused, InRange;
      CharGranted();
      if failed {
        return;
      }
      var roomy := RoomForChar(ok);
      if roomy {
        Put([c]);
      }
    }

    /** The room `xmlBufCCat` makes before a character. */
    method RoomForChar(ok: bool) returns (roomy: bool)
      requires Valid() && !failed
      modifies this
      ensures Valid() && text == old(text) && (content == old(content) || fresh(content))
      ensures roomy <==> !failed
      ensures failed <==> old(CharRefused(ok))
      ensures roomy ==> content != null && use + 1 < size
    {
      hide ResizeRefused, InRange, NewSize, Terminated;
      roomy := true;
      if use + 10 >= size {
        var resized := Resize(use + 10, ok);
        roomy := resized != 0;
      }
    }

    /** `xmlBufWriteQuotedString`: without an allocation failure the quoted form is appended; the
        return value is 0 even after one. */
    method WriteQuoted(str: string, oks: nat -> bool) returns (r: int)
      requires Valid() && NUL !in str && |str| <= INT_MAX - 16
      modifies this, content
      ensures Valid() && (r == 0 <==> !old(failed))
      ensures old(failed) ==> text == old(text)
      ensures !failed ==> text == old(text) + Quoted(str)
      ensures Obliging(oks) && InRange(|old(text)| + 6 * |str| + 20) ==> failed == old(failed)
    {
      if failed {
        return -1;
      }
      if '"' in str {
        if '\'' in str {
          WrapEscaped(str, oks);
        } else {
          Wrap('\'', str, oks);
        }
      } else {
        Wrap('"', str, oks);
      }
      return 0;
    }

    method WrapEscaped(str: string, oks: nat -> bool)
      requires Valid() && |str| <= INT_MAX - 16
      modifies this, content
      ensures Valid() && (old(failed) ==> failed)
      ensures Obliging(oks) && InRange(|old(text)| + 6 * |str| + 20) && failed ==> old(failed)
      ensures !failed ==> text == old(text) + (['"'] + EscapeQuotes(str) + ['"'])
    {
      ghost var start := text;
      EscapedLength(str);
      AddChar('"', oks(0));
      WriteEscaped(str, oks);
      Sequences.Assoc(start, ['"'], EscapeQuotes(str));
      AddChar('"', oks(2 * |str| + 2));
      Sequences.Assoc(start, ['"'] + EscapeQuotes(str), ['"']);
    }

    method Wrap(q: char, str: string, oks: nat -> bool)
      requires Valid() && |str| <= INT_MAX - 16
      modifies this, content
      ensures Valid() && (old(failed) ==> failed)
      ensures Obliging(oks) && InRange(|old(text)| + |str| + 20) && failed ==> old(failed)
      ensures !failed ==> text == old(text) + ([q] + str + [q])
    {
      ghost var start := text;
      AddChar(q, oks(0));
      AddGranted(|str|);
      var _ := AddBytes(str, oks(1));
      Sequences.Assoc(start, [q], str);
      AddChar(q, oks(2));
      Sequences.Assoc(start, [q] + str, [q]);
    }

    /** The loop of `xmlBufWriteQuotedString` over a string that holds both kinds of quote. */
    method WriteEscaped(str: string, oks: nat -> bool)
      requires Valid() && |str| <= INT_MAX - 16
      modifies this, content
      ensures Valid() && (content == old(content) || fresh(content))
      ensures old(failed) ==> failed
      ensures Obliging(oks) && InRange(|old(text)| + 6 * |str| + 2) && failed ==> old(failed)
      ensures !failed ==> text == old(text) + EscapeQuotes(str)
    {
      ghost var start, was := text, failed;
      hide Escaping, Valid, InRange, Obliging, Terminated, EscapeQuotes, NoQuote;
      EscapeStart(str, oks);
      var base, cur := 0, 0;
      while cur < |str|
        invariant Escaping(str, base, cur, oks, start, was) && cur <= |str|
        invariant content == old(content) || fresh(content)
      {
        base, cur := EscapeStep(str, base, cur, oks, start, was);
      }
      EscapeLast(str, base, cur, oks, start, was);
    }

    /** That loop with everything up to base appended and plain text from base to cur behind it. */
    ghost predicate Escaping(str: string, base: nat, cur: nat, oks: nat -> bool, start: string, was: bool)
      reads this, content
    {
      && Valid() && |str| <= INT_MAX - 16 && base <= cur <= |str| && NoQuote(str, base, cur) && (was ==> failed)
      && (Obliging(oks) && InRange(|start| + 6 * |str| + 2) && failed ==> was)
      && (!failed ==> text == start + EscapeQuotes(str[..base]))
    }

    lemma EscapeStart(str: string, oks: nat -> bool)
      requires Valid() && |str| <= INT_MAX - 16
      ensures Escaping(str, 0, 0, oks, text, failed)
    {
      PlainNone(str, text);
    }

    /** One turn of it. */
    method EscapeStep(str: string, base: nat, cur: nat, oks: nat -> bool, ghost start: string, ghost was: bool)
      returns (base': nat, cur': nat)
      requires Escaping(str, base, cur, oks, start, was) && cur < |str|
      modifies this, content
      ensures Escaping(str, base', cur', oks, start, was) && cur' == cur + 1
      ensures content == old(content) || fresh(content)
    {
      hide InRange, Obliging, Terminated, EscapeQuotes, Valid, NoQuote;
      if str[cur] == '"' {
        FlushEntity(str, base, cur, start, oks);
        PlainNone(str, start);
        return cur + 1, cur + 1;
      }
      PlainMore(str, base, cur);
      return base, cur + 1;
    }

    /** The plain text behind the last quote. */
    method EscapeLast(str: string, base: nat, cur: nat, oks: nat -> bool, ghost start: string, ghost was: bool)
      requires Escaping(str, base, cur, oks, start, was) && cur == |str|
      modifies this, content
      ensures Valid() && (content == old(content) || fresh(content)) && (was ==> failed)
      ensures Obliging(oks) && InRange(|start| + 6 * |str| + 2) && failed ==> was
      ensures !failed ==> text == start + EscapeQuotes(str)
    {
      assert Obliging(oks) ==> oks(2 * cur + 1);
      assert str[..cur] == str;
      hide InRange, Obliging, Terminated, EscapeQuotes, Valid, NoQuote;
      AddPlain(str, base, cur, start, oks(2 * cur + 1));
    }

    /** The stretch without quotes between base and cur is added when it is not empty. */
    method AddPlain(str: string, base: nat, cur: nat, ghost start: string, ok: bool)
      requires Valid() && |str| <= INT_MAX - 16 && base <= cur <= |str| && NoQuote(str, base, cur)
      requires !failed ==> text == start + EscapeQuotes(str[..base])
      modifies this, content
      ensures Valid() && (content == old(content) || fresh(content))
      ensures old(failed) ==> failed
      ensures Quiet(ok, |start| + 6 * |str| + 2) && failed ==> old(failed)
      ensures !failed ==> text == start + EscapeQuotes(str[..cur])
    {
      hide AddRefused, EscapeQuotes;
      EscapedLength(str[..base]);
      AddGranted(cur - base);
      EscapeUpTo(str, base, cur);
      Sequences.Assoc(start, EscapeQuotes(str[..base]), str[base..cur]);
      if base != cur {
        var _ := AddBytes(str[base..cur], ok);
      }
    }

    method FlushEntity(str: string, base: nat, cur: nat, ghost start: string, oks: nat -> bool)
      requires Valid() && |str| <= INT_MAX - 16 && base <= cur < |str|
      requires str[cur] == '"' && NoQuote(str, base, cur)
      requires !failed ==> text == start + EscapeQuotes(str[..base])
      modifies this, content
      ensures Valid() && (content == old(content) || fresh(content))
      ensures old(failed) ==> failed
      ensures Obliging(oks) && InRange(|start| + 6 * |str| + 2) && failed ==> old(failed)
      ensures !failed ==> text == start + EscapeQuotes(str[..cur + 1])
    {
      hide InRange, Terminated, EscapeQuotes;
      AddPlain(str, base, cur, start, oks(2 * cur + 1));
      AddEntity(str, cur, start, oks(2 * cur + 2));
    }

    method AddEntity(str: string, cur: nat, ghost start: string, ok: bool)
      requires Valid() && |str| <= INT_MAX - 16 && cur < |str| && str[cur] == '"'
      requires !failed ==> text == start + EscapeQuotes(str[..cur])
      modifies this, content
      ensures Valid() && (content == old(content) || fresh(content))
      ensures Quiet(ok, |start| + 6 * |str| + 2) && failed ==> old(failed)
      ensures old(failed) ==> failed
      ensures !failed ==> text == start + EscapeQuotes(str[..cur + 1])
    {
      EscapedLength(str[..cur]);
      EscapeSnoc(str, cur);
      AddGranted(6);
      hide AddRefused, Terminated, EscapeQuotes;
      var entity := EscapeChar(str[cur]);
      Sequences.Assoc(start, EscapeQuotes(str[..cur]), entity);
      var _ := AddBytes(entity, ok);
    }
  }

  /** A buffer made without a block, from which nothing is erased. */
  method BlindErase(alloc: Scheme, junk: char) returns (b: Buffer, null': bool)
    ensures b.Valid() && b.content == null && !b.failed && null'
  {
    b := new Buffer(alloc, 0, junk);
    var r;
    r, null' := b.Erase(0);
  }

  /** A buffer made without a block and grown: the new block has no NUL unless the allocator left one. */
  method MissingNul(alloc: Scheme, junk: char) returns (b: Buffer)
    ensures b.Valid() && b.content != null && b.text == [] && (b.Terminated() <==> junk == NUL)
  {
    b := new Buffer(alloc, 0, junk);
    b.MakeBigger(Reserve(0), true, NoBlock);
  }
}
