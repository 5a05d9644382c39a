/** The cache of mapped files in src/mmap_cache.c: an open-addressed table with reference counts whose
    slots are freed without leaving tombstones. The outcome of `mmap` is a parameter. */
module MmapCache {
  import opened Options

  /** `MMAP_LIST_SIZE` and `MMAP_LIST_USE_MAX`. */
  const LIST_SIZE := 256
  const USE_MAX := 128

  /** `MMAP_LIST_NEXT`. */
  function NextSlot(i: nat): (j: nat)
    requires i < LIST_SIZE
    ensures j < LIST_SIZE
  {
    if i == LIST_SIZE - 1 then 0 else i + 1
  }

  /** How many steps forward from start the slot n lies. */
  function Steps(start: nat, n: nat): (k: nat)
    requires start < LIST_SIZE && n < LIST_SIZE
    ensures k < LIST_SIZE
  {
    if start <= n then n - start else n + LIST_SIZE - start
  }

  /** What identifies a file to the cache. */
  datatype Key = Key(dev: nat, ino: nat, len: nat)

  /** A slot; `mapping` names the mapping it was given, by order of creation. */
  datatype Entry = Entry(key: Key, mapping: nat, useCount: nat)
  {
    predicate Live() {
      useCount > 0
    }
  }

  function Hash(key: Key): (h: nat)
    ensures h < LIST_SIZE
  {
    key.ino % LIST_SIZE
  }

  /** What is counted in a table: the live slots, or those owning one mapping. */
  datatype Tally = AllLive | Owning(mapping: nat)

  function Weight(w: Tally, e: Entry): nat {
    if e.Live() && (w.AllLive? || e.mapping == w.mapping) then 1 else 0
  }

  function Count(w: Tally, t: seq<Entry>): (n: nat)
    ensures n <= |t|
  {
    if t == [] then 0 else Count(w, t[..|t| - 1]) + Weight(w, t[|t| - 1])
  }

  lemma {:induction false} CountUpdate(w: Tally, t: seq<Entry>, i: nat, e: Entry)
    requires i < |t|
    ensures Count(w, t[i := e]) + Weight(w, t[i]) == Count(w, t) + Weight(w, e)
  {
    var n := |t| - 1;
    if i < n {
      CountUpdate(w, t[..n], i, e);
      assert t[i := e][..n] == t[..n][i := e];
    } else {
      assert t[i := e][..n] == t[..n];
    }
  }

  lemma {:induction false} CountFull(t: seq<Entry>)
    requires forall i :: 0 <= i < |t| ==> t[i].Live()
    ensures Count(AllLive, t) == |t|
  {
    if t != [] {
      CountFull(t[..|t| - 1]);
    }
  }

  lemma {:induction false} CountNone(w: Tally, t: seq<Entry>)
    requires forall i :: 0 <= i < |t| ==> !t[i].Live()
    ensures Count(w, t) == 0
  {
    if t != [] {
      CountNone(w, t[..|t| - 1]);
    }
  }

  /** The slot a search ends at: the first from i on that is free or holds the key. */
  function Probe(t: seq<Entry>, key: Key, i: nat, left: nat): (j: nat)
    requires |t| == LIST_SIZE && i < LIST_SIZE
    ensures j < LIST_SIZE
    decreases left
  {
    if left == 0 || !t[i].Live() || t[i].key == key then i else Probe(t, key, NextSlot(i), left - 1)
  }

  /** The search stops at the first slot that is free or holds the key: all those before it are live
      and hold other keys, whatever was freed in between. */
  lemma {:induction false} ProbeIsFirst(t: seq<Entry>, key: Key, i: nat, left: nat, n: nat)
    requires |t| == LIST_SIZE && i < LIST_SIZE && n < LIST_SIZE
    requires Steps(i, n) < Steps(i, Probe(t, key, i, left))
    ensures t[n].Live() && t[n].key != key
    decreases left
  {
    if n != i {
      ProbeIsFirst(t, key, NextSlot(i), left - 1, n);
    }
  }

  /** Every mapping made is either owned by exactly one live slot or was undone exactly once. */
  ghost predicate Settled(t: seq<Entry>, unmapped: seq<nat>, made: nat) {
    forall m: nat :: multiset(unmapped)[m] + Count(Owning(m), t) == if m < made then 1 else 0
  }

  /** Changing the use count of a slot that stays live changes no ownership. */
  lemma SettledShare(t: seq<Entry>, unmapped: seq<nat>, made: nat, i: nat, e: Entry)
    requires Settled(t, unmapped, made) && i < |t| && t[i].Live() && e.Live() && e.mapping == t[i].mapping
    ensures Settled(t[i := e], unmapped, made)
    ensures Count(AllLive, t[i := e]) == Count(AllLive, t)
  {
    CountUpdate(AllLive, t, i, e);
    forall m: nat ensures Count(Owning(m), t[i := e]) == Count(Owning(m), t) {
      CountUpdate(Owning(m), t, i, e);
    }
  }

  lemma SettledNew(t: seq<Entry>, unmapped: seq<nat>, made: nat, i: nat, e: Entry)
    requires Settled(t, unmapped, made) && i < |t| && !t[i].Live() && e.Live() && e.mapping == made
    ensures Settled(t[i := e], unmapped, made + 1)
    ensures Count(AllLive, t[i := e]) == Count(AllLive, t) + 1
  {
    CountUpdate(AllLive, t, i, e);
    forall m: nat ensures Count(Owning(m), t[i := e]) == Count(Owning(m), t) + if m == made then 1 else 0 {
      CountUpdate(Owning(m), t, i, e);
    }
  }

  lemma SettledLast(t: seq<Entry>, unmapped: seq<nat>, made: nat, i: nat, e: Entry)
    requires Settled(t, unmapped, made) && i < |t| && t[i].Live() && !e.Live()
    ensures Settled(t[i := e], unmapped + [t[i].mapping], made)
    ensures Count(AllLive, t[i := e]) == Count(AllLive, t) - 1
  {
    CountUpdate(AllLive, t, i, e);
    var own := t[i].mapping;
    assert multiset(unmapped + [own]) == multiset(unmapped) + multiset{own};
    forall m: nat ensures Count(Owning(m), t[i := e]) == Count(Owning(m), t) - if m == own then 1 else 0 {
      CountUpdate(Owning(m), t, i, e);
    }
  }

  class Cache {
    const table: array<Entry>
    var entriesUsed: nat
    /** Mappings made so far, and those undone, in order. */
    var made: nat
    ghost var unmapped: seq<nat>
    /** The slots whose handles callers hold. */
    ghost var handles: multiset<nat>

    ghost predicate Valid()
      reads this, table
    {
      && table.Length == LIST_SIZE
      && entriesUsed == Count(AllLive, table[..]) <= USE_MAX + 1
      && (forall i :: 0 <= i < LIST_SIZE ==> table[i].useCount == handles[i])
      && Settled(table[..], unmapped, made)
    }

    constructor ()
      ensures Valid() && fresh(table) && handles == multiset{} && made == 0 && entriesUsed == 0
    {
      table := new Entry[LIST_SIZE](_ => Entry(Key(0, 0, 0), 0, 0));
      entriesUsed, made := 0, 0;
      unmapped, handles := [], multiset{};
      new;
      CountNone(AllLive, table[..]);
      forall m: nat ensures Count(Owning(m), table[..]) == 0 {
        CountNone(Owning(m), table[..]);
      }
    }

    /** The search of `find_mmap`. It always ends at a match or a free slot: the table is never full,
        so the branch that gives up after a whole turn is not reached. */
    method Search(key: Key) returns (i: nat)
      requires Valid()
      ensures i < LIST_SIZE && i == Probe(table[..], key, Hash(key), LIST_SIZE)
      ensures !table[i].Live() || table[i].key == key
    {
      var start := Hash(key);
      i := start;
      ghost var k := 0;
      while table[i].useCount != 0
        invariant i < LIST_SIZE && k == Steps(start, i)
        invariant forall n :: 0 <= n < LIST_SIZE && Steps(start, n) < k ==> table[n].Live()
        invariant Probe(table[..], key, i, LIST_SIZE - k) == Probe(table[..], key, start, LIST_SIZE)
        decreases LIST_SIZE - k
      {
        if table[i].key == key {
          return;
        }
        ghost var was := i;
        assert forall n :: 0 <= n < LIST_SIZE && Steps(start, n) == k ==> n == was;
        i := NextSlot(i);
        k := k + 1;
        if i == start {
          HasFreeSlot();
          assert false;
        }
      }
    }

    /** The cache never fills its table. */
    lemma HasFreeSlot()
      requires Valid()
      ensures exists n :: 0 <= n < LIST_SIZE && !table[n].Live()
    {
      if forall n :: 0 <= n < LIST_SIZE ==> table[..][n].Live() {
        CountFull(table[..]);
      } else {
        var n :| 0 <= n < LIST_SIZE && !table[..][n].Live();
        assert !table[n].Live();
      }
    }

    /** `find_mmap`: a handle on the slot the search ends at, shared if it holds the file already,
        mapped anew if the cache has room and `mmap` succeeds. */
    method Find(key: Key, mapOk: bool) returns (r: Option<nat>)
      requires Valid()
      modifies this, table
      ensures Valid()
      ensures var j := Probe(old(table[..]), key, Hash(key), LIST_SIZE);
              var shared := old(table[j].Live());
              && (r.Some? <==> shared || (old(entriesUsed) <= USE_MAX && mapOk))
              && (r.Some? ==> r.value == j && table[j].Live() && table[j].key == key)
              && (r.Some? ==> table[..] == old(table[..])[j := table[j]] && handles == old(handles) + multiset{j})
              && (r.Some? && shared ==> table[j].mapping == old(table[j].mapping) && made == old(made))
              && (r.Some? && !shared ==> table[j].mapping == old(made) && made == old(made) + 1)
              && (r.None? ==> table[..] == old(table[..]) && handles == old(handles) && made == old(made))
      ensures unmapped == old(unmapped)
    {
      var i := Search(key);
      hide Probe, Count, Settled;
      if table[i].useCount != 0 {
        Share(i);
        return Some(i);
      }
      if entriesUsed > USE_MAX {
        return None;
      }
      if !mapOk {
        return None;
      }
      Occupy(i, key);
      return Some(i);
    }

    /** One more handle on a live slot. */
    method Share(i: nat)
      requires Valid() && i < LIST_SIZE && table[i].Live()
      modifies `handles, table
      ensures Valid() && handles == old(handles) + multiset{i}
      ensures table[..] == old(table[..])[i := old(table[i]).(useCount := old(table[i].useCount) + 1)]
    {
      hide Count, Settled;
      SettledShare(table[..], unmapped, made, i, table[i].(useCount := table[i].useCount + 1));
      Set(i, table[i].(useCount := table[i].useCount + 1));
      handles := handles + multiset{i};
    }

    /** A free slot takes a new mapping. */
    method Occupy(i: nat, key: Key)
      requires Valid() && i < LIST_SIZE && !table[i].Live() && entriesUsed <= USE_MAX
      modifies `handles, `entriesUsed, `made, table
      ensures Valid() && handles == old(handles) + multiset{i} && made == old(made) + 1
      ensures table[..] == old(table[..])[i := Entry(key, old(made), 1)]
    {
      hide Count, Settled;
      SettledNew(table[..], unmapped, made, i, Entry(key, made, 1));
      entriesUsed := entriesUsed + 1;
      Set(i, Entry(key, made, 1));
      made := made + 1;
      handles := handles + multiset{i};
    }

    /** A slot is overwritten. */
    method Set(i: nat, e: Entry)
      requires table.Length == LIST_SIZE && i < LIST_SIZE
      modifies table
      ensures table[..] == old(table[..])[i := e]
      ensures forall n :: 0 <= n < LIST_SIZE ==> table[n] == if n == i then e else old(table[n])
    {
      table[i] := e;
    }

    /** `release_mmap`: the last handle on a slot undoes its mapping; a handle already returned is
        ignored. */
    method Release(i: nat)
      requires Valid() && i < LIST_SIZE
      modifies this, table
      ensures Valid() && made == old(made)
      ensures handles == old(handles) - multiset{i}
      ensures unmapped == if old(table[i].useCount) == 1 then old(unmapped) + [old(table[i].mapping)] else old(unmapped)
      ensures forall n :: 0 <= n < LIST_SIZE ==>
                table[n] == if n == i && old(table[i].useCount) > 0
                            then old(table[i]).(useCount := old(table[i].useCount) - 1) else old(table[n])
    {
      hide Count, Settled;
      if table[i].useCount == 0 {
        assert handles - multiset{i} == handles;
        return;
      }
      var e := table[i].(useCount := table[i].useCount - 1);
      if e.useCount == 0 {
        SettledLast(table[..], unmapped, made, i, e);
      } else {
        SettledShare(table[..], unmapped, made, i, e);
      }
      Set(i, e);
      handles := handles - multiset{i};
      if e.useCount == 0 {
        unmapped := unmapped + [e.mapping];
        entriesUsed := entriesUsed - 1;
      }
    }
  }

  lemma {:induction false} OwnerCounts(t: seq<Entry>, i: nat)
    requires i < |t| && t[i].Live()
    ensures Count(Owning(t[i].mapping), t) >= 1
  {
    if i < |t| - 1 {
      OwnerCounts(t[..|t| - 1], i);
    }
  }

  /** What the invariant says of one mapping: it is undone at most once, never while a live slot owns
      it, and no two live slots own the same one. */
  lemma UnmappedExactlyOnce(c: Cache, m: nat)
    requires c.Valid()
    ensures multiset(c.unmapped)[m] <= 1 && (m in c.unmapped ==> m < c.made)
    ensures forall i :: 0 <= i < LIST_SIZE && c.table[i].Live() ==>
              c.table[i].mapping < c.made && c.table[i].mapping !in c.unmapped
  {
    forall i | 0 <= i < LIST_SIZE && c.table[i].Live()
      ensures c.table[i].mapping < c.made && c.table[i].mapping !in c.unmapped
    {
      OwnerCounts(c.table[..], i);
      assert c.table[..][i] == c.table[i];
    }
  }

  /** No two live slots own the same mapping. */
  lemma OwnersDiffer(c: Cache, i: nat, j: nat)
    requires c.Valid() && i < j < LIST_SIZE && c.table[i].Live() && c.table[j].Live()
    ensures c.table[i].mapping != c.table[j].mapping
  {
    var t, m := c.table[..], c.table[i].mapping;
    if c.table[j].mapping == m {
      var dead := t[j].(useCount := 0);
      CountUpdate(Owning(m), t, j, dead);
      OwnerCounts(t[j := dead], i);
    }
  }

  /** A mapping some live slot owns is one that was made and not undone, and conversely. */
  lemma OwnedIffPending(c: Cache, m: nat)
    requires c.Valid()
    ensures (m < c.made && m !in c.unmapped) <==> Count(Owning(m), c.table[..]) == 1
  {
    assert Count(Owning(m), c.table[..]) <= 1;
  }
}
