/** The alias table of src/alias.c: URI prefixes hashed by their first path segment, against a scan of
    all aliases in the order they were configured. */
module AliasTable {
  import opened Options

  const HASHTABLE_SIZE := 17

  datatype Kind = Alias | ScriptAlias | Redirect

  datatype Entry = Entry(fakename: string, realname: string, kind: Kind)

  /** The characters `get_alias_hash_value` adds up: the first one whatever it is, then those before
      the next slash. */
  function Segment(s: string): (r: string)
    requires s != []
    ensures r <= s && r != []
  {
    [s[0]] + UpToSlash(s[1..])
  }

  function UpToSlash(s: string): (r: string)
    ensures r <= s && '/' !in r && (|r| < |s| ==> s[|r|] == '/')
  {
    if s == [] || s[0] == '/' then [] else [s[0]] + UpToSlash(s[1..])
  }

  /** A character as `(unsigned int) c` makes it, `char` being signed. */
  function Widened(c: char): nat {
    var v := c as int % 256;
    if v < 128 then v else 0x1_0000_0000 - 256 + v
  }

  function Sum(s: string): nat {
    if s == [] then 0 else (Sum(s[..|s| - 1]) + Widened(s[|s| - 1])) % 0x1_0000_0000
  }

  function Hash(s: string): (h: nat)
    ensures h < HASHTABLE_SIZE
  {
    if s == [] then 0 else Sum(Segment(s)) % HASHTABLE_SIZE
  }

  /** `get_alias_hash_value`. */
  method HashValue(file: string) returns (h: nat)
    ensures h == Hash(file)
  {
    if file == [] {
      return 0;
    }
    var hash := Widened(file[0]);
    var i := 1;
    assert file[..1][..0] == [];
    while i < |file| && file[i] != '/'
      invariant 1 <= i <= |file| && '/' !in file[1..i]
      invariant hash == Sum(file[..i])
    {
      hash := (hash + Widened(file[i])) % 0x1_0000_0000;
      i := i + 1;
      assert file[..i][..i - 1] == file[..i - 1];
    }
    SegmentIs(file, i);
    return hash % HASHTABLE_SIZE;
  }

  lemma {:induction false} UpToSlashIs(s: string, k: nat)
    requires k <= |s| && '/' !in s[..k] && (k < |s| ==> s[k] == '/')
    ensures UpToSlash(s) == s[..k]
  {
    if k > 0 {
      assert s[..k][0] == s[0] && s[..k][1..] == s[1..][..k - 1];
      UpToSlashIs(s[1..], k - 1);
      assert [s[0]] + s[1..][..k - 1] == s[..k];
    }
  }

  lemma SegmentIs(s: string, i: nat)
    requires 1 <= i <= |s| && '/' !in s[1..i] && (i < |s| ==> s[i] == '/')
    ensures Segment(s) == s[..i]
  {
    assert s[1..][..i - 1] == s[1..i];
    UpToSlashIs(s[1..], i - 1);
    assert [s[0]] + s[1..i] == s[..i];
  }

  /** The match test of `find_alias`: the fakename is a prefix that ends at a segment boundary. */
  predicate Matches(e: Entry, uri: string) {
    && e.fakename != [] && e.fakename <= uri
    && (e.fakename[|e.fakename| - 1] == '/' || |e.fakename| == |uri| || uri[|e.fakename|] == '/')
  }

  /** The first entry that matches. */
  function First(entries: seq<Entry>, uri: string): Option<Entry> {
    if entries == [] then None
    else if Matches(entries[0], uri) then Some(entries[0])
    else First(entries[1..], uri)
  }

  /** An alias other than "/" hashes like every URI it matches. */
  lemma MatchHashesAlike(e: Entry, uri: string)
    requires Matches(e, uri)
    ensures e.fakename != "/" ==> Hash(e.fakename) == Hash(uri)
  {
    hide Sum;
    var f := e.fakename;
    if f != "/" {
      var k := |UpToSlash(f[1..])|;
      assert UpToSlash(f[1..]) == f[1..][..k] == f[1..k + 1] == uri[1..k + 1];
      SegmentIs(f, k + 1);
      if k > 0 {
        assert f[k] == f[1..k + 1][k - 1];
      } else {
        assert |f| == 1 && f[0] == '/' ==> f == "/";
      }
      SegmentIs(uri, k + 1);
      assert f[..k + 1] == uri[..k + 1];
    }
  }

  lemma {:induction false} FirstSnoc(xs: seq<Entry>, e: Entry, uri: string)
    ensures First(xs + [e], uri)
            == if First(xs, uri).Some? then First(xs, uri) else if Matches(e, uri) then Some(e) else None
  {
    if xs == [] {
      assert xs + [e] == [e] && [e][1..] == [];
    } else {
      FirstSnoc(xs[1..], e, uri);
      assert (xs + [e])[1..] == xs[1..] + [e];
    }
  }

  lemma {:induction false} FirstFinds(xs: seq<Entry>, i: nat, uri: string)
    requires i < |xs| && Matches(xs[i], uri)
    ensures First(xs, uri).Some?
  {
    if i > 0 && !Matches(xs[0], uri) {
      FirstFinds(xs[1..], i - 1, uri);
    }
  }

  lemma {:induction false} FirstMatches(xs: seq<Entry>, uri: string)
    requires First(xs, uri).Some?
    ensures Matches(First(xs, uri).value, uri) && First(xs, uri).value in xs
  {
    if !Matches(xs[0], uri) {
      FirstMatches(xs[1..], uri);
    }
  }

  /** The entries of one bucket, duplicates included. */
  function Bucket(added: seq<Entry>, h: nat): seq<Entry> {
    if added == [] then []
    else Bucket(added[..|added| - 1], h) + if Hash(added[|added| - 1].fakename) == h then [added[|added| - 1]] else []
  }

  /** Looking in one bucket finds what looking everywhere finds, as long as that hashes there. */
  lemma {:induction false} BucketFirst(added: seq<Entry>, h: nat, uri: string)
    ensures First(added, uri).None? ==> First(Bucket(added, h), uri).None?
    ensures First(added, uri).Some? && Hash(First(added, uri).value.fakename) == h ==>
              First(Bucket(added, h), uri) == First(added, uri)
    ensures First(Bucket(added, h), uri).Some? ==> Hash(First(Bucket(added, h), uri).value.fakename) == h
  {
    if added != [] {
      var init, e := added[..|added| - 1], added[|added| - 1];
      BucketFirst(init, h, uri);
      assert added == init + [e];
      hide Matches, Hash;
      FirstSnoc(init, e, uri);
      FirstSnoc(Bucket(init, h), e, uri);
      assert Bucket(init, h) + [] == Bucket(init, h);
    }
  }

  class Table {
    /** The bucket lists, each in the order of its entries. */
    const buckets: array<seq<Entry>>
    /** Every alias ever configured, in order. */
    ghost var added: seq<Entry>

    ghost predicate Valid()
      reads this, buckets
    {
      && buckets.Length == HASHTABLE_SIZE
      && forall h, uri {:trigger First(buckets[h], uri)} :: 0 <= h < HASHTABLE_SIZE ==>
           First(buckets[h], uri) == First(Bucket(added, h), uri)
    }

    constructor ()
      ensures Valid() && fresh(buckets) && added == []
    {
      buckets := new seq<Entry>[HASHTABLE_SIZE](_ => []);
      added := [];
    }

    /** `add_alias`: appended to its bucket unless an entry before the last one has the name. The
        last one is not compared, so a repetition can get in; it never changes what is found. */
    method Add(e: Entry)
      requires Valid() && e.fakename != [] && e.realname != []
      modifies this, buckets
      ensures Valid() && added == old(added) + [e]
      ensures forall h :: 0 <= h < HASHTABLE_SIZE && h != Hash(e.fakename) ==> buckets[h] == old(buckets[h])
      ensures var was := old(buckets[Hash(e.fakename)]);
              buckets[Hash(e.fakename)] == if exists k :: 0 <= k < |was| - 1 && was[k].fakename == e.fakename
                                           then was else was + [e]
    {
      var hash := HashValue(e.fakename);
      var bucket := buckets[hash];
      var i := 0;
      while i + 1 < |bucket|
        invariant 0 <= i && (bucket != [] ==> i < |bucket|)
        invariant forall k :: 0 <= k < i && k < |bucket| ==> bucket[k].fakename != e.fakename
      {
        if bucket[i].fakename == e.fakename {
          Repetition(bucket, i, e);
          added := added + [e];
          Grown(old(added), e);
          return;
        }
        i := i + 1;
      }
      buckets[hash] := bucket + [e];
      added := added + [e];
      Grown(old(added), e);
      forall uri ensures First(bucket + [e], uri) == First(Bucket(old(added), hash) + [e], uri) {
        FirstSnoc(bucket, e, uri);
        FirstSnoc(Bucket(old(added), hash), e, uri);
        assert First(old(buckets[hash]), uri) == First(Bucket(old(added), hash), uri);
      }
    }

    /** A repeated name finds nothing its first occurrence does not find. */
    lemma Repetition(bucket: seq<Entry>, i: nat, e: Entry)
      requires Valid() && bucket == buckets[Hash(e.fakename)] && i < |bucket| && bucket[i].fakename == e.fakename
      ensures forall uri :: First(Bucket(added, Hash(e.fakename)) + [e], uri) == First(bucket, uri)
    {
      var h := Hash(e.fakename);
      assert forall uri :: First(bucket, uri) == First(Bucket(added, h), uri);
      hide First, Hash, Bucket, Valid;
      forall uri ensures First(Bucket(added, h) + [e], uri) == First(bucket, uri) {
        FirstSnoc(Bucket(added, h), e, uri);
        if Matches(e, uri) {
          FirstFinds(bucket, i, uri);
        }
      }
    }

    lemma Grown(before: seq<Entry>, e: Entry)
      ensures forall h :: Bucket(before + [e], h)
                          == if Hash(e.fakename) == h then Bucket(before, h) + [e] else Bucket(before, h)
    {
      assert (before + [e])[..|before|] == before;
    }

    /** `find_alias`: the first match in the URI's bucket is the first match of all, exactly unless
        the alias "/" comes first and the URI hashes elsewhere. */
    method Find(uri: string) returns (r: Option<Entry>)
      requires Valid()
      ensures r == First(added, uri) <==>
                !(First(added, uri).Some? && First(added, uri).value.fakename == "/" && Hash(uri) != Hash("/"))
      ensures r.Some? ==> Matches(r.value, uri)
    {
      var hash := HashValue(uri);
      var bucket := buckets[hash];
      var i := 0;
      r := None;
      assert bucket[0..] == bucket;
      while i < |bucket| && r == None
        invariant 0 <= i <= |bucket|
        invariant r == None ==> First(bucket, uri) == First(bucket[i..], uri)
        invariant r.Some? ==> r == First(bucket, uri)
      {
        if Matches(bucket[i], uri) {
          r := Some(bucket[i]);
        }
        assert bucket[i..][1..] == bucket[i + 1..];
        i := i + 1;
      }
      assert r == First(bucket, uri) == First(Bucket(added, hash), uri);
      BucketFirst(added, hash, uri);
      if r.Some? {
        FirstMatches(bucket, uri);
      }
      if First(added, uri).Some? {
        FirstMatches(added, uri);
        MatchHashesAlike(First(added, uri).value, uri);
      }
    }

    /** Without an alias named "/" the table answers like the scan for every URI. */
    method FindWithoutRoot(uri: string) returns (r: Option<Entry>)
      requires Valid() && forall e :: e in added ==> e.fakename != "/"
      ensures r == First(added, uri)
    {
      r := Find(uri);
      if First(added, uri).Some? {
        FirstMatches(added, uri);
      }
    }
  }

  /** A case of the exception: "/" alone configured, "/a" asked for. */
  lemma RootAliasIsMissed()
    ensures Matches(Entry("/", "x", Alias), "/a") && Hash("/") != Hash("/a")
  {
    assert "/"[1..] == "" && "/a"[1..] == "a" && "a"[1..] == "";
    assert Segment("/") == "/" && Segment("/a") == "/a";
    assert "/"[..0] == "" && "/a"[..1] == "/";
    assert Sum("/") == 47 && Sum("/a") == 144;
  }
}
