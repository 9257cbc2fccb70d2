/** File names: the name table, the used flags of the inodes with their bitset and
    search hint, and the hash cache in front of them (src/whefs_inode.c:89-173,
    343-401 and 645-751, src/whefs_cache.c, src/whefs_fs.c:710-771). */
module Catalog {
  import opened Bytes
  import opened ReturnCodes
  import opened HashList
  import Layout

  /** `NotFound` is the source's way to say that the last name it looked at was another one:
      it returns the sign of that comparison as if it were a result code. */
  datatype Lookup = Found(id: nat) | NotFound(order: int) | Denied(rc: Rc)

  /** The sign of strcmp. */
  function Order(a: string, b: string): (r: int)
    ensures r == 0 <==> a == b
  {
    if a == [] || b == [] then (if a == b then 0 else if a == [] then -1 else 1)
    else if a[0] != b[0] then (if a[0] < b[0] then -1 else 1)
    else Order(a[1..], b[1..])
  }

  /** What a scan of the names below `n` that finds nothing returns: it depends on the last
      inode that was looked at.  Once the bitset is loaded, free ones are not. */
  function Missed(names: seq<string>, used: seq<bool>, loaded: bool, name: string, n: nat): (r: Lookup)
    requires n <= |names| == |used|
    ensures !r.Found? && r != Denied(OK)
    decreases n
  {
    if n <= 2 then Denied(RangeError)
    else if loaded && !used[n - 1] then Missed(names, used, loaded, name, n - 1)
    else if names[n - 1] == "" then Denied(RangeError)
    else NotFound(Order(names[n - 1], name))
  }

  /** The plain table scan: the first inode from `i` on with this name, or 0. */
  function Scan(names: seq<string>, name: string, i: nat): (id: nat)
    requires i >= 1
    ensures id == 0 || (i <= id < |names| && names[id] == name)
    ensures forall j :: i <= j < |names| && (id == 0 || j < id) ==> names[j] != name
    decreases |names| - i
  {
    if i >= |names| then 0 else if names[i] == name then i else Scan(names, name, i + 1)
  }

  lemma ScanIs(names: seq<string>, name: string, id: nat)
    requires 2 <= id < |names| && names[id] == name && forall j :: 2 <= j < id ==> names[j] != name
    ensures Scan(names, name, 2) == id
  {
  }

  /** The free inode with the lowest id from `i` on, or 0. */
  function FreeFrom(used: seq<bool>, i: nat): (id: nat)
    requires i >= 1
    ensures id == 0 || (i <= id < |used| && !used[id])
    ensures forall j :: i <= j < |used| && (id == 0 || j < id) ==> used[j]
    decreases |used| - i
  {
    if i >= |used| then 0 else if !used[i] then i else FreeFrom(used, i + 1)
  }

  /** What renaming inode `id` means for lookups: the new name finds it, its old name
      finds nothing, and every other name finds what it found before. */
  lemma RenameScan(names: seq<string>, id: nat, name: string, other: string)
    requires Unique(names) && 2 <= id < |names| && name != "" && name != names[id]
    requires forall j :: 2 <= j < |names| ==> names[j] != name
    ensures Scan(names[id := name], name, 2) == id
    ensures names[id] != "" ==> Scan(names[id := name], names[id], 2) == 0
    ensures other != "" && other != name && other != names[id] ==>
              Scan(names[id := name], other, 2) == Scan(names, other, 2)
  {
    ScanIs(names[id := name], name, id);
    var k := Scan(names, other, 2);
    if k != 0 && other != "" && other != name && other != names[id] {
      ScanIs(names[id := name], other, k);
    }
  }

  /** No two inodes share a name, unnamed ones apart. */
  ghost predicate Unique(names: seq<string>) {
    forall i, j :: 0 <= i < |names| && 0 <= j < |names| && names[i] == names[j] != "" ==> i == j
  }

  /** The hash tells the names in use, the name `extra` and the empty name apart. */
  ghost predicate NoClash(h: string -> nat, names: seq<string>, extra: string) {
    && (forall i, j :: 0 <= i < |names| && 0 <= j < |names| && h(names[i]) == h(names[j]) ==> names[i] == names[j])
    && (forall i :: 0 <= i < |names| && h(names[i]) == h(extra) ==> names[i] == extra)
    && (forall i :: 0 <= i < |names| && h(names[i]) == h("") ==> names[i] == "")
    && (h(extra) == h("") ==> extra == "")
  }

  /** A cache entry is stale, which its hash shows, or right. */
  ghost predicate EntryOK(h: string -> nat, names: seq<string>, x: HashId) {
    1 <= x.id < |names| && (x.hash == h("") || (names[x.id] != "" && x.hash == h(names[x.id])))
  }

  ghost predicate CacheOK(h: string -> nat, names: seq<string>, l: seq<HashId>) {
    forall x :: x in l ==> EntryOK(h, names, x) && (x.hash != h("") ==> multiset(l)[x] == 1)
  }

  lemma CachePermuted(h: string -> nat, names: seq<string>, l: seq<HashId>, r: seq<HashId>)
    requires CacheOK(h, names, l) && multiset(l) == multiset(r)
    ensures CacheOK(h, names, r)
  {
    forall x | x in r ensures x in l {
      assert x in multiset(r);
    }
  }

  /** Adding the hash of a name that is not in the cache yet. */
  lemma CacheAdd(h: string -> nat, names: seq<string>, l: seq<HashId>, id: nat)
    requires CacheOK(h, names, l) && 1 <= id < |names| && names[id] != ""
    requires forall i :: 0 <= i < |l| ==> l[i].hash != h(names[id])
    ensures CacheOK(h, names, l + [HashId(h(names[id]), id)])
  {
    var e := HashId(h(names[id]), id);
    forall x | x in l + [e] && x.hash != h("") ensures multiset(l + [e])[x] == 1 {
      if x in l { assert x != e; }
    }
  }

  /** A hit is the inode with that name. */
  lemma CacheHit(h: string -> nat, names: seq<string>, l: seq<HashId>, name: string, k: nat)
    requires CacheOK(h, names, l) && NoClash(h, names, name) && name != ""
    requires k < |l| && l[k].hash == h(name)
    ensures 1 <= l[k].id < |names| && names[l[k].id] == name
  {
    assert l[k] in l;
  }

  /** Renaming inode `id` while nothing in the cache has its old name's hash. */
  lemma RenameUncached(h: string -> nat, names: seq<string>, l: seq<HashId>, id: nat, name: string)
    requires CacheOK(h, names, l) && 1 <= id < |names|
    requires names[id] != "" ==> forall i :: 0 <= i < |l| ==> l[i].hash != h(names[id])
    ensures CacheOK(h, names[id := name], l)
  {
    forall x | x in l ensures EntryOK(h, names[id := name], x) {
      assert EntryOK(h, names, x);
    }
  }

  lemma NotCached(h: string -> nat, names: seq<string>, l: seq<HashId>, id: nat, name: string)
    requires CacheOK(h, names, l) && NoClash(h, names, name) && id < |names| && names[id] != name && h(name) != h("")
    ensures HashId(h(name), id) !in l
  {
  }

  /** Renaming inode `id` and rehashing the one entry that had its old name's hash. */
  lemma RenameCached(h: string -> nat, names: seq<string>, l: seq<HashId>, id: nat, name: string, k: nat)
    requires CacheOK(h, names, l) && 1 <= id < |names| && k < |l|
    requires names[id] != "" && names[id] != name && l[k] == HashId(h(names[id]), id) && h(names[id]) != h("")
    requires NoClash(h, names, name) && (name == "" || forall j :: 0 <= j < |names| && j != id ==> names[j] != name)
    ensures CacheOK(h, names[id := name], l[k := HashId(h(name), id)])
  {
    var names', e, l' := names[id := name], HashId(h(name), id), l[k := HashId(h(name), id)];
    assert multiset(l') == multiset(l) - multiset{l[k]} + multiset{e};
    forall x | x in l' ensures EntryOK(h, names', x) && (x.hash != h("") ==> multiset(l')[x] == 1) {
      if x != e {
        assert x in multiset(l');
        assert x in l;
        assert EntryOK(h, names, x);
        assert x != l[k];
      } else if e.hash != h("") {
        NotCached(h, names, l, id, name);
      }
    }
  }

  /** The rename as the code does it, once it has found the entry to rehash. */
  lemma RenameHit(h: string -> nat, names: seq<string>, l: seq<HashId>, id: nat, name: string, k: nat)
    requires CacheOK(h, names, l) && 1 <= id < |names| && k < |l| && NoClash(h, names, name)
    requires l[k].id == id && l[k].hash == h(if names[id] != "" then names[id] else name)
    requires names[id] != "" ==> names[id] != name
    requires name == "" || forall j :: 0 <= j < |names| && j != id ==> names[j] != name
    ensures CacheOK(h, names[id := name], l[k := HashId(h(name), id)])
  {
    if names[id] != "" {
      RenameCached(h, names, l, id, name, k);
    } else {
      if name != "" { CacheHit(h, names, l, name, k); }
      assert l[k := HashId(h(name), id)] == l && names[id := name] == names;
    }
  }

  class Catalog {
    const hashfunc: string -> nat
    /** options.filename_length */
    const limit: nat
    /** The name table and the used flags of the inode records, by inode id. */
    var names: seq<string>
    var used: seq<bool>
    /** bits.i_loaded and the set bits of bits.i */
    var loaded: bool
    var bits: set<nat>
    /** hints.unused_inode_start */
    var hint: nat
    /** Whether the name cache is on, and whether it was created yet. */
    var enabled: bool
    var present: bool
    const cache: HashIdList

    ghost predicate Flags()
      reads `names, `used, `loaded, `bits, `hint
    {
      && |names| == |used| >= 3 && hint <= |names|
      && names[0] == names[1] == ""
      && (forall i :: 2 <= i < |names| && names[i] != "" ==> used[i])
      && (forall i :: 2 <= i < |names| && i in bits ==> used[i])
      && (forall i :: 2 <= i < |names| && loaded && used[i] ==> i in bits)
      && (forall i :: 2 <= i < hint ==> used[i])
    }

    ghost predicate Valid()
      reads this, cache
    {
      && Flags() && |names| <= 0x1_0000 && (forall i :: 0 <= i < |names| ==> |names[i]| <= limit)
      && cache.Valid() && (!enabled ==> !present) && (!present ==> cache.list == [])
      && CacheOK(hashfunc, names, cache.list) && (present ==> cache.maxAlloc == |names| - 1)
    }

    /** The cache entries `l` have the hash of inode `id`'s name, if it has one, unless
        there is no room for another entry, or another inode has this hash. */
    ghost predicate Caches(l: seq<HashId>, id: nat)
      requires id < |names|
      reads `names
    {
      || names[id] == "" || HashId(hashfunc(names[id]), id) in l || |l| >= Min(|names| - 1, 0x7FFF)
      || exists x :: x in l && x.hash == hashfunc(names[id]) && x.id != id
    }

    /** More entries cache no less. */
    lemma CachesMore(l: seq<HashId>, r: seq<HashId>, id: nat)
      requires id < |names| && Caches(l, id) && multiset(l) <= multiset(r)
      ensures Caches(r, id)
    {
      forall x | x in l ensures x in r {
        assert x in multiset(l);
      }
      assert |multiset(r)| == |multiset(l)| + |multiset(r) - multiset(l)|;
      assert |multiset(l)| == |l| && |multiset(r)| == |r|;
    }

    /** With names that the hash tells apart, only a full cache lacks a name. */
    lemma OnlyFull(id: nat)
      requires Valid() && Unique(names) && NoClash(hashfunc, names, "") && id < |names| && names[id] != ""
      requires Caches(cache.list, id)
      ensures HashId(hashfunc(names[id]), id) in cache.list || |cache.list| >= Min(|names| - 1, 0x7FFF)
    {
      forall x | x in cache.list && x.hash == hashfunc(names[id]) ensures x.id == id {
        assert EntryOK(hashfunc, names, x);
      }
    }

    constructor (hashfunc: string -> nat, limit: nat, inodes: nat)
      requires 2 <= inodes < 0x1_0000
      ensures Valid() && fresh(cache) && this.limit == limit && this.hashfunc == hashfunc
      ensures names == seq(inodes + 1, _ => "") && used == seq(inodes + 1, _ => false)
      ensures enabled && !loaded && cache.list == [] && hint == Layout.FIRST_INODE
    {
      this.hashfunc, this.limit := hashfunc, limit;
      names, used := seq(inodes + 1, _ => ""), seq(inodes + 1, _ => false);
      loaded, bits, hint, enabled, present := false, {0, 1}, Layout.FIRST_INODE, true, false;
      cache := new HashIdList();
    }

    /** A container that was opened again: the caches are empty. */
    constructor Stored(hashfunc: string -> nat, limit: nat, names: seq<string>, used: seq<bool>, hint: nat)
      requires Kept(limit, names, used, hint)
      ensures Valid() && fresh(cache) && this.limit == limit && this.hashfunc == hashfunc
      ensures this.names == names && this.used == used && this.hint == hint
      ensures enabled && !loaded && cache.list == []
    {
      this.hashfunc, this.limit, this.names, this.used, this.hint := hashfunc, limit, names, used, hint;
      loaded, bits, enabled, present := false, {0, 1}, true, false;
      cache := new HashIdList();
    }

    /** What is stored of names agrees with itself. */
    static ghost predicate Kept(limit: nat, names: seq<string>, used: seq<bool>, hint: nat) {
      && 3 <= |names| == |used| <= 0x1_0000 && hint <= |names| && names[0] == names[1] == ""
      && (forall i :: 2 <= i < |names| && names[i] != "" ==> used[i])
      && (forall i :: 2 <= i < hint ==> used[i])
      && (forall i :: 0 <= i < |names| ==> |names[i]| <= limit)
    }

    lemma IsKept()
      requires Valid()
      ensures Kept(limit, names, used, hint)
    {
    }

    predicate ValidId(id: nat)
      reads `names
    {
      1 <= id < |names|
    }

    // ----- the cache

    /** Remembers the hash of inode `id`'s name.  It silently fails to when the cache is
        full, and refuses a hash that another inode has. */
    method HashCache(id: nat) returns (rc: Rc)
      requires Valid() && ValidId(id) && names[id] != ""
      modifies `present, cache
      ensures Valid() && (old(present) ==> present) && cache.skipAutoSort == old(cache.skipAutoSort)
      ensures rc != OK ==> rc == InternalError && enabled
      ensures cache.list == old(cache.list)
              || (enabled && cache.list == old(cache.list) + [HashId(hashfunc(names[id]), id)])
      ensures enabled ==> Caches(cache.list, id)
    {
      hide EntryOK, CacheOK, Catalog.Flags, Sorted;
      if !enabled {
        return OK;
      }
      CreateCache(12);
      var h := hashfunc(names[id]);
      var ndx := cache.IndexOf(h);
      if ndx < |cache.list| {
        assert cache.list[ndx] in cache.list;
        return if cache.list[ndx].id == id then OK else InternalError;
      }
      CacheAdd(hashfunc, names, cache.list, id);
      var _ := cache.Add(HashId(h, id));
      rc := OK;
    }

    method CreateCache(size: nat)
      requires Valid() && enabled && size > 0
      modifies `present, cache
      ensures Valid() && present && cache.list == old(cache.list) && cache.skipAutoSort == old(cache.skipAutoSort)
    {
      if !present {
        var _ := cache.Alloc(if size > |names| - 1 then |names| - 1 else size);
        cache.maxAlloc := |names| - 1;
        present := true;
      }
    }

    method CacheSort()
      requires Valid()
      modifies cache
      ensures Valid() && (present ==> cache.isSorted) && cache.skipAutoSort == old(cache.skipAutoSort)
      ensures multiset(cache.list) == multiset(old(cache.list))
    {
      if present && !cache.isSorted {
        SortNow();
      }
    }

    method SortNow()
      requires Valid()
      modifies cache
      ensures Valid() && cache.isSorted && cache.skipAutoSort == old(cache.skipAutoSort)
      ensures multiset(cache.list) == multiset(old(cache.list))
    {
      ghost var l := cache.list;
      EntriesLive();
      cache.Sort();
      CachePermuted(hashfunc, names, l, cache.list);
    }

    lemma EntriesLive()
      requires Valid()
      ensures forall x :: x in cache.list ==> x.id != 0
    {
    }

    /** Turns the cache on, perhaps loading every name into it, or off. */
    method SetHashCache(on: bool, loadNow: bool)
      requires Valid()
      modifies `enabled, `present, cache
      ensures Valid() && enabled == on
      ensures !on ==> cache.list == []
      ensures on && !loadNow ==> cache.list == old(cache.list)
      ensures on && loadNow ==> forall i :: 1 <= i < |names| && !Skipped(i) ==> Caches(cache.list, i)
    {
      enabled := on;
      if !on {
        var _ := cache.Alloc(0);
        present := false;
      } else if loadNow {
        LoadNames();
      }
    }

    /** Caches the names of all inodes that may have one, highest id first. */
    method LoadNames()
      requires Valid() && enabled
      modifies `present, cache
      ensures Valid()
      ensures forall i :: 1 <= i < |names| && !Skipped(i) ==> Caches(cache.list, i)
    {
      hide CacheOK, Catalog.Flags, Catalog.Caches, Catalog.Skipped, Sorted;
      CreateCache(16);
      cache.skipAutoSort := true;
      var i := |names| - 1;
      while i >= 1
        invariant 0 <= i < |names| && Valid() && enabled
        invariant forall j :: i < j < |names| && !Skipped(j) ==> Caches(cache.list, j)
        decreases i
      {
        LoadName(i);
        i := i - 1;
      }
      FinishLoad();
    }

    method LoadName(i: nat)
      requires Valid() && enabled && 1 <= i < |names|
      modifies `present, cache
      ensures Valid()
      ensures !Skipped(i) ==> Caches(cache.list, i)
      ensures forall j :: i < j < |names| && Caches(old(cache.list), j) ==> Caches(cache.list, j)
    {
      hide CacheOK, Catalog.Flags, Catalog.Caches, Sorted;
      if !Skipped(i) {
        var _, _ := NameGet(i);
      }
      MoreCached(old(cache.list), i + 1);
    }

    method FinishLoad()
      requires Valid()
      modifies cache
      ensures Valid()
      ensures forall j :: 1 <= j < |names| && Caches(old(cache.list), j) ==> Caches(cache.list, j)
    {
      hide CacheOK, Catalog.Flags, Catalog.Caches, Sorted;
      cache.skipAutoSort := false;
      SortNow();
      MoreCached(old(cache.list), 1);
    }

    lemma MoreCached(l: seq<HashId>, from: nat)
      requires multiset(l) <= multiset(cache.list)
      ensures forall j :: from <= j < |names| && Caches(l, j) ==> Caches(cache.list, j)
    {
      forall j | from <= j < |names| && Caches(l, j) ensures Caches(cache.list, j) {
        CachesMore(l, cache.list, j);
      }
    }

    // ----- names

    /** An entry left behind by an inode that lost its name. */
    predicate EmptyOf(x: HashId) { x.hash == hashfunc("") }

    /** Reads a name, and caches it on the way. */
    method NameGet(id: nat) returns (rc: Rc, name: string)
      requires Valid()
      modifies `present, cache
      ensures Valid() && (old(present) ==> present) && cache.skipAutoSort == old(cache.skipAutoSort)
      ensures rc == if ValidId(id) then OK else ArgError
      ensures rc == OK ==> name == names[id]
      ensures rc == OK && name == "" ==> cache.list == old(cache.list)
      ensures rc == OK && enabled ==> Caches(cache.list, id)
      ensures multiset(cache.list) == multiset(old(cache.list))
              || (rc == OK && name != "" && multiset(cache.list) == multiset(old(cache.list))
                  + multiset{HashId(hashfunc(name), id)})
    {
      hide CacheOK, Catalog.Flags, Sorted;
      if !ValidId(id) {
        return ArgError, "";
      }
      name := names[id];
      rc := OK;
      if name != "" {
        var _ := HashCache(id);
        ghost var l := cache.list;
        if !cache.skipAutoSort {
          CacheSort();
        }
        if enabled { CachesMore(l, cache.list, id); }
      }
    }

    method NameWrite(id: nat, name: string) returns (rc: Rc)
      modifies `names
      ensures rc == if !old(ValidId(id)) then ArgError else if |name| > limit then RangeError else OK
      ensures names == if rc == OK then old(names)[id := name] else old(names)
    {
      if !ValidId(id) {
        return ArgError;
      }
      if |name| > limit {
        return RangeError;
      }
      names := names[id := name];
      rc := OK;
    }

    /** Where the cache has a name's hash, if it is on. */
    method SearchNdx(name: string) returns (found: bool, ndx: nat)
      requires Valid()
      modifies cache
      ensures Valid() && cache.skipAutoSort == old(cache.skipAutoSort)
      ensures found <==> enabled && ndx < |cache.list|
      ensures found ==> cache.list[ndx].hash == hashfunc(name)
      ensures !found ==> forall i :: 0 <= i < |cache.list| ==> cache.list[i].hash != hashfunc(name)
      ensures multiset(cache.list) == multiset(old(cache.list))
    {
      if !enabled {
        return false, 0;
      }
      CacheSort();
      ndx := cache.IndexOf(hashfunc(name));
      found := ndx < |cache.list|;
    }

    /** Taking a name away leaves an entry with the empty name's hash in the cache, and
        nothing else adds one. */
    ghost predicate LeavesEmpty(id: nat, was: string, name: string, l: seq<HashId>, r: seq<HashId>)
      reads `names, `enabled
    {
      && |r| <= |l| + 1
      && (forall x :: x in r && EmptyOf(x) ==> x in l || (x.id == id && name == ""))
      && (was != "" && name == "" && enabled ==> HashId(hashfunc(""), id) in r || |r| >= Min(|names| - 1, 0x7FFF))
    }

    /** Renames an inode and keeps the cache true.  The one name it refuses wrongly is the
        empty one for an inode that is unnamed already, when the cache holds the empty hash
        for another inode: that happens when an unnamed inode is deleted after a named one.
        It does not happen to an inode that has a name, or while the cache is off. */
    method NameSet(id: nat, name: string) returns (rc: Rc)
      requires Valid() && (ValidId(id) && name != "" ==> id >= 2 && used[id])
      requires Unique(names) && NoClash(hashfunc, names, name)
      requires ValidId(id) && name != "" ==> forall j :: 0 <= j < |names| && j != id ==> names[j] != name
      modifies `names, `present, cache
      ensures Valid() && Unique(names) && cache.skipAutoSort == old(cache.skipAutoSort)
      ensures rc == OK || rc == ArgError || rc == RangeError || rc == InternalError
      ensures rc == ArgError <==> !old(ValidId(id))
      ensures rc == RangeError <==> old(ValidId(id)) && |name| > limit && old(names[id]) != name
      ensures rc == InternalError ==>
                name == "" && old(names[id]) == "" && enabled
                && exists x :: x in old(cache.list) && EmptyOf(x) && x.id != id
      ensures (old(ValidId(id)) && name == "" && old(names[id]) == "" && enabled
               && (exists x :: x in old(cache.list) && EmptyOf(x))
               && (forall x :: x in old(cache.list) && EmptyOf(x) ==> x.id != id)) ==> rc == InternalError
      ensures names == if rc == OK then old(names)[id := name] else old(names)
      ensures rc == OK ==> LeavesEmpty(id, old(names[id]), name, old(cache.list), cache.list)
    {
      hide CacheOK, NoClash, Unique, Catalog.LeavesEmpty, Catalog.Caches, Catalog.Flags;
      if !ValidId(id) {
        return ArgError;
      }
      var _, was := NameGet(id);
      if was != "" && was == name {
        assert names[id := name] == names;
        SameName(id, old(cache.list), name);
        return OK;
      }
      rc := Replace(id, name, old(cache.list));
    }

    /** Gives an inode another name than it has.  `l` is the cache before it read the name. */
    method Replace(id: nat, name: string, ghost l: seq<HashId>) returns (rc: Rc)
      requires Valid() && ValidId(id) && (name != "" ==> id >= 2 && used[id])
      requires Unique(names) && NoClash(hashfunc, names, name) && (names[id] != "" ==> names[id] != name)
      requires name == "" || forall j :: 0 <= j < |names| && j != id ==> names[j] != name
      requires Read(id, l) && (enabled ==> Caches(cache.list, id))
      modifies `names, `present, cache
      ensures Valid() && Unique(names) && cache.skipAutoSort == old(cache.skipAutoSort)
      ensures rc == OK || rc == RangeError || rc == InternalError
      ensures rc == RangeError <==> |name| > limit
      ensures rc == InternalError ==>
                name == "" && old(names[id]) == "" && enabled && exists x :: x in l && EmptyOf(x) && x.id != id
      ensures (name == "" && old(names[id]) == "" && enabled
               && (exists x :: x in l && EmptyOf(x))
               && (forall x :: x in l && EmptyOf(x) ==> x.id != id)) ==> rc == InternalError
      ensures names == if rc == OK then old(names)[id := name] else old(names)
      ensures rc == OK ==> LeavesEmpty(id, old(names[id]), name, l, cache.list)
    {
      hide CacheOK, NoClash, Unique, Catalog.LeavesEmpty, Catalog.Caches, Catalog.Flags;
      ghost var ns := names;
      var found, ndx;
      rc, found, ndx := OldEntry(id, name, l);
      if rc != OK {
        return;
      }
      ghost var r := cache.list;
      rc := Rename(id, name, found, ndx);
      if rc == OK {
        StillUnique(ns, id, name);
        EmptyLeft(ns, id, name, l, r, found, ndx);
      }
    }

    /** Looks for the entry to correct, which must not be another inode's. */
    method OldEntry(id: nat, name: string, ghost l: seq<HashId>) returns (rc: Rc, found: bool, ndx: nat)
      requires Valid() && ValidId(id) && Unique(names) && NoClash(hashfunc, names, name)
      requires name == "" || forall j :: 0 <= j < |names| && j != id ==> names[j] != name
      requires Read(id, l) && (enabled ==> Caches(cache.list, id))
      modifies cache
      ensures Valid() && cache.skipAutoSort == old(cache.skipAutoSort) && Read(id, l)
      ensures rc == OK || rc == InternalError
      ensures rc == InternalError ==>
                name == "" && names[id] == "" && enabled && exists x :: x in l && EmptyOf(x) && x.id != id
      ensures (name == "" && names[id] == "" && enabled
               && (exists x :: x in l && EmptyOf(x))
               && (forall x :: x in l && EmptyOf(x) ==> x.id != id)) ==> rc == InternalError
      ensures rc == OK ==>
                var check := if names[id] != "" then names[id] else name;
                if found then ndx < |cache.list| && cache.list[ndx] == HashId(hashfunc(check), id)
                else
                  && (forall i :: 0 <= i < |cache.list| ==> cache.list[i].hash != hashfunc(check))
                  && (enabled && names[id] != "" ==> |cache.list| >= Min(|names| - 1, 0x7FFF))
    {
      hide CacheOK, NoClash, Unique, Catalog.Caches, Catalog.Flags;
      ghost var c := cache.list;
      if multiset(c) == multiset(l) { SameEntries(l, c); }
      var check := if names[id] != "" then names[id] else name;
      found, ndx := SearchNdx(check);
      SameEntries(c, cache.list);
      if found && cache.list[ndx].id != id {
        WrongHit(id, name, ndx);
        return InternalError, found, ndx;
      }
      if !found && enabled && names[id] != "" { MissMeansFull(id, c, cache.list); }
      rc := OK;
    }

    lemma MissMeansFull(id: nat, c: seq<HashId>, r: seq<HashId>)
      requires id < |names| && names[id] != "" && Caches(c, id) && multiset(c) == multiset(r)
      requires forall i :: 0 <= i < |r| ==> r[i].hash != hashfunc(names[id])
      ensures |r| >= Min(|names| - 1, 0x7FFF)
    {
      SameEntries(c, r);
    }

    /** The cache is as it was, or has the hash of inode `id`'s name besides. */
    ghost predicate Read(id: nat, l: seq<HashId>)
      requires id < |names|
      reads `names, cache
    {
      || multiset(cache.list) == multiset(l)
      || (names[id] != "" && multiset(cache.list) == multiset(l) + multiset{HashId(hashfunc(names[id]), id)})
    }

    lemma SameName(id: nat, l: seq<HashId>, name: string)
      requires NoClash(hashfunc, names, name) && id < |names| && names[id] == name != ""
      requires multiset(cache.list) == multiset(l)
               || multiset(cache.list) == multiset(l) + multiset{HashId(hashfunc(name), id)}
      ensures LeavesEmpty(id, name, name, l, cache.list)
    {
      assert |multiset(l)| == |l| && |multiset(cache.list)| == |cache.list|;
      forall x | x in cache.list && EmptyOf(x) ensures x in l {
        assert x in multiset(cache.list);
      }
    }

    static lemma StillUnique(ns: seq<string>, id: nat, name: string)
      requires Unique(ns) && id < |ns| && (name == "" || forall j :: 0 <= j < |ns| && j != id ==> ns[j] != name)
      ensures Unique(ns[id := name])
    {
    }

    /** The cache before the name was read, before it was set (`l`, `r`) and now. */
    lemma EmptyLeft(ns: seq<string>, id: nat, name: string, l: seq<HashId>, r: seq<HashId>, found: bool, ndx: nat)
      requires id < |ns| == |names| && NoClash(hashfunc, ns, name)
      requires multiset(r) == multiset(l)
               || (ns[id] != "" && multiset(r) == multiset(l) + multiset{HashId(hashfunc(ns[id]), id)})
      requires found ==> ndx < |r| && r[ndx].id == id
      requires multiset(cache.list) == if found then multiset(r[ndx := HashId(hashfunc(name), id)]) else multiset(r)
      requires !found && enabled && ns[id] != "" ==> |r| >= Min(|names| - 1, 0x7FFF)
      ensures LeavesEmpty(id, ns[id], name, l, cache.list)
    {
      assert |multiset(l)| == |l| && |multiset(r)| == |r| && |multiset(cache.list)| == |cache.list|;
      var m := if found then r[ndx := HashId(hashfunc(name), id)] else r;
      assert |multiset(m)| == |m|;
      SameEntries(m, cache.list);
      forall x | x in cache.list && EmptyOf(x) ensures x in l || (x.id == id && name == "") {
        if x in r { assert x in multiset(r); }
      }
      if found { assert m[ndx] in m; }
    }

    /** Writes the new name, then corrects the cache entry of the old one. */
    method Rename(id: nat, name: string, found: bool, ndx: nat) returns (rc: Rc)
      requires Valid() && ValidId(id) && (name != "" ==> id >= 2 && used[id]) && NoClash(hashfunc, names, name)
      requires name == "" || forall j :: 0 <= j < |names| && j != id ==> names[j] != name
      requires names[id] != "" ==> names[id] != name
      requires var check := if names[id] != "" then names[id] else name;
               if found then ndx < |cache.list| && cache.list[ndx] == HashId(hashfunc(check), id)
               else forall i :: 0 <= i < |cache.list| ==> cache.list[i].hash != hashfunc(check)
      modifies `names, cache
      ensures Valid() && cache.skipAutoSort == old(cache.skipAutoSort)
      ensures rc == if |name| > limit then RangeError else OK
      ensures names == if rc == OK then old(names)[id := name] else old(names)
      ensures multiset(cache.list)
              == if rc == OK && found then multiset(old(cache.list)[ndx := HashId(hashfunc(name), id)])
                                      else multiset(old(cache.list))
    {
      hide CacheOK, NoClash;
      ghost var l, ns := cache.list, names;
      EntriesLive();
      rc := NameWrite(id, name);
      if rc == OK {
        if found {
          RenameHit(hashfunc, ns, l, id, name, ndx);
          Rehash(ndx, name, ns[id := name]);
        } else {
          RenameUncached(hashfunc, ns, l, id, name);
        }
      }
    }

    static lemma SameEntries(l: seq<HashId>, r: seq<HashId>)
      requires multiset(l) == multiset(r)
      ensures |l| == |r| && forall x :: x in l <==> x in r
    {
      assert |multiset(l)| == |l| && |multiset(r)| == |r|;
      forall x ensures x in l <==> x in r {
        assert x in multiset(l) <==> x in multiset(r);
      }
    }

    /** The hit of another inode means that both names are empty. */
    lemma WrongHit(id: nat, name: string, ndx: nat)
      requires Valid() && ValidId(id) && Unique(names) && NoClash(hashfunc, names, name)
      requires name == "" || forall j :: 0 <= j < |names| && j != id ==> names[j] != name
      requires ndx < |cache.list| && cache.list[ndx].id != id
      requires cache.list[ndx].hash == hashfunc(if names[id] != "" then names[id] else name)
      ensures names[id] == "" && name == ""
    {
    }

    method Rehash(ndx: nat, name: string, ghost ns: seq<string>)
      requires cache.Valid() && ndx < |cache.list| && forall x :: x in cache.list ==> x.id != 0
      requires CacheOK(hashfunc, ns, cache.list[ndx := HashId(hashfunc(name), cache.list[ndx].id)])
      modifies cache
      ensures cache.Valid() && CacheOK(hashfunc, ns, cache.list) && cache.maxAlloc == old(cache.maxAlloc)
      ensures multiset(cache.list) == multiset(old(cache.list)[ndx := HashId(hashfunc(name), old(cache.list)[ndx].id)])
      ensures |cache.list| == |old(cache.list)| && cache.skipAutoSort == old(cache.skipAutoSort)
    {
      ghost var l := cache.list[ndx := HashId(hashfunc(name), cache.list[ndx].id)];
      cache.Rehash(ndx, hashfunc(name));
      assert |multiset(l)| == |l| && |multiset(cache.list)| == |cache.list|;
      CachePermuted(hashfunc, ns, l, cache.list);
    }

    // ----- lookup

    /** A name is skipped only if the bitset says that its inode is free. */
    predicate Skipped(i: nat)
      reads `loaded, `bits
    {
      loaded && i !in bits
    }

    /** The walk through the name table from inode `from` on.  With `exact` the first one
        looked at must be the one. */
    method Walk(name: string, from: nat, exact: bool) returns (r: Lookup)
      requires Valid() && from >= 1 && name != ""
      modifies `present, cache
      ensures Valid()
      ensures exact && from < |names| && names[from] == name && !Skipped(from) ==> r == Found(from)
      ensures !exact && from == 2 ==>
                r == if Scan(names, name, 2) == 0 then Missed(names, used, loaded, name, |names|)
                    else Found(Scan(names, name, 2))
    {
      hide CacheOK, Sorted, Catalog.Caches;
      r := Denied(RangeError);
      var i := from;
      while i < |names|
        invariant from <= i && Valid()
        invariant exact && from < |names| && names[from] == name && !Skipped(from) ==> i == from
        invariant !exact && from == 2 ==>
                    i <= |names| && Scan(names, name, 2) == Scan(names, name, i)
                        && r == Missed(names, used, loaded, name, i)
      {
        if Skipped(i) {
          if exact {
            return Denied(ConsistencyError);
          }
        } else {
          var _, n := NameGet(i);
          if n == name {
            return Found(i);
          }
          if n != "" && exact {
            return Denied(ConsistencyError);
          }
          r := if n == "" then Denied(RangeError) else NotFound(Order(n, name));
        }
        i := i + 1;
      }
    }

    /** Finds an inode by its name, through the cache if it has the name's hash.  The answer
        is that of the plain scan of the name table. */
    method ByName(name: string) returns (r: Lookup)
      requires Valid() && Unique(names) && NoClash(hashfunc, names, name)
      modifies `present, cache
      ensures Valid()
      ensures r == if name == "" then Denied(ArgError) else if |name| > limit then Denied(RangeError)
                   else if Scan(names, name, 2) == 0 then Missed(names, used, loaded, name, |names|)
                   else Found(Scan(names, name, 2))
    {
      if name == "" {
        return Denied(ArgError);
      }
      if |name| > limit {
        return Denied(RangeError);
      }
      CacheSort();
      var ndx := cache.IndexOf(hashfunc(name));
      if ndx == |cache.list| {
        r := Walk(name, 2, false);
      } else {
        var id := cache.list[ndx].id;
        CacheHit(hashfunc, names, cache.list, name, ndx);
        ScanIs(names, name, id);
        r := Walk(name, id, true);
      }
    }

    // ----- inodes

    method UpdateUsed(id: nat)
      requires Valid() && ValidId(id)
      modifies `bits, `hint
      ensures Valid()
      ensures bits == (if used[id] then old(bits) + {id} else old(bits) - {id})
      ensures hint == if used[id] then old(hint) else Min(old(hint), id)
    {
      if used[id] {
        bits := bits + {id};
      } else {
        bits := bits - {id};
        if hint > id {
          hint := id;
        }
      }
    }

    /** Finds the free inode with the lowest id from 2 on, or reports that there is none. */
    method NextFree(markUsed: bool) returns (rc: Rc, id: nat)
      requires Valid()
      modifies `used, `bits, `hint
      ensures Valid()
      ensures rc == (if FreeFrom(old(used), 2) == 0 then FSFull else OK) && id == FreeFrom(old(used), 2)
      ensures used == if rc == OK && markUsed then old(used)[id := true] else old(used)
    {
      hide CacheOK;
      var i := hint;
      if i < 2 {
        hint := 2;
        i := 2;
      }
      while i < |names|
        invariant 2 <= i <= |names| && Valid() && used == old(used)
        invariant forall j :: 2 <= j < i ==> used[j]
      {
        if !(loaded && i in bits) {
          UpdateUsed(i);
          if !used[i] {
            if markUsed {
              MarkUsed(i);
            }
            return OK, i;
          }
        }
        i := i + 1;
      }
      rc, id := FSFull, 0;
    }

    method MarkUsed(id: nat)
      requires Valid() && 2 <= id < |names| && forall i :: 2 <= i < id ==> used[i]
      modifies `used, `bits, `hint
      ensures Valid() && used == old(used)[id := true]
    {
      used, bits := used[id := true], bits + {id};
      hint := id + 1;
    }

    /** Reads every used flag into the bitset. */
    method LoadBits()
      requires Valid()
      modifies `loaded, `bits, `hint
      ensures Valid() && loaded
    {
      var id := 2;
      while id < |names|
        invariant 2 <= id <= |names| && Valid()
        invariant forall i :: 2 <= i < id && used[i] ==> i in bits
      {
        UpdateUsed(id);
        id := id + 1;
      }
      loaded := true;
    }

    /** Opening a name for writing: the inode with that name, or else a new one.  A name that
        is too long costs an inode: it is marked used and stays unnamed.  So does the empty
        name, for which that inode may even be returned. */
    method Create(name: string) returns (r: Lookup)
      requires Valid() && Unique(names) && NoClash(hashfunc, names, name)
      modifies `names, `used, `bits, `hint, `present, cache
      ensures Valid() && Unique(names)
      ensures var free, found := FreeFrom(old(used), 2), name != "" && |name| <= limit
              && Scan(old(names), name, 2) != 0;
              && used == (if found || free == 0 then old(used) else old(used)[free := true])
              && names == (if found || free == 0 || |name| > limit then old(names) else old(names)[free := name])
              && if found then r == Found(Scan(old(names), name, 2))
                 else if free == 0 then r == Denied(FSFull)
                 else if |name| > limit then r == Denied(RangeError)
                 else r == Found(free) || (name == "" && enabled && r == Denied(InternalError))
    {
      hide NoClash;
      r := ByName(name);
      if !r.Found? {
        var rc, id := NextFree(true);
        if rc == OK {
          rc := NameNew(id, name);
        }
        r := if rc == OK then Found(id) else Denied(rc);
      }
    }

    /** Names a fresh inode with a name that no inode has. */
    method NameNew(id: nat, name: string) returns (rc: Rc)
      requires Valid() && Unique(names) && NoClash(hashfunc, names, name)
               && (|name| > limit || Scan(names, name, 2) == 0 || name == "")
      requires 2 <= id < |names| && used[id] && names[id] == ""
      modifies `names, `present, cache
      ensures Valid() && Unique(names)
      ensures if |name| > limit then rc == RangeError else rc == OK || (rc == InternalError && name == "" && enabled)
      ensures names == if rc == RangeError then old(names) else old(names)[id := name]
    {
      hide NoClash;
      rc := NameSet(id, name);
      assert names[id := ""] == names || rc == OK;
    }

    /** The naming side of deleting an inode: it loses its name and its used flag.  An inode
        that has a name always does. */
    method Delete(id: nat) returns (rc: Rc)
      requires Valid() && Unique(names) && NoClash(hashfunc, names, "") && ValidId(id)
      modifies `names, `used, `bits, `hint, `present, cache
      ensures Valid() && Unique(names)
      ensures rc == OK || (rc == InternalError && enabled && old(names[id]) == "")
      ensures rc == OK ==> names == old(names)[id := ""] && used == old(used)[id := false]
      ensures rc != OK ==> names == old(names) && used == old(used)
    {
      hide NoClash;
      rc := NameSet(id, "");
      if rc == OK {
        Unflag(id);
      }
    }

    method Unflag(id: nat)
      requires Valid() && ValidId(id) && names[id] == ""
      modifies `used, `bits, `hint
      ensures Valid() && used == old(used)[id := false]
    {
      used := used[id := false];
      bits := bits - {id};
      if hint > id {
        hint := id;
      }
    }
  }
}
