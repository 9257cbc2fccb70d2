/** What clients are answered, call by call, and what it says about the state: every answer is
    tied to what the call did, and handles, inodes and counts that are returned are the ones
    that later calls need. */
module Answers {
  import opened Bytes
  import opened ReturnCodes
  import opened Quota
  import opened Nodedev
  import opened Naming
  import opened Calls
  import opened CallLaws
  import opened Catalog

  // ----- handles

  /** Handle numbers count up from 1. */
  ghost predicate Numbered(s: State) {
    s.next >= 1 && forall h :: h in s.handles ==> 1 <= h < s.next
  }

  lemma NumberedAfter(s: State, c: Call)
    requires Legal(s, c) && Numbered(s)
    ensures Numbered(After(s, c))
  {
    hide Sane, Sound, Givable, Taken, HeldByWrite, HeldByTruncate, WriteAt, Calls.Truncated, Slice, Readable, Cuttable,
         Extensible;
  }

  lemma {:induction false} NumberedRun(s: State, calls: seq<Call>)
    requires Lawful(s, calls) && Numbered(s)
    ensures Numbered(Run(s, calls).0)
    decreases |calls|
  {
    hide After, Answer, Legal, Sane, Numbered;
    if calls == [] {
    } else {
      NumberedAfter(s, calls[0]);
      NumberedRun(After(s, calls[0]), calls[1..]);
    }
  }

  /** Some handle is on inode `id`, one that writes if asked so. */
  ghost predicate Held(s: State, id: nat, write: bool) {
    exists h :: h in s.handles && s.handles[h].file == id && (s.handles[h].rw || !write)
  }

  /** Opening answers with a new handle, on that inode, at its start; or refuses an inode that
      is none or that has a writer already, and changes nothing. */
  lemma OpenAnswers(s: State, id: nat, write: bool)
    requires Legal(s, Open(id, write)) && Numbered(s)
    ensures var o, t := Answer(s, Open(id, write)), After(s, Open(id, write));
            && (o == Failed(ArgError) <==> id == 0 || id >= |s.files|)
            && (o == Failed(AccessError) <==> 1 <= id < |s.files| && write && Held(s, id, true))
            && (o.Failed? ==> t == s)
            && (!o.Failed? ==> o.Opened? && o.h !in s.handles && t.handles == s.handles[o.h := Handle(id, write, 0)]
                               && t == s.(handles := t.handles, next := t.next))
  {
    hide Sane;
  }

  lemma CloseAnswers(s: State, h: nat)
    requires Legal(s, Close(h))
    ensures var t := After(s, Close(h));
            && Answer(s, Close(h)) == Done && h in s.handles && h !in t.handles
            && (forall g :: g in s.handles && g != h ==> g in t.handles && t.handles[g] == s.handles[g])
            && t == s.(handles := t.handles) && t.handles.Keys <= s.handles.Keys
  {
    hide Sane;
  }

  /** Unlinking is refused exactly for an inode that is none, or that a handle is on; otherwise
      the inode is empty, free and nameless, and no other is. */
  lemma UnlinkAnswers(s: State, id: nat)
    requires Legal(s, Unlink(id))
    ensures var o, t := Answer(s, Unlink(id)), After(s, Unlink(id));
            && (o == Failed(ArgError) <==> id == 0 || id >= |s.files|)
            && (o == Failed(AccessError) <==> 1 <= id < |s.files| && Held(s, id, false))
            && (o == Done <==> 1 <= id < |s.files| && !Held(s, id, false))
            && (o != Done ==> t == s)
            && (o == Done ==>
                  && |t.files| == |s.files| && |t.held| == |s.held| && t.files[id] == [] && t.held[id] == 0
                  && |t.names.table| == |s.names.table| && |t.names.used| == |s.names.used|
                  && t.names.table[id] == "" && !t.names.used[id]
                  && (forall j :: 0 <= j < |s.files| && j != id ==> t.files[j] == s.files[j] && t.held[j] == s.held[j])
                  && (forall j :: 0 <= j < |s.names.table| && j != id ==>
                        t.names.table[j] == s.names.table[j] && t.names.used[j] == s.names.used[j])
                  && t == s.(files := t.files, held := t.held,
                             names := s.names.(table := t.names.table, used := t.names.used)))
  {
    hide Unique;
  }

  /** Enlarging succeeds exactly when the container has more blocks afterwards. */
  lemma AddBlocksAnswers(s: State, count: nat)
    requires Legal(s, AddBlocks(count))
    ensures var o, t := Answer(s, AddBlocks(count)), After(s, AddBlocks(count));
            && (o == Done <==> t.blocks > s.blocks) && (o == Failed(ArgError) <==> t.blocks == s.blocks)
            && (o == Failed(ArgError) <==> count == 0)
            && t.blocks == s.blocks + count && t == s.(blocks := t.blocks)
  {
    hide Sane;
  }

  /** Switching the name cache on or off, and loading it, always succeeds and shows in nothing
      but that switch. */
  lemma CacheAnswers(s: State, on: bool, load: bool)
    requires Sane(s)
    ensures Legal(s, SetCache(on, load)) && Legal(s, LoadCaches)
    ensures var t := After(s, SetCache(on, load));
            Answer(s, SetCache(on, load)) == Done && t.names.cached == on && t == s.(names := s.names.(cached := on))
    ensures var t := After(s, LoadCaches);
            && Answer(s, LoadCaches) == Done && t.names.cached && t.names.loaded
            && t == s.(names := s.names.(cached := true, loaded := true))
  {
  }

  // ----- bytes

  /** The bytes that file `i` can have in its own and all free blocks. */
  ghost function Room(s: State, i: nat): nat
    requires Sane(s) && i < |s.files|
  {
    SumUpdate(s.held, i, 0);
    (s.held[i] + (s.blocks - Sum(s.held))) * s.bs
  }

  lemma RoomIs(s: State, i: nat, len: nat)
    requires Sane(s) && i < |s.files| && len > 0
    ensures Room(s, i) == Reach(s, i) * s.bs <= s.blocks * s.bs
    ensures BlockOf(s.bs, len - 1) > Reach(s, i) <==> len > Room(s, i)
    ensures BlockOf(s.bs, len - 1) > s.blocks <==> len > s.blocks * s.bs
  {
    hide BlockOf;
    BlockInside(s.bs, len - 1, Reach(s, i));
    BlockInside(s.bs, len - 1, s.blocks);
    var r, b, n := Reach(s, i), s.blocks, s.bs;
    assert b * n == r * n + (b - r) * n;
  }

  /** Truncating is refused exactly through a handle that reads, and then nothing changes.
      Through one that writes the file has the length asked for afterwards, whatever the answer:
      RangeError if the whole container is too small for it, FSFull if what is free does not do.
      Bytes up to the shorter length stay, but for a last block that is kept whole; new ones are
      zero. */
  lemma TruncateAnswers(s: State, h: nat, len: nat)
    requires Legal(s, Truncate(h, len))
    ensures var o, t, e := Answer(s, Truncate(h, len)), After(s, Truncate(h, len)), s.handles[h];
            && e.file < |s.files| == |t.files| == |t.held| && Sane(s)
            && (o == Failed(AccessError) <==> !e.rw) && (!e.rw ==> t == s)
            && t == s.(files := s.files[e.file := t.files[e.file]], held := s.held[e.file := t.held[e.file]])
            && (e.rw ==>
                  && |t.files[e.file]| == len
                  && (o == Failed(RangeError) <==> len != |s.files[e.file]| && len > s.blocks * s.bs)
                  && (o == Failed(FSFull) <==>
                        len != |s.files[e.file]| && len <= s.blocks * s.bs && len > Room(s, e.file))
                  && (o == Done <==> len == |s.files[e.file]| || len <= Room(s, e.file)))
  {
    hide Sound, BlockOf, HeldByTruncate, Calls.Truncated, Resize, Cut;
    var e := s.handles[h];
    if len > 0 { RoomIs(s, e.file, len); }
    assert s.files[e.file := s.files[e.file]] == s.files && s.held[e.file := s.held[e.file]] == s.held;
  }

  lemma TruncatedBytes(s: State, h: nat, len: nat, j: nat)
    requires Legal(s, Truncate(h, len)) && s.handles[h].rw && j < len
    ensures var f, t := s.files[s.handles[h].file], After(s, Truncate(h, len));
            && |t.files| > s.handles[h].file && |t.files[s.handles[h].file]| == len
            && t.files[s.handles[h].file][j]
               == if j >= |f| then 0
                  else if Answer(s, Truncate(h, len)) == Done && len < |f| && len % s.bs == 0 && j + s.bs >= len then 0
                  else f[j]
  {
    hide Sound, BlockOf, HeldByTruncate, TruncateRc, Cuttable;
    TruncateAnswers(s, h, len);
    if len % s.bs == 0 && len < s.bs { Whole(s.bs, len); }
  }

  lemma Whole(bs: nat, len: nat)
    requires 0 < len < bs
    ensures len % bs != 0
  {
  }

  /** A write is answered with the number of bytes that are in the file afterwards, at the
      handle's place, which moves behind them; a gap before them is zeros. */
  lemma WriteAnswers(s: State, h: nat, src: seq<Byte>, j: nat)
    requires Legal(s, Write(h, src))
    ensures var o, t, e := Answer(s, Write(h, src)), After(s, Write(h, src)), s.handles[h];
            && e.file < |s.files| == |t.files| && Sane(s) && o.Put?
            && o.k == (if e.rw then Min(|src|, Max(0, Room(s, e.file) - e.at)) else 0)
            && h in t.handles && t.handles == s.handles[h := Handle(e.file, e.rw, e.at + o.k)]
            && (o.k == 0 ==> t.files == s.files)
            && (o.k > 0 ==> |t.files[e.file]| == Max(|s.files[e.file]|, e.at + o.k))
            && (o.k > 0 && j < |t.files[e.file]| ==>
                  t.files[e.file][j] == if e.at <= j < e.at + o.k then src[j - e.at]
                                        else if j < |s.files[e.file]| then s.files[e.file][j] else 0)
  {
    hide Sound, HeldByWrite, Extensible, WriteAt, Sum;
    var e := s.handles[h];
    var k := Taken(s, e, |src|);
    if k > 0 {
      WriteAtIndex(s.files[e.file], e.at, src[..k], 0);
      if j < Max(|s.files[e.file]|, e.at + k) { WriteAtIndex(s.files[e.file], e.at, src[..k], j); }
    } else {
      NoBytes(s.files[e.file], e.at);
      assert src[..0] == [];
      assert s.files[e.file := s.files[e.file]] == s.files;
    }
  }

  lemma NoBytes(f: seq<Byte>, at: nat)
    ensures WriteAt(f, at, []) == f
  {
  }

  /** A read is answered with the file's bytes from the handle's place on, which moves behind
      them: as many as asked for, as far as the file goes and has blocks. */
  lemma ReadAnswers(s: State, h: nat, n: nat)
    requires Legal(s, Read(h, n))
    ensures var o, t, e := Answer(s, Read(h, n)), After(s, Read(h, n)), s.handles[h];
            && e.file < |s.files| && |s.held| == |s.files| && o.Got?
            && |o.bytes| == Min(n, Max(0, Min(|s.files[e.file]|, s.held[e.file] * s.bs) - e.at))
            && (forall j :: 0 <= j < |o.bytes| ==>
                e.at + j < |s.files[e.file]| && o.bytes[j] == s.files[e.file][e.at + j])
            && t == s.(handles := s.handles[h := Handle(e.file, e.rw, e.at + |o.bytes|)])
  {
    hide Sound;
  }

  /** A seek is answered with the place where the handle is then, counted from the start, its
      own place or the end; or with 2^32 - 1 if it stays. */
  lemma SeekAnswers(s: State, h: nat, pos: int, whence: Whence)
    requires Legal(s, Seek(h, pos, whence))
    ensures var o, t, e := Answer(s, Seek(h, pos, whence)), After(s, Seek(h, pos, whence)), s.handles[h];
            && e.file < |s.files|
            && (whence == Other || (whence == Set && pos < 0) ==> o == At(0xFFFF_FFFF) && t == s)
            && (whence == Set && pos >= 0 ==> o == At(pos))
            && (whence == Cur ==> o.At? && o.pos == e.at + pos)
            && (whence == End ==> o.At? && o.pos == |s.files[e.file]| + pos)
            && (whence != Other && !(whence == Set && pos < 0) ==>
                  o.At? && t == s.(handles := s.handles[h := Handle(e.file, e.rw, o.pos)]))
  {
    hide Sound, Sum;
  }

  /** What is written through the handle that opening answered with comes back through it. */
  lemma OpenWriteRead(s: State, id: nat, src: seq<Byte>)
    requires Legal(s, Open(id, true)) && Numbered(s) && Answer(s, Open(id, true)).Opened?
    requires var h := Answer(s, Open(id, true)).h;
             Legal(After(s, Open(id, true)), Write(h, src))
    ensures var h := Answer(s, Open(id, true)).h;
            var k := Answer(After(s, Open(id, true)), Write(h, src)).k;
            var calls := [Open(id, true), Write(h, src), Seek(h, 0, Set), Read(h, k)];
            && k <= |src| && Lawful(s, calls) && Run(s, calls).1 == [Opened(h), Put(k), At(0), Got(src[..k])]
  {
    OpenAnswers(s, id, true);
    var c, h, t := Open(id, true), Answer(s, Open(id, true)).h, After(s, Open(id, true));
    LegalIsSane(s, c);
    assert BlockOf(t.bs, 0) == 1;
    ReadBack(t, h, src);
    WriteIs(t, h, src);
    hide After, Answer, Legal, Sane, Taken;
    var k := Taken(t, t.handles[h], |src|);
    var rest := [Write(h, src), Seek(h, 0, Set), Read(h, k)];
    var calls := [c] + rest;
    assert calls[0] == c && calls[1..] == rest;
    assert calls == [c, Write(h, src), Seek(h, 0, Set), Read(h, k)];
    assert Run(s, calls).1 == [Opened(h)] + [Put(k), At(0), Got(src[..k])];
  }

  // ----- names

  /** A lookup passes over an inode that the loaded bitset knows to be free. */
  predicate Passed(n: Names, i: int)
    requires 0 <= i < |n.used|
  {
    n.loaded && !n.used[i]
  }

  /** The inode that a lookup looks at last. */
  ghost predicate LastSeen(n: Names, j: int)
    requires |n.table| == |n.used|
  {
    2 <= j < |n.table| && !Passed(n, j) && forall i :: j < i < |n.table| ==> Passed(n, i)
  }

  /** It has a name, which compares with the one looked for as `order` says. */
  ghost predicate LastNamed(n: Names, name: string, order: int)
    requires |n.table| == |n.used|
  {
    exists j :: LastSeen(n, j) && n.table[j] != "" && order == Order(n.table[j], name)
  }

  ghost predicate Known(n: Names, name: string) {
    name != "" && |name| <= n.limit && exists j :: 2 <= j < |n.table| && n.table[j] == name
  }

  lemma {:induction false} MissedIs(n: Names, name: string, k: nat)
    requires k <= |n.table| == |n.used| && forall i :: k <= i < |n.table| ==> Passed(n, i)
    ensures var r := Missed(n.table, n.used, n.loaded, name, k);
            && (forall c :: r == NotFound(c) <==> LastNamed(n, name, c))
            && (!r.NotFound? ==> r == Denied(RangeError))
    decreases k
  {
    if k > 2 && Passed(n, k - 1) {
      MissedIs(n, name, k - 1);
    } else if k > 2 {
      assert LastSeen(n, k - 1);
      LastOnce(n, k - 1);
    }
  }

  lemma LastOnce(n: Names, j: int)
    requires |n.table| == |n.used| && LastSeen(n, j)
    ensures forall i :: LastSeen(n, i) ==> i == j
  {
  }

  /** The strings agree up to place `k`, where `a` ends or has the smaller character. */
  predicate Before(a: string, b: string, k: nat) {
    k <= |a| && k < |b| && a[..k] == b[..k] && (k == |a| || a[k] < b[k])
  }

  lemma BeforeStep(a: string, b: string, k: nat)
    requires a != "" && b != ""
    ensures Before(a, b, 0) <==> a[0] < b[0]
    ensures Before(a, b, k + 1) <==> a[0] == b[0] && Before(a[1..], b[1..], k)
  {
    if k < |a| && k < |b| {
      assert a[..k + 1] == [a[0]] + a[1..][..k] && b[..k + 1] == [b[0]] + b[1..][..k];
      assert a[..k + 1][1..] == a[1..][..k] && b[..k + 1][1..] == b[1..][..k];
      assert a[0] == a[..k + 1][0] && b[0] == b[..k + 1][0];
    }
  }

  /** Which of two strings comes first: at the first place where they differ, or where one ends. */
  lemma {:induction false} OrderMeans(a: string, b: string)
    ensures Order(a, b) in {-1, 0, 1}
    ensures Order(a, b) == 0 <==> a == b
    ensures Order(a, b) == -1 <==> exists k :: Before(a, b, k)
  {
    hide Before;
    if a == "" || b == "" {
      OrderEmpty(a, b);
    } else {
      OrderMeans(a[1..], b[1..]);
      BeforeStep(a, b, 0);
      if k: nat :| Before(a, b, k) {
        if k > 0 { BeforeStep(a, b, k - 1); }
      }
      if a[0] == b[0] {
        assert a == b <==> a[1..] == b[1..] by { assert a == [a[0]] + a[1..] && b == [b[0]] + b[1..]; }
        if k: nat :| Before(a[1..], b[1..], k) { BeforeStep(a, b, k); }
      }
    }
  }

  lemma OrderEmpty(a: string, b: string)
    requires a == "" || b == ""
    ensures (exists k :: Before(a, b, k)) <==> b != ""
    ensures Order(a, b) == if b != "" then -1 else if a != "" then 1 else 0
  {
    if b != "" { assert Before(a, b, 0) by { assert a[..0] == b[..0]; } }
  }

  lemma FindMeans(n: Names, name: string, id: int)
    requires Sound(n)
    ensures var r := Find(n, name);
            && (r.Found? && r.id == id <==>
                2 <= id < |n.table| && name != "" && |name| <= n.limit && n.table[id] == name)
            && (r.Found? <==> Known(n, name))
            && (forall c :: r == NotFound(c) <==>
                  name != "" && |name| <= n.limit && !Known(n, name) && LastNamed(n, name, c))
            && (r == Denied(ArgError) <==> name == "")
            && (r == Denied(RangeError) <==>
                  name != "" && (|name| > n.limit || (!Known(n, name) && forall c :: !LastNamed(n, name, c))))
            && (r.NotFound? ==> r.order != 0)
  {
    MissedIs(n, name, |n.table|);
    hide Missed, Order, LastSeen, LastNamed;
    var r := Find(n, name);
    if r.NotFound? { assert LastNamed(n, name, r.order); NeverEqual(n, name, r.order); }
  }

  lemma NeverEqual(n: Names, name: string, order: int)
    requires |n.table| == |n.used| && LastNamed(n, name, order) && forall j :: 2 <= j < |n.table| ==> n.table[j] != name
    ensures order != 0
  {
  }

  /** Looking up a name is answered with the one inode from 2 on that has it.  Otherwise it is
      an argument error for the empty name, a range error for one that is too long, and else
      what the last inode looked at makes of it: the order of its name and the one looked for,
      or a range error if there is none or it has no name. */
  lemma LookupAnswers(s: State, name: string, id: int)
    requires Legal(s, Lookup(name))
    ensures var o, n := Answer(s, Lookup(name)), s.names;
            && |n.table| == |n.used| && After(s, Lookup(name)) == s
            && (o.Named? && o.id == id <==>
                2 <= id < |n.table| && name != "" && |name| <= n.limit && n.table[id] == name)
            && (o.Named? <==> Known(n, name))
            && (forall c :: o == Missing(c) <==>
                  name != "" && |name| <= n.limit && !Known(n, name) && LastNamed(n, name, c))
            && (o == Failed(ArgError) <==> name == "")
            && (o == Failed(RangeError) <==>
                  name != "" && (|name| > n.limit || (!Known(n, name) && forall c :: !LastNamed(n, name, c))))
            && (o.Missing? ==> o.order != 0)
  {
    FindMeans(s.names, name, id);
    hide Find, LastNamed, Known;
  }

  /** Creating a name is answered with the inode that has it afterwards: the one that had it, or
      else the free one with the lowest id, which is in use then. */
  lemma CreateAnswers(s: State, name: string, id: nat)
    requires Legal(s, Create(name))
    ensures var o, t, n := Answer(s, Create(name)), After(s, Create(name)), s.names;
            var found := Known(n, name);
            && t == s.(names := n.(table := t.names.table, used := t.names.used))
            && |t.names.table| == |n.table| == |t.names.used| == |n.used|
            && (o == Named(id) ==> 2 <= id < |n.table| && t.names.table[id] == name && t.names.used[id])
            && (found ==> o.Named? && t == s)
            && (!found && o == Named(id) ==>
                  && !n.used[id] && (forall j :: 2 <= j < id ==> n.used[j])
                  && (forall j :: 0 <= j < |n.table| && j != id ==>
                        t.names.table[j] == n.table[j] && t.names.used[j] == n.used[j]))
            && (o == Failed(FSFull) <==> !found && forall j :: 2 <= j < |n.used| ==> n.used[j])
            && (o == Failed(FSFull) ==> t == s)
            && (o == Failed(RangeError) <==> |name| > n.limit && exists j :: 2 <= j < |n.used| && !n.used[j])
            && (o == Failed(RangeError) ==>
                  t.names.table == n.table
                  && exists j :: 2 <= j < |n.used| && !n.used[j] && t.names.used == n.used[j := true]
                                 && forall i :: 2 <= i < j ==> n.used[i])
            && (o.Named? || o == Failed(FSFull) || o == Failed(RangeError))
  {
    var n := s.names;
    assert Unique(n.table) && |n.table| == |n.used|;
    var j := FreeFrom(n.used, 2);
    if j != 0 { assert !n.used[j] && n.used[j := true] == n.used[j := true]; }
    hide Sane, Missed, Order, FreeFrom, Scan;
    if Holder(n, name) != 0 { assert n.table[Holder(n, name)] == name; }
    assert forall i :: 2 <= i < |n.table| && n.table[i] == name && name != "" ==> n.used[i];
  }

  /** A name that was created is looked up at the same inode. */
  lemma CreateLookup(s: State, name: string)
    requires Legal(s, Create(name)) && name != "" && Answer(s, Create(name)).Named?
    ensures var id := Answer(s, Create(name)).id;
            var calls := [Create(name), Lookup(name)];
            Lawful(s, calls) && Run(s, calls).1 == [Named(id), Named(id)]
  {
    var c, id := Create(name), Answer(s, Create(name)).id;
    CreateAnswers(s, name, id);
    var t := After(s, c);
    SaneAfter(s, c);
    LegalIsSane(s, c);
    assert Legal(t, Lookup(name));
    LookupAnswers(t, name, id);
    LookupSane(t, name);
    RunTwo(s, c, Lookup(name));
  }

  lemma LookupSane(s: State, name: string)
    requires Legal(s, Lookup(name))
    ensures Sane(s)
  {
  }

  lemma RunTwo(s: State, c0: Call, c1: Call)
    requires Legal(s, c0) && Legal(After(s, c0), c1)
    ensures Lawful(s, [c0, c1]) && Run(s, [c0, c1]).1 == [Answer(s, c0), Answer(After(s, c0), c1)]
  {
    hide Legal, After, Answer, Sane;
    LegalIsSane(s, c0);
    RunMore(s, [], c0);
    assert [] + [c0] == [c0];
    RunMore(s, [c0], c1);
    assert [c0] + [c1] == [c0, c1];
  }

  /** Renaming is refused exactly for an inode that is none, or for a name that is too long and
      not the inode's already; otherwise that inode has the name, and no other changed. */
  lemma RenameAnswers(s: State, id: nat, name: string)
    requires Legal(s, Rename(id, name))
    ensures var o, t, n := Answer(s, Rename(id, name)), After(s, Rename(id, name)), s.names;
            && (o == Failed(ArgError) <==> id == 0 || id >= |n.table|)
            && (o == Failed(RangeError) <==> 1 <= id < |n.table| && |name| > n.limit && n.table[id] != name)
            && (o == Done <==> 1 <= id < |n.table| && (|name| <= n.limit || n.table[id] == name))
            && (o != Done ==> t == s)
            && (o == Done ==>
                  && |t.names.table| == |n.table| && t.names.table[id] == name
                  && (forall j :: 0 <= j < |n.table| && j != id ==> t.names.table[j] == n.table[j])
                  && t == s.(names := n.(table := t.names.table)))
  {
    hide Sane, Unique;
  }
}
