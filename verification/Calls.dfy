/** What a client of an open container sees: byte strings, how many blocks each holds, names,
    numbered handles with cursors, and calls.  Every call has one answer and one effect;
    which blocks hold what, and what is cached, is not visible. */
module Calls {
  import opened Arithmetic
  import opened Bytes
  import opened BlockStore
  import opened ReturnCodes
  import opened Opened
  import opened Quota
  import opened Nodedev
  import opened Naming
  import Catalog
  import Layout
  import Storage

  datatype Handle = Handle(file: nat, rw: bool, at: nat)

  /** `held` counts the blocks each file has taken out of the container's `blocks`, before
      which there are `base` bytes. */
  datatype State = State(base: nat, bs: nat, blocks: nat, files: seq<seq<Byte>>, held: seq<nat>,
                         handles: map<nat, Handle>, next: nat, names: Names)

  datatype Call =
    | Open(id: nat, write: bool)
    | Close(h: nat)
    | Unlink(id: nat)
    | AddBlocks(count: nat)
    | Seek(h: nat, pos: int, whence: Whence)
    | Read(h: nat, n: nat)
    | Write(h: nat, src: seq<Byte>)
    | Truncate(h: nat, len: nat)
    | Create(name: string)
    | Rename(id: nat, name: string)
    | Lookup(name: string)
    | SetCache(on: bool, load: bool)
    | LoadCaches

  datatype Outcome =
    | Done | Failed(rc: Rc) | Opened(h: nat) | At(pos: nat) | Got(bytes: seq<Byte>) | Put(k: nat) | Named(id: nat)
    | Missing(order: int)

  function Looked(r: Catalog.Lookup): Outcome {
    match r
    case Found(id) => Named(id)
    case NotFound(order) => Missing(order)
    case Denied(rc) => Failed(rc)
  }

  function Result(rc: Rc): Outcome { if rc == OK then Done else Failed(rc) }

  /** What is true of every state a client can meet; above all, no more blocks are held
      than there are. */
  ghost predicate Sane(s: State) {
    && s.bs > 0 && |s.held| == |s.files| && Sum(s.held) <= s.blocks
    && (forall h :: h in s.handles ==> s.handles[h].file < |s.files|)
    && Sound(s.names) && |s.names.table| == |s.files|
  }

  /** A freshly formatted container: every file empty and unnamed, nothing open. */
  function Fresh(o: Layout.Options, known: set<string>): State {
    var n := o.inodeCount + 1;
    State(Layout.BlocksAt(o), o.blockSize, o.blockCount, seq(n, _ => []), seq(n, _ => 0), map[], 1,
          Names(seq(n, _ => ""), seq(n, _ => false), true, false, o.nameLength, known))
  }

  /** Some handle of file `id`, or some writing one, is open. */
  predicate Busy(s: State, id: nat, write: bool) {
    exists h :: h in s.handles && s.handles[h].file == id && (write ==> s.handles[h].rw)
  }

  /** The bytes of `f` from `at` on, at most `n` of them. */
  function Slice(f: seq<Byte>, at: nat, n: nat): (r: seq<Byte>)
    ensures |r| == Min(n, Max(0, |f| - at))
  {
    if at >= |f| then [] else f[at..Min(at + n, |f|)]
  }

  /** The bytes of a file that can be read: a failed truncation may have left the file
      longer than the blocks it holds. */
  ghost function Readable(s: State, i: nat): seq<Byte>
    requires Sane(s) && i < |s.files|
  {
    s.files[i][..Min(|s.files[i]|, s.held[i] * s.bs)]
  }

  /** The first `len` bytes of `f`, of which a whole last block is cleared. */
  function Cut(f: seq<Byte>, len: nat, bs: nat): (r: seq<Byte>)
    requires bs > 0 && 0 < len <= |f|
    ensures |r| == len
  {
    if len % bs != 0 || len < bs then f[..len] else f[..len - bs] + Zeros(bs)
  }

  /** Number of the block, counting from 1, that byte `pos` of a file is in. */
  function BlockOf(bs: nat, pos: nat): nat
    requires bs > 0
  {
    1 + pos / bs
  }

  /** The most blocks that file `i` can have: its own and all that are free. */
  ghost function Reach(s: State, i: nat): (r: nat)
    requires Sane(s) && i < |s.files|
    ensures s.held[i] <= r <= s.blocks
  {
    SumUpdate(s.held, i, 0);
    s.held[i] + (s.blocks - Sum(s.held))
  }

  /** Where a seek aims. */
  function Target(s: State, e: Handle, pos: int, whence: Whence): int
    requires e.file < |s.files|
  {
    pos + match whence case End => |s.files[e.file]| case Cur => e.at case _ => 0
  }

  predicate NoSeek(pos: int, whence: Whence) { whence.Other? || (whence.Set? && pos < 0) }

  /** A cursor may go to `at`: positions are 32 bits wide, and are mapped by 16-bit block numbers. */
  predicate Mappable(bs: nat, at: int)
    requires bs > 0
  {
    0 <= at < 0x1_0000_0000 && BlockOf(bs, at) < 0x1_0000
  }

  /** How many of `n` bytes a write takes: as many as fit the file's own and the free blocks. */
  ghost function Taken(s: State, e: Handle, n: nat): (k: nat)
    requires Sane(s) && e.file < |s.files|
    ensures k <= n
  {
    if e.rw then Min(n, Max(0, Reach(s, e.file) * s.bs - e.at)) else 0
  }

  /** The blocks the file has after that.  A write for which even all free blocks do not
      do takes them nevertheless, unless the container is too small anyway. */
  ghost function HeldByWrite(s: State, e: Handle, n: nat): nat
    requires Sane(s) && e.file < |s.files|
  {
    if e.rw then HeldFor(s.bs, s.blocks, s.held[e.file], Reach(s, e.file), e.at, n) else s.held[e.file]
  }

  /** The same in numbers: a file of `held` blocks that can have `reach` of the container's
      `blocks`, written with `n` bytes at `at`. */
  function HeldFor(bs: nat, blocks: nat, held: nat, reach: nat, at: nat, n: nat): nat
    requires bs > 0
  {
    var k := Min(n, Max(0, reach * bs - at));
    if n == 0 || BlockOf(bs, at) > blocks then held
    else if k == 0 then reach
    else Max(held, BlockOf(bs, at + k - 1))
  }

  /** How a truncation to another size ends. */
  ghost function TruncateRc(s: State, e: Handle, len: nat): Rc
    requires Sane(s) && e.file < |s.files|
  {
    if !e.rw then AccessError
    else if len == |s.files[e.file]| || len == 0 then OK
    else if BlockOf(s.bs, len - 1) > s.blocks then RangeError
    else if BlockOf(s.bs, len - 1) > Reach(s, e.file) then FSFull
    else OK
  }

  /** A file truncated to `len` bytes: the size changes even if that fails. */
  function Truncated(f: seq<Byte>, len: nat, bs: nat, rc: Rc): (r: seq<Byte>)
    requires bs > 0
    ensures |r| == len
  {
    if rc == OK && 0 < len < |f| then Cut(f, len, bs) else Resize(f, len)
  }

  /** The blocks a file has after it was truncated to another size. */
  ghost function HeldByTruncate(s: State, i: nat, len: nat): nat
    requires Sane(s) && i < |s.files|
  {
    if len == 0 || BlockOf(s.bs, len - 1) > s.blocks then s.held[i]
    else if BlockOf(s.bs, len - 1) > Reach(s, i) then Reach(s, i)
    else if len < |s.files[i]| then BlockOf(s.bs, len - 1)
    else Max(s.held[i], BlockOf(s.bs, len - 1))
  }

  /** File `i` may be extended to `bc` blocks, or as far as blocks last, without outgrowing the
      cached list of its blocks. */
  ghost predicate Listable(s: State, i: nat, bc: nat)
    requires Sane(s) && i < |s.files|
  {
    bc <= Storage.LONGEST || bc > s.blocks || Reach(s, i) <= Storage.LONGEST
  }

  /** And so may it be for every byte of a write. */
  ghost predicate Extensible(s: State, e: Handle, n: nat)
    requires Sane(s) && e.file < |s.files|
  {
    e.rw && n > 0 ==>
      || BlockOf(s.bs, e.at) > s.blocks || BlockOf(s.bs, e.at + n - 1) <= Storage.LONGEST
      || Reach(s, e.file) <= Storage.LONGEST
  }

  /** The truncations that keep the engine in order.  To 0 only a file without blocks may be
      truncated; and when a file shrinks, the last block to keep must be its first, or have
      a successor. */
  ghost predicate Cuttable(s: State, e: Handle, len: nat)
    requires Sane(s) && e.file < |s.files|
  {
    var i := e.file;
    && len < 0x1_0000_0000 && (len > 0 ==> Mappable(s.bs, len - 1))
    && (e.rw && len > 0 && len != |s.files[i]| ==> Listable(s, i, BlockOf(s.bs, len - 1)))
    && (e.rw && len < |s.files[i]| ==>
          if len == 0 then s.held[i] == 0
          else var bc := BlockOf(s.bs, len - 1); bc == 1 || bc < s.held[i] || bc > Reach(s, i))
  }

  /** What a caller must see to: calls name opened handles, one inode has fewer than 65535
      of them, cursors stay mappable, no file outgrows the cached list of its blocks,
      truncations are within their limits, and the container ends within 16-bit ids and
      32-bit offsets.  Names are known ones, an inode is deleted while it has a name or the name
      cache is off, and no inode is created that a handle is on already. */
  ghost predicate Legal(s: State, c: Call) {
    Sane(s) &&
    match c
    case Open(id, _) => |On(s.handles, id)| < 0xFFFF
    case Unlink(id) =>
      1 <= id < |s.files| && !Busy(s, id, false) ==> s.names.table[id] != "" || !s.names.cached
    case AddBlocks(count) =>
      s.blocks + count <= Storage.MAX_BLOCKS && Layout.EndOf(s.base, s.bs, s.blocks + count) < 0x1_0000_0000
    case Close(h) => h in s.handles
    case Seek(h, pos, whence) =>
      && h in s.handles && -0x8000_0000_0000_0000 <= pos < 0x8000_0000_0000_0000
      && (NoSeek(pos, whence) || Mappable(s.bs, Target(s, s.handles[h], pos, whence)))
    case Read(h, _) => h in s.handles
    case Write(h, src) => h in s.handles && Extensible(s, s.handles[h], |src|)
    case Truncate(h, len) => h in s.handles && Cuttable(s, s.handles[h], len)
    case Create(name) =>
      && name in s.names.known + {""} && (name == "" ==> !s.names.cached)
      && (Holder(s.names, name) == 0 && Spare(s.names) != 0 ==> !Busy(s, Spare(s.names), false))
    case Rename(id, name) => Givable(s.names, id, name)
    case Lookup(name) => name in s.names.known + {""}
    case SetCache(_, _) => true
    case LoadCaches => true
  }

  /** What the call returns. */
  ghost function Answer(s: State, c: Call): Outcome
    requires Legal(s, c)
  {
    match c
    case Open(id, write) =>
      if !(1 <= id < |s.files|) then Failed(ArgError)
      else if write && Busy(s, id, true) then Failed(AccessError) else Opened(s.next)
    case Unlink(id) =>
      if !(1 <= id < |s.files|) then Failed(ArgError)
      else if Busy(s, id, false) then Failed(AccessError) else Done
    case AddBlocks(count) => if count == 0 then Failed(ArgError) else Done
    case Close(h) => Done
    case Seek(h, pos, whence) =>
      At(if NoSeek(pos, whence) then SIZE_T_ERROR else Target(s, s.handles[h], pos, whence))
    case Read(h, n) => Got(Slice(Readable(s, s.handles[h].file), s.handles[h].at, n))
    case Write(h, src) => Put(Taken(s, s.handles[h], |src|))
    case Truncate(h, len) => Result(TruncateRc(s, s.handles[h], len))
    case Create(name) => Looked(Naming.Create(s.names, name))
    case Rename(id, name) => Result(RenameRc(s.names, id, name))
    case Lookup(name) => Looked(Find(s.names, name))
    case SetCache(_, _) => Done
    case LoadCaches => Done
  }

  /** The state after it. */
  ghost function After(s: State, c: Call): State
    requires Legal(s, c)
  {
    var o := Answer(s, c);
    match c
    case Open(id, write) =>
      if o.Failed? then s else s.(handles := s.handles[s.next := Handle(id, write, 0)], next := s.next + 1)
    case Close(h) => s.(handles := s.handles - {h})
    case Unlink(id) => if o.Failed? then s else Unlinked(s, id)
    case AddBlocks(count) => s.(blocks := s.blocks + count)
    case Seek(h, pos, whence) => if NoSeek(pos, whence) then s else Moved(s, h, o.pos)
    case Read(h, n) => Moved(s, h, s.handles[h].at + |o.bytes|)
    case Write(h, src) => Moved(AfterWrite(s, s.handles[h], src), h, s.handles[h].at + o.k)
    case Truncate(h, len) => AfterTruncate(s, s.handles[h], len)
    case Create(name) => s.(names := AfterCreate(s.names, name))
    case Rename(id, name) => s.(names := AfterRename(s.names, id, name))
    case Lookup(_) => s
    case SetCache(on, _) => s.(names := s.names.(cached := on))
    case LoadCaches => s.(names := s.names.(cached := true, loaded := true))
  }

  ghost function Unlinked(s: State, id: nat): State
    requires Sane(s) && 1 <= id < |s.files|
  {
    s.(files := s.files[id := []], held := s.held[id := 0], names := Released(s.names, id))
  }

  function Moved(s: State, h: nat, at: nat): State
    requires h in s.handles
  {
    s.(handles := s.handles[h := s.handles[h].(at := at)])
  }

  ghost function AfterWrite(s: State, e: Handle, src: seq<Byte>): State
    requires Sane(s) && e.file < |s.files|
  {
    s.(files := s.files[e.file := WriteAt(s.files[e.file], e.at, src[..Taken(s, e, |src|)])],
       held := s.held[e.file := HeldByWrite(s, e, |src|)])
  }

  ghost function AfterTruncate(s: State, e: Handle, len: nat): State
    requires Sane(s) && e.file < |s.files|
  {
    if !e.rw || len == |s.files[e.file]| then s
    else s.(files := s.files[e.file := Truncated(s.files[e.file], len, s.bs, TruncateRc(s, e, len))],
            held := s.held[e.file := HeldByTruncate(s, e.file, len)])
  }

  /** What a lawful call through a handle may rely on. */
  lemma HandleThere(s: State, c: Call)
    requires Legal(s, c) && (c.Read? || c.Write? || c.Seek? || c.Truncate?)
    ensures Sane(s) && c.h in s.handles && s.handles[c.h].file < |s.files|
    ensures c.Write? ==> Extensible(s, s.handles[c.h], |c.src|)
    ensures c.Truncate? ==> Cuttable(s, s.handles[c.h], c.len)
  {
  }

  lemma WriteIs(s: State, h: nat, src: seq<Byte>)
    requires Legal(s, Write(h, src))
    ensures var e := s.handles[h];
            && e.file < |s.files| && Answer(s, Write(h, src)) == Put(Taken(s, e, |src|))
            && After(s, Write(h, src)) == Moved(AfterWrite(s, e, src), h, e.at + Taken(s, e, |src|))
            && AfterWrite(s, e, src).handles == s.handles && AfterWrite(s, e, src).bs == s.bs
  {
  }

  lemma ReadIs(s: State, h: nat, n: nat)
    requires Sane(s) && h in s.handles
    ensures Legal(s, Read(h, n)) && s.handles[h].file < |s.files|
    ensures var got := Slice(Readable(s, s.handles[h].file), s.handles[h].at, n);
            Answer(s, Read(h, n)) == Got(got) && After(s, Read(h, n)) == Moved(s, h, s.handles[h].at + |got|)
  {
  }

  /** The blocks held never outgrow the container: whatever a call does, the state stays sane. */
  lemma SaneAfter(s: State, c: Call)
    requires Legal(s, c)
    ensures Sane(After(s, c))
  {
    hide Sound, Givable, Sum, WriteAt, HeldFor, Taken;
    match c {
      case Unlink(id) =>
        if 1 <= id < |s.files| {
          SumUpdate(s.held, id, 0);
          SoundReleased(s.names, id);
        }
      case Create(name) => SoundCreate(s.names, name);
      case Rename(id, name) => SoundRename(s.names, id, name);
      case SetCache(on, _) => SoundCached(s.names, on, s.names.loaded);
      case LoadCaches => SoundCached(s.names, true, true);
      case Write(h, src) =>
        var e := s.handles[h];
        WriteInReach(s, e, |src|);
        SumUpdate(s.held, e.file, HeldByWrite(s, e, |src|));
      case Truncate(h, len) =>
        var e := s.handles[h];
        SumUpdate(s.held, e.file, HeldByTruncate(s, e.file, len));
      case _ =>
    }
  }

  lemma WriteInReach(s: State, e: Handle, n: nat)
    requires Sane(s) && e.file < |s.files|
    ensures HeldByWrite(s, e, n) <= Reach(s, e.file)
  {
    var k, m := Taken(s, e, n), Reach(s, e.file);
    if k > 0 {
      BlockInside(s.bs, e.at + k - 1, m);
    }
  }

  /** A position below `m` blocks is in one of them. */
  lemma BlockInside(bs: nat, pos: nat, m: nat)
    requires bs > 0
    ensures BlockOf(bs, pos) <= m <==> pos < m * bs
  {
    DivMod(pos, bs);
    hide BlockIndex, BlockOffset;
    if pos < m * bs {
      NearBlocks(pos, m, bs);
    } else {
      Offset(pos, bs);
      MulOrder(BlockIndex(pos, bs) + 1, m, bs);
      assert (BlockIndex(pos, bs) + 1) * bs == BlockIndex(pos, bs) * bs + bs;
    }
  }

  /** Each call may be made in the state that the ones before it lead to. */
  ghost predicate Lawful(s: State, calls: seq<Call>)
    decreases |calls|
  {
    Sane(s) && (calls == [] || (Legal(s, calls[0]) && Lawful(After(s, calls[0]), calls[1..])))
  }

  /** The state after a run, and the answers its calls got. */
  ghost function Run(s: State, calls: seq<Call>): (State, seq<Outcome>)
    requires Lawful(s, calls)
    decreases |calls|
  {
    if calls == [] then (s, [])
    else
      var rest := Run(After(s, calls[0]), calls[1..]);
      (rest.0, [Answer(s, calls[0])] + rest.1)
  }

  lemma RunNone(s: State, calls: seq<Call>)
    requires Lawful(s, calls)
    ensures Lawful(s, calls[..0]) && Run(s, calls[..0]) == (s, [])
  {
    assert calls[..0] == [];
  }

  /** A run continues with one more call. */
  lemma {:induction false} RunMore(s: State, calls: seq<Call>, c: Call)
    requires Lawful(s, calls)
    ensures Legal(Run(s, calls).0, c) ==>
              && Lawful(s, calls + [c])
              && Run(s, calls + [c]) == (After(Run(s, calls).0, c), Run(s, calls).1 + [Answer(Run(s, calls).0, c)])
    decreases |calls|
  {
    hide After, Answer, Legal, Sane;
    var more := calls + [c];
    if calls == [] {
      assert more[0] == c && more[1..] == [];
      if Legal(s, c) {
        SaneAfter(s, c);
        assert Run(After(s, c), more[1..]) == (After(s, c), []);
        assert [Answer(s, c)] + [] == Run(s, calls).1 + [Answer(s, c)];
      }
    } else {
      RunMore(After(s, calls[0]), calls[1..], c);
      assert more[0] == calls[0] && more[1..] == calls[1..] + [c];
      var first, rest := [Answer(s, calls[0])], Run(After(s, calls[0]), calls[1..]);
      if Legal(rest.0, c) {
        assert (first + rest.1) + [Answer(rest.0, c)] == first + (rest.1 + [Answer(rest.0, c)]);
      }
    }
  }

  /** The first `k` calls of a lawful run are one, after which the next call may be made. */
  lemma {:induction false} LawfulNext(s: State, calls: seq<Call>, k: nat)
    requires Lawful(s, calls) && k < |calls|
    ensures Lawful(s, calls[..k]) && Legal(Run(s, calls[..k]).0, calls[k])
    decreases k
  {
    hide After, Answer, Legal, Sane;
    if k == 0 {
      assert calls[..0] == [];
    } else {
      LawfulNext(After(s, calls[0]), calls[1..], k - 1);
      assert calls[..k][1..] == calls[1..][..k - 1];
    }
  }

  /** Entry 0, which stands for no inode, is never used. */
  ghost predicate Rooted(s: State) {
    && |s.files| == |s.held| > 0 && s.files[0] == [] && s.held[0] == 0
    && (forall h :: h in s.handles ==> s.handles[h].file >= 1)
    && |s.names.used| > 0 && !s.names.used[0]
  }

  lemma RootedAfter(s: State, c: Call)
    requires Legal(s, c) && Rooted(s)
    ensures Rooted(After(s, c))
  {
    hide Givable, Sum, WriteAt, HeldFor, Taken, Cut, Listable, Catalog.Unique;
    match c {
      case Write(h, _) => assert s.handles[h].file >= 1;
      case Truncate(h, _) => assert s.handles[h].file >= 1;
      case Seek(h, _, _) => assert s.handles[h].file >= 1;
      case Read(h, _) => assert s.handles[h].file >= 1;
      case _ =>
    }
  }

  lemma {:induction false} RootedRun(s: State, calls: seq<Call>)
    requires Lawful(s, calls) && Rooted(s)
    ensures Rooted(Run(s, calls).0)
    decreases |calls|
  {
    hide After, Answer, Legal, Sane, Rooted;
    if calls == [] {
    } else {
      RootedAfter(s, calls[0]);
      RootedRun(After(s, calls[0]), calls[1..]);
    }
  }

  /** The state in which a container is found when it is opened again. */
  function Again(s: State): State {
    s.(handles := map[], next := 1, names := s.names.(cached := true, loaded := false))
  }

  // ----- the handles and the table of the opened-inode list

  /** The handles on inode `id`. */
  function On(hs: map<nat, Handle>, id: nat): set<nat> {
    set h | h in hs && hs[h].file == id
  }

  function ReadersOf(hs: map<nat, Handle>, id: nat): set<nat> {
    set h | h in hs && hs[h].file == id && !hs[h].rw
  }

  /** Every handle is on an open file, a writing one as that file's writer. */
  ghost predicate Listed(hs: map<nat, Handle>, t: Table) {
    forall h :: h in hs ==> h >= 1 && hs[h].file in t && (hs[h].rw ==> t[hs[h].file].writer == h)
  }

  ghost predicate WritersHeld(hs: map<nat, Handle>, t: Table) {
    forall id :: id in t && t[id].writer != 0 ==>
      t[id].writer in hs && hs[t[id].writer].rw && hs[t[id].writer].file == id
  }

  ghost predicate ReadersHeld(hs: map<nat, Handle>, t: Table) {
    forall id :: id in t ==> Total(t[id]) > 0 && t[id].readers == |ReadersOf(hs, id)|
  }

  /** The list's table counts exactly these handles. */
  ghost predicate Counts(hs: map<nat, Handle>, t: Table) {
    Listed(hs, t) && WritersHeld(hs, t) && ReadersHeld(hs, t)
  }

  lemma OpenIsBusy(s: State, t: Table, id: nat)
    requires Counts(s.handles, t)
    ensures Busy(s, id, false) <==> id in t
    ensures Busy(s, id, true) <==> id in t && t[id].writer != 0
  {
    if id in t {
      if t[id].readers > 0 {
        assert ReadersOf(s.handles, id) != {};
        var h :| h in ReadersOf(s.handles, id);
        assert h in s.handles && s.handles[h].file == id;
      } else {
        assert t[id].writer in s.handles;
      }
      if t[id].writer != 0 { assert s.handles[t[id].writer].rw; }
    }
  }

  lemma NothingOpen(hs: map<nat, Handle>, t: Table)
    requires Counts(hs, t) && hs == map[]
    ensures t == map[]
  {
    assert forall id :: ReadersOf(hs, id) == {};
  }

  lemma CountsOf(hs: map<nat, Handle>, t: Table, id: nat)
    requires Counts(hs, t) && id in t
    ensures Total(t[id]) == |On(hs, id)|
  {
    var readers, writers := ReadersOf(hs, id), if t[id].writer == 0 then {} else {t[id].writer};
    assert On(hs, id) == readers + writers;
    assert readers !! writers;
    assert |readers + writers| == |readers| + |writers|;
  }

  lemma {:induction false} Subset(a: set<nat>, b: set<nat>)
    requires a <= b
    ensures |a| <= |b|
  {
    if a == {} {
    } else {
      var x :| x in a;
      Subset(a - {x}, b - {x});
    }
  }

  lemma ReadersOpen(hs: map<nat, Handle>, h: nat, id: nat, write: bool, j: nat)
    requires h !in hs
    ensures |ReadersOf(hs[h := Handle(id, write, 0)], j)| == |ReadersOf(hs, j)| + if j == id && !write then 1 else 0
  {
    assert ReadersOf(hs[h := Handle(id, write, 0)], j)
           == if j == id && !write then ReadersOf(hs, j) + {h} else ReadersOf(hs, j);
  }

  lemma ReadersClose(hs: map<nat, Handle>, h: nat, j: nat)
    requires h in hs
    ensures |ReadersOf(hs - {h}, j)| == |ReadersOf(hs, j)| - if j == hs[h].file && !hs[h].rw then 1 else 0
  {
    assert ReadersOf(hs - {h}, j) == if j == hs[h].file && !hs[h].rw then ReadersOf(hs, j) - {h} else ReadersOf(hs, j);
  }

  lemma CountsOpen(hs: map<nat, Handle>, t: Table, h: nat, id: nat, write: bool)
    requires Counts(hs, t) && h !in hs && h >= 1
    requires !(write && id in t && t[id].writer != 0)
    ensures Counts(hs[h := Handle(id, write, 0)], AfterOpen(t, id, if write then h else 0))
  {
    hide ReadersOf;
    var hs', t' := hs[h := Handle(id, write, 0)], AfterOpen(t, id, if write then h else 0);
    if id !in t { NoReaders(hs, t, id); }
    forall j | j in t' ensures t'[j].readers == |ReadersOf(hs', j)| && Total(t'[j]) > 0 {
      ReadersOpen(hs, h, id, write, j);
    }
    OpenListed(hs, t, h, id, write);
  }

  lemma CountsMove(hs: map<nat, Handle>, t: Table, h: nat, at: nat)
    requires Counts(hs, t) && h in hs
    ensures Counts(hs[h := hs[h].(at := at)], t)
  {
    var hs' := hs[h := hs[h].(at := at)];
    forall id | id in t ensures |ReadersOf(hs', id)| == |ReadersOf(hs, id)| {
      assert ReadersOf(hs', id) == ReadersOf(hs, id);
    }
  }

  lemma NoReaders(hs: map<nat, Handle>, t: Table, id: nat)
    requires Listed(hs, t) && id !in t
    ensures |ReadersOf(hs, id)| == 0
  {
    assert ReadersOf(hs, id) == {};
  }

  lemma OpenListed(hs: map<nat, Handle>, t: Table, h: nat, id: nat, write: bool)
    requires Listed(hs, t) && WritersHeld(hs, t) && h !in hs && h >= 1
    requires !(write && id in t && t[id].writer != 0)
    ensures Listed(hs[h := Handle(id, write, 0)], AfterOpen(t, id, if write then h else 0))
    ensures WritersHeld(hs[h := Handle(id, write, 0)], AfterOpen(t, id, if write then h else 0))
  {
  }

  lemma CountsClose(hs: map<nat, Handle>, t: Table, h: nat)
    requires Counts(hs, t) && h in hs && Total(t[hs[h].file]) < 0x1_0000
    ensures var r := t[hs[h].file]; r.readers > 0 || (r.writer != 0 && r.writer == h)
    ensures Counts(hs - {h}, AfterClose(t, hs[h].file, h))
  {
    var id := hs[h].file;
    CloseReleases(hs, t, h);
    hide ReadersOf, Listed, WritersHeld;
    CountWraps(Total(t[id]));
    var hs', t' := hs - {h}, AfterClose(t, id, h);
    forall j | j in t' ensures t'[j].readers == |ReadersOf(hs', j)| && Total(t'[j]) > 0 {
      ReadersClose(hs, h, j);
    }
    CloseListed(hs, t, h);
  }

  lemma CloseListed(hs: map<nat, Handle>, t: Table, h: nat)
    requires Counts(hs, t) && h in hs && hs[h].file in t && Total(t[hs[h].file]) < 0x1_0000
    ensures var r := t[hs[h].file]; r.readers > 0 || (r.writer != 0 && r.writer == h)
    ensures Listed(hs - {h}, AfterClose(t, hs[h].file, h)) && WritersHeld(hs - {h}, AfterClose(t, hs[h].file, h))
  {
    var id := hs[h].file;
    CloseReleases(hs, t, h);
    hide ReadersOf, ReadersHeld;
    CountWraps(Total(t[id]));
    var hs', t' := hs - {h}, AfterClose(t, id, h);
    forall k | k in hs' ensures k >= 1 && hs'[k].file in t' && (hs'[k].rw ==> t'[hs'[k].file].writer == k) {
      if hs'[k].file == id {
        TwoHandles(hs, t, h, k);
      }
    }
  }

  lemma CloseReleases(hs: map<nat, Handle>, t: Table, h: nat)
    requires Counts(hs, t) && h in hs
    ensures var r := t[hs[h].file];
            if hs[h].rw then r.writer == h && h != 0 else r.readers > 0 && r.writer != h
  {
    if !hs[h].rw {
      assert h in ReadersOf(hs, hs[h].file);
    }
  }

  lemma TwoHandles(hs: map<nat, Handle>, t: Table, h: nat, k: nat)
    requires Counts(hs, t) && h in hs && k in hs && hs[h].file == hs[k].file && h != k
    ensures Total(t[hs[h].file]) >= 2
  {
    var id := hs[h].file;
    Subset({h, k}, ReadersOf(hs, id) + if t[id].writer == 0 then {} else {t[id].writer});
  }
}
