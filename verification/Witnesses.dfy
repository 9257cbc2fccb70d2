/** Inputs on which the code does not do what it should, each reached by calls that any
    client may make on a freshly formatted container. */
module Witnesses {
  import opened Bytes
  import opened BlockStore
  import opened StoreSteps
  import opened ReturnCodes
  import opened Quota
  import opened Opened
  import opened Storage
  import opened Nodedev
  import opened Files
  import opened Session
  import opened Naming
  import opened Catalog
  import opened HashList
  import opened Calls
  import C = Client
  import Devices
  import Layout

  /** The smallest blocks that formatting accepts. */
  const SMALL := Layout.Options(32, 3, 3, 8, [0])

  /** Large blocks, and nearly as many as there may be. */
  const LARGE := Layout.Options(65530, 65000, 2, 1, [0])

  const LARGER := Layout.Options(65530, 65534, 2, 1, [0])

  function Sevens(): seq<Byte> { seq(48, _ => 7) }

  /** One block and a half written to an empty file. */
  function OneAndAHalf(): seq<Call> { [Open(2, true), Write(1, Sevens())] }

  function Tiny(known: set<string>): State { Fresh(SMALL, known) }

  lemma SmallAccepted()
    ensures Layout.Typed(SMALL) && Layout.Accepted(SMALL) && Layout.Eof(SMALL) < 0x1_0000_0000
  {
  }

  lemma {:induction false} NothingHeld(n: nat)
    ensures Sum(seq(n, _ => 0)) == 0
  {
    if n > 0 {
      NothingHeld(n - 1);
      assert seq(n, _ => 0)[..n - 1] == seq(n - 1, _ => 0);
    }
  }

  lemma TinySane(known: set<string>)
    ensures Sane(Tiny(known)) && Sum(Tiny(known).held) == 0
  {
    NothingHeld(4);
  }

  /** One file has 48 bytes in two blocks, and its writer's cursor is at their end. */
  ghost predicate TwoHeld(t: State) {
    && Sane(t) && t.bs == 32 && t.blocks == 3 && t.handles == map[1 := Handle(2, true, 48)]
    && |t.files| == 4 && t.files[2] == Sevens() && t.held[2] == 2 && Sum(t.held) == 2
  }

  lemma OpenTwo(s: State)
    requires s == Tiny({})
    ensures Legal(s, Open(2, true))
    ensures var t := After(s, Open(2, true)); Sane(t) && t == s.(handles := map[1 := Handle(2, true, 0)], next := 2)
  {
    TinySane({});
    SaneAfter(s, Open(2, true));
  }

  lemma WriteHalf(s: State)
    requires Sane(s) && s == Tiny({}).(handles := map[1 := Handle(2, true, 0)], next := 2)
    ensures Legal(s, Write(1, Sevens())) && TwoHeld(After(s, Write(1, Sevens())))
  {
    TinySane({});
    var e := Handle(2, true, 0);
    assert Reach(s, 2) == 3 && Taken(s, e, 48) == 48 && HeldByWrite(s, e, 48) == 2;
    SaneAfter(s, Write(1, Sevens()));
    WriteIs(s, 1, Sevens());
    SumUpdate(s.held, 2, 2);
    hide After, Sane, Taken, HeldByWrite, Sum;
    assert Sevens()[..48] == Sevens() && WriteAt([], 0, Sevens()) == Sevens();
  }

  /** The state that OneAndAHalf() leads to. */
  lemma TwoBlocks()
    ensures Lawful(Tiny({}), OneAndAHalf()) && TwoHeld(Run(Tiny({}), OneAndAHalf()).0)
  {
    var s, c0, c1 := Tiny({}), Open(2, true), Write(1, Sevens());
    TinySane({});
    OpenTwo(s);
    WriteHalf(After(s, c0));
    hide Sane, Legal, After, Answer, TwoHeld, Tiny;
    RunMore(s, [], c0);
    assert [] + [c0] == [c0];
    RunMore(s, [c0], c1);
    assert [c0] + [c1] == OneAndAHalf();
  }

  ghost predicate CutsWrong(t: State) {
    && !Legal(t, Truncate(1, 0)) && !Legal(t, Truncate(1, 33)) && Legal(t, Truncate(1, 32)) && |t.files| > 2
    && t.files[2] == Sevens() && After(t, Truncate(1, 32)).files == t.files[2 := Zeros(32)]
  }

  /** In a file of two blocks, the length 0 and every length inside the second block may not
      be asked for; the length of one block may, and clears that block. */
  lemma TruncationsGoWrong()
    ensures Lawful(Tiny({}), OneAndAHalf()) && CutsWrong(Run(Tiny({}), OneAndAHalf()).0)
  {
    hide Run, Lawful, TwoHeld, CutsWrong;
    TwoBlocks();
    TwoHeldCuts(Run(Tiny({}), OneAndAHalf()).0);
  }

  lemma TwoHeldCuts(t: State)
    requires TwoHeld(t)
    ensures CutsWrong(t)
  {
    hide Sum, Sound;
    assert Cut(Sevens(), 32, 32) == Sevens()[..0] + Zeros(32) == Zeros(32);
  }

  /** A container on which OneAndAHalf() was run, and the device that wrote. */
  method Prepared(hash: string -> nat) returns (c: C.Client, d: Dev)
    ensures fresh(c.box.fs) && d.fs == c.box.fs && fresh(d) && fresh(d.inode) && fresh(d.fs.dev)
    ensures d.Valid() && d.rw && d.posabs == d.inode.dataSize == d.fs.view.sizes[d.inode.id] == 48 && d.fs.dev.bs == 32
    ensures |d.fs.view.chains[d.inode.id]| == 2 && |d.fs.dev.disk.heads| == 4
  {
    hide Inv, Contents, Calls.Counts, Container.Valid, Fs.Core, Fs.Valid, Run, Lawful, Sane, C.Client.Valid,
         C.Client.Devices;
    SmallAccepted();
    c := new C.Client(SMALL, hash, {});
    TwoBlocks();
    var _ := c.Replay(OneAndAHalf(), (n: nat) => (0, false, (k: nat) => 0));
    c.SameHandles();
    c.DeviceReady(1);
    d := c.devs[1];
  }

  /** There the truncation to 0 succeeds and leaves the chain's blocks in use and nobody's. */
  method ForgetBlocks(hash: string -> nat) returns (d: Dev, rc: Rc)
    ensures rc == OK && !exists v :: Inv(d.fs.dev.bs, d.fs.dev.disk, v)
  {
    hide ChainsOwned, NoneLost, ZeroTails, Synced, Resized, Fs.LiveIds, ListsFit;
    var c;
    c, d := Prepared(hash);
    ForgottenChain(32, d.fs.dev.disk, d.fs.view, d.inode.id);
    rc := d.Trunc(0);
  }

  /** And the one to 33 bytes succeeds and leaves a cached list that is not the chain. */
  method LoseCount(hash: string -> nat) returns (d: Dev, rc: Rc)
    ensures rc == OK && !d.fs.Valid()
  {
    hide ChainsOwned, NoneLost, ZeroTails, Cached, Synced, Resized, ShrankTo, Fs.LiveIds, ListsFit;
    var c;
    c, d := Prepared(hash);
    assert BlocksNeeded(32, 32) == 2;
    rc := d.Trunc(33);
  }

  /** Inode 2 gets a name and loses it again, which leaves the empty name's hash cached. */
  method NameAndUnname(cat: Catalog)
    requires cat.Valid() && cat.names == ["", "", "", ""] && cat.used == [false, false, false, false]
    requires cat.enabled && cat.cache.list == [] && cat.limit == 8 && Separates(cat.hashfunc, {"a"})
    modifies cat`names, cat`used, cat`bits, cat`hint, cat`present, cat.cache
    ensures cat.Valid() && cat.names == ["", "", "", ""] && cat.used[3] == false && |cat.used| == 4
    ensures HashId(cat.hashfunc(""), 2) in cat.cache.list
    ensures forall x :: x in cat.cache.list && cat.EmptyOf(x) ==> x.id == 2
  {
    hide CacheOK, NoClash, Unique, Separates, Catalog.Flags, Catalog.Valid, FreeFrom;
    SpareTwo(cat.used);
    var _, id := cat.NextFree(true);
    Apart(cat.hashfunc, cat.names, "a");
    AllApart(cat.names);
    var _ := cat.NameSet(2, "a");
    Apart(cat.hashfunc, cat.names, "");
    var _ := cat.NameSet(2, "");
    assert cat.names == ["", "", "", ""];
  }

  lemma SpareTwo(used: seq<bool>)
    requires used == [false, false, false, false]
    ensures FreeFrom(used, 2) == 2
  {
  }

  lemma AllApart(names: seq<string>)
    requires forall i :: 0 <= i < |names| ==> names[i] == ""
    ensures Unique(names)
  {
  }

  lemma Apart(h: string -> nat, names: seq<string>, extra: string)
    requires Separates(h, {"a"}) && extra in {"a", ""} && forall i :: 0 <= i < |names| ==> names[i] in {"a", ""}
    ensures NoClash(h, names, extra)
  {
    assert forall x :: x in {"a", ""} <==> x in {"a"} + {""};
  }

  /** Opening inode 3, writing one byte and closing it again gives it a block. */
  lemma OneByte(s: State)
    requires s == Tiny({"a"}).(names := s.names) && Sane(s)
    ensures Legal(s, Open(3, true))
    ensures var t := After(s, Open(3, true));
            && Legal(t, Write(1, [7]))
            && var u := After(t, Write(1, [7]));
               Legal(u, Close(1)) && After(u, Close(1)).held == [0, 0, 0, 1] && After(u, Close(1)).handles == map[]
  {
    TinySane({"a"});
    SaneAfter(s, Open(3, true));
    var t := After(s, Open(3, true));
    var e := t.handles[1];
    assert Reach(t, 3) == 3 && Taken(t, e, 1) == 1 && HeldByWrite(t, e, 1) == 1;
    SaneAfter(t, Write(1, [7]));
  }

  /** A fresh container on which inode 2 had a name. */
  method Unnamed(hash: string -> nat) returns (c: C.Client)
    requires Separates(hash, {"a"})
    ensures fresh(c) && fresh(c.box) && fresh(c.box.fs) && fresh(c.box.fs.dev) && fresh(c.box.list)
    ensures fresh(c.box.cat) && fresh(c.box.cat.cache) && c.devs == map[] && c.box.fs.live == {}
    ensures c.Valid() && c.box.fs.Core() && c.Seen() == Tiny({"a"}).(names := c.Seen().names) && Sane(c.Seen())
    ensures Stale(c.box.cat) && c.box.cat.names[3] == ""
  {
    hide Inv, Contents, Calls.Counts, OpenedList.Valid, Fs.Valid, Fs.Core, Catalog.Valid, C.Client.Devices,
         C.Client.Roomy,
         Container.Joined, Sane, Separates;
    SmallAccepted();
    c := new C.Client(SMALL, hash, {"a"});
    NameAndUnname(c.box.cat);
    c.CoreHolds();
    c.SeenSane();
  }

  /** The cache holds the empty name, for inode 2 only. */
  ghost predicate Stale(cat: Catalog)
    reads cat, cat.cache
  {
    && cat.enabled && |cat.names| == 4 && HashId(cat.hashfunc(""), 2) in cat.cache.list
    && forall x :: x in cat.cache.list && cat.EmptyOf(x) ==> x.id == 2
  }

  method GiveBlock(c: C.Client)
    requires c.Valid() && c.box.fs.Core() && c.Seen() == Tiny({"a"}).(names := c.Seen().names) && Sane(c.Seen())
    requires c.devs == map[] && c.box.fs.live == {}
    modifies c, c.box.fs, c.box.fs.dev, c.box.list
    ensures c.Valid() && c.box.fs.Core() && c.Seen().held == [0, 0, 0, 1] && c.Seen().handles == map[]
  {
    hide Inv, Contents, Calls.Counts, Container.Valid, Fs.Valid, Fs.Core, C.Client.Valid, C.Client.Devices,
         C.Client.Roomy, Sane,
         Legal, After, Answer, Tiny;
    OneByte(c.Seen());
    var _ := c.Open(3, true);
    var _ := c.Write(1, [7]);
    var _ := c.Close(1);
    c.CoreHolds();
  }

  /** An unnamed inode with a block is deleted while the cache holds the empty name for
      another: its block is wiped and free, and its record still leads there. */
  method LoseRecord(hash: string -> nat) returns (c: C.Client, rc: Rc)
    requires Separates(hash, {"a"})
    ensures rc == InternalError && !exists v :: Inv(c.box.fs.dev.bs, c.box.fs.dev.disk, v)
  {
    hide Inv, Contents, Container.Valid, Fs.Valid, Fs.Core, C.Client.Valid, C.Client.Devices, C.Client.Roomy, Sane,
         Tiny, Stale,
         Separates;
    c := Unnamed(hash);
    GiveBlock(c);
    rc := DeleteThree(c);
  }

  method DeleteThree(c: C.Client) returns (rc: Rc)
    requires c.Valid() && c.box.fs.Core() && |c.Seen().held| == 4 && c.Seen().held[3] == 1 && c.Seen().handles == map[]
    requires Stale(c.box.cat) && c.box.cat.names[3] == ""
    modifies c.box.fs`view, c.box.fs.dev, c.box.cat, c.box.cat.cache
    ensures rc == InternalError && !exists v :: Inv(c.box.fs.dev.bs, c.box.fs.dev.disk, v)
  {
    hide ChainsOwned, NoneLost, ZeroTails, Fs.Valid, OpenedList.Valid, C.Client.Devices, C.Client.Roomy,
         Catalog.Valid, NoClash;
    c.NamesApart("");
    OpenIsBusy(c.Seen(), c.box.list.table, 3);
    rc := c.box.Unlink(3);
  }

  /** Enlarging past 32 bits: these options are accepted, and 534 more blocks are still few
      enough for their ids.  The header of the last of them, which enlarging writes to wipe
      it, goes into the data of block 1. */
  lemma EnlargedOverFile(img: seq<Byte>)
    requires |img| == Layout.Eof(LARGE)
    ensures Layout.Typed(LARGE) && Layout.Accepted(LARGE) && |img| < 0x1_0000_0000
    ensures LARGE.blockCount + 534 <= MAX_BLOCKS && !Legal(Fresh(LARGE, {}), AddBlocks(534))
    ensures Layout.Misplaced(LARGE, LARGER, 65534, 1)
  {
    hide Layout.Misplaced;
    Layout.EnlargedTooFar(LARGE, LARGER);
    Layout.EofIsEnd(LARGER);
  }

  /** A read whose end overflows 32 bits gets bytes from beyond the fence. */
  method ReadPastFence() returns (got: seq<Byte>)
    ensures |got| == 6
  {
    var parent := new Devices.Membuf(8);
    var fence := new Devices.SubDev(parent, 0, 4);
    var at := fence.SeekSet(2);
    got := fence.Read(0xFFFF_FFFF);
  }
}
