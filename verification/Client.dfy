/** Runs of calls on an open container.  The theorem of this module is that every run of
    opening, closing, deleting, enlarging, seeking, reading, writing, truncating, creating,
    renaming, looking up and switching caches gives the very answers, and leads to the very
    state, that module Calls computes. */
module Client {
  import opened Bytes
  import opened BlockStore
  import opened StoreSteps
  import opened ReturnCodes
  import opened Opened
  import opened Storage
  import opened Nodedev
  import opened Quota
  import opened Files
  import opened Session
  import opened Abstraction
  import opened Naming
  import Catalog
  import Calls
  import Layout

  class Client {
    const box: Container
    /** The names in use, which the hash tells apart. */
    ghost const known: set<string>
    /** The opened devices, which the source keeps to close them with the container. */
    var devs: map<nat, Dev>
    var next: nat

    /** The opened devices as their clients see them. */
    ghost var handles: map<nat, Calls.Handle>

    /** Every device is in order and its handle shows its place; `but` just moved. */
    ghost predicate Devices(but: nat := 0)
      reads `next, `devs, `handles, devs.Values`posabs, box.fs`live
    {
      next >= 1 && box.fs.dev.bs > 0 && handles.Keys == devs.Keys
      && InOrder(box.fs.live) && Shown(but) && Apart()
    }

    ghost predicate InOrder(live: set<Inode>)
      requires box.fs.dev.bs > 0
      reads `next, `devs, devs.Values`posabs
    {
      forall h :: h in devs ==> DeviceOK(h, devs[h], live)
    }

    ghost predicate Shown(but: nat := 0)
      requires handles.Keys == devs.Keys
      reads `devs, `handles, devs.Values`posabs
    {
      forall h :: h in devs && h != but ==> handles[h] == Shows(devs[h])
    }

    ghost predicate Apart()
      reads `devs
    {
      forall g, h :: g in devs && h in devs && devs[g] == devs[h] ==> g == h
    }

    ghost function Shows(d: Dev): Calls.Handle
      reads d`posabs
    {
      Calls.Handle(d.inode.id, d.rw, d.posabs)
    }

    /** Device `d` is handle `h`: the handle is what the list knows as its writer. */
    ghost predicate DeviceOK(h: nat, d: Dev, live: set<Inode>)
      requires box.fs.dev.bs > 0
      reads `next, d`posabs
    {
      && 1 <= h < next && d.fs == box.fs && d.inode in live
      && d.rw == (d.key != 0) && d.key in {0, h}
      && d.posabs < TWO32 && Addressable(d.posabs, box.fs.dev.bs)
    }

    /** The end of the container fits 32 bits, and so do the sizes of the files. */
    ghost predicate Roomy()
      requires Inv(box.fs.dev.bs, box.fs.dev.disk, box.fs.view)
      reads box.fs`view, box.fs.dev
    {
      Layout.EndOf(box.Base(), box.fs.dev.bs, |box.fs.dev.disk.heads| - 1) < TWO32 && Fits(box.fs.view)
    }

    /** Then so do the positions in all files. */
    lemma DataFits()
      requires Inv(box.fs.dev.bs, box.fs.dev.disk, box.fs.view) && Roomy()
      ensures 0 < |box.fs.dev.disk.heads| && (|box.fs.dev.disk.heads| - 1) * box.fs.dev.bs < TWO32 && Fits(box.fs.view)
    {
      Layout.DataBeforeEnd(box.Base(), box.fs.dev.bs, |box.fs.dev.disk.heads| - 1);
    }

    ghost predicate Valid()
      reads this, devs.Values`posabs, box, box.fs, box.fs.dev, box.list
      reads box.fs.live`firstBlock, box.fs.live`list, box.fs.live`count, box.fs.live`dataSize, box.fs.live`writer
      reads box.list.repr`next, box.list.repr`prev, box.list.repr`openCount, box.list.repr`writer
      reads box.cat, box.cat.cache
    {
      box.Valid() && Devices() && Roomy() && Calls.Counts(handles, box.list.table) && NamesKnown()
    }

    /** All names are known ones, which the hash tells apart. */
    ghost predicate NamesKnown()
      reads box.cat`names
    {
      KnownNames(box.cat.names)
    }

    ghost predicate KnownNames(names: seq<string>) {
      Separates(box.cat.hashfunc, known) && forall i :: 0 <= i < |names| ==> names[i] in known + {""}
    }

    ghost function SeenNames(): Names
      reads box.cat`names, box.cat`used, box.cat`enabled, box.cat`loaded
    {
      Names(box.cat.names, box.cat.used, box.cat.enabled, box.cat.loaded, box.cat.limit, known)
    }

    /** The container as its clients see it. */
    ghost function Seen(): Calls.State
      requires box.fs.Core()
      reads this, box.fs, box.fs.dev, box.cat`names, box.cat`used, box.cat`enabled, box.cat`loaded
    {
      Calls.State(box.Base(), box.fs.dev.bs, |box.fs.dev.disk.heads| - 1,
                  Contents(box.fs.dev.bs, box.fs.dev.disk, box.fs.view),
                  Lengths(box.fs.view.chains), handles, next, SeenNames())
    }

    /** The call was answered, and had the effect, that module Calls says. */
    ghost predicate Steps(s: Calls.State, c: Calls.Call, o: Calls.Outcome)
      requires box.fs.Core()
      reads this, box.fs, box.fs.dev, box.cat`names, box.cat`used, box.cat`enabled, box.cat`loaded
    {
      Calls.Legal(s, c) && o == Calls.Answer(s, c) && Seen() == Calls.After(s, c)
    }

    /** A freshly formatted container: every file empty and unnamed, nothing open. */
    constructor (o: Layout.Options, hashfunc: string -> nat, ghost known: set<string>)
      requires Layout.Typed(o) && Layout.Accepted(o) && Layout.Eof(o) < TWO32 && Separates(hashfunc, known)
      ensures Valid() && fresh(box) && fresh(box.fs) && fresh(box.fs.dev) && fresh(box.list) && fresh(box.cat)
              && fresh(box.cat.cache)
      ensures Seen() == Calls.Fresh(o, known) && devs == map[] && box.fs.live == {}
      ensures box.cat.hashfunc == hashfunc && box.cat.cache.list == [] && this.known == known
    {
      hide Inv, Contents, Lengths, Container.Valid, Fs.Valid, Fs.Core, Catalog.Catalog.Valid, Separates, BlankDisk,
           BlankView, Fits;
      this.known := known;
      box := new Container(o, hashfunc);
      devs, handles, next := map[], map[], 1;
      new;
      CoreOf();
      FreshSeen(o.blockSize, o.blockCount, o.inodeCount);
      Layout.EofIsEnd(o);
    }

    /** The client of a container that was opened again. */
    constructor Stored(box: Container, ghost known: set<string>)
      requires box.Valid() && box.list.table == map[] && Separates(box.cat.hashfunc, known)
      requires Layout.EndOf(box.Base(), box.fs.dev.bs, |box.fs.dev.disk.heads| - 1) < TWO32 && Fits(box.fs.view)
      requires forall i :: 0 <= i < |box.cat.names| ==> box.cat.names[i] in known + {""}
      ensures Valid() && this.box == box && this.known == known && devs == map[] && box.fs.Core()
      ensures handles == map[] && next == 1
    {
      hide Inv, Contents, Lengths, Container.Valid, Fs.Valid, Fs.Core, Catalog.Catalog.Valid, Separates, Fits;
      this.box, this.known := box, known;
      devs, handles, next := map[], map[], 1;
      new;
      CoreOf();
    }

    lemma FreshSeen(bs: nat, blocks: nat, inodes: nat)
      requires box.fs.Core() && box.fs.dev.bs == bs && box.fs.dev.disk == BlankDisk(bs, blocks, inodes)
      requires box.fs.view == BlankView(blocks, inodes)
      ensures |box.fs.dev.disk.heads| - 1 == blocks && Fits(box.fs.view)
      ensures Contents(bs, box.fs.dev.disk, box.fs.view) == seq(inodes + 1, _ => [])
      ensures Lengths(box.fs.view.chains) == seq(inodes + 1, _ => 0)
    {
      assert box.fs.view.chains == seq(inodes + 1, _ => []);
    }

    method Open(id: nat, write: bool) returns (o: Calls.Outcome)
      requires Valid() && Calls.Legal(Seen(), Calls.Open(id, write))
      modifies this, box.fs`live, box.fs`liveIds, box.list, box.fs.live
      ensures Valid() && Steps(old(Seen()), Calls.Open(id, write), o)
      ensures fresh(devs.Values - old(devs.Values)) && fresh(box.fs.live - old(box.fs.live))
    {
      hide Inv, Contents, Calls.Counts, Refused, Container.Valid, Client.Devices, Client.Roomy, Fs.Core, Fs.Valid;
      OpenFacts(id, write);
      var rc := OpenDevice(id, if write then next else 0);
      o := if rc == OK then Calls.Outcome.Opened(next - 1) else Calls.Failed(rc);
    }

    method OpenDevice(id: nat, key: nat) returns (rc: Rc)
      requires box.Valid() && Devices() && Roomy() && key in {0, next}
      requires id in box.list.table ==> Total(box.list.table[id]) < 0xFFFF
      modifies this, box.fs`live, box.fs`liveIds, box.list, box.fs.live
      ensures box.Valid() && Devices() && Roomy() && box.fs.Core()
      ensures box.fs.view == old(box.fs.view) && box.fs.dev.disk == old(box.fs.dev.disk)
      ensures fresh(devs.Values - old(devs.Values)) && fresh(box.fs.live - old(box.fs.live))
      ensures rc == if !(1 <= id <= box.fs.inodeCount) then ArgError
                    else if Refused(old(box.list.table), id, key) then AccessError else OK
      ensures rc != OK ==> handles == old(handles) && next == old(next) && box.list.table == old(box.list.table)
      ensures rc == OK ==>
                && next == old(next) + 1 && box.list.table == AfterOpen(old(box.list.table), id, key)
                && handles == old(handles)[old(next) := Calls.Handle(id, key != 0, 0)]
    {
      hide Inv, Refused, Container.Valid, Client.Devices, Client.Roomy, Fs.Core, Fs.Valid;
      var n;
      rc, n := OpenInode(id, key);
      if rc == OK {
        AddDevice(n, key);
      }
    }

    method OpenInode(id: nat, key: nat) returns (rc: Rc, n: Inode?)
      requires box.Valid() && Devices() && Roomy()
      requires id in box.list.table ==> Total(box.list.table[id]) < 0xFFFF
      modifies box.fs`live, box.fs`liveIds, box.list, box.fs.live
      ensures box.Valid() && Devices() && Roomy() && box.fs.Core()
      ensures box.fs.view == old(box.fs.view) && box.fs.dev.disk == old(box.fs.dev.disk)
      ensures fresh(box.fs.live - old(box.fs.live))
      ensures rc == if !(1 <= id <= box.fs.inodeCount) then ArgError
                    else if Refused(old(box.list.table), id, key) then AccessError else OK
      ensures rc != OK ==> box.list.table == old(box.list.table)
      ensures rc == OK ==>
                && n != null && n in box.fs.live && n.id == id
                && box.list.table == AfterOpen(old(box.list.table), id, key)
    {
      hide Inv, Refused, Cached, Synced, AfterOpen, OpenedList.Valid, Client.Shown, Client.Apart,
           Container.Named, Container.Made, Client.KnownNames, NoWrap;
      rc, n := box.Open(id, key);
    }

    method AddDevice(n: Inode, key: nat)
      requires Devices() && n in box.fs.live && key in {0, next}
      modifies `devs, `next, `handles
      ensures Devices() && next == old(next) + 1
      ensures handles == old(handles)[old(next) := Calls.Handle(n.id, key != 0, 0)]
      ensures fresh(devs.Values - old(devs.Values))
    {
      var d := new Dev(box.fs, n, key);
      devs, handles := devs[next := d], handles[next := Calls.Handle(n.id, key != 0, 0)];
      next := next + 1;
    }

    lemma OpenFacts(id: nat, write: bool)
      requires Valid() && Calls.Legal(Seen(), Calls.Open(id, write))
      ensures var t, key := box.list.table, if write then next else 0;
              && next >= 1 && box.fs.Core() && |Seen().files| == box.fs.inodeCount + 1
              && (id in t ==> Total(t[id]) < 0xFFFF)
              && (Refused(t, id, key) <==> write && Calls.Busy(Seen(), id, true))
              && (!Refused(t, id, key) ==>
                  Calls.Counts(handles[next := Calls.Handle(id, write, 0)], AfterOpen(t, id, key)))
    {
      assert |box.fs.view.chains| == box.fs.inodeCount + 1;
      assert next !in devs;
      hide Client.InOrder, Client.Shown, Client.Apart, Fs.Valid, Inv, Contents, Cached, Synced, OpenedList.Valid;
      var t := box.list.table;
      Calls.OpenIsBusy(Seen(), t, id);
      if id in t { Calls.CountsOf(handles, t, id); }
      if !Refused(t, id, if write then next else 0) {
        Calls.CountsOpen(handles, t, next, id, write);
      }
    }

    /** What an opened device may rely on: it is valid, its cursor is in range, and its
        content is the file its handle names. */
    lemma DeviceReady(h: nat)
      requires Valid() && h in devs
      ensures var d := devs[h];
              && d.Valid() && box.fs.Core() && d.CursorOK() && d.Mappable() && d.fs == box.fs && d in devs.Values
              && d.inode.id < |Seen().files| && d.Bytes() == Seen().files[d.inode.id]
              && d.inode.dataSize < TWO32 && d.inode.dataSize == |Seen().files[d.inode.id]|
              && handles.Keys == devs.Keys && handles[h] == Shows(d)
    {
      DeviceWrites(h);
      FileFits(devs[h].inode);
      hide Inv, Contents, Cached, OpenedList.Valid, Calls.Counts;
      assert DeviceOK(h, devs[h], box.fs.live);
    }

    /** A writing device is the writer its inode knows. */
    lemma DeviceWrites(h: nat)
      requires Valid() && h in devs
      ensures devs[h].rw ==> devs[h].inode.writer == h == devs[h].key
    {
      hide Inv, Fs.Valid, OpenedList.Linked;
      var d := devs[h];
      assert DeviceOK(h, d, box.fs.live);
      if d.rw {
        assert box.list.table[d.inode.id].writer == h;
        assert box.list.Tallied(d.inode, box.list.table[d.inode.id]);
      }
    }

    /** The size of an opened file is in range. */
    lemma FileFits(n: Inode)
      requires box.fs.Valid() && Roomy() && n in box.fs.live
      ensures n.id < |box.fs.view.chains| == |box.fs.view.sizes|
      ensures n.dataSize == box.fs.view.sizes[n.id] < TWO32
      ensures |Flat(box.fs.dev.disk.data, box.fs.view.chains[n.id])| < TWO32
    {
      hide NoneLost, ZeroTails, ChainsOwned, Flat;
      DataFits();
      PositionsFit(box.fs.dev.bs, box.fs.dev.disk, box.fs.view, n.id);
    }

    method Write(h: nat, src: seq<Byte>) returns (o: Calls.Outcome)
      requires Valid() && Calls.Legal(Seen(), Calls.Write(h, src))
      modifies `handles, devs.Values, box.fs`view, box.fs.dev, box.fs.live
      ensures Valid() && Steps(old(Seen()), Calls.Write(h, src), o)
    {
      hide Inv, Contents, Calls.Counts, Container.Valid, Client.Devices, Client.Roomy, Calls.AfterWrite, Calls.Taken,
           Calls.After, Calls.Answer,
           Fs.Core, Fs.Valid, Calls.Legal, Calls.Sane, Dev.CursorOK, Dev.Mappable;
      CoreHolds();
      Calls.HandleThere(Seen(), Calls.Write(h, src));
      Calls.WriteIs(Seen(), h, src);
      SameHandles();
      DeviceReady(h);
      var k := WriteDevice(h, devs[h], src);
      MoveHandle(h);
      o := Calls.Put(k);
    }

    method WriteDevice(h: nat, d: Dev, src: seq<Byte>) returns (k: nat)
      requires Valid() && h in devs && devs[h] == d && Calls.Sane(Seen()) && d.inode.id < |Seen().files|
      requires Calls.Extensible(Seen(), Shows(d), |src|)
      modifies d`posabs, box.fs`view, box.fs.dev`disk, box.fs.dev`bits, box.fs.dev`hint
      modifies d.inode`list, d.inode`count, d.inode`firstBlock, d.inode`dataSize
      ensures box.Valid() && Roomy() && Devices(h) && box.fs.Core() && d.posabs == old(d.posabs) + k
      ensures k == Calls.Taken(old(Seen()), old(Shows(d)), |src|)
      ensures Seen() == Calls.AfterWrite(old(Seen()), old(Shows(d)), src)
    {
      hide Inv, Contents, Container.Valid, Client.Roomy, Calls.Counts, Addressable, Calls.AfterWrite, Calls.Taken,
           Fs.Core, Fs.Valid, Dev.Valid, Dev.Mappable;
      DeviceReady(h);
      k := WriteFile(d, src);
    }

    method WriteFile(d: Dev, src: seq<Byte>) returns (k: nat)
      requires box.Valid() && Roomy() && d.Valid() && d.CursorOK() && d.fs == box.fs && d.posabs < TWO32
      requires Calls.Sane(Seen()) && d.inode.id < |Seen().files| && Calls.Extensible(Seen(), Shows(d), |src|)
      modifies d`posabs, box.fs`view, box.fs.dev`disk, box.fs.dev`bits, box.fs.dev`hint
      modifies d.inode`list, d.inode`count, d.inode`firstBlock, d.inode`dataSize
      ensures box.Valid() && Roomy() && box.fs.Core() && d.CursorOK() && d.posabs == old(d.posabs) + k < TWO32
      ensures k == Calls.Taken(old(Seen()), old(Shows(d)), |src|)
      ensures Seen() == Calls.AfterWrite(old(Seen()), old(Shows(d)), src)
    {
      hide ChainsOwned, NoneLost, ZeroTails, Wrote, Contents, Container.Valid, Addressable, Grew, Writable,
           Calls.Extensible, Calls.Taken, Calls.HeldByWrite;
      DataFits();
      if d.rw { ExtensibleWrites(Seen(), Shows(d), |src|, box.fs.dev.disk, box.fs.view); }
      k := WriteBox(d, src);
      ghost var bs := box.fs.dev.bs;
      WrittenFits(bs, old(box.fs.dev.disk), old(box.fs.view), box.fs.dev.disk, box.fs.view, d.inode.id,
                  old(d.posabs), src[..k]);
      WroteState(old(Seen()), old(Shows(d)), src, k, old(box.fs.dev.disk), old(box.fs.view), box.fs.dev.disk,
                 box.fs.view);
    }

    method WriteBox(d: Dev, src: seq<Byte>) returns (k: nat)
      requires box.Valid() && d.Valid() && d.CursorOK() && d.fs == box.fs
      requires d.rw ==>
                 Writable(box.fs.view.chains, d.inode.id, box.fs.dev.bs, d.posabs, |src|, |box.fs.dev.disk.heads| - 1)
      modifies d`posabs, box.fs`view, box.fs.dev`disk, box.fs.dev`bits, box.fs.dev`hint
      modifies d.inode`list, d.inode`count, d.inode`firstBlock, d.inode`dataSize
      ensures box.Valid() && box.fs.Core() && d.CursorOK()
      ensures k <= |src| && (!d.rw ==> k == 0) && d.posabs == old(d.posabs) + k
      ensures d.inode.id < |old(box.fs.view).chains|
      ensures Wrote(box.fs.dev.bs, old(box.fs.dev.disk), old(box.fs.view), box.fs.dev.disk, box.fs.view, d.inode.id,
                    old(d.posabs), src[..k])
      ensures if d.rw then Grew(box.fs.dev.bs, box.fs.dev.disk.heads, |old(box.fs.view).chains[d.inode.id]|,
                                |box.fs.view.chains[d.inode.id]|, old(d.posabs), k, k == |src|)
              else box.fs.dev.disk == old(box.fs.dev.disk) && box.fs.view == old(box.fs.view)
    {
      hide ChainsOwned, NoneLost, ZeroTails, Wrote, Cached, Synced, OpenedList.Valid, Addressable, Grew, Writable,
           Catalog.Catalog.Valid;
      k := d.Write(src);
    }

    /** A position that a write reached is inside the container. */
    static lemma WrittenFits(bs: nat, d: Disk, v: View, d': Disk, v': View, i: nat, pos: nat, w: seq<Byte>)
      requires Inv(bs, d, v) && Inv(bs, d', v') && i < |v.chains| && Wrote(bs, d, v, d', v', i, pos, w)
      requires pos < TWO32 && (|d.heads| - 1) * bs < TWO32
      ensures pos + |w| < TWO32 && |d'.heads| == |d.heads| && v'.chains != []
    {
      PositionsFit(bs, d', v', i);
    }

    /** The handle follows the device, whose cursor moved. */
    ghost method MoveHandle(h: nat)
      requires box.Valid() && Roomy() && NamesKnown() && Devices(h) && h in devs
               && Calls.Counts(handles, box.list.table)
      requires handles[h] == Shows(devs[h]).(at := handles[h].at)
      modifies `handles
      ensures Valid() && handles == old(handles)[h := Shows(devs[h])]
    {
      hide Inv, Contents, Calls.Counts, Container.Valid, Client.InOrder, Client.Shown, Client.Apart, Client.Roomy;
      Calls.CountsMove(handles, box.list.table, h, devs[h].posabs);
      ShowHandle(h);
    }

    ghost method ShowHandle(h: nat)
      requires Devices(h) && h in devs
      modifies `handles
      ensures Devices() && handles == old(handles)[h := Shows(devs[h])]
    {
      handles := handles[h := Shows(devs[h])];
    }

    method Read(h: nat, n: nat) returns (o: Calls.Outcome)
      requires Valid() && Calls.Legal(Seen(), Calls.Read(h, n))
      modifies `handles, devs.Values, box.fs`view, box.fs.dev, box.fs.live
      ensures Valid() && Steps(old(Seen()), Calls.Read(h, n), o)
    {
      hide Inv, Contents, Calls.Counts, Container.Valid, Client.Devices, Client.Roomy, Calls.Slice, Calls.Readable,
           Calls.After, Calls.Answer,
           Fs.Core, Fs.Valid, Calls.Legal, Calls.Sane, Dev.CursorOK, Dev.Mappable;
      CoreHolds();
      Calls.HandleThere(Seen(), Calls.Read(h, n));
      Calls.ReadIs(Seen(), h, n);
      SameHandles();
      DeviceReady(h);
      var got := ReadDevice(h, devs[h], n);
      MoveHandle(h);
      o := Calls.Got(got);
    }

    method ReadDevice(h: nat, d: Dev, n: nat) returns (got: seq<Byte>)
      requires Valid() && h in devs && devs[h] == d && Calls.Sane(Seen()) && d.inode.id < |Seen().files|
      modifies d`posabs, box.fs`view, box.fs.dev`disk, box.fs.dev`bits, box.fs.dev`hint
      modifies d.inode`list, d.inode`count, d.inode`firstBlock
      ensures box.Valid() && Roomy() && Devices(h) && box.fs.Core()
      ensures d.posabs == old(d.posabs) + |got| && Seen() == old(Seen())
      ensures got == Calls.Slice(Calls.Readable(old(Seen()), d.inode.id), old(d.posabs), n)
    {
      hide Inv, Contents, Container.Valid, Client.Roomy, Calls.Counts, Addressable, Calls.Slice, Calls.Readable,
           Fs.Core, Fs.Valid, Dev.Valid, Dev.Mappable;
      DeviceReady(h);
      got := ReadFile(d, n);
    }

    method ReadFile(d: Dev, n: nat) returns (got: seq<Byte>)
      requires box.Valid() && Roomy() && d.Valid() && d.CursorOK() && d.fs == box.fs && d.posabs < TWO32
      requires Calls.Sane(Seen()) && d.inode.id < |Seen().files|
      modifies d`posabs, box.fs`view, box.fs.dev`disk, box.fs.dev`bits, box.fs.dev`hint
      modifies d.inode`list, d.inode`count, d.inode`firstBlock
      ensures box.Valid() && Roomy() && box.fs.Core() && d.CursorOK() && d.posabs < TWO32
      ensures Seen() == old(Seen()) && d.posabs == old(d.posabs) + |got|
      ensures got == Calls.Slice(Calls.Readable(old(Seen()), d.inode.id), old(d.posabs), n)
    {
      hide ChainsOwned, NoneLost, ZeroTails, Contents, Content, OpenedList.Valid, Cached, Synced, Addressable, Flat;
      FileFits(d.inode);
      got := d.Read(n);
      ReadState(Seen(), old(Shows(d)), n, got, box.fs.dev.disk, box.fs.view);
      if got != [] {
        Dev.NearChain(box.fs.dev.bs, box.fs.dev.disk, box.fs.view, d.inode.id, d.posabs);
      }
    }

    method Seek(h: nat, pos: int, whence: Whence) returns (o: Calls.Outcome)
      requires Valid() && Calls.Legal(Seen(), Calls.Seek(h, pos, whence))
      modifies `handles, devs.Values
      ensures Valid() && Steps(old(Seen()), Calls.Seek(h, pos, whence), o)
    {
      hide Inv, Contents, Calls.Counts, Container.Valid, Client.Devices, Client.Roomy, Fs.Core, Fs.Valid, Calls.Legal,
           Calls.Sane, Dev.Valid, Dev.CursorOK, Dev.Mappable;
      CoreHolds();
      Calls.HandleThere(Seen(), Calls.Seek(h, pos, whence));
      SameHandles();
      DeviceReady(h);
      var at := SeekDevice(h, devs[h], pos, whence);
      MoveHandle(h);
      o := Calls.At(at);
    }

    method SeekDevice(h: nat, d: Dev, pos: int, whence: Whence) returns (at: nat)
      requires Valid() && h in devs && devs[h] == d && handles.Keys == devs.Keys && handles[h] == Shows(d)
      requires Calls.Legal(Seen(), Calls.Seek(h, pos, whence))
      modifies d`posabs
      ensures Devices(h)
      ensures if Calls.NoSeek(pos, whence) then at == SIZE_T_ERROR && d.posabs == old(d.posabs)
              else at == d.posabs == Calls.Target(old(Seen()), old(Shows(d)), pos, whence)
    {
      hide Inv, Contents, Container.Valid, Client.Roomy, Calls.Counts, Addressable, Fs.Core, Fs.Valid, Dev.Valid,
           Dev.CursorOK, Dev.Mappable;
      DeviceReady(h);
      CursorFits(Seen(), Shows(d), pos, whence);
      at := d.Seek(pos, whence);
    }

    /** Reachable places are the ones a cursor can be mapped at. */
    lemma CursorFits(s: Calls.State, e: Calls.Handle, pos: int, whence: Whence)
      requires s.bs > 0 && e.file < |s.files|
      ensures var to := Calls.Target(s, e, pos, whence);
              Calls.Mappable(s.bs, to) ==> 0 <= to < TWO32 && Addressable(to, s.bs)
    {
      var to := Calls.Target(s, e, pos, whence);
      if to >= 0 { DivMod(to, s.bs); }
    }

    method Unlink(id: nat) returns (o: Calls.Outcome)
      requires Valid() && Calls.Legal(Seen(), Calls.Unlink(id))
      modifies box.fs`view, box.fs.dev, box.cat, box.cat.cache
      ensures Valid() && Steps(old(Seen()), Calls.Unlink(id), o)
    {
      hide Inv, Contents, Calls.Counts, Container.Valid, Client.Devices, Client.Roomy, Client.NamesKnown, Fs.Core,
           Fs.Valid,
           Sound, Catalog.NoClash;
      TableFacts(id);
      var rc := UnlinkBox(id);
      o := Calls.Result(rc);
    }

    lemma TableFacts(id: nat)
      requires Valid() && Calls.Sane(Seen())
      ensures box.fs.Core() && |Seen().files| == |box.cat.names| == box.fs.inodeCount + 1
      ensures Calls.Busy(Seen(), id, false) <==> id in box.list.table
    {
      hide ChainsOwned, NoneLost, ZeroTails, Contents, Cached, Synced, OpenedList.Valid;
      Calls.OpenIsBusy(Seen(), box.list.table, id);
    }

    method UnlinkBox(id: nat) returns (rc: Rc)
      requires box.Valid() && Roomy() && NamesKnown() && Calls.Sane(Seen())
      requires 1 <= id <= box.fs.inodeCount && id !in box.list.table ==> box.cat.names[id] != "" || !box.cat.enabled
      modifies box.fs`view, box.fs.dev`disk, box.fs.dev`bits, box.fs.dev`hint, box.cat, box.cat.cache
      ensures box.Valid() && Roomy() && NamesKnown() && box.fs.Core()
      ensures rc == if !(1 <= id <= box.fs.inodeCount) then ArgError else if id in box.list.table then AccessError
                else OK
      ensures rc == OK ==> id < |old(Seen()).files|
      ensures Seen() == if rc == OK then Calls.Unlinked(old(Seen()), id) else old(Seen())
    {
      hide ChainsOwned, NoneLost, ZeroTails, Contents, Cached, Synced, OpenedList.Valid, OthersKept, Freed,
           Catalog.Catalog.Valid,
           Client.KnownNames, Catalog.NoClash, Catalog.Unique, Sound, Container.Joined, Container.Made, NoWrap,
           Calls.Sane;
      NamesApart("");
      rc := box.Unlink(id);
      if rc == OK {
        StillKnown(old(box.cat.names), id, "");
        UnlinkContents(box.fs.dev.bs, old(box.fs.dev.disk), old(box.fs.view), box.fs.dev.disk, box.fs.view, id);
      }
    }

    lemma NamesApart(name: string)
      requires NamesKnown() && name in known + {""}
      ensures Catalog.NoClash(box.cat.hashfunc, box.cat.names, name)
    {
    }

    lemma StillKnown(names: seq<string>, id: nat, name: string)
      requires KnownNames(names) && id < |names| && name in known + {""}
      ensures KnownNames(names[id := name])
    {
    }

    // ----- names

    method Create(name: string) returns (o: Calls.Outcome)
      requires Valid() && Calls.Legal(Seen(), Calls.Create(name))
      modifies box.cat, box.cat.cache
      ensures Valid() && Steps(old(Seen()), Calls.Create(name), o)
    {
      hide Inv, Contents, Calls.Counts, Container.Valid, Fs.Core, Client.Devices, Client.Roomy, Client.KnownNames,
           Sound;
      CoreOf();
      var r := CreateBox(name);
      o := Calls.Looked(r);
    }

    method CreateBox(name: string) returns (r: Catalog.Lookup)
      requires box.Valid() && NamesKnown() && Sound(SeenNames()) && name in known + {""}
               && (name == "" ==> !box.cat.enabled)
      modifies box.cat, box.cat.cache
      ensures box.Valid() && NamesKnown() && box.fs.Core()
      ensures r == Naming.Create(old(SeenNames()), name) && SeenNames() == AfterCreate(old(SeenNames()), name)
    {
      hide Inv, Fs.Valid, OpenedList.Valid, Container.Joined, Catalog.Catalog.Valid, Catalog.NoClash, Catalog.Unique,
           Client.KnownNames;
      NamesApart(name);
      ghost var n := SeenNames();
      if Spare(n) != 0 { StillKnown(n.table, Spare(n), name); }
      r := box.cat.Create(name);
      CoreOf();
    }

    method Rename(id: nat, name: string) returns (o: Calls.Outcome)
      requires Valid() && Calls.Legal(Seen(), Calls.Rename(id, name))
      modifies box.cat, box.cat.cache
      ensures Valid() && Steps(old(Seen()), Calls.Rename(id, name), o)
    {
      hide Inv, Contents, Calls.Counts, Fs.Valid, Fs.Core, OpenedList.Valid, Container.Joined, Client.Devices,
           Client.Roomy,
           Catalog.Catalog.Valid, Catalog.NoClash, Catalog.Unique, Sound, Client.KnownNames;
      NamesApart(name);
      var rc := box.cat.NameSet(id, name);
      if rc == OK { StillKnown(old(box.cat.names), id, name); }
      o := Calls.Result(rc);
    }

    method Lookup(name: string) returns (o: Calls.Outcome)
      requires Valid() && Calls.Legal(Seen(), Calls.Lookup(name))
      modifies box.cat, box.cat.cache
      ensures Valid() && Steps(old(Seen()), Calls.Lookup(name), o)
    {
      hide Inv, Contents, Calls.Counts, Fs.Valid, Fs.Core, OpenedList.Valid, Container.Joined, Client.Devices,
           Client.Roomy,
           Catalog.Catalog.Valid, Catalog.NoClash, Catalog.Unique, Sound, Client.KnownNames;
      NamesApart(name);
      var r := box.cat.ByName(name);
      o := Calls.Looked(r);
    }

    method SetCache(on: bool, load: bool) returns (o: Calls.Outcome)
      requires Valid() && Calls.Legal(Seen(), Calls.SetCache(on, load))
      modifies box.cat, box.cat.cache
      ensures Valid() && Steps(old(Seen()), Calls.SetCache(on, load), o)
    {
      hide Inv, Contents, Calls.Counts, Fs.Valid, Fs.Core, OpenedList.Valid, Container.Joined, Client.Devices,
           Client.Roomy,
           Catalog.Catalog.Valid, Catalog.NoClash, Catalog.Unique, Sound, Separates;
      box.cat.SetHashCache(on, load);
      o := Calls.Done;
    }

    /** Reads all used flags into the bitsets, and turns the name cache on. */
    method LoadCaches() returns (o: Calls.Outcome)
      requires Valid() && Calls.Legal(Seen(), Calls.LoadCaches)
      modifies box.cat, box.cat.cache, box.fs.dev
      ensures Valid() && Steps(old(Seen()), Calls.LoadCaches, o)
    {
      hide Inv, Contents, Calls.Counts, OpenedList.Valid, Client.Devices, Client.KnownNames, Container.Valid, Fs.Valid,
           Catalog.Catalog.Valid, Catalog.NoClash, Catalog.Unique, Sound, Separates;
      box.LoadCaches();
      CoreOf();
      o := Calls.Done;
    }

    lemma CoreOf()
      requires box.Valid()
      ensures box.fs.Core() && box.fs.dev.bs > 0
    {
    }

    // ----- more blocks

    /** Enlarges the container; `stale` is what the grown file holds where the new blocks
        go: links, used flags and bytes. */
    method AddBlocks(count: nat, stale: nat -> (nat, bool, nat -> Byte)) returns (o: Calls.Outcome)
      requires Valid() && Calls.Legal(Seen(), Calls.AddBlocks(count))
      modifies box.fs`view, box.fs.dev
      ensures Valid() && Steps(old(Seen()), Calls.AddBlocks(count), o)
    {
      hide Inv, Contents, Calls.Counts, Container.Valid, Client.Devices, Client.Roomy, Fs.Core, Fs.Valid;
      TableFacts(0);
      var rc := EnlargeBox(count, stale);
      o := if rc == OK then Calls.Done else Calls.Failed(rc);
    }

    method EnlargeBox(count: nat, stale: nat -> (nat, bool, nat -> Byte)) returns (rc: Rc)
      requires box.Valid() && Roomy() && |box.fs.dev.disk.heads| + count <= MAX_BLOCKS + 1
      requires Layout.EndOf(box.Base(), box.fs.dev.bs, |box.fs.dev.disk.heads| - 1 + count) < TWO32
      modifies box.fs`view, box.fs.dev`disk, box.fs.dev`bits, box.fs.dev`hint
      ensures box.Valid() && Roomy() && box.fs.Core() && rc == if count == 0 then ArgError else OK
      ensures Seen() == old(Seen()).(blocks := old(Seen()).blocks + count)
    {
      hide ChainsOwned, NoneLost, ZeroTails, Contents, Cached, Synced, OpenedList.Valid, OthersKept, Flat;
      var bs, first := box.fs.dev.bs, |box.fs.dev.disk.heads|;
      var raw := StaleBlocks(bs, first, count, stale);
      rc := box.AppendBlocks(count, raw);
      SameContents(bs, old(box.fs.dev.disk), old(box.fs.view), box.fs.dev.disk, box.fs.view);
    }

    static function StaleBlocks(bs: nat, first: nat, count: nat,
                                stale: nat -> (nat, bool, nat -> Byte)): (r: seq<(Block, seq<Byte>)>)
      ensures |r| == count && forall k :: 0 <= k < count ==> r[k].0.id == first + k && |r[k].1| == bs
    {
      if count == 0 then []
      else StaleBlocks(bs, first, count - 1, stale) + [Stale(bs, first + count - 1, stale(first + count - 1))]
    }

    static function Stale(bs: nat, id: nat, s: (nat, bool, nat -> Byte)): (r: (Block, seq<Byte>))
      ensures r.0.id == id && |r.1| == bs
    {
      (Block(id, s.0, s.1), seq<Byte>(bs, s.2))
    }

    method Close(h: nat) returns (o: Calls.Outcome)
      requires Valid() && Calls.Legal(Seen(), Calls.Close(h))
      modifies `devs, `handles, box.fs`live, box.fs`liveIds, box.fs.dev, box.list, box.fs.live
      ensures Valid() && Steps(old(Seen()), Calls.Close(h), o)
      ensures devs == old(devs) - {h} && box.fs.live <= old(box.fs.live)
    {
      hide Inv, Contents, Calls.Counts, Container.Valid, Client.Devices, Client.Roomy, Fs.Core, Fs.Valid, Dev.Valid;
      SameHandles();
      DeviceReady(h);
      CloseDevice(h, devs[h]);
      o := Calls.Done;
    }

    method CloseDevice(h: nat, d: Dev)
      requires Valid() && h in devs && devs[h] == d
      modifies `devs, `handles, box.fs`live, box.fs`liveIds, box.fs.dev`disk, box.list, box.fs.live
      ensures Valid() && devs == old(devs) - {h} && box.fs.live <= old(box.fs.live)
      ensures Seen() == old(Seen()).(handles := old(handles) - {h})
    {
      hide Inv, Contents, Container.Valid, Client.Roomy, Calls.Counts, Client.Shown, Client.Apart, Fs.Core, Fs.Valid,
           Dev.Valid;
      CloseInode(h, d);
      Forget(h);
    }

    method CloseInode(h: nat, d: Dev)
      requires Valid() && h in devs && devs[h] == d
      modifies box.fs`live, box.fs`liveIds, box.fs.dev`disk, box.list, box.fs.live
      ensures box.Valid() && Roomy() && box.fs.Core() && Calls.Counts(handles - {h}, box.list.table)
      ensures box.fs.live <= old(box.fs.live) && Seen() == old(Seen())
      ensures forall g :: g in devs && g != h ==> DeviceOK(g, devs[g], box.fs.live)
    {
      hide Inv, Contents, Container.Valid, Client.Roomy, Calls.Counts, AfterClose, Client.Apart, Fs.Core, Fs.Valid,
           Dev.Valid;
      CloseFacts(h);
      ghost var was := box.fs.live;
      CloseBox(d, h);
      OthersLive(h, d.inode, was);
    }

    /** Closing may retire the inode, but then no other device is on it. */
    lemma OthersLive(h: nat, n: Inode, was: set<Inode>)
      requires box.fs.dev.bs > 0 && InOrder(was) && handles.Keys == devs.Keys && Shown()
      requires Calls.Counts(handles - {h}, box.list.table)
      requires box.fs.live == if n.id in box.list.table then was else was - {n}
      ensures forall g :: g in devs && g != h ==> DeviceOK(g, devs[g], box.fs.live)
    {
      hide Calls.WritersHeld, Calls.ReadersHeld;
      forall g | g in devs && g != h ensures DeviceOK(g, devs[g], box.fs.live) {
        assert DeviceOK(g, devs[g], was) && handles[g] == Shows(devs[g]);
        assert g in handles - {h} && (handles - {h})[g].file in box.list.table;
      }
    }

    /** The table is ready for the close of handle `h`. */
    lemma CloseFacts(h: nat)
      requires Valid() && h in devs
      ensures var n, t := devs[h].inode, box.list.table;
              && n in box.fs.live && n in box.list.repr && n.id in t
              && (t[n.id].readers > 0 || (n.writer != 0 && n.writer == h))
              && Calls.Counts(handles - {h}, AfterClose(t, n.id, h)) && handles[h].file == n.id
    {
      hide Inv, Fs.Valid, OpenedList.Linked;
      var n := devs[h].inode;
      assert DeviceOK(h, devs[h], box.fs.live) && handles[h] == Shows(devs[h]);
      assert box.list.Tallied(n, box.list.table[n.id]);
      Calls.CountsClose(handles, box.list.table, h);
    }

    /** A writing device flushes its inode before the handle is given back. */
    method CloseBox(d: Dev, h: nat)
      requires box.Valid() && Roomy() && d.inode in box.fs.live && d.fs == box.fs
      requires d.inode in box.list.repr && d.inode.id in box.list.table
      requires box.list.table[d.inode.id].readers > 0 || (d.inode.writer != 0 && d.inode.writer == h)
      modifies box.fs`live, box.fs`liveIds, box.fs.dev`disk, box.list, box.fs.live
      ensures box.Valid() && Roomy() && box.fs.Core()
      ensures box.list.table == AfterClose(old(box.list.table), d.inode.id, h)
      ensures box.fs.live == if d.inode.id in box.list.table then old(box.fs.live) else old(box.fs.live) - {d.inode}
      ensures Seen() == old(Seen())
    {
      hide ChainsOwned, NoneLost, ZeroTails, Contents, Cached, OpenedList.Valid, OthersKept, Flat, AfterClose;
      ghost var d0, v0 := box.fs.dev.disk, box.fs.view;
      if d.rw {
        box.FlushNode(d.inode);
      }
      var _ := box.Close(d.inode, h);
      SameContents(box.fs.dev.bs, d0, v0, box.fs.dev.disk, box.fs.view);
    }

    method Forget(h: nat)
      requires next >= 1 && box.fs.dev.bs > 0 && handles.Keys == devs.Keys && Shown() && Apart()
      requires forall g :: g in devs && g != h ==> DeviceOK(g, devs[g], box.fs.live)
      modifies `devs, `handles
      ensures Devices() && devs == old(devs) - {h} && handles == old(handles) - {h}
    {
      devs, handles := devs - {h}, handles - {h};
    }

    method Truncate(h: nat, len: nat) returns (o: Calls.Outcome)
      requires Valid() && Calls.Legal(Seen(), Calls.Truncate(h, len))
      modifies devs.Values, box.fs`view, box.fs.dev, box.fs.live
      ensures Valid() && Steps(old(Seen()), Calls.Truncate(h, len), o)
    {
      hide Inv, Contents, Calls.Counts, Container.Valid, Client.Devices, Client.Roomy, Calls.TruncateRc,
           Calls.AfterTruncate,
           Calls.Cuttable, Fs.Core, Fs.Valid, Calls.Legal, Calls.Sane, Dev.CursorOK, Dev.Mappable;
      CoreHolds();
      Calls.HandleThere(Seen(), Calls.Truncate(h, len));
      SameHandles();
      DeviceReady(h);
      var rc := TruncateDevice(h, devs[h], len);
      o := Calls.Result(rc);
    }

    method TruncateDevice(h: nat, d: Dev, len: nat) returns (rc: Rc)
      requires Valid() && h in devs && devs[h] == d && Calls.Sane(Seen()) && d.inode.id < |Seen().files|
      requires Calls.Cuttable(Seen(), Shows(d), len)
      modifies d`posabs, box.fs`view, box.fs.dev`disk, box.fs.dev`bits, box.fs.dev`hint
      modifies d.inode`list, d.inode`count, d.inode`firstBlock, d.inode`dataSize
      ensures box.Valid() && Roomy() && Devices() && box.fs.Core()
      ensures rc == Calls.TruncateRc(old(Seen()), old(Shows(d)), len)
      ensures Seen() == Calls.AfterTruncate(old(Seen()), old(Shows(d)), len)
    {
      hide Inv, Contents, Container.Valid, Client.Roomy, Calls.Counts, Addressable, Calls.TruncateRc,
           Calls.AfterTruncate,
           Calls.Cuttable, Fs.Core, Fs.Valid, Dev.Valid, Dev.CursorOK, Dev.Mappable, Client.Apart;
      DeviceReady(h);
      rc := TruncateFile(d, len);
    }

    method TruncateFile(d: Dev, len: nat) returns (rc: Rc)
      requires box.Valid() && Roomy() && d.Valid() && d.fs == box.fs && d.posabs < TWO32
      requires Calls.Sane(Seen()) && d.inode.id < |Seen().files| && Calls.Cuttable(Seen(), Shows(d), len)
      modifies d`posabs, box.fs`view, box.fs.dev`disk, box.fs.dev`bits, box.fs.dev`hint
      modifies d.inode`list, d.inode`count, d.inode`firstBlock, d.inode`dataSize
      ensures box.Valid() && Roomy() && box.fs.Core() && d.posabs == old(d.posabs)
      ensures rc == Calls.TruncateRc(old(Seen()), old(Shows(d)), len)
      ensures Seen() == Calls.AfterTruncate(old(Seen()), old(Shows(d)), len)
    {
      hide ChainsOwned, NoneLost, ZeroTails, Contents, Container.Valid, Addressable, Truncated, Resized, Calls.Cuttable,
           Calls.HeldByTruncate, Calls.Truncated, BlockIndex;
      CutReady(d, len);
      var size := d.inode.dataSize;
      ghost var s, e, disk, view := Seen(), Shows(d), box.fs.dev.disk, box.fs.view;
      rc := TruncateBox(d, len);
      if d.rw && len != size {
        if len == 0 {
          EmptiedState(s, e, disk, view, box.fs.dev.disk, box.fs.view);
        } else {
          TruncatedState(s, e, len, rc, disk, view, box.fs.dev.disk, box.fs.view);
        }
      }
    }

    /** What the client may truncate, the device can. */
    lemma CutReady(d: Dev, len: nat)
      requires box.Valid() && Roomy() && d.Valid() && d.fs == box.fs
      requires Calls.Sane(Seen()) && d.inode.id < |Seen().files| && Calls.Cuttable(Seen(), Shows(d), len)
      ensures var i := d.inode.id;
              && len < TWO32 && d.inode.dataSize < TWO32 && (len > 0 ==> Addressable(len - 1, box.fs.dev.bs))
              && i < |box.fs.view.chains| && d.inode.dataSize == box.fs.view.sizes[i]
              && (d.rw && len == 0 < d.inode.dataSize ==> box.fs.view.chains[i] == [])
              && (d.rw && 0 < len != d.inode.dataSize ==>
                    Growable(box.fs.view.chains, i, BlocksNeeded(len - 1, box.fs.dev.bs), |box.fs.dev.disk.heads| - 1))
              && (d.rw && 0 < len && Calls.TruncateRc(Seen(), Shows(d), len) == OK ==>
                  d.KeepsCache(box.fs.view, len) || len == d.inode.dataSize)
    {
      FileFits(d.inode);
      hide ChainsOwned, NoneLost, ZeroTails, Content, OpenedList.Valid, Cached, Synced, OthersKept, BlockIndex;
      CuttableKeeps(Seen(), Shows(d), len, box.fs.dev.disk, box.fs.view);
    }

    method TruncateBox(d: Dev, len: nat) returns (rc: Rc)
      requires box.Valid() && d.Valid() && d.fs == box.fs && d.posabs < TWO32 && len < TWO32 && d.inode.dataSize < TWO32
      requires len > 0 ==> Addressable(len - 1, box.fs.dev.bs)
      requires d.rw && len == 0 < d.inode.dataSize ==> box.fs.view.chains[d.inode.id] == []
      requires d.rw && 0 < len != d.inode.dataSize ==>
                 Growable(box.fs.view.chains, d.inode.id, BlocksNeeded(len - 1, box.fs.dev.bs),
                          |box.fs.dev.disk.heads| - 1)
      modifies d`posabs, box.fs`view, box.fs.dev`disk, box.fs.dev`bits, box.fs.dev`hint
      modifies d.inode`list, d.inode`count, d.inode`firstBlock, d.inode`dataSize
      ensures box.fs.Core() && d.posabs == old(d.posabs) && d.inode.id < |old(box.fs.view).chains|
      ensures !d.rw || len == old(d.inode.dataSize) ==>
                && box.Valid() && rc == (if d.rw then OK else AccessError)
                && box.fs.dev.disk == old(box.fs.dev.disk) && box.fs.view == old(box.fs.view)
      ensures d.rw && len == 0 < old(d.inode.dataSize) ==>
                && box.Valid() && rc == OK && box.fs.view.chains == old(box.fs.view).chains
                && Resized(box.fs.dev.bs, old(box.fs.dev.disk), old(box.fs.view), box.fs.dev.disk, box.fs.view,
                           d.inode.id, 0)
      ensures d.rw && 0 < len != old(d.inode.dataSize) ==>
                && Truncated(box.fs.dev.bs, old(box.fs.dev.disk), old(box.fs.view), box.fs.dev.disk, box.fs.view,
                             d.inode.id, len, rc)
                && (rc != OK || d.KeepsCache(old(box.fs.view), len) ==> box.Valid())
    {
      hide ChainsOwned, NoneLost, ZeroTails, Cached, Synced, OpenedList.Valid, Addressable, Truncated, Resized;
      assert len % TWO32 == len;
      rc := d.Trunc(len);
    }

    /** One call. */
    method Do(c: Calls.Call, stale: nat -> (nat, bool, nat -> Byte)) returns (o: Calls.Outcome)
      requires Valid() && Calls.Legal(Seen(), c)
      modifies this, devs.Values, box.fs, box.fs.dev, box.list, box.fs.live, box.cat, box.cat.cache
      ensures Valid() && box.fs.Core() && Steps(old(Seen()), c, o)
      ensures fresh(devs.Values - old(devs.Values)) && fresh(box.fs.live - old(box.fs.live))
    {
      hide Inv, Contents, Calls.Counts, Container.Valid, Client.Valid, Client.Devices, Client.Roomy, Client.Steps,
           Fs.Core, Fs.Valid, Calls.Legal;
      match c {
        case Open(id, write) => o := Open(id, write);
        case Close(h) => o := Close(h);
        case _ => o := DoOpened(c, stale);
      }
      CoreHolds();
    }

    /** A call that leaves the set of opened devices alone. */
    method DoOpened(c: Calls.Call, stale: nat -> (nat, bool, nat -> Byte)) returns (o: Calls.Outcome)
      requires Valid() && Calls.Legal(Seen(), c) && !c.Open? && !c.Close?
      modifies `handles, devs.Values, box.fs`view, box.fs.dev, box.fs.live, box.cat, box.cat.cache
      ensures Valid() && Steps(old(Seen()), c, o)
    {
      hide Inv, Contents, Calls.Counts, Container.Valid, Client.Valid, Client.Devices, Client.Roomy, Client.Steps,
           Fs.Core, Fs.Valid, Calls.Legal;
      match c {
        case Unlink(id) => o := Unlink(id);
        case AddBlocks(count) => o := AddBlocks(count, stale);
        case Seek(h, pos, whence) => o := Seek(h, pos, whence);
        case Read(h, n) => o := Read(h, n);
        case Write(h, src) => o := Write(h, src);
        case Truncate(h, len) => o := Truncate(h, len);
        case Create(name) => o := Create(name);
        case Rename(id, name) => o := Rename(id, name);
        case Lookup(name) => o := Lookup(name);
        case SetCache(on, load) => o := SetCache(on, load);
        case LoadCaches => o := LoadCaches();
      }
    }

    lemma SameHandles()
      requires Valid()
      ensures handles.Keys == devs.Keys && |handles| == |devs|
    {
      hide Container.Valid, Client.Roomy, Calls.Counts, Client.InOrder, Client.Shown;
      assert |handles| == |handles.Keys| == |devs.Keys| == |devs|;
    }

    /** What clients see is always sane: no block is held by two files, or counted twice. */
    lemma SeenSane()
      requires Valid()
      ensures Calls.Sane(Seen())
    {
      HandlesFit();
      NamesSound();
      hide ChainsOwned, NoneLost, ZeroTails, Contents, Container.Valid, Client.Devices, Client.NamesKnown,
           Client.Roomy, Calls.Counts, Sound;
      ShownSane(Seen(), box.fs.dev.disk, box.fs.view);
    }

    lemma HandlesFit()
      requires Valid()
      ensures box.fs.Core() && forall h :: h in handles ==> handles[h].file < |box.fs.view.chains|
    {
      hide ChainsOwned, NoneLost, ZeroTails, OpenedList.Valid, Catalog.Catalog.Valid, Calls.Counts, Cached, Synced;
      forall h | h in handles ensures handles[h].file < |box.fs.view.chains| {
        assert DeviceOK(h, devs[h], box.fs.live) && handles[h] == Shows(devs[h]);
      }
    }

    lemma NamesSound()
      requires Valid()
      ensures Sound(SeenNames()) && |box.cat.names| == box.fs.inodeCount + 1 == |box.fs.view.chains|
    {
      hide ChainsOwned, NoneLost, ZeroTails, OpenedList.Valid, Calls.Counts, Client.Devices, Client.Roomy, Cached,
           Synced;
    }

    lemma CoreHolds()
      requires Valid()
      ensures box.fs.Core()
    {
    }

    /** Any lawful run of calls is answered as module Calls computes, and leads to the state
        that it computes. */
    method Replay(calls: seq<Calls.Call>, stale: nat -> (nat, bool, nat -> Byte)) returns (outs: seq<Calls.Outcome>)
      requires Valid() && Calls.Lawful(Seen(), calls)
      modifies this, devs.Values, box.fs, box.fs.dev, box.list, box.fs.live, box.cat, box.cat.cache
      ensures Valid() && (Seen(), outs) == Calls.Run(old(Seen()), calls)
      ensures fresh(devs.Values - old(devs.Values)) && fresh(box.fs.live - old(box.fs.live))
    {
      hide Inv, Contents, Calls.Counts, Container.Valid, Client.Valid, Client.Devices, Client.Roomy,
           Calls.Legal, Calls.Run, Calls.Lawful, Calls.Answer, Calls.After, Fs.Core, Fs.Valid;
      outs := [];
      CoreHolds();
      ghost var s := Seen();
      Calls.RunNone(s, calls);
      for k := 0 to |calls|
        invariant Valid() && box.fs.Core() && Calls.Lawful(s, calls[..k])
        invariant (Seen(), outs) == Calls.Run(s, calls[..k])
        invariant fresh(devs.Values - old(devs.Values)) && fresh(box.fs.live - old(box.fs.live))
      {
        Calls.LawfulNext(s, calls, k);
        Calls.RunMore(s, calls[..k], calls[k]);
        assert calls[..k] + [calls[k]] == calls[..k + 1];
        var o := Do(calls[k], stale);
        outs := outs + [o];
      }
      assert calls[..|calls|] == calls;
    }
  }
}
