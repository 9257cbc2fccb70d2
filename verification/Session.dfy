/** An open container: the storage engine together with the list of opened inodes and the
    names (src/whefs_inode.c:437-628, src/whefs_fs.c:1678-1730). */
module Session {
  import opened Bytes
  import opened BlockStore
  import opened StoreSteps
  import opened ReturnCodes
  import opened Opened
  import opened Storage
  import opened Files
  import opened Catalog
  import Layout

  /** No count of handles has reached the end of its 16 bits. */
  ghost predicate NoWrap(t: Table) {
    forall id :: id in t ==> Total(t[id]) < 0x1_0000
  }

  lemma NoWrapClose(h: Handles)
    requires 0 < Total(h) < 0x1_0000
    ensures Count16(Total(h)) == 1 <==> Total(h) == 1
  {
    CountWraps(Total(h));
  }

  class Container {
    const fs: Fs
    const list: OpenedList
    const cat: Catalog
    /** What the container was made with; it may have more blocks by now. */
    const options: Layout.Options

    /** The storage engine and the list agree on which inodes are open. */
    ghost predicate Joined()
      reads fs, list
    {
      list.repr == fs.live && list.table.Keys == fs.liveIds && list.maxId == fs.inodeCount && NoWrap(list.table)
    }

    ghost predicate Valid()
      reads this, fs, fs.dev, list
      reads fs.live`firstBlock, fs.live`list, fs.live`count, fs.live`dataSize, fs.live`writer
      reads list.repr`next, list.repr`prev, list.repr`openCount, list.repr`writer
      reads cat, cat.cache
    {
      fs.Valid() && list.Valid() && Joined() && Named() && Made()
    }

    /** The parts are of the sizes that the options say. */
    ghost predicate Made() {
      && Layout.Typed(options) && fs.dev.bs == options.blockSize && fs.inodeCount == options.inodeCount
      && cat.limit == options.nameLength
    }

    /** The options that the container has by now. */
    ghost function Now(): Layout.Options
      requires |fs.dev.disk.heads| > 0
      reads fs.dev`disk
    {
      options.(blockCount := |fs.dev.disk.heads| - 1)
    }

    /** Bytes before the blocks: header, names and inodes. */
    function Base(): nat { Layout.BlocksAt(options) }

    /** Every inode has its place in the name table, and no two have the same name. */
    ghost predicate Named()
      reads cat, cat.cache
    {
      cat.Valid() && |cat.names| == fs.inodeCount + 1 && Unique(cat.names)
    }

    /** The freshly formatted container. */
    constructor (o: Layout.Options, hashfunc: string -> nat)
      requires Layout.Typed(o) && Layout.Accepted(o)
      ensures Valid() && fresh(fs) && fresh(fs.dev) && fresh(list) && list.table == map[] && fresh(cat)
              && fresh(cat.cache)
      ensures fs.live == {}
      ensures cat.hashfunc == hashfunc && cat.limit == o.nameLength && cat.enabled && !cat.loaded
              && cat.cache.list == []
      ensures cat.names == seq(o.inodeCount + 1, _ => "") && cat.used == seq(o.inodeCount + 1, _ => false)
      ensures fs.dev.bs == o.blockSize && fs.dev.disk == BlankDisk(o.blockSize, o.blockCount, o.inodeCount)
      ensures fs.view == BlankView(o.blockCount, o.inodeCount) && options == o
      ensures fs.dev.hint == Layout.FIRST_BLOCK && cat.hint == Layout.FIRST_INODE
    {
      hide Inv, Catalog.Valid, OpenedList.Linked;
      fs := new Fs(o.blockSize, o.blockCount, o.inodeCount);
      list := new OpenedList(o.inodeCount);
      cat := new Catalog(hashfunc, o.nameLength, o.inodeCount);
      options := o;
    }

    /** A container that was opened again. */
    constructor Stored(o: Layout.Options, hashfunc: string -> nat, disk: Disk, names: seq<string>, used: seq<bool>,
                       inodeHint: nat, blockHint: nat, ghost view: View)
      requires Layout.Typed(o) && Fs.Kept(o.blockSize, disk, blockHint, o.inodeCount, view)
      requires Catalog.Kept(o.nameLength, names, used, inodeHint) && |names| == o.inodeCount + 1 && Unique(names)
      ensures Valid() && fresh(fs) && fresh(fs.dev) && fresh(list) && list.table == map[] && fresh(cat)
              && fresh(cat.cache)
      ensures fs.live == {} && cat.hashfunc == hashfunc && cat.enabled && !cat.loaded && cat.limit == o.nameLength
      ensures cat.names == names && cat.used == used && fs.dev.disk == disk && fs.view == view
              && fs.dev.bs == o.blockSize
      ensures options == o && fs.dev.hint == blockHint && cat.hint == inodeHint
    {
      hide Inv, Catalog.Valid, OpenedList.Linked;
      fs := new Fs.Stored(o.blockSize, disk, blockHint, o.inodeCount, view);
      list := new OpenedList(o.inodeCount);
      cat := new Catalog.Stored(hashfunc, o.nameLength, names, used, inodeHint);
      options := o;
    }

    /** Opens an inode for the writer `writer`, or for reading if that is 0. */
    method Open(id: nat, writer: nat) returns (rc: Rc, n: Inode?)
      requires Valid() && (id in list.table ==> Total(list.table[id]) < 0xFFFF)
      modifies fs`live, fs`liveIds, list, list.repr`next, list.repr`prev, list.repr`openCount, list.repr`writer
      ensures Valid() && fs.view == old(fs.view) && fs.dev.disk == old(fs.dev.disk)
      ensures rc == if !(1 <= id <= fs.inodeCount) then ArgError
                    else if Refused(old(list.table), id, writer) then AccessError else OK
      ensures rc != OK ==> list.table == old(list.table) && list.repr == old(list.repr)
      ensures rc == OK ==>
                n != null && n in list.repr && n.id == id && list.table == AfterOpen(old(list.table), id, writer)
      ensures old(list.repr) <= list.repr && fresh(list.repr - old(list.repr))
    {
      hide Inv, NoWrap, Cached, Synced, OpenedList.Valid, Container.Named;
      var rec := if 1 <= id <= fs.inodeCount then fs.dev.disk.inodes[id] else InodeRec(0, 0);
      rc, n := OpenNode(id, writer, rec);
      WritersOnly(old(list.table), id, writer);
      if rc == OK && id !in fs.liveIds {
        Admit(n, rec);
      }
    }

    /** Counting a handle may name a writer, and changes nothing else of a node. */
    method OpenNode(id: nat, writer: nat, rec: InodeRec) returns (rc: Rc, n: Inode?)
      requires fs.Valid() && list.Valid() && list.repr == fs.live && list.maxId == fs.inodeCount
      modifies list, list.repr`next, list.repr`prev, list.repr`openCount, list.repr`writer
      ensures fs.Valid() && list.Valid()
      ensures rc == if !(1 <= id <= fs.inodeCount) then ArgError
                    else if Refused(old(list.table), id, writer) then AccessError else OK
      ensures rc != OK ==> list.table == old(list.table) && list.repr == old(list.repr)
      ensures rc == OK ==>
                n != null && n in list.repr && n.id == id && list.table == AfterOpen(old(list.table), id, writer)
      ensures rc == OK && id in old(list.table) ==> list.repr == old(list.repr)
      ensures rc == OK && id !in old(list.table) ==> list.Fresh(n, rec) && fresh(n) && list.repr == old(list.repr) + {n}
    {
      hide Cached, Inv, AfterOpen, Refused, OpenedList.Valid, Container.Named;
      assert fs.Core();
      rc, n := list.Open(id, writer, rec);
      forall m | m in fs.live ensures Cached(m, fs.dev.disk, fs.view) && Synced(m, fs.dev.disk, fs.view) {
        assert old(Cached(m, fs.dev.disk, fs.view)) && old(Synced(m, fs.dev.disk, fs.view));
      }
    }

    lemma WritersOnly(t: Table, id: nat, writer: nat)
      requires NoWrap(t) && (id in t ==> Total(t[id]) < 0xFFFF)
      ensures NoWrap(AfterOpen(t, id, writer))
    {
    }

    /** A newly opened inode is clean: what is in memory is what is on disk. */
    ghost method Admit(n: Inode, rec: InodeRec)
      requires fs.Valid() && n !in fs.live && n.id !in fs.liveIds && 1 <= n.id <= fs.inodeCount
      requires rec == fs.dev.disk.inodes[n.id] && list.Fresh(n, rec)
      modifies fs`live, fs`liveIds
      ensures fs.Valid() && fs.live == old(fs.live) + {n} && fs.liveIds == old(fs.liveIds) + {n.id}
    {
      hide ChainsOwned, NoneLost, ZeroTails;
      fs.live, fs.liveIds := fs.live + {n}, fs.liveIds + {n.id};
    }

    /** Closes one handle on `n`; its writer's last size and first block go to disk first. */
    method Close(n: Inode, writer: nat) returns (rc: Rc)
      requires Valid()
      requires n in list.repr ==> list.table[n.id].readers > 0 || (n.writer != 0 && n.writer == writer)
      modifies fs`live, fs`liveIds, fs.dev`disk, list, list.repr`next, list.repr`prev
      modifies n`openCount, n`writer, n`list, n`count
      ensures Valid() && fs.view == old(fs.view)
      ensures rc == if n in old(list.repr) then OK
                    else if 1 <= n.id <= fs.inodeCount && n.id in old(list.table) then InternalError else ArgError
      ensures rc != OK ==>
                list.table == old(list.table) && list.repr == old(list.repr) && fs.dev.disk == old(fs.dev.disk)
      ensures rc == OK ==> list.table == AfterClose(old(list.table), n.id, writer)
      ensures rc == OK ==> list.repr == if n.id in list.table then old(list.repr) else old(list.repr) - {n}
      ensures OthersKept(fs.dev.bs, old(fs.dev.disk), fs.view, fs.dev.disk, fs.view, n.id)
      ensures fs.dev.disk.heads == old(fs.dev.disk.heads) && fs.dev.disk.data == old(fs.dev.disk.data)
    {
      hide Inv, Cached, Synced, NoWrap, OthersKept, OpenedList.Valid, Container.Named;
      NothingElse(fs.dev.bs, fs.dev.disk, fs.view, n.id);
      var flush;
      rc, flush := CloseNode(n, writer);
      if flush {
        FlushNode(n);
      }
      if rc == OK && n.id !in list.table {
        Retire(n);
      }
    }

    method CloseNode(n: Inode, writer: nat) returns (rc: Rc, flush: bool)
      requires Valid()
      requires n in list.repr ==> list.table[n.id].readers > 0 || (n.writer != 0 && n.writer == writer)
      modifies list, list.repr`next, list.repr`prev, n`openCount, n`writer, n`list, n`count
      ensures list.Valid() && fs.Valid(n) && NoWrap(list.table)
      ensures rc == if n in old(list.repr) then OK
                    else if 1 <= n.id <= fs.inodeCount && n.id in old(list.table) then InternalError else ArgError
      ensures rc != OK ==> list.table == old(list.table) && list.repr == old(list.repr) && fs.Valid() && !flush
      ensures rc == OK ==> list.table == AfterClose(old(list.table), n.id, writer)
      ensures rc == OK ==> list.repr == if n.id in list.table then old(list.repr) else old(list.repr) - {n}
      ensures rc == OK ==> (n.id !in list.table ==> n.writer == 0) && (flush || Synced(n, fs.dev.disk, fs.view))
      ensures n in old(list.repr) ==> n.dataSize == fs.view.sizes[n.id]
    {
      hide Inv, NoWrap, OpenedList.Valid, Container.Named;
      CloseTable(n, writer);
      rc, flush := list.Close(n, writer);
    }

    /** The table after a close, and who is left when the node goes away. */
    lemma CloseTable(n: Inode, writer: nat)
      requires list.Valid() && NoWrap(list.table)
      requires n in list.repr ==> list.table[n.id].readers > 0 || (n.writer != 0 && n.writer == writer)
      ensures n in list.repr ==> n.id in list.table && n.writer == list.table[n.id].writer
      ensures n in list.repr ==>
                && NoWrap(AfterClose(list.table, n.id, writer))
                && (n.id !in AfterClose(list.table, n.id, writer) ==> n.writer == 0 || n.writer == writer)
    {
      if n in list.repr {
        assert list.Tallied(n, list.table[n.id]);
        NoWrapClose(list.table[n.id]);
      }
    }

    method FlushNode(n: Inode)
      requires fs.Valid(n) && n in fs.live && n.dataSize == fs.view.sizes[n.id]
      modifies fs.dev`disk
      ensures fs.Valid() && n.dataSize == fs.view.sizes[n.id] == fs.dev.disk.inodes[n.id].size
      ensures OthersKept(fs.dev.bs, old(fs.dev.disk), fs.view, fs.dev.disk, fs.view, n.id)
      ensures fs.dev.disk.heads == old(fs.dev.disk.heads) && fs.dev.disk.data == old(fs.dev.disk.data)
    {
      ghost var d := fs.dev.disk;
      SizeOnDisk(fs.dev.bs, d, fs.view, n.id, n.dataSize);
      hide ChainsOwned, NoneLost, ZeroTails, OthersKept;
      var _ := fs.InodeFlush(n);
      fs.Settle(n, null, d, fs.view);
    }

    ghost method Retire(n: Inode)
      requires fs.Valid() && n in fs.live && n.id in fs.liveIds && n.writer == 0
      modifies fs`live, fs`liveIds
      ensures fs.Valid() && fs.live == old(fs.live) - {n} && fs.liveIds == old(fs.liveIds) - {n.id}
    {
      hide ChainsOwned, NoneLost, ZeroTails;
      assert Synced(n, fs.dev.disk, fs.view);
      fs.live, fs.liveIds := fs.live - {n}, fs.liveIds - {n.id};
    }

    /** Deletes an inode nobody has open: its whole chain is wiped, then its name taken away,
        and only then its record cleared.  Taking away the name fails when the inode has none
        and the cache holds the empty name for another one; then the record still leads to
        the wiped blocks.  An inode with an opened handle is refused and keeps all it has. */
    method Unlink(id: nat) returns (rc: Rc)
      requires Valid() && NoClash(cat.hashfunc, cat.names, "")
      modifies fs`view, fs.dev`disk, fs.dev`bits, fs.dev`hint
      modifies cat`names, cat`used, cat`bits, cat`hint, cat`present, cat.cache
      ensures rc == ArgError <==> !(1 <= id <= fs.inodeCount)
      ensures rc == AccessError <==> id in list.table && 1 <= id <= fs.inodeCount
      ensures rc in {OK, ArgError, AccessError, InternalError}
      ensures (1 <= id <= fs.inodeCount && id !in list.table && old(cat.names[id]) == "" && cat.enabled
               && (exists x :: x in old(cat.cache.list) && cat.EmptyOf(x))
               && (forall x :: x in old(cat.cache.list) && cat.EmptyOf(x) ==> x.id != id)) ==> rc == InternalError
      ensures rc == InternalError ==> old(cat.names[id]) == "" && cat.enabled
      ensures Valid() <==> rc != InternalError || old(fs.view).chains[id] == []
      ensures rc != OK ==> cat.names == old(cat.names) && cat.used == old(cat.used) && fs.view == old(fs.view)
      ensures rc == ArgError || rc == AccessError ==> fs.dev.disk == old(fs.dev.disk)
      ensures rc == OK ==>
                && Unlinked(fs.dev.bs, old(fs.dev.disk), old(fs.view), fs.dev.disk, fs.view, id)
                && cat.names == old(cat.names)[id := ""] && cat.used == old(cat.used)[id := false]
      ensures rc == InternalError ==> Dangling(old(fs.dev.disk), old(fs.view), id)
      ensures (exists v :: Inv(fs.dev.bs, fs.dev.disk, v)) <==> rc != InternalError || old(fs.view).chains[id] == []
    {
      hide ChainsOwned, NoneLost, ZeroTails, Unlinked, Cached, Synced, NoWrap, OpenedList.Linked,
           Container.Named, Container.Dangling;
      if !(1 <= id <= fs.inodeCount) {
        return ArgError;
      }
      var found, _ := list.SearchOpened(id);
      if found == OK {
        return AccessError;
      }
      rc := Release(id);
    }

    /** Wipes the chain, takes the name away, clears the record. */
    method Release(id: nat) returns (rc: Rc)
      requires Valid() && NoClash(cat.hashfunc, cat.names, "") && 1 <= id <= fs.inodeCount && id !in fs.liveIds
      modifies fs`view, fs.dev`disk, fs.dev`bits, fs.dev`hint
      modifies cat`names, cat`used, cat`bits, cat`hint, cat`present, cat.cache
      ensures rc in {OK, InternalError} && Named()
      ensures (old(cat.names[id]) == "" && cat.enabled && (exists x :: x in old(cat.cache.list) && cat.EmptyOf(x))
               && (forall x :: x in old(cat.cache.list) && cat.EmptyOf(x) ==> x.id != id)) ==> rc == InternalError
      ensures rc == InternalError ==> old(cat.names[id]) == "" && cat.enabled
      ensures rc != OK ==> cat.names == old(cat.names) && cat.used == old(cat.used) && fs.view == old(fs.view)
      ensures rc == OK ==>
                && Valid() && Unlinked(fs.dev.bs, old(fs.dev.disk), old(fs.view), fs.dev.disk, fs.view, id)
                && cat.names == old(cat.names)[id := ""] && cat.used == old(cat.used)[id := false]
      ensures rc == InternalError ==> Dangling(old(fs.dev.disk), old(fs.view), id)
      ensures rc == InternalError && old(fs.view).chains[id] == [] ==> Valid()
      ensures (exists v :: Inv(fs.dev.bs, fs.dev.disk, v)) <==> rc != InternalError || old(fs.view).chains[id] == []
    {
      hide ChainsOwned, NoneLost, ZeroTails, HeadsCut, DataCut, OpenedList.Valid, Unlinked, Catalog.Valid, NoClash,
           Cached, Synced, NoWrap,
           Unique, Catalog.LeavesEmpty;
      ghost var d, v := fs.dev.disk, fs.view;
      WipeChain(id);
      rc := cat.NameSet(id, "");
      if rc == OK {
        ClearRecord(id, d, v);
      } else {
        WipedChain(fs.dev.bs, d, v, id, fs.dev.disk);
        if v.chains[id] == [] { NothingWiped(d, v, id); }
      }
    }

    lemma NothingWiped(d: Disk, v: View, id: nat)
      requires Inv(fs.dev.bs, d, v) && id < |v.chains| && Dangling(d, v, id) && v.chains[id] == []
      ensures fs.dev.disk == d
    {
      assert fs.dev.disk.heads == d.heads && fs.dev.disk.data == d.data;
    }

    /** Inode `id`'s blocks are wiped and free, and its record still leads to them. */
    ghost predicate Dangling(d: Disk, v: View, id: nat)
      requires id < |v.chains|
      reads fs, fs.dev
    {
      && HeadsCut(d.heads, fs.dev.disk.heads, v.chains[id], 0)
          && DataCut(fs.dev.bs, d.data, fs.dev.disk.data, v.chains[id])
      && fs.dev.disk.inodes == d.inodes
    }

    method WipeChain(id: nat)
      requires fs.Valid() && 1 <= id <= fs.inodeCount && id !in fs.liveIds
      modifies fs.dev`disk, fs.dev`bits, fs.dev`hint
      ensures fs.dev.Hinted() && Dangling(old(fs.dev.disk), fs.view, id)
    {
      hide Inv, HeadsCut, DataCut;
      var first := fs.dev.disk.inodes[id].first;
      ghost var c := FirstFacts(id);
      if first != 0 {
        var _, bl := fs.dev.Read(first);
        var _, _ := fs.dev.Wipe(bl, true, true, true, c);
      }
    }

    /** Writes the emptied record, which frees the inode. */
    method ClearRecord(id: nat, ghost d: Disk, ghost v: View)
      requires Inv(fs.dev.bs, d, v) && fs.view == v && fs.dev.Hinted() && 1 <= id <= fs.inodeCount && id !in fs.liveIds
      requires fs.LiveIds() && |d.inodes| == fs.inodeCount + 1 && |d.heads| <= MAX_BLOCKS + 1 && ListsFit(v)
      requires forall id :: 1 <= id <= fs.inodeCount && id !in fs.liveIds ==> d.inodes[id].size == v.sizes[id]
      requires forall n :: n in fs.live ==> Cached(n, d, v) && Synced(n, d, v)
      requires Dangling(d, v, id) && Named() && cat.names[id] == ""
      modifies fs`view, fs.dev`disk, cat`used, cat`bits, cat`hint
      ensures fs.Valid() && Unlinked(fs.dev.bs, d, v, fs.dev.disk, fs.view, id)
      ensures Named() && cat.used == old(cat.used)[id := false]
    {
      hide Inv, HeadsCut, DataCut, Unlinked, Catalog.Valid;
      cat.Unflag(id);
      fs.dev.disk := fs.dev.disk.(inodes := fs.dev.disk.inodes[id := InodeRec(0, 0)]);
      NoteUnlinked(id, d, v);
    }

    /** The chain a record leads to, as the wipe needs it. */
    lemma FirstFacts(id: nat) returns (c: seq<nat>)
      requires fs.Core() && 1 <= id <= fs.inodeCount
      ensures fs.dev.Shape() && c == fs.view.chains[id]
      ensures (fs.dev.disk.inodes[id].first == 0) == (c == [])
      ensures c == [] ==>
                HeadsCut(fs.dev.disk.heads, fs.dev.disk.heads, c, 0)
                    && DataCut(fs.dev.bs, fs.dev.disk.data, fs.dev.disk.data, c)
      ensures c != [] ==>
                fs.dev.ValidId(fs.dev.disk.inodes[id].first)
                    && fs.dev.disk.heads[fs.dev.disk.inodes[id].first].id == c[0]
      ensures c != [] ==> fs.dev.Leads(fs.dev.disk.heads[fs.dev.disk.inodes[id].first], c)
    {
      hide NoneLost, ZeroTails;
      c := fs.view.chains[id];
      assert IsChain(fs.dev.disk.heads, fs.dev.disk.inodes[id].first, c);
      if c != [] {
        SuffixLeads(fs.dev.bs, fs.dev.disk, fs.view, id, 0);
        assert c[0..] == c;
      }
    }

    ghost method NoteUnlinked(id: nat, d: Disk, v: View)
      requires Inv(fs.dev.bs, d, v) && fs.view == v && fs.dev.Hinted() && 1 <= id <= fs.inodeCount && id !in fs.liveIds
      requires fs.LiveIds() && |d.inodes| == fs.inodeCount + 1 && |d.heads| <= MAX_BLOCKS + 1 && ListsFit(v)
      requires forall id :: 1 <= id <= fs.inodeCount && id !in fs.liveIds ==> d.inodes[id].size == v.sizes[id]
      requires forall n :: n in fs.live ==> Cached(n, d, v) && Synced(n, d, v)
      requires HeadsCut(d.heads, fs.dev.disk.heads, v.chains[id], 0)
      requires DataCut(fs.dev.bs, d.data, fs.dev.disk.data, v.chains[id])
      requires fs.dev.disk.inodes == d.inodes[id := InodeRec(0, 0)]
      modifies fs`view
      ensures fs.Valid() && Unlinked(fs.dev.bs, d, v, fs.dev.disk, fs.view, id)
    {
      fs.view := v.(chains := v.chains[id := []], sizes := v.sizes[id := 0]);
      UnlinkKeeps(fs.dev.bs, d, v, id, fs.dev.disk, fs.view);
      UnlinkFrees(fs.dev.bs, d, v, id, fs.dev.disk, fs.view);
      hide ChainsOwned, NoneLost, ZeroTails, OthersKept, HeadsCut, DataCut, Unlinked;
      forall m | m in fs.live ensures Cached(m, fs.dev.disk, fs.view) && Synced(m, fs.dev.disk, fs.view) {
        StillCached(m, fs.dev.bs, d, v, fs.dev.disk, fs.view, id);
      }
    }

    /** Fills the bitsets of used inodes and blocks, and turns the name cache on. */
    method LoadCaches()
      requires Valid()
      modifies fs.dev`loaded, fs.dev`bits, fs.dev`hint, cat`loaded, cat`bits, cat`hint
      modifies cat`enabled, cat`present, cat.cache
      ensures Valid() && cat.loaded && fs.dev.loaded && cat.enabled && cat.cache.list == old(cat.cache.list)
    {
      hide Inv, Cached, Synced, NoWrap, OpenedList.Linked, Container.Named, Container.Made;
      LoadInodes();
      fs.LoadCache();
      CacheOn();
    }

    method LoadInodes()
      requires Named()
      modifies cat`loaded, cat`bits, cat`hint
      ensures Named() && cat.loaded
    {
      hide Catalog.Valid, Unique;
      cat.LoadBits();
    }

    method CacheOn()
      requires Named()
      modifies cat`enabled, cat`present, cat.cache
      ensures Named() && cat.enabled && cat.cache.list == old(cat.cache.list)
    {
      hide Catalog.Valid, Unique;
      cat.SetHashCache(true, false);
    }

    /** Adds `count` free blocks.  `raw` is whatever the enlarged file holds in their place.
        The 16-bit block ids bound how many there may be, and so does the end of the container,
        beyond which the new blocks would be taken to be among the old ones. */
    method AppendBlocks(count: nat, raw: seq<(Block, seq<Byte>)>) returns (rc: Rc)
      requires Valid() && |fs.dev.disk.heads| + count <= MAX_BLOCKS + 1
      requires Layout.EndOf(Base(), fs.dev.bs, |fs.dev.disk.heads| - 1 + count) < 0x1_0000_0000
      requires |raw| == count && forall k :: 0 <= k < count ==>
                 raw[k].0.id == |fs.dev.disk.heads| + k && |raw[k].1| == fs.dev.bs
      modifies fs`view, fs.dev`disk, fs.dev`bits, fs.dev`hint
      ensures Valid() && rc == if count == 0 then ArgError else OK
      ensures fs.dev.disk == Disk(old(fs.dev.disk.heads) + Blank(|old(fs.dev.disk.heads)|, count),
                                  old(fs.dev.disk.data) + BlankData(fs.dev.bs, count), old(fs.dev.disk.inodes))
      ensures fs.view.chains == old(fs.view).chains && fs.view.sizes == old(fs.view).sizes
      ensures OthersKept(fs.dev.bs, old(fs.dev.disk), old(fs.view), fs.dev.disk, fs.view, 0)
      ensures forall i :: 0 <= i < |fs.view.chains| ==>
                Flat(fs.dev.disk.data, fs.view.chains[i]) == Flat(old(fs.dev.disk.data), fs.view.chains[i])
    {
      hide ChainsOwned, NoneLost, ZeroTails, OthersKept, Content, Flat, OpenedList.Valid, Cached, Synced,
           Container.Named;
      if count == 0 {
        NothingElse(fs.dev.bs, fs.dev.disk, fs.view, 0);
        assert Blank(|fs.dev.disk.heads|, 0) == [] && BlankData(fs.dev.bs, 0) == [];
        return ArgError;
      }
      Enlarge(count, raw);
      rc := OK;
    }

    method Enlarge(count: nat, raw: seq<(Block, seq<Byte>)>)
      requires fs.Valid() && |fs.dev.disk.heads| + count <= MAX_BLOCKS + 1 && count > 0
      requires |raw| == count && forall k :: 0 <= k < count ==>
                 raw[k].0.id == |fs.dev.disk.heads| + k && |raw[k].1| == fs.dev.bs
      modifies fs`view, fs.dev`disk, fs.dev`bits, fs.dev`hint
      ensures fs.Valid()
      ensures fs.dev.disk == Disk(old(fs.dev.disk.heads) + Blank(|old(fs.dev.disk.heads)|, count),
                                  old(fs.dev.disk.data) + BlankData(fs.dev.bs, count), old(fs.dev.disk.inodes))
      ensures fs.view.chains == old(fs.view).chains && fs.view.sizes == old(fs.view).sizes
      ensures OthersKept(fs.dev.bs, old(fs.dev.disk), old(fs.view), fs.dev.disk, fs.view, 0)
      ensures forall i :: 0 <= i < |fs.view.chains| ==>
                Flat(fs.dev.disk.data, fs.view.chains[i]) == Flat(old(fs.dev.disk.data), fs.view.chains[i])
    {
      hide ChainsOwned, NoneLost, ZeroTails, OthersKept, Content, Flat, Cached, Synced;
      ghost var d, v := fs.dev.disk, fs.view;
      ghost var v' := v.(owner := v.owner + seq(count, _ => (0, 0)));
      fs.dev.AppendBlocks(count, raw);
      AppendKeeps(fs.dev.bs, d, v, count, fs.dev.disk, v');
      fs.view := v';
      forall m | m in fs.live ensures Cached(m, fs.dev.disk, fs.view) && Synced(m, fs.dev.disk, fs.view) {
        StillCached(m, fs.dev.bs, d, v, fs.dev.disk, fs.view, 0);
      }
    }
  }
}
