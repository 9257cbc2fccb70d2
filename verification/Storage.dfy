/** Opened inodes over the block table: the chain cache, the position mapper and
    the calls that open, close, unlink and enlarge (src/whefs_nodedev.c:28-309,
    src/whefs_inode.c:224-248 and 437-628, src/whefs_fs.c:1678-1730). */
module Storage {
  import opened Bytes
  import opened BlockStore
  import opened StoreSteps
  import opened Quota
  import opened ReturnCodes
  import opened Opened
  import opened Blocks
  import Layout

  /** Most blocks a container may have: ids are 16-bit, and the last one is no id. */
  const MAX_BLOCKS := 0xFFFE

  /** Most blocks one file may have: the doubling of its cached list is 16-bit. */
  const LONGEST := 0x8000

  /** Entries asked for when a full list of `count` entries must grow. */
  function GrowRequest(count: nat): nat { ((if count == 0 then 4 else count) * 2) % 0x1_0000 }

  /** The doubling makes room for one more entry exactly below 32768 entries;
      a list of 32768 asks for 0 entries, which frees it. */
  lemma GrowRequestFits(count: nat)
    requires count < 0x1_0000
    ensures GrowRequest(count) > count <==> count < LONGEST
  {
  }

  /** No file has more blocks than its cached list can hold. */
  ghost predicate ListsFit(v: View) {
    forall i :: 0 <= i < |v.chains| ==> |v.chains[i]| <= LONGEST
  }

  /** Extending chain `i` to `bc` blocks of a container of `blocks`, or as far as free blocks
      last, does not outgrow its cached list. */
  ghost predicate Growable(chains: seq<seq<nat>>, i: nat, bc: nat, blocks: nat)
    requires i < |chains|
  {
    bc <= LONGEST || bc > blocks || |chains[i]| + blocks - Sum(Lengths(chains)) <= LONGEST
  }

  /** A chain that must grow still has room for one more block, or nothing is free. */
  lemma GrowthFits(bs: nat, d: Disk, v: View, i: nat, bc: nat)
    requires Inv(bs, d, v) && ListsFit(v) && i < |v.chains| && |v.chains[i]| < bc < |d.heads|
    requires Growable(v.chains, i, bc, |d.heads| - 1)
    ensures |v.chains[i]| < LONGEST || AllUsed(d.heads)
  {
    HeldIsUsed(bs, d, v);
  }

  /** Growing leaves what a chain can reach. */
  lemma StillGrowable(chains: seq<seq<nat>>, i: nat, c: seq<nat>, bc: nat, blocks: nat)
    requires i < |chains| && Growable(chains, i, bc, blocks)
    ensures Growable(chains[i := c], i, bc, blocks)
  {
    HeldUpdate(chains, i, c);
  }

  /** The cached copy `l` repeats the headers of chain `c`. */
  ghost predicate Mirrors(l: seq<Block>, heads: seq<Block>, c: seq<nat>) {
    && |l| == |c|
    && forall k :: 0 <= k < |c| ==> c[k] < |heads| && l[k] == heads[c[k]]
  }

  /** A cached list after `bl` was appended: an unlinked last entry now points at it. */
  function Linked(l: seq<Block>, bl: Block): seq<Block> {
    if l != [] && l[|l| - 1].next == 0 then l[|l| - 1 := l[|l| - 1].(next := bl.id)] + [bl]
    else l + [bl]
  }

  /** What appending `bl` to the cached list `l` writes: a link from its last
      entry, or the inode record, or nothing when the link is already there. */
  function AppendDisk(d: Disk, id: nat, l: seq<Block>, first: nat, size: nat, bl: Block): Disk
    requires id < |d.inodes| && (l != [] ==> l[|l| - 1].id < |d.heads|)
  {
    if l == [] then
      if first == 0 then d.(inodes := d.inodes[id := InodeRec(bl.id, size)]) else d
    else
      var prev := l[|l| - 1];
      if prev.next == 0 then d.(heads := d.heads[prev.id := prev.(next := bl.id)]) else d
  }

  /** Linking a free block into the cached list repeats what it does to the headers. */
  lemma LinkedMirrors(l: seq<Block>, heads: seq<Block>, c: seq<nat>, b: nat)
    requires Mirrors(l, heads, c) && Distinct(c) && 1 <= b < |heads| && b !in c
    requires c != [] ==> heads[c[|c| - 1]].next == 0
    ensures Mirrors(Linked(l, Block(b, 0, true)), ExtendHeads(heads, c, b), c + [b])
  {
    var h := ExtendHeads(heads, c, b);
    forall k | 0 <= k < |c| ensures Linked(l, Block(b, 0, true))[k] == h[c[k]] {
      assert c[k] != b;
      if k < |c| - 1 { assert c[k] != c[|c| - 1]; }
    }
  }

  /** An opened inode agrees with its record on where the chain starts, and its
      list, once loaded, is the chain. */
  ghost predicate Cached(n: Inode, d: Disk, v: View)
    reads n`firstBlock, n`list, n`count
  {
    && n.id < |d.inodes| && n.id < |v.chains|
    && n.firstBlock == d.inodes[n.id].first
    && n.count <= |n.list|
    && if n.list == [] then n.count == 0 else Mirrors(n.list[..n.count], d.heads, v.chains[n.id])
  }

  /** The size in memory is the file's size; without a writer it is also on disk. */
  ghost predicate Synced(n: Inode, d: Disk, v: View)
    reads n`dataSize, n`writer
  {
    && n.id < |d.inodes| && n.id < |v.sizes|
    && n.dataSize == v.sizes[n.id]
    && (n.writer == 0 ==> d.inodes[n.id].size == n.dataSize)
  }

  /** A change to inode `i` leaves what other opened inodes cache true. */
  lemma StillCached(m: Inode, bs: nat, d: Disk, v: View, d': Disk, v': View, i: nat)
    requires Inv(bs, d, v) && Inv(bs, d', v') && OthersKept(bs, d, v, d', v', i)
    requires Cached(m, d, v) && m.id != i && |d'.inodes| == |d.inodes| && |d'.heads| >= |d.heads|
    ensures Cached(m, d', v')
    ensures Synced(m, d, v) ==> Synced(m, d', v')
  {
    assert forall k :: 0 <= k < |v.chains[m.id]| ==> d'.heads[v.chains[m.id][k]] == d.heads[v.chains[m.id][k]];
  }

  /** What the position mapper promises for the `bc`-th block of inode `i`'s chain:
      the very block reached by following `bc - 1` links, found without expanding, or
      after appending exactly the missing blocks, or a refusal that says why. */
  ghost predicate Mapped(bs: nat, d: Disk, v: View, d': Disk, v': View, i: nat, bc: nat, expand: bool, rc: Rc,
                         bl: Block)
    requires Inv(bs, d, v) && Inv(bs, d', v') && i < |v.chains| && bc > 0
  {
    && Grown(bs, d, v, d', v', i)
    && (rc == OK ==> bc <= |v'.chains[i]| && bl == d'.heads[v'.chains[i][bc - 1]])
    && (rc == OK ==> |v'.chains[i]| == Max(|v.chains[i]|, bc))
    && (!expand || rc == RangeError ==> d' == d && v' == v)
    && (!expand ==> rc == OK || rc == RangeError)
    && (expand ==> (rc == RangeError <==> bc >= |d.heads|))
    && (rc != OK && rc != RangeError ==>
          rc == FSFull && |v'.chains[i]| < bc && forall b :: 1 <= b < |d'.heads| ==> d'.heads[b].used)
  }

  class Fs {
    const inodeCount: nat
    const dev: BlockTable
    ghost var view: View
    /** The opened inodes, of which module Session keeps the list. */
    ghost var live: set<Inode>
    ghost var liveIds: set<nat>

    /** The freshly formatted container: nothing in use, nothing open. */
    constructor (bs: nat, blocks: nat, inodes: nat)
      requires bs > 0 && blocks <= MAX_BLOCKS
      ensures Valid() && fresh(dev) && live == {} && liveIds == {}
      ensures dev.bs == bs && dev.disk == BlankDisk(bs, blocks, inodes) && inodeCount == inodes
      ensures view == BlankView(blocks, inodes) && dev.hint == Layout.FIRST_BLOCK
    {
      inodeCount := inodes;
      dev := new BlockTable(bs, BlankDisk(bs, blocks, inodes), Layout.FIRST_BLOCK);
      view, live, liveIds := BlankView(blocks, inodes), {}, {};
      BlankIsValid(bs, blocks, inodes);
    }

    /** A container that was opened again: the records are what they were, nothing is open. */
    constructor Stored(bs: nat, disk: Disk, hint: nat, inodes: nat, ghost view: View)
      requires Kept(bs, disk, hint, inodes, view)
      ensures Valid() && fresh(dev) && live == {} && liveIds == {}
      ensures dev.bs == bs && dev.disk == disk && inodeCount == inodes && this.view == view && dev.hint == hint
    {
      inodeCount := inodes;
      dev := new BlockTable(bs, disk, hint);
      this.view, live, liveIds := view, {}, {};
    }

    /** What is stored of files agrees with itself. */
    static ghost predicate Kept(bs: nat, disk: Disk, hint: nat, inodes: nat, view: View) {
      && Inv(bs, disk, view) && |disk.inodes| == inodes + 1 && |disk.heads| <= MAX_BLOCKS + 1 && ListsFit(view)
      && hint <= |disk.heads| && (forall b :: 1 <= b < |disk.heads| && b < hint ==> disk.heads[b].used)
      && forall id :: 1 <= id <= inodes ==> disk.inodes[id].size == view.sizes[id]
    }

    lemma IsKept()
      requires Core() && liveIds == {}
      ensures Kept(dev.bs, dev.disk, dev.hint, inodeCount, view)
    {
      hide Inv;
    }

    ghost predicate LiveIds()
      reads this
    {
      && (forall n :: n in live ==> 1 <= n.id <= inodeCount && n.id in liveIds)
      && (forall n, m :: n in live && m in live && n.id == m.id ==> n == m)
    }

    ghost predicate Core()
      reads this, dev
    {
      && Inv(dev.bs, dev.disk, view) && dev.Hinted()
      && |dev.disk.inodes| == inodeCount + 1
      && |dev.disk.heads| <= MAX_BLOCKS + 1 && ListsFit(view)
      && LiveIds()
      && (forall id :: 1 <= id <= inodeCount && id !in liveIds ==> dev.disk.inodes[id].size == view.sizes[id])
    }

    /** Everything the storage engine relies on; `but` is an inode whose size is
        just being changed. */
    ghost predicate Valid(but: Inode? := null)
      reads this, dev, live`firstBlock, live`list, live`count, live`dataSize, live`writer
    {
      && Core()
      && (forall n :: n in live ==> Cached(n, dev.disk, view) && (n != but ==> Synced(n, dev.disk, view)))
    }

    method InodeFlush(n: Inode) returns (rc: Rc)
      requires n.id < |dev.disk.inodes|
      modifies dev`disk
      ensures rc == if n.id == 0 then ArgError else OK
      ensures dev.disk == if rc == OK
                          then old(dev.disk).(inodes :=
                                 old(dev.disk.inodes)[n.id := InodeRec(n.firstBlock, n.dataSize)])
                          else old(dev.disk)
    {
      if n.id == 0 {
        return ArgError;
      }
      dev.disk := dev.disk.(inodes := dev.disk.inodes[n.id := InodeRec(n.firstBlock, n.dataSize)]);
      rc := OK;
    }

    method Reserve(n: Inode, count: nat) returns (rc: Rc)
      requires n.count <= |n.list|
      modifies n`list, n`count
      ensures rc == OK
      ensures count == 0 ==> n.list == [] && n.count == 0
      ensures count > 0 ==> n.count == old(n.count) && |n.list| == Max(|old(n.list)|, count)
                            && n.list[..n.count] == old(n.list[..n.count])
    {
      if count == 0 {
        n.list, n.count := [], 0;
      } else if |n.list| < count {
        n.list := n.list[..n.count] + seq(count - n.count, _ => EMPTY_BLOCK);
      }
      rc := OK;
    }

    /** Appends a copy of `bl` to the cached list and links it to its predecessor,
        or to the inode if it is the first. */
    method Append(n: Inode, bl: Block) returns (rc: Rc)
      requires dev.Shape() && n.count <= |n.list| && n.count < LONGEST
      requires dev.ValidId(bl.id) && 1 <= n.id < |dev.disk.inodes|
      requires n.count > 0 ==> dev.ValidId(n.list[n.count - 1].id)
      modifies n`list, n`count, n`firstBlock, dev`disk, dev`bits, dev`hint
      ensures dev.Shape() && n.count <= |n.list|
      ensures rc == if Joins(if old(n.count) > 0 then old(n.list[n.count - 1]).next else old(n.firstBlock), bl.id)
                    then OK else InternalError
      ensures rc == OK ==>
                && n.count == old(n.count) + 1
                && n.list[..n.count] == Linked(old(n.list[..n.count]), bl)
                && n.firstBlock == (if old(n.count) == 0 then bl.id else old(n.firstBlock))
      ensures rc != OK ==> n.count == old(n.count) && n.firstBlock == old(n.firstBlock)
      ensures dev.disk == if rc != OK then old(dev.disk)
                          else AppendDisk(old(dev.disk), n.id, old(n.list[..n.count]), old(n.firstBlock), n.dataSize,
                                          bl)
      ensures old(dev.Hinted()) && (old(n.count) > 0 ==> old(n.list[n.count - 1]).used) ==> dev.Hinted()
    {
      ghost var l := n.list[..n.count];
      MakeRoom(n);
      n.list := n.list[n.count := bl];
      assert n.list[..n.count] == l;
      assert n.count > 0 ==> n.list[n.count - 1] == l[n.count - 1];
      if n.count > 0 {
        rc := LinkLast(n, bl);
      } else {
        rc := LinkFirst(n, bl);
      }
      if rc == OK {
        n.count := n.count + 1;
        assert n.list[..n.count] == Linked(l, bl);
      }
    }

    /** A link that is unset, or already set to `id`, can be set to `id`. */
    static predicate Joins(link: nat, id: nat) { link == 0 || link == id }

    method MakeRoom(n: Inode)
      requires n.count <= |n.list| && n.count < LONGEST
      modifies n`list, n`count
      ensures n.count == old(n.count) < |n.list| && n.list[..n.count] == old(n.list[..n.count])
    {
      if |n.list| <= n.count {
        GrowRequestFits(n.count);
        var _ := Reserve(n, GrowRequest(n.count));
      }
    }

    /** The first block goes into the inode, and with it to disk, unless it is there already. */
    method LinkFirst(n: Inode, bl: Block) returns (rc: Rc)
      requires dev.Shape() && 1 <= n.id < |dev.disk.inodes|
      modifies n`firstBlock, dev`disk
      ensures rc == if Joins(old(n.firstBlock), bl.id) then OK else InternalError
      ensures n.firstBlock == if rc == OK then bl.id else old(n.firstBlock)
      ensures dev.disk == if rc == OK && old(n.firstBlock) == 0
                          then old(dev.disk).(inodes := old(dev.disk.inodes)[n.id := InodeRec(bl.id, n.dataSize)])
                          else old(dev.disk)
    {
      rc := OK;
      if n.firstBlock != 0 {
        if n.firstBlock != bl.id {
          rc := InternalError;
        }
      } else {
        n.firstBlock := bl.id;
        rc := InodeFlush(n);
      }
    }

    /** The last cached block gets `bl` as its next block, on disk too, unless it leads there already. */
    method LinkLast(n: Inode, bl: Block) returns (rc: Rc)
      requires dev.Shape() && 0 < n.count < |n.list| && dev.ValidId(n.list[n.count - 1].id)
      modifies n`list, dev`disk, dev`bits, dev`hint
      ensures dev.Shape()
      ensures rc == if Joins(old(n.list[n.count - 1]).next, bl.id) then OK else InternalError
      ensures var prev := old(n.list[n.count - 1]);
              if rc == OK && prev.next == 0 then
                && n.list == old(n.list)[n.count - 1 := prev.(next := bl.id)]
                && dev.disk == old(dev.disk).(heads := old(dev.disk.heads)[prev.id := prev.(next := bl.id)])
              else n.list == old(n.list) && dev.disk == old(dev.disk)
      ensures old(dev.Hinted()) && old(n.list[n.count - 1]).used ==> dev.Hinted()
    {
      rc := OK;
      var prev := n.list[n.count - 1];
      if prev.next == 0 {
        prev := prev.(next := bl.id);
        n.list := n.list[n.count - 1 := prev];
        var _ := dev.Flush(prev);
      } else if prev.next != bl.id {
        rc := InternalError;
      }
    }

    /** Reads the whole chain of an opened inode into its list. */
    method Load(n: Inode, ghost but: Inode?) returns (rc: Rc)
      requires Valid(but) && n in live && n.list == []
      modifies n`list, n`count, n`firstBlock, dev`disk, dev`bits, dev`hint
      ensures Valid(but) && rc == OK
      ensures dev.disk == old(dev.disk) && n.firstBlock == old(n.firstBlock)
      ensures n.count == |view.chains[n.id]| && (n.count > 0 ==> n.list != [])
    {
      assert IsChain(dev.disk.heads, n.firstBlock, view.chains[n.id]);
      if n.firstBlock == 0 {
        return OK;
      }
      ChainFits(dev.bs, dev.disk, view, n.id);
      rc := LoadChain(n, view.chains[n.id]);
    }

    method LoadChain(n: Inode, ghost c: seq<nat>) returns (rc: Rc)
      requires dev.Shape() && dev.Hinted() && 1 <= n.id < |dev.disk.inodes| && n.list == [] && n.count == 0
      requires IsChain(dev.disk.heads, n.firstBlock, c) && 0 < |c| <= LONGEST
      requires forall k {:trigger dev.disk.heads[c[k]]} :: 0 <= k < |c| ==> dev.disk.heads[c[k]].used
      modifies n`list, n`count, n`firstBlock, dev`disk, dev`bits, dev`hint
      ensures rc == OK && dev.Hinted() && dev.disk == old(dev.disk) && n.firstBlock == old(n.firstBlock)
      ensures n.count == |c| <= |n.list| && Mirrors(n.list[..n.count], dev.disk.heads, c)
    {
      var bl;
      rc, bl := dev.Read(n.firstBlock);
      rc := LoadOne(n, bl, c);
      while bl.next != 0
        invariant 1 <= n.count <= |c| && n.count <= |n.list| && rc == OK
        invariant dev.disk == old(dev.disk) && dev.Hinted() && n.firstBlock == old(n.firstBlock)
        invariant Mirrors(n.list[..n.count], dev.disk.heads, c[..n.count])
        invariant bl == dev.disk.heads[c[n.count - 1]]
        decreases |c| - n.count
      {
        assert bl.next == Succ(c, n.count - 1);
        rc, bl := dev.ReadNext(bl);
        rc := LoadOne(n, bl, c);
      }
      assert bl.next == Succ(c, n.count - 1);
      assert c[..n.count] == c;
    }

    /** Appending the next block of a chain that is already linked on disk writes nothing. */
    method LoadOne(n: Inode, bl: Block, ghost c: seq<nat>) returns (rc: Rc)
      requires dev.Shape() && dev.Hinted() && 1 <= n.id < |dev.disk.inodes|
      requires IsChain(dev.disk.heads, n.firstBlock, c) && |c| <= LONGEST
      requires forall k {:trigger dev.disk.heads[c[k]]} :: 0 <= k < |c| ==> dev.disk.heads[c[k]].used
      requires n.count < |c| && n.count <= |n.list| && bl == dev.disk.heads[c[n.count]]
      requires Mirrors(n.list[..n.count], dev.disk.heads, c[..n.count])
      modifies n`list, n`count, n`firstBlock, dev`disk, dev`bits, dev`hint
      ensures rc == OK && dev.Hinted() && dev.disk == old(dev.disk) && n.firstBlock == old(n.firstBlock)
      ensures n.count == old(n.count) + 1 <= |n.list|
      ensures Mirrors(n.list[..n.count], dev.disk.heads, c[..n.count])
    {
      ghost var k := n.count;
      if k > 0 {
        assert n.list[..k][k - 1] == dev.disk.heads[c[..k][k - 1]];
        assert dev.disk.heads[c[k - 1]].next == Succ(c, k - 1);
      }
      rc := Append(n, bl);
      assert c[..k + 1] == c[..k] + [c[k]];
    }

    /** Takes the lowest free block and appends it to the chain. */
    method AddBlock(n: Inode, ghost but: Inode?) returns (rc: Rc, bl: Block)
      requires Valid(but) && n in live && n.count == |view.chains[n.id]|
      requires n.count < LONGEST || AllUsed(dev.disk.heads)
      modifies this`view, n`list, n`count, n`firstBlock, dev`disk, dev`bits, dev`hint
      ensures Valid(but) && (rc == OK || rc == FSFull)
      ensures rc == FSFull <==> forall b :: 1 <= b < |old(dev.disk.heads)| ==> old(dev.disk.heads)[b].used
      ensures Grown(dev.bs, old(dev.disk), old(view), dev.disk, view, n.id)
      ensures rc != OK ==> dev.disk == old(dev.disk) && view == old(view) && n.count == old(n.count)
      ensures rc == OK ==>
                && view.chains == old(view).chains[n.id := old(view).chains[n.id] + [bl.id]]
                    && n.count == old(n.count) + 1
                && bl.id < |dev.disk.heads| == |old(dev.disk.heads)| && bl == dev.disk.heads[bl.id]
    {
      hide ChainsOwned, NoneLost, ZeroTails, Grown;
      ghost var d, v := dev.disk, view;
      NothingGrown(dev.bs, d, v, n.id);
      rc, bl := LinkFree(n);
      if rc == OK {
        Extend(n, but, d, v, bl.id);
      }
    }

    /** Records in the view that block `b` now ends the chain of `n`. */
    ghost method Extend(n: Inode, but: Inode?, d: Disk, v: View, b: nat)
      requires Inv(dev.bs, d, v) && view == v && n in live && dev.Hinted()
      requires LiveIds() && |d.inodes| == inodeCount + 1 && |d.heads| <= MAX_BLOCKS + 1
      requires ListsFit(v) && |v.chains[n.id]| < LONGEST
      requires forall id :: 1 <= id <= inodeCount && id !in liveIds ==> d.inodes[id].size == v.sizes[id]
      requires forall m :: m in live && m != n ==> Cached(m, d, v) && (m != but ==> Synced(m, d, v))
      requires 1 <= b < |d.heads| && !d.heads[b].used && dev.disk.data == d.data
      requires dev.disk.heads == ExtendHeads(d.heads, v.chains[n.id], b)
      requires dev.disk.inodes == d.inodes[n.id :=
                 if v.chains[n.id] == [] then InodeRec(b, n.dataSize) else d.inodes[n.id]]
      requires n.firstBlock == dev.disk.inodes[n.id].first && n.count <= |n.list| && n.list != []
      requires Mirrors(n.list[..n.count], dev.disk.heads, v.chains[n.id] + [b])
      requires n != but ==> Synced(n, d, v)
      modifies this`view
      ensures Valid(but) && view == ExtendView(v, n.id, b)
      ensures Grown(dev.bs, d, v, dev.disk, view, n.id)
    {
      hide ChainsOwned, NoneLost, ZeroTails, OthersKept;
      ExtendKeeps(dev.bs, d, v, n.id, b, dev.disk);
      view := ExtendView(v, n.id, b);
      Settle(n, but, d, v);
    }

    /** Validity after a change that concerned inode `n` alone. */
    lemma Settle(n: Inode, but: Inode?, d: Disk, v: View)
      requires Core() && n in live
      requires Inv(dev.bs, d, v) && OthersKept(dev.bs, d, v, dev.disk, view, n.id)
      requires |d.inodes| == |dev.disk.inodes| && |d.heads| <= |dev.disk.heads|
      requires forall m :: m in live && m != n ==> Cached(m, d, v) && (m != but ==> Synced(m, d, v))
      requires Cached(n, dev.disk, view) && (n != but ==> Synced(n, dev.disk, view))
      ensures Valid(but)
    {
      forall m | m in live && m != n
        ensures Cached(m, dev.disk, view) && (m != but ==> Synced(m, dev.disk, view))
      {
        StillCached(m, dev.bs, d, v, dev.disk, view, n.id);
      }
    }

    method LinkFree(n: Inode) returns (rc: Rc, bl: Block)
      requires Inv(dev.bs, dev.disk, view) && dev.Hinted() && |dev.disk.heads| <= MAX_BLOCKS + 1
      requires n.id >= 1 && Cached(n, dev.disk, view) && n.count == |view.chains[n.id]|
      requires n.count < LONGEST || AllUsed(dev.disk.heads)
      modifies n`list, n`count, n`firstBlock, dev`disk, dev`bits, dev`hint
      ensures dev.Hinted() && (rc == OK || rc == FSFull)
      ensures rc == FSFull <==> forall b :: 1 <= b < |old(dev.disk.heads)| ==> old(dev.disk.heads)[b].used
      ensures rc != OK ==>
                dev.disk == old(dev.disk) && n.list == old(n.list) && n.count == old(n.count)
                    && n.firstBlock == old(n.firstBlock)
      ensures rc == OK ==>
                && 1 <= bl.id < |old(dev.disk.heads)| && !old(dev.disk.heads)[bl.id].used && bl == Block(bl.id, 0, true)
                && dev.disk.heads == ExtendHeads(old(dev.disk.heads), view.chains[n.id], bl.id)
                && dev.disk.heads[bl.id] == bl
                && dev.disk.data == old(dev.disk.data)
                && dev.disk.inodes == old(dev.disk.inodes)[n.id :=
                     if view.chains[n.id] == [] then InodeRec(bl.id, n.dataSize) else old(dev.disk.inodes)[n.id]]
                && n.firstBlock == dev.disk.inodes[n.id].first && n.count == old(n.count) + 1 <= |n.list|
                && Mirrors(n.list[..n.count], dev.disk.heads, view.chains[n.id] + [bl.id])
    {
      hide ChainsOwned, NoneLost, ZeroTails, IsChain, Distinct, Mirrors;
      ghost var c, h := view.chains[n.id], dev.disk.heads;
      LinkReady(dev.bs, dev.disk, view, n.id);
      rc, bl := dev.NextFree(true);
      if rc == OK {
        Attach(n, bl, h, c);
      }
    }

    static lemma LinkReady(bs: nat, d: Disk, v: View, i: nat)
      requires Inv(bs, d, v) && i < |v.chains|
      ensures var c, h := v.chains[i], d.heads;
              && Distinct(c) && IsChain(h, d.inodes[i].first, c)
              && (forall k :: 0 <= k < |c| ==> 1 <= c[k] < |h| && h[c[k]].used && h[c[k]].id == c[k])
              && (c != [] ==> h[c[|c| - 1]].next == 0)
              && (forall b :: 1 <= b < |h| && !h[b].used ==> h[b].next == 0)
    {
      var c := v.chains[i];
      ChainDistinct(bs, d, v, i);
      assert IsChain(d.heads, d.inodes[i].first, c);
      if c != [] { assert d.heads[c[|c| - 1]].next == Succ(c, |c| - 1); }
    }

    lemma AttachFacts(n: Inode, h: seq<Block>, c: seq<nat>, b: nat)
      requires |c| < LONGEST && Distinct(c) && IsChain(h, n.firstBlock, c) && n.count == |c| <= |n.list|
      requires if n.list == [] then n.count == 0 else Mirrors(n.list[..n.count], h, c)
      requires forall k :: 0 <= k < |c| ==> h[c[k]].used && h[c[k]].id == c[k]
      requires 1 <= b < |h| && !h[b].used
      ensures n.firstBlock == 0 <==> c == []
      ensures forall k :: 0 <= k < |c| ==> 1 <= c[k] < |h| && c[k] != b
      ensures c != [] ==>
                n.list[n.count - 1] == h[c[|c| - 1]] && h[c[|c| - 1]].next == 0 && h[c[|c| - 1]].id == c[|c| - 1]
      ensures Mirrors(Linked(n.list[..n.count], Block(b, 0, true)), ExtendHeads(h, c, b), c + [b])
    {
      if c != [] {
        assert n.list[..n.count][n.count - 1] == h[c[|c| - 1]];
        assert h[c[|c| - 1]].next == Succ(c, |c| - 1);
      }
      LinkedMirrors(n.list[..n.count], h, c, b);
    }

    method Attach(n: Inode, bl: Block, ghost h: seq<Block>, ghost c: seq<nat>)
      requires dev.Shape() && dev.Hinted() && |c| < LONGEST && 1 <= n.id < |dev.disk.inodes|
      requires Distinct(c) && IsChain(h, n.firstBlock, c) && n.count <= |n.list|
      requires (if n.list == [] then n.count == 0 else Mirrors(n.list[..n.count], h, c)) && n.count == |c|
      requires forall k :: 0 <= k < |c| ==> h[c[k]].used && h[c[k]].id == c[k]
      requires 1 <= bl.id < |h| && !h[bl.id].used && bl == Block(bl.id, 0, true)
      requires dev.disk.heads == h[bl.id := bl]
      modifies n`list, n`count, n`firstBlock, dev`disk, dev`bits, dev`hint
      ensures dev.Hinted()
      ensures dev.disk.heads == ExtendHeads(h, c, bl.id) && dev.disk.data == old(dev.disk.data)
      ensures dev.disk.inodes == old(dev.disk.inodes)[n.id :=
                if c == [] then InodeRec(bl.id, n.dataSize) else old(dev.disk.inodes)[n.id]]
      ensures n.firstBlock == (if c == [] then bl.id else old(n.firstBlock))
      ensures n.count == old(n.count) + 1 <= |n.list|
      ensures Mirrors(n.list[..n.count], dev.disk.heads, c + [bl.id])
    {
      AttachFacts(n, h, c, bl.id);
      hide Linked, Mirrors, IsChain, Distinct;
      var _ := Append(n, bl);
    }

    /** Maps a file position to the block that holds it, and with `expand` extends the
        chain until there is one.  The number of blocks needed is a uint16. */
    method BlockForPos(n: Inode, pos: nat, expand: bool, ghost but: Inode?) returns (rc: Rc, bl: Block)
      requires Valid(but) && n in live
      requires Addressable(pos, dev.bs)
      requires expand ==> Growable(view.chains, n.id, BlocksNeeded(pos, dev.bs), |dev.disk.heads| - 1)
      modifies this`view, n`list, n`count, n`firstBlock, dev`disk, dev`bits, dev`hint
      ensures Valid(but)
      ensures Mapped(dev.bs, old(dev.disk), old(view), dev.disk, view, n.id, BlocksNeeded(pos, dev.bs), expand, rc, bl)
      ensures rc == OK ==> n.count == |view.chains[n.id]|
      ensures !expand ==>
                rc == if pos < n.dataSize && BlocksNeeded(pos, dev.bs) <= |view.chains[n.id]| then OK else RangeError
    {
      if n.dataSize <= pos && !expand {
        return RangeError, EMPTY_BLOCK;
      }
      CountFits(pos, dev.bs);
      hide BlockIndex;
      rc, bl := NthBlock(n, BlockCount16(pos, dev.bs), expand, but);
    }

    /** The jump into the list once the chain is cached, or the expansion of the chain. */
    method NthBlock(n: Inode, bc: nat, expand: bool, ghost but: Inode?) returns (rc: Rc, bl: Block)
      requires Valid(but) && n in live && bc > 0
      requires expand ==> Growable(view.chains, n.id, bc, |dev.disk.heads| - 1)
      modifies this`view, n`list, n`count, n`firstBlock, dev`disk, dev`bits, dev`hint
      ensures Valid(but)
      ensures Mapped(dev.bs, old(dev.disk), old(view), dev.disk, view, n.id, bc, expand, rc, bl)
      ensures !expand ==> (rc == OK <==> bc <= |view.chains[n.id]|)
      ensures rc == OK ==> n.count == |view.chains[n.id]|
    {
      hide NoneLost, ZeroTails, Grown;
      bl := EMPTY_BLOCK;
      NothingGrown(dev.bs, dev.disk, view, n.id);
      rc := Prepare(n, bc, but);
      if rc != OK || (!expand && n.count < bc) {
        return RangeError, bl;
      }
      if bc <= n.count {
        bl := n.list[bc - 1];
        assert n.list[..n.count][bc - 1] == dev.disk.heads[view.chains[n.id][bc - 1]];
      } else {
        rc, bl := Expand(n, bc, but);
      }
    }

    /** Refuses more blocks than the container has, and loads the chain if it is not cached. */
    method Prepare(n: Inode, bc: nat, ghost but: Inode?) returns (rc: Rc)
      requires Valid(but) && n in live
      modifies n`list, n`count, n`firstBlock, dev`disk, dev`bits, dev`hint
      ensures Valid(but) && dev.disk == old(dev.disk)
      ensures rc == if bc >= |dev.disk.heads| then RangeError else OK
      ensures rc == OK ==> n.count == |view.chains[n.id]|
      ensures |view.chains[n.id]| < |dev.disk.heads|
      ensures n.count > 0 ==> n.count == |view.chains[n.id]|
    {
      ChainFits(dev.bs, dev.disk, view, n.id);
      if bc > |dev.disk.heads| - 1 {
        return RangeError;
      }
      rc := OK;
      if n.list == [] {
        rc := Load(n, but);
      }
    }

    method Expand(n: Inode, bc: nat, ghost but: Inode?) returns (rc: Rc, bl: Block)
      requires Valid(but) && n in live && n.count == |view.chains[n.id]| < bc < |dev.disk.heads|
      requires Growable(view.chains, n.id, bc, |dev.disk.heads| - 1)
      modifies this`view, n`list, n`count, n`firstBlock, dev`disk, dev`bits, dev`hint
      ensures Valid(but) && n.count == |view.chains[n.id]|
      ensures Grown(dev.bs, old(dev.disk), old(view), dev.disk, view, n.id)
      ensures rc == OK ==> n.count == bc && bl == dev.disk.heads[view.chains[n.id][bc - 1]]
      ensures rc != OK ==> rc == FSFull && n.count < bc && forall b :: 1 <= b < |dev.disk.heads| ==>
                dev.disk.heads[b].used
    {
      hide ChainsOwned, NoneLost, ZeroTails, Grown, Growable, AllUsed, Mirrors, Synced, ListsFit, Fs.LiveIds;
      rc, bl := OK, EMPTY_BLOCK;
      NothingGrown(dev.bs, dev.disk, view, n.id);
      var i := n.count;
      while i < bc
        invariant Valid(but) && i == n.count == |view.chains[n.id]| && rc == OK
        invariant Grown(dev.bs, old(dev.disk), old(view), dev.disk, view, n.id)
        invariant |dev.disk.heads| == |old(dev.disk.heads)| && Growable(view.chains, n.id, bc, |dev.disk.heads| - 1)
        invariant i <= bc && bl.id < |dev.disk.heads|
        invariant i > old(n.count) ==> bl.id == view.chains[n.id][i - 1] && bl == dev.disk.heads[bl.id]
      {
        ghost var d, v := dev.disk, view;
        GrowthFits(dev.bs, d, v, n.id, bc);
        rc, bl := AddBlock(n, but);
        if rc != OK {
          return;
        }
        StillGrowable(v.chains, n.id, view.chains[n.id], bc, |d.heads| - 1);
        GrownTwice(dev.bs, old(dev.disk), old(view), d, v, dev.disk, view, n.id);
        i := i + 1;
      }
    }

    /** Stores `w` in the block that holds byte `pos` of an opened file, and raises the
        file's size to cover it. */
    method Store(n: Inode, bl: Block, pos: nat, w: seq<Byte>)
      requires Valid() && n in live && n.writer != 0
      requires Holds(n, bl, pos) && w != [] && BlockOffset(pos, dev.bs) + |w| <= dev.bs
      modifies this`view, n`dataSize, dev`disk
      ensures Valid()
      ensures Wrote(dev.bs, old(dev.disk), old(view), dev.disk, view, n.id, pos, w)
      ensures view.chains == old(view).chains && dev.disk.heads == old(dev.disk.heads)
      ensures n.dataSize == Max(old(n.dataSize), pos + |w|)
    {
      ghost var d, v := dev.disk, view;
      assert IsChain(d.heads, d.inodes[n.id].first, v.chains[n.id]);
      Offset(pos, dev.bs);
      dev.WriteData(bl, BlockOffset(pos, dev.bs), w);
      if n.dataSize < pos + |w| {
        n.dataSize := pos + |w|;
      }
      NoteStore(n, d, pos, w);
    }

    ghost method NoteStore(n: Inode, d: Disk, pos: nat, w: seq<Byte>)
      requires Inv(dev.bs, d, view) && n in live && dev.Hinted() && n.writer != 0
      requires LiveIds() && |d.inodes| == inodeCount + 1 && |d.heads| <= MAX_BLOCKS + 1 && ListsFit(view)
      requires forall id :: 1 <= id <= inodeCount && id !in liveIds ==> d.inodes[id].size == view.sizes[id]
      requires forall m :: m in live && m != n ==> Cached(m, d, view) && Synced(m, d, view)
      requires Cached(n, d, view) && n.dataSize == Max(view.sizes[n.id], pos + |w|)
      requires BlocksNeeded(pos, dev.bs) <= |view.chains[n.id]| && w != [] && BlockOffset(pos, dev.bs) + |w| <= dev.bs
      requires dev.disk == WithData(d, view.chains[n.id][BlocksNeeded(pos, dev.bs) - 1], BlockOffset(pos, dev.bs), w)
      modifies this`view
      ensures Valid() && view == old(view).(sizes := old(view).sizes[n.id := n.dataSize])
      ensures Wrote(dev.bs, d, old(view), dev.disk, view, n.id, pos, w)
    {
      hide ChainsOwned, NoneLost, ZeroTails, OthersKept, Content, WriteAt;
      ghost var v := view;
      view := view.(sizes := view.sizes[n.id := n.dataSize]);
      StoreAt(dev.bs, d, v, n.id, pos, w, dev.disk, view);
      Settle(n, null, d, v);
    }

    /** Reads `len` bytes from the block that holds byte `pos` of an opened file. */
    method Fetch(n: Inode, bl: Block, pos: nat, len: nat) returns (got: seq<Byte>)
      requires Valid() && n in live && Holds(n, bl, pos)
      requires BlockOffset(pos, dev.bs) + len <= dev.bs && pos + len <= n.dataSize
      ensures |got| == len && got == Content(dev.bs, dev.disk, view, n.id)[pos..pos + len]
      ensures pos + len <= |Flat(dev.disk.data, view.chains[n.id])|
    {
      assert IsChain(dev.disk.heads, dev.disk.inodes[n.id].first, view.chains[n.id]);
      ReadBlock(dev.bs, dev.disk.data, view.chains[n.id], n.dataSize, pos, len);
      got := dev.disk.data[bl.id][BlockOffset(pos, dev.bs)..BlockOffset(pos, dev.bs) + len];
    }

    /** `bl` is the block of `n`'s chain that holds byte `pos`. */
    ghost predicate Holds(n: Inode, bl: Block, pos: nat)
      requires Core() && n in live
      reads this, dev
    {
      && BlocksNeeded(pos, dev.bs) <= |view.chains[n.id]|
      && bl == dev.disk.heads[view.chains[n.id][BlocksNeeded(pos, dev.bs) - 1]]
    }

    /** Reads every block's header, and counts on the bitset from then on. */
    method LoadCache()
      requires Valid()
      modifies dev`loaded, dev`bits, dev`hint
      ensures Valid() && dev.loaded
    {
      hide ChainsOwned, NoneLost, ZeroTails;
      dev.LoadCache();
    }

    // ----- truncation (src/whefs_nodedev.c:702-845)

    /** The new size goes to the inode and to disk before any block is touched. */
    method SetSize(n: Inode, len: nat)
      requires Valid() && n in live
      modifies n`dataSize, dev`disk
      ensures Valid(n) && n.dataSize == len
      ensures dev.disk == old(dev.disk).(inodes := old(dev.disk.inodes)[n.id := InodeRec(n.firstBlock, len)])
      ensures Grown(dev.bs, old(dev.disk), view, dev.disk, view, n.id)
    {
      ghost var d := dev.disk;
      n.dataSize := len;
      var _ := InodeFlush(n);
      SizeOnDisk(dev.bs, d, view, n.id, len);
      hide ChainsOwned, NoneLost, ZeroTails;
      Settle(n, n, d, view);
    }

    /** The view takes over a size that the inode already has. */
    ghost method AdoptSize(n: Inode)
      requires Valid(n) && n in live && n.writer != 0
      requires ZeroFrom(Flat(dev.disk.data, view.chains[n.id]), n.dataSize)
      modifies this`view
      ensures Valid() && view == old(view).(sizes := old(view).sizes[n.id := n.dataSize])
      ensures OthersKept(dev.bs, dev.disk, old(view), dev.disk, view, n.id)
    {
      ghost var v := view;
      view := view.(sizes := view.sizes[n.id := n.dataSize]);
      ResizeKeeps(dev.bs, dev.disk, v, n.id, n.dataSize, view);
      hide ChainsOwned, NoneLost, ZeroTails, OthersKept;
      Settle(n, null, dev.disk, v);
    }

    /** Ends the chain after its first `x` blocks and wipes the rest.  The source's error
        return for a next block that is not cached is never taken. */
    method CutTail(n: Inode, bl: Block, ghost m: nat) returns (rc: Rc)
      requires Valid(n) && n in live && n.count == |view.chains[n.id]|
      requires 0 < m < n.count && bl.next == view.chains[n.id][m]
      modifies this`view, n`list, n`count, dev`disk, dev`bits, dev`hint
      ensures Valid(n) && rc == OK && n.count == m
      ensures CutAt(dev.bs, old(dev.disk), old(view), dev.disk, view, n.id, m)
      ensures dev.disk.inodes == old(dev.disk.inodes)
    {
      hide Inv, OthersKept, CutAt, Distinct, HeadsCut, DataCut, CutList, CutView, Mirrors;
      ghost var d, v, c := dev.disk, view, view.chains[n.id];
      CutReady(n, m);
      var x := FindCached(n, bl.next, c, m);
      rc := WipeTail(n, x, c);
      NoteCut(n, m, d, v);
    }

    lemma CutReady(n: Inode, m: nat)
      requires Valid(n) && n in live && n.count == |view.chains[n.id]| && 0 < m < n.count
      ensures var c := view.chains[n.id];
              && dev.Shape() && n.count <= |n.list| && Mirrors(n.list[..n.count], dev.disk.heads, c)
              && Distinct(c) && (forall k :: 0 <= k < |c| ==> n.list[k].id == c[k])
              && dev.Leads(n.list[m], c[m..]) && dev.ValidId(c[m - 1]) && c[m - 1] !in c[m..]
              && dev.disk.heads[c[m - 1]].used && n.firstBlock == dev.disk.inodes[n.id].first
    {
      var c := view.chains[n.id];
      TailFacts(dev.bs, dev.disk, view, n.id, n.list[..n.count], m);
      hide ChainsOwned, NoneLost, ZeroTails;
      assert n.list[..n.count][m] == dev.disk.heads[c[m]];
      TailLeads(n, m);
      assert forall k :: 0 <= k < |c| ==> n.list[..n.count][k] == n.list[k];
    }

    static lemma TailFacts(bs: nat, d: Disk, v: View, i: nat, l: seq<Block>, m: nat)
      requires Inv(bs, d, v) && i < |v.chains| && 0 < m < |v.chains[i]|
      requires Mirrors(l, d.heads, v.chains[i])
      ensures var c := v.chains[i];
              && Distinct(c) && 1 <= c[m - 1] < |d.heads| && d.heads[c[m - 1]].used && c[m - 1] !in c[m..]
              && (forall k :: 0 <= k < |c| ==> l[k].id == c[k])
    {
      hide NoneLost, ZeroTails;
      var c := v.chains[i];
      ChainDistinct(bs, d, v, i);
      SuffixLeads(bs, d, v, i, m);
      assert IsChain(d.heads, d.inodes[i].first, c);
      assert forall k :: 0 <= k < |c| ==> l[k] == d.heads[c[k]];
    }

    lemma TailLeads(n: Inode, m: nat)
      requires dev.Shape() && Inv(dev.bs, dev.disk, view) && n.id < |view.chains| && 0 < m < |view.chains[n.id]|
      requires m < |n.list| && n.list[m] == dev.disk.heads[view.chains[n.id][m]]
      ensures dev.Leads(n.list[m], view.chains[n.id][m..])
    {
      SuffixLeads(dev.bs, dev.disk, view, n.id, m);
      hide ChainsOwned, NoneLost, ZeroTails;
    }

    /** The cached list repeats the first `m` headers, the last of them unlinked. */
    static ghost predicate CutList(l: seq<Block>, h: seq<Block>, c: seq<nat>, m: nat) {
      && m <= |l| && m <= |c|
      && forall k :: 0 <= k < m ==>
           c[k] < |h| && l[k] == if k == m - 1 then h[c[k]].(next := 0) else h[c[k]]
    }

    method WipeTail(n: Inode, x: nat, ghost c: seq<nat>) returns (rc: Rc)
      requires dev.Shape() && dev.Hinted() && 0 < x < n.count == |c| && n.count <= |n.list|
      requires Mirrors(n.list[..n.count], dev.disk.heads, c)
      requires dev.Leads(n.list[x], c[x..]) && dev.ValidId(c[x - 1]) && c[x - 1] !in c[x..]
      requires dev.disk.heads[c[x - 1]].used
      modifies n`list, n`count, dev`disk, dev`bits, dev`hint
      ensures dev.Shape() && dev.Hinted() && rc == OK
      ensures dev.disk.inodes == old(dev.disk.inodes)
      ensures HeadsCut(old(dev.disk.heads), dev.disk.heads, c[x..], c[x - 1])
      ensures DataCut(dev.bs, old(dev.disk.data), dev.disk.data, c[x..])
      ensures n.count == x <= |n.list|
      ensures CutList(n.list, old(dev.disk.heads), c, x)
    {
      ghost var h, l := dev.disk.heads, n.list;
      assert l[..n.count][x - 1] == h[c[x - 1]];
      n.count := x;
      var next;
      rc, next := dev.Wipe(n.list[x], true, true, true, c[x..]);
      ghost var h' := dev.disk.heads;
      n.list := n.list[x := next][x - 1 := n.list[x - 1].(next := 0)];
      rc := dev.Flush(n.list[x - 1]);
      UnlinkAfterWipe(h, h', c[x..], c[x - 1]);
      CutListIs(l, h, c, x, next, n.list);
    }

    static lemma CutListIs(l: seq<Block>, h: seq<Block>, c: seq<nat>, x: nat, last: Block, l': seq<Block>)
      requires |c| <= |l| && Mirrors(l[..|c|], h, c) && 0 < x < |c|
      requires l' == l[x := last][x - 1 := l[x - 1].(next := 0)]
      ensures CutList(l', h, c, x)
    {
      assert forall k :: 0 <= k < x ==> l[..|c|][k] == l[k];
    }

    ghost method NoteCut(n: Inode, m: nat, d: Disk, v: View)
      requires Inv(dev.bs, d, v) && view == v && n in live && dev.Hinted()
      requires LiveIds() && |d.inodes| == inodeCount + 1 && |d.heads| <= MAX_BLOCKS + 1 && ListsFit(v)
      requires forall id :: 1 <= id <= inodeCount && id !in liveIds ==> d.inodes[id].size == v.sizes[id]
      requires forall o :: o in live && o != n ==> Cached(o, d, v) && Synced(o, d, v)
      requires 0 < m < |v.chains[n.id]| && n.firstBlock == d.inodes[n.id].first
      requires dev.disk.inodes == d.inodes
      requires HeadsCut(d.heads, dev.disk.heads, v.chains[n.id][m..], v.chains[n.id][m - 1])
      requires DataCut(dev.bs, d.data, dev.disk.data, v.chains[n.id][m..])
      requires n.count == m <= |n.list|
      requires CutList(n.list, d.heads, v.chains[n.id], m)
      modifies this`view
      ensures Valid(n) && CutAt(dev.bs, d, v, dev.disk, view, n.id, m)
    {
      CutIsCutAt(dev.bs, d, v, n.id, m, dev.disk);
      ChainDistinct(dev.bs, d, v, n.id);
      CutMirrors(n.list, d.heads, dev.disk.heads, v.chains[n.id], m);
      hide ChainsOwned, NoneLost, ZeroTails, OthersKept, Flat, HeadsCut, DataCut, CutList, CutAt;
      view := CutView(v, n.id, m);
      Settle(n, n, d, v);
    }

    lemma CutMirrors(l: seq<Block>, h: seq<Block>, h': seq<Block>, c: seq<nat>, m: nat)
      requires 0 < m < |c| && m <= |l| && Distinct(c) && HeadsCut(h, h', c[m..], c[m - 1]) && c[m - 1] != 0
      requires CutList(l, h, c, m)
      ensures Mirrors(l[..m], h', c[..m])
    {
      forall k | 0 <= k < m ensures h'[c[k]] == l[k] {
        assert c[k] !in c[m..];
        if k < m - 1 { assert c[k] != c[m - 1]; }
      }
    }

    /** Zeroes the last block to keep of a file that shrinks to `len` bytes. */
    method Clear(n: Inode, bl: Block, len: nat)
      requires Valid(n) && n in live && len > 0 && Holds(n, bl, len - 1)
      modifies dev`disk
      ensures Valid(n) && dev.disk.heads == old(dev.disk.heads) && dev.disk.inodes == old(dev.disk.inodes)
      ensures OthersKept(dev.bs, old(dev.disk), view, dev.disk, view, n.id)
      ensures ClearedFlat(Flat(old(dev.disk).data, view.chains[n.id]), Flat(dev.disk.data, view.chains[n.id]),
                          dev.bs, len)
    {
      hide Inv, OthersKept, ClearedFlat, Flat, BlockIndex, BlockOffset, Mirrors, Synced;
      ghost var d := dev.disk;
      HoldsId(n, bl, len - 1);
      KeepsPlace(n);
      var _ := dev.WipeData(bl, BlockOffset(len, dev.bs));
      ClearKeeps(dev.bs, d, view, n.id, len, dev.disk);
      Settle(n, n, d, view);
    }

    lemma KeepsPlace(n: Inode)
      requires Core() && n in live
      ensures n.id < |view.chains| == |dev.disk.inodes|
    {
      hide ChainsOwned, NoneLost, ZeroTails;
    }

    lemma HoldsId(n: Inode, bl: Block, pos: nat)
      requires Core() && n in live && Holds(n, bl, pos)
      ensures dev.Shape() && bl.id == view.chains[n.id][BlocksNeeded(pos, dev.bs) - 1] && dev.ValidId(bl.id)
    {
      hide NoneLost, ZeroTails;
      assert IsChain(dev.disk.heads, dev.disk.inodes[n.id].first, view.chains[n.id]);
    }

    /** Gives the blocks past `len` bytes back.  When the kept block was already the last,
        the source sets the cached count to 1, whatever the length of the chain. */
    method Shrink(n: Inode, bl: Block, len: nat)
      requires Valid(n) && n in live && n.writer != 0 && n.dataSize == len && n.count == |view.chains[n.id]|
      requires 0 < len < view.sizes[n.id] && Holds(n, bl, len - 1)
      modifies this`view, n`list, n`count, dev`disk, dev`bits, dev`hint
      ensures Core() && ShrankTo(dev.bs, old(dev.disk), old(view), dev.disk, view, n.id, len)
      ensures Valid() <==>
                BlocksNeeded(len - 1, dev.bs) == 1 || BlocksNeeded(len - 1, dev.bs) < |old(view).chains[n.id]|
      ensures dev.disk.inodes == old(dev.disk.inodes)
    {
      hide ChainsOwned, NoneLost, ZeroTails, OthersKept, ClearedFlat, Flat, BlockIndex, BlockOffset, CutAt, ShrankTo;
      ghost var d, v := dev.disk, view;
      ghost var m := BlocksNeeded(len - 1, dev.bs);
      NextIsSucc(n, bl, len - 1);
      Clear(n, bl, len);
      ghost var d1 := dev.disk;
      if bl.next == 0 {
        NothingCut(dev.bs, d1, v, n.id);
        ShrinkSteps(dev.bs, d, v, d1, d1, v, n.id, len, v.(sizes := v.sizes[n.id := len]));
        AdoptSize(n);
        n.count := 1;
        assert m > 1 ==> !Cached(n, dev.disk, view);
      } else {
        var _ := CutTail(n, bl, m);
        ghost var d2, v2 := dev.disk, view;
        ShrinkSteps(dev.bs, d, v, d1, d2, v2, n.id, len, v2.(sizes := v2.sizes[n.id := len]));
        AdoptSize(n);
      }
    }

    lemma NextIsSucc(n: Inode, bl: Block, pos: nat)
      requires Core() && n in live && Holds(n, bl, pos)
      ensures bl.next == Succ(view.chains[n.id], BlocksNeeded(pos, dev.bs) - 1)
      ensures bl.next == 0 <==> BlocksNeeded(pos, dev.bs) == |view.chains[n.id]|
    {
      hide NoneLost, ZeroTails;
      assert IsChain(dev.disk.heads, dev.disk.inodes[n.id].first, view.chains[n.id]);
    }

    /** Looks for the cached block with this id, starting at the second. */
    method FindCached(n: Inode, id: nat, ghost c: seq<nat>, ghost at: nat) returns (x: nat)
      requires n.count == |c| <= |n.list| && 1 <= at < |c| && c[at] == id && Distinct(c)
      requires forall k :: 0 <= k < |c| ==> n.list[k].id == c[k]
      ensures x == at
    {
      x := 1;
      while x < n.count && n.list[x].id != id
        invariant 1 <= x <= at
      {
        x := x + 1;
      }
    }
  }
}
