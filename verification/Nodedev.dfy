/** The device that makes an inode's block chain look like one growable byte array
    (src/whefs_nodedev.c:420-845). */
module Nodedev {
  import opened Arithmetic
  import opened Bytes
  import opened BlockStore
  import opened StoreSteps
  import opened Quota
  import opened ReturnCodes
  import opened Opened
  import opened Blocks
  import opened Storage

  const TWO32 := 0x1_0000_0000

  const TWO63 := 0x8000_0000_0000_0000

  /** whio_rc.SizeTError */
  const SIZE_T_ERROR := 0xFFFF_FFFF

  datatype Whence = Set | End | Cur | Other

  /** What truncating file `i` to a positive length did. */
  ghost predicate Truncated(bs: nat, d: Disk, v: View, d': Disk, v': View, i: nat, len: nat, rc: Rc)
    requires Inv(bs, d, v) && Inv(bs, d', v') && i < |v.chains| && len > 0
  {
    && (if len < v.sizes[i] && rc == OK then ShrankTo(bs, d, v, d', v', i, len)
        else Resized(bs, d, v, d', v', i, len))
    && Backed(bs, d, v, d', v', i, len, rc)
  }

  /** Extending a chain of `n` blocks to `bc` blocks: it has them, or all that were free, or
      what it had when the container is too small anyway. */
  ghost predicate Afforded(heads': seq<Block>, n: nat, n': nat, bc: nat, rc: Rc) {
    && rc in {OK, RangeError, FSFull} && (rc == RangeError <==> bc >= |heads'|)
    && (rc == OK ==> n' == Max(n, bc))
    && (rc == RangeError ==> n' == n)
    && (rc == FSFull ==> n <= n' < bc && AllUsed(heads'))
  }

  /** How many blocks the chain has after a truncation to `len`. */
  ghost predicate Backed(bs: nat, d: Disk, v: View, d': Disk, v': View, i: nat, len: nat, rc: Rc)
    requires Inv(bs, d, v) && Inv(bs, d', v') && i < |v.chains| && len > 0
  {
    var bc := BlocksNeeded(len - 1, bs);
    && |d'.heads| == |d.heads| && |v'.chains| == |v.chains|
    && if rc == OK && len < v.sizes[i] then |v'.chains[i]| == bc < |d.heads|
       else Afforded(d'.heads, |v.chains[i]|, |v'.chains[i]|, bc, rc)
  }

  /** How many blocks a chain of `n` has once it holds bytes `pos` to `pos + k`. */
  function Extent(bs: nat, n: nat, pos: nat, k: nat): nat
    requires bs > 0
  {
    if k == 0 then n else Max(n, BlocksNeeded(pos + k - 1, bs))
  }

  /** Writing `k` bytes at `pos`, which is `all` there was to write, took the chain from `n`
      blocks to `n'`.  Writing less means that the next byte needs more blocks than the
      container has, or more than are free, all of which are taken then. */
  ghost predicate Grew(bs: nat, heads': seq<Block>, n: nat, n': nat, pos: nat, k: nat, all: bool)
    requires bs > 0
  {
    if all || BlocksNeeded(pos + k, bs) >= |heads'| then n' == Extent(bs, n, pos, k)
    else AllUsed(heads') && n <= n' < BlocksNeeded(pos + k, bs)
  }

  /** Writing `n` bytes at `pos` maps no block of file `i` that its cached list cannot hold. */
  ghost predicate Writable(chains: seq<seq<nat>>, i: nat, bs: nat, pos: nat, n: nat, blocks: nat)
    requires bs > 0 && i < |chains|
  {
    || n == 0 || BlocksNeeded(pos, bs) > blocks || BlocksNeeded(pos + n - 1, bs) <= LONGEST
    || |chains[i]| + blocks - Sum(Lengths(chains)) <= LONGEST
  }

  lemma GrewTwice(bs: nat, heads: seq<Block>, heads': seq<Block>, n: nat, n': nat, n'': nat, pos: nat, k: nat,
                  l: nat, all: bool)
    requires bs > 0 && Grew(bs, heads, n, n', pos, k, true) && Grew(bs, heads', n', n'', pos + k, l, all)
    ensures Grew(bs, heads', n, n'', pos, k + l, all)
  {
    hide BlockIndex, AllUsed;
    if k > 0 && l > 0 {
      IndexOrder(pos + k - 1, pos + k + l - 1, bs);
    }
  }

  /** The block of the first byte can then be had, or is refused. */
  lemma WritableFirst(chains: seq<seq<nat>>, i: nat, bs: nat, pos: nat, n: nat, blocks: nat)
    requires bs > 0 && i < |chains| && Writable(chains, i, bs, pos, n, blocks) && n > 0
    ensures Growable(chains, i, BlocksNeeded(pos, bs), blocks)
  {
    IndexOrder(pos, pos + n - 1, bs);
  }

  /** And so can the rest, once `k` bytes were written. */
  lemma WritableRest(bs: nat, d: Disk, v: View, d': Disk, v': View, i: nat, pos: nat, k: nat, n: nat, w: seq<Byte>)
    requires Inv(bs, d, v) && Inv(bs, d', v') && i < |v.chains| && 0 < k < n && Wrote(bs, d, v, d', v', i, pos, w)
    requires Grew(bs, d'.heads, |v.chains[i]|, |v'.chains[i]|, pos, k, true)
    requires Writable(v.chains, i, bs, pos, n, |d.heads| - 1)
    ensures Writable(v'.chains, i, bs, pos + k, n - k, |d'.heads| - 1)
  {
    hide ChainsOwned, NoneLost, ZeroTails, OthersKept, BlockIndex, Flat, Content, Sum, Lengths;
    ChainsKept(bs, d, v, d', v', i);
    ChainFits(bs, d', v', i);
    IndexOrder(pos, pos + k - 1, bs);
    HeldUpdate(v.chains, i, v'.chains[i]);
  }

  class Dev {
    const fs: Fs
    const inode: Inode
    const rw: bool
    /** What identifies this device as the writer of its inode. */
    const key: nat
    var posabs: nat

    constructor (fs: Fs, inode: Inode, key: nat)
      ensures this.fs == fs && this.inode == inode && this.key == key
      ensures rw == (key != 0) && posabs == 0
    {
      this.fs, this.inode, this.key := fs, inode, key;
      rw, posabs := key != 0, 0;
    }

    ghost predicate Valid()
      reads this, fs, fs.dev
      reads fs.live`firstBlock, fs.live`list, fs.live`count, fs.live`dataSize, fs.live`writer, inode`writer
    {
      fs.Valid() && inode in fs.live && (rw ==> key != 0 && inode.writer == key)
    }

    /** The content of the file behind the device. */
    ghost function Bytes(): seq<Byte>
      requires Valid()
      reads this, fs, fs.dev
      reads fs.live`firstBlock, fs.live`list, fs.live`count, fs.live`dataSize, fs.live`writer, inode`writer
    {
      Content(fs.dev.bs, fs.dev.disk, fs.view, inode.id)
    }

    /** Where reading stops: at the end of the file, or earlier if a failed
        enlargement left the file without the blocks for its size. */
    ghost function Readable(): nat
      requires Valid()
      reads this, fs, fs.dev
      reads fs.live`firstBlock, fs.live`list, fs.live`count, fs.live`dataSize, fs.live`writer, inode`writer
    {
      Min(fs.view.sizes[inode.id], |Flat(fs.dev.disk.data, fs.view.chains[inode.id])|)
    }

    /** The cursor's block number fits the uint16 the source keeps it in. */
    ghost predicate CursorOK()
      reads this`posabs, fs.dev
    {
      fs.dev.bs > 0 && Addressable(posabs, fs.dev.bs)
    }

    /** Reading maps the cursor only when it is inside the file. */
    ghost predicate Mappable()
      reads this`posabs, fs`view, fs.dev
    {
      inode.id < |fs.view.sizes| && (posabs < fs.view.sizes[inode.id] ==> CursorOK())
    }

    /** A position inside or right after a chain can be mapped. */
    static lemma NearChain(bs: nat, d: Disk, v: View, i: nat, pos: nat)
      requires Inv(bs, d, v) && i < |v.chains| && |d.heads| <= MAX_BLOCKS + 1
      requires pos <= |Flat(d.data, v.chains[i])|
      ensures Addressable(pos, bs)
    {
      ChainFits(bs, d, v, i);
      FlatLength(bs, d.data, v.chains[i]);
      NearBlocks(pos, |v.chains[i]|, bs);
    }

    /** Reads from one block.  `keepGoing` asks the caller to come back for the rest. */
    method ReadImpl(n: nat) returns (got: seq<Byte>, keepGoing: bool)
      requires Valid() && Mappable()
      modifies this`posabs, fs`view, inode`list, inode`count, inode`firstBlock, fs.dev`disk, fs.dev`bits, fs.dev`hint
      ensures Valid() && fs.view == old(fs.view) && fs.dev.disk == old(fs.dev.disk)
      ensures Mappable() && posabs == old(posabs) + |got| && |got| <= n
      ensures got != [] ==> posabs <= Readable() && got == Bytes()[old(posabs)..posabs]
      ensures keepGoing ==> 0 < |got| < n
      ensures !keepGoing ==> |got| == n || old(posabs) >= Readable()
    {
      hide NoneLost, ZeroTails, ChainsOwned, Content, Flat, Cached, BlockIndex;
      got, keepGoing := [], false;
      if n == 0 || posabs >= inode.dataSize {
        return;
      }
      var rc, block := fs.BlockForPos(inode, posabs, false, null);
      if rc != OK {
        Unmapped();
        return;
      }
      got, keepGoing := ReadMapped(block, n);
    }

    method ReadMapped(block: Block, n: nat) returns (got: seq<Byte>, keepGoing: bool)
      requires Valid() && n > 0 && posabs < inode.dataSize && fs.Holds(inode, block, posabs)
      modifies this`posabs
      ensures Mappable() && posabs == old(posabs) + |got| <= Readable() && 0 < |got| <= n
      ensures got == Bytes()[old(posabs)..posabs]
      ensures keepGoing <==> |got| < n
    {
      hide ChainsOwned, NoneLost, ZeroTails, BlockIndex, BlockOffset;
      var left := fs.dev.bs - BlockOffset(posabs, fs.dev.bs);
      var rdlen := if n > left then left else n;
      if rdlen + posabs >= inode.dataSize {
        rdlen := inode.dataSize - posabs;
      }
      got := fs.Fetch(inode, block, posabs, rdlen);
      posabs := posabs + |got|;
      keepGoing := rdlen < n;
      NearChain(fs.dev.bs, fs.dev.disk, fs.view, inode.id, posabs);
    }

    lemma Unmapped()
      requires Valid() && BlocksNeeded(posabs, fs.dev.bs) > |fs.view.chains[inode.id]|
      ensures posabs >= Readable()
    {
      var c := fs.view.chains[inode.id];
      FlatLength(fs.dev.bs, fs.dev.disk.data, c);
      if posabs < |Flat(fs.dev.disk.data, c)| { NearBlocks(posabs, |c|, fs.dev.bs); }
    }

    /** Reads up to `n` bytes from the cursor, block after block. */
    method Read(n: nat) returns (bytes: seq<Byte>)
      requires Valid() && Mappable()
      modifies this`posabs, fs`view, inode`list, inode`count, inode`firstBlock, fs.dev`disk, fs.dev`bits, fs.dev`hint
      ensures Valid() && Mappable() && fs.view == old(fs.view) && fs.dev.disk == old(fs.dev.disk)
      ensures |bytes| == Min(n, Max(0, Readable() - old(posabs)))
      ensures posabs == old(posabs) + |bytes|
      ensures bytes != [] ==> posabs <= |Bytes()| && bytes == Bytes()[old(posabs)..posabs]
    {
      hide Inv, Content, Flat, Cached, Synced, BlockIndex;
      var keepGoing := true;
      bytes := [];
      while keepGoing
        invariant Valid() && Mappable() && fs.view == old(fs.view) && fs.dev.disk == old(fs.dev.disk)
        invariant posabs == old(posabs) + |bytes| && |bytes| <= n
        invariant bytes != [] ==> posabs <= Readable() && bytes == Bytes()[old(posabs)..posabs]
        invariant !keepGoing ==> |bytes| == n || posabs >= Readable()
        decreases n - |bytes|, keepGoing
      {
        var got;
        got, keepGoing := ReadImpl(n - |bytes|);
        if got != [] { SliceJoin(Bytes(), old(posabs), posabs - |got|, posabs); }
        bytes := bytes + got;
      }
    }

    method WriteMapped(block: Block, src: seq<Byte>) returns (sz: nat)
      requires Valid() && rw && src != [] && fs.Holds(inode, block, posabs)
      modifies fs`view, inode`dataSize, fs.dev`disk
      ensures Valid()
      ensures 0 < sz <= |src| && BlockOffset(posabs, fs.dev.bs) + sz <= fs.dev.bs
      ensures Wrote(fs.dev.bs, old(fs.dev.disk), old(fs.view), fs.dev.disk, fs.view, inode.id, posabs, src[..sz])
      ensures fs.view.chains == old(fs.view).chains
    {
      var left := fs.dev.bs - BlockOffset(posabs, fs.dev.bs);
      sz := if |src| > left then left else |src|;
      fs.Store(inode, block, posabs, src[..sz]);
    }

    static lemma StoredEnd(bs: nat, d: Disk, v: View, i: nat, pos: nat, sz: nat)
      requires Inv(bs, d, v) && i < |v.chains| && |d.heads| <= MAX_BLOCKS + 1
      requires BlocksNeeded(pos, bs) <= |v.chains[i]| && BlockOffset(pos, bs) + sz <= bs
      ensures Addressable(pos + sz, bs)
      ensures sz > 0 ==> BlocksNeeded(pos + sz - 1, bs) == BlocksNeeded(pos, bs)
    {
      hide Inv, BlockIndex, BlockOffset;
      ChainFits(bs, d, v, i);
      Offset(pos, bs);
      if sz > 0 {
        Offset(pos + sz - 1, bs);
        QuotientUnique(BlockIndex(pos + sz - 1, bs), BlockOffset(pos + sz - 1, bs), BlockIndex(pos, bs),
                       BlockOffset(pos, bs) + sz - 1, bs);
      }
      MulOrder(BlocksNeeded(pos, bs), |v.chains[i]|, bs);
      NearBlocks(pos + sz, |v.chains[i]|, bs);
    }

    static lemma TakeMore(src: seq<Byte>, k: nat, sz: nat)
      requires k + sz <= |src|
      ensures src[..k] + src[k..][..sz] == src[..k + sz]
    {
    }

    method WriteImpl(src: seq<Byte>) returns (sz: nat, keepGoing: bool)
      requires Valid() && rw && CursorOK()
      requires src != [] ==>
                 Growable(fs.view.chains, inode.id, BlocksNeeded(posabs, fs.dev.bs), |fs.dev.disk.heads| - 1)
      modifies this`posabs, fs`view, inode`list, inode`count, inode`firstBlock, inode`dataSize
      modifies fs.dev`disk, fs.dev`bits, fs.dev`hint
      ensures Valid() && CursorOK()
      ensures sz <= |src| && posabs == old(posabs) + sz
      ensures Wrote(fs.dev.bs, old(fs.dev.disk), old(fs.view), fs.dev.disk, fs.view, inode.id, old(posabs), src[..sz])
      ensures keepGoing ==> 0 < sz < |src|
      ensures !keepGoing ==> sz == |src| || sz == 0
      ensures Grew(fs.dev.bs, fs.dev.disk.heads, |old(fs.view).chains[inode.id]|, |fs.view.chains[inode.id]|,
                   old(posabs), sz,
                   keepGoing || sz == |src|)
    {
      hide Inv, Wrote, Grown, Mapped, BlockIndex, BlockOffset, AllUsed;
      NothingWrote(fs.dev.bs, fs.dev.disk, fs.view, inode.id, posabs);
      sz, keepGoing := 0, false;
      if src == [] {
        return;
      }
      ghost var d, v := fs.dev.disk, fs.view;
      var rc, block := fs.BlockForPos(inode, posabs, true, null);
      ghost var d', v' := fs.dev.disk, fs.view;
      MappedWrote(d, v, rc, block);
      if rc != OK {
        return;
      }
      sz := WriteMapped(block, src);
      GrownThenWrote(fs.dev.bs, d, v, d', v', fs.dev.disk, fs.view, inode.id, posabs, src[..sz]);
      StoredEnd(fs.dev.bs, d', v', inode.id, posabs, sz);
      posabs := posabs + sz;
      keepGoing := sz < |src|;
    }

    /** What mapping the cursor for writing means to the write. */
    lemma MappedWrote(d: Disk, v: View, rc: Rc, bl: Block)
      requires Valid() && CursorOK() && Inv(fs.dev.bs, d, v) && inode.id < |v.chains|
      requires Mapped(fs.dev.bs, d, v, fs.dev.disk, fs.view, inode.id, BlocksNeeded(posabs, fs.dev.bs), true, rc, bl)
      ensures Grown(fs.dev.bs, d, v, fs.dev.disk, fs.view, inode.id)
      ensures rc == OK ==> fs.Holds(inode, bl, posabs)
      ensures rc == OK ==> |fs.view.chains[inode.id]| == Max(|v.chains[inode.id]|, BlocksNeeded(posabs, fs.dev.bs))
      ensures rc != OK ==> Wrote(fs.dev.bs, d, v, fs.dev.disk, fs.view, inode.id, posabs, [])
      ensures rc != OK ==>
                Grew(fs.dev.bs, fs.dev.disk.heads, |v.chains[inode.id]|, |fs.view.chains[inode.id]|, posabs, 0, false)
    {
      hide Wrote, BlockIndex, OthersKept, Flat;
      GrownWrote(fs.dev.bs, d, v, fs.dev.disk, fs.view, inode.id, posabs);
    }

    /** Writes `src` at the cursor, block after block, as far as blocks can be had. */
    method Write(src: seq<Byte>) returns (k: nat)
      requires Valid() && CursorOK()
      requires rw ==> Writable(fs.view.chains, inode.id, fs.dev.bs, posabs, |src|, |fs.dev.disk.heads| - 1)
      modifies this`posabs, fs`view, inode`list, inode`count, inode`firstBlock, inode`dataSize
      modifies fs.dev`disk, fs.dev`bits, fs.dev`hint
      ensures Valid() && CursorOK()
      ensures k <= |src| && posabs == old(posabs) + k
      ensures Wrote(fs.dev.bs, old(fs.dev.disk), old(fs.view), fs.dev.disk, fs.view, inode.id, old(posabs), src[..k])
      ensures !rw ==> k == 0 && fs.dev.disk == old(fs.dev.disk) && fs.view == old(fs.view)
      ensures rw ==>
                Grew(fs.dev.bs, fs.dev.disk.heads, |old(fs.view).chains[inode.id]|, |fs.view.chains[inode.id]|,
                     old(posabs), k,
                          k == |src|)
    {
      hide ChainsOwned, NoneLost, ZeroTails, Wrote, BlockIndex, BlockOffset, AllUsed, Writable, Growable;
      NothingWrote(fs.dev.bs, fs.dev.disk, fs.view, inode.id, posabs);
      k := 0;
      if !rw {
        return;
      }
      var keepGoing := true;
      while keepGoing
        invariant Valid() && CursorOK() && k <= |src| && posabs == old(posabs) + k
        invariant Wrote(fs.dev.bs, old(fs.dev.disk), old(fs.view), fs.dev.disk, fs.view, inode.id, old(posabs),
                        src[..k])
        invariant Grew(fs.dev.bs, fs.dev.disk.heads, |old(fs.view).chains[inode.id]|, |fs.view.chains[inode.id]|,
                       old(posabs), k,
                       keepGoing || k == |src|)
        invariant keepGoing ==>
                    Writable(fs.view.chains, inode.id, fs.dev.bs, posabs, |src| - k, |fs.dev.disk.heads| - 1)
        decreases |src| - k, keepGoing
      {
        ghost var d, v, at := fs.dev.disk, fs.view, posabs;
        if k < |src| { WritableFirst(v.chains, inode.id, fs.dev.bs, at, |src| - k, |d.heads| - 1); }
        var sz;
        sz, keepGoing := WriteImpl(src[k..]);
        if keepGoing {
          WritableRest(fs.dev.bs, d, v, fs.dev.disk, fs.view, inode.id, at, sz, |src| - k, src[k..][..sz]);
        }
        WroteTwice(fs.dev.bs, old(fs.dev.disk), old(fs.view), d, v, fs.dev.disk, fs.view, inode.id,
                   old(posabs), src[..k], src[k..][..sz]);
        GrewTwice(fs.dev.bs, d.heads, fs.dev.disk.heads, |old(fs.view).chains[inode.id]|, |v.chains[inode.id]|,
                  |fs.view.chains[inode.id]|,
                  old(posabs), k, sz, keepGoing || k + sz == |src|);
        TakeMore(src, k, sz);
        k := k + sz;
      }
    }

    // ----- seek and truncate

    /** Moves the cursor; the sum of the old place and the offset is taken in 32 bits.
        Returns the new place, or SIZE_T_ERROR and leaves the cursor where it was. */
    method Seek(pos: int, whence: Whence) returns (at: nat)
      requires inode.dataSize < TWO32 && posabs < TWO32 && -TWO63 <= pos < TWO63
      modifies this`posabs
      ensures var from :=
                match whence { case Set => 0 case End => inode.dataSize case Cur => old(posabs) case Other => 0 };
              if whence.Other? || (whence.Set? && pos < 0) then at == SIZE_T_ERROR && posabs == old(posabs)
              else at == posabs < TWO32 && (0 <= from + pos < TWO32 ==> posabs == from + pos)
    {
      var too := posabs;
      match whence {
        case Set =>
          if pos < 0 {
            return SIZE_T_ERROR;
          }
          too := pos % TWO32;
        case End =>
          too := (inode.dataSize + pos) % TWO32;
        case Cur =>
          too := (too + pos) % TWO32;
        case Other =>
          return SIZE_T_ERROR;
      }
      posabs := too;
      at := posabs;
    }

    /** Sets the size of a file that is open for writing.  The length is reduced to 32 bits
        before it is used; the overflow check after that never fires. */
    method Trunc(len: int) returns (rc: Rc)
      requires Valid() && -TWO63 <= len < TWO63 && posabs < TWO32 && inode.dataSize < TWO32
      requires len > 0 ==> len % TWO32 != 0 && Addressable(len % TWO32 - 1, fs.dev.bs)
      requires rw && len > 0 && len % TWO32 != inode.dataSize ==>
                 Growable(fs.view.chains, inode.id, BlocksNeeded(len % TWO32 - 1, fs.dev.bs), |fs.dev.disk.heads| - 1)
      modifies this`posabs, fs`view, inode`list, inode`count, inode`firstBlock, inode`dataSize
      modifies fs.dev`disk, fs.dev`bits, fs.dev`hint
      ensures posabs == old(posabs)
      ensures len < 0 ==> rc == ArgError
      ensures len >= 0 && !rw ==> rc == AccessError
      ensures len >= 0 && rw && len % TWO32 == old(inode.dataSize) ==> rc == OK
      ensures len < 0 || !rw || len % TWO32 == old(inode.dataSize) ==>
                Valid() && fs.dev.disk == old(fs.dev.disk) && fs.view == old(fs.view)
      ensures len == 0 && rw && old(inode.dataSize) != 0 ==> rc == OK && Emptied(old(fs.dev.disk), old(fs.view))
      ensures len > 0 && rw && len % TWO32 != old(inode.dataSize) ==>
                fs.Core() && Truncated(fs.dev.bs, old(fs.dev.disk), old(fs.view), fs.dev.disk, fs.view, inode.id,
                                       len % TWO32, rc) &&
                (Valid() <==> rc != OK || KeepsCache(old(fs.view), len % TWO32))
    {
      rc := OK;
      if len < 0 {
        return ArgError;
      }
      if !rw {
        return AccessError;
      }
      var off := len % TWO32;
      if off == inode.dataSize {
        return;
      }
      if len == 0 {
        TruncZero();
      } else {
        rc := TruncTo(off);
      }
    }

    /** The cached list survives: the file grows, or the last block to keep is the first of
        the chain or has a successor. */
    ghost predicate KeepsCache(v: View, len: nat)
      requires inode.id < |v.chains| && inode.id < |v.sizes| && fs.dev.bs > 0 && len > 0
      reads this, fs, fs.dev
    {
      len > v.sizes[inode.id] || BlocksNeeded(len - 1, fs.dev.bs) == 1
      || BlocksNeeded(len - 1, fs.dev.bs) < |v.chains[inode.id]|
    }

    method TruncTo(off: nat) returns (rc: Rc)
      requires Valid() && rw && off > 0 && off != inode.dataSize && Addressable(off - 1, fs.dev.bs)
      requires Growable(fs.view.chains, inode.id, BlocksNeeded(off - 1, fs.dev.bs), |fs.dev.disk.heads| - 1)
      requires posabs < TWO32 && off < TWO32
      modifies this`posabs, fs`view, inode`list, inode`count, inode`firstBlock, inode`dataSize
      modifies fs.dev`disk, fs.dev`bits, fs.dev`hint
      ensures posabs == old(posabs) && fs.Core()
      ensures Truncated(fs.dev.bs, old(fs.dev.disk), old(fs.view), fs.dev.disk, fs.view, inode.id, off, rc)
      ensures Valid() <==> rc != OK || KeepsCache(old(fs.view), off)
    {
      hide ChainsOwned, NoneLost, ZeroTails, OthersKept, Flat, BlockIndex, Content, Grown, Resized, ShrankTo,
           Afforded, Growable;
      ghost var d, v := fs.dev.disk, fs.view;
      var shrinks := off < inode.dataSize;
      fs.SetSize(inode, off);
      ghost var d1 := fs.dev.disk;
      var bl;
      rc, bl := fs.BlockForPos(inode, off - 1, true, inode);
      ghost var d2, v2 := fs.dev.disk, fs.view;
      GrownTwice(fs.dev.bs, d, v, d1, v, d2, v2, inode.id);
      MappedHeld(d1, v, off, rc, bl);
      if rc != OK {
        TakeSize(d, v, off);
        ResizedBacked(d, v, d2.heads, off, rc);
      } else if shrinks {
        fs.Shrink(inode, bl, off);
        ShrankAfterGrowth(fs.dev.bs, d, v, d2, v2, fs.dev.disk, fs.view, inode.id, off);
        ShrunkBacked(d, v, off);
      } else {
        TakeSize(d, v, off);
        GrownEnd(off);
        rc := Fill(d, v, off);
        ResizedBacked(d, v, d2.heads, off, rc);
      }
    }

    lemma ResizedBacked(d: Disk, v: View, h: seq<Block>, len: nat, rc: Rc)
      requires fs.Core() && Inv(fs.dev.bs, d, v) && inode.id < |v.chains| && len > 0
               && (rc == OK ==> v.sizes[inode.id] <= len)
      requires Resized(fs.dev.bs, d, v, fs.dev.disk, fs.view, inode.id, len)
      requires Afforded(h, |v.chains[inode.id]|, |fs.view.chains[inode.id]|, BlocksNeeded(len - 1, fs.dev.bs), rc)
      requires |h| == |d.heads| && (h == fs.dev.disk.heads || rc == OK)
      ensures Backed(fs.dev.bs, d, v, fs.dev.disk, fs.view, inode.id, len, rc)
    {
      hide ChainsOwned, NoneLost, ZeroTails, Flat, BlockIndex, Content;
    }

    lemma ShrunkBacked(d: Disk, v: View, len: nat)
      requires fs.Core() && Inv(fs.dev.bs, d, v) && inode.id < |v.chains| && 0 < len < v.sizes[inode.id]
      requires ShrankTo(fs.dev.bs, d, v, fs.dev.disk, fs.view, inode.id, len)
      requires BlocksNeeded(len - 1, fs.dev.bs) < |d.heads|
      ensures Backed(fs.dev.bs, d, v, fs.dev.disk, fs.view, inode.id, len, OK)
    {
      hide ChainsOwned, NoneLost, ZeroTails, Flat, BlockIndex, Content;
    }

    /** The mapping of the last byte tells whether the chain reaches the new length. */
    lemma MappedHeld(d: Disk, v: View, len: nat, rc: Rc, bl: Block)
      requires fs.Core() && inode in fs.live && len > 0 && Inv(fs.dev.bs, d, v) && inode.id < |v.chains|
      requires Mapped(fs.dev.bs, d, v, fs.dev.disk, fs.view, inode.id, BlocksNeeded(len - 1, fs.dev.bs), true, rc, bl)
      ensures Afforded(fs.dev.disk.heads, |v.chains[inode.id]|, |fs.view.chains[inode.id]|,
                       BlocksNeeded(len - 1, fs.dev.bs), rc)
      ensures |d.heads| == |fs.dev.disk.heads|
      ensures rc == OK ==> BlocksNeeded(len - 1, fs.dev.bs) <= |fs.view.chains[inode.id]| < |fs.dev.disk.heads|
      ensures rc != OK ==> |Flat(fs.dev.disk.data, fs.view.chains[inode.id])| <= len
    {
      ChainFits(fs.dev.bs, fs.dev.disk, fs.view, inode.id);
      ChainCovers(fs.dev.bs, fs.dev.disk, fs.view, inode.id, len);
      hide ChainsOwned, NoneLost, ZeroTails, OthersKept, Flat, BlockIndex;
    }

    /** The position right after a mapped byte can be mapped. */
    lemma GrownEnd(len: nat)
      requires fs.Core() && inode in fs.live && len > 0
      requires BlocksNeeded(len - 1, fs.dev.bs) <= |fs.view.chains[inode.id]|
      ensures Addressable(len, fs.dev.bs)
    {
      hide ChainsOwned, NoneLost, ZeroTails, BlockIndex, BlockOffset, Flat;
      ChainCovers(fs.dev.bs, fs.dev.disk, fs.view, inode.id, len);
      NearChain(fs.dev.bs, fs.dev.disk, fs.view, inode.id, len);
    }

    ghost method TakeSize(d: Disk, v: View, len: nat)
      requires fs.Valid(inode) && inode in fs.live && rw && key != 0 && inode.writer == key && inode.dataSize == len
      requires Inv(fs.dev.bs, d, v) && inode.id < |v.chains| && Grown(fs.dev.bs, d, v, fs.dev.disk, fs.view, inode.id)
      requires v.sizes[inode.id] <= len || |Flat(fs.dev.disk.data, fs.view.chains[inode.id])| <= len
      modifies fs`view
      ensures Valid() && Resized(fs.dev.bs, d, v, fs.dev.disk, fs.view, inode.id, len)
      ensures fs.view.chains == old(fs.view).chains
    {
      hide ChainsOwned, NoneLost, ZeroTails, OthersKept, Flat, Grown, Resized;
      ghost var v1 := fs.view;
      ResizeAfterGrowth(fs.dev.bs, d, v, fs.dev.disk, v1, inode.id, len, v1.(sizes := v1.sizes[inode.id := len]));
      fs.AdoptSize(inode);
    }

    /** Fills the new bytes of a grown file with zeros.  As the new size is already in the
        inode, the gap it computes is empty, and it writes nothing. */
    method Fill(ghost d: Disk, ghost v: View, off: nat) returns (rc: Rc)
      requires Valid() && rw && inode.dataSize == off < TWO32 && posabs < TWO32
      requires Addressable(off, fs.dev.bs)
      requires Inv(fs.dev.bs, d, v) && inode.id < |v.chains|
               && Resized(fs.dev.bs, d, v, fs.dev.disk, fs.view, inode.id, off)
      modifies this`posabs, fs`view, inode`list, inode`count, inode`firstBlock, inode`dataSize
      modifies fs.dev`disk, fs.dev`bits, fs.dev`hint
      ensures Valid() && posabs == old(posabs) && rc == OK
      ensures Resized(fs.dev.bs, d, v, fs.dev.disk, fs.view, inode.id, off)
      ensures |fs.view.chains[inode.id]| == |old(fs.view).chains[inode.id]|
    {
      hide Inv, OthersKept, Content, Resized, Wrote;
      var pos, orig, dest := posabs, inode.dataSize, off;
      var _ := Seek(orig, Set);
      var wlen, more := dest - orig, true;
      while more
        invariant Valid() && CursorOK() && wlen == 0 && posabs == off == inode.dataSize
        invariant Resized(fs.dev.bs, d, v, fs.dev.disk, fs.view, inode.id, off)
        invariant |fs.view.chains[inode.id]| == |old(fs.view).chains[inode.id]|
        decreases more
      {
        var wsz := if wlen < ZERO_BUFFER then wlen else ZERO_BUFFER;
        ghost var d1, v1, at := fs.dev.disk, fs.view, posabs;
        var iorc := Write(Zeros(wsz));
        assert Zeros(wsz)[..iorc] == [];
        ResizedTwice(fs.dev.bs, d, v, d1, v1, fs.dev.disk, fs.view, inode.id, off, at);
        ResizedSize(fs.dev.bs, d, v, fs.dev.disk, fs.view, inode.id, off);
        wlen := wlen - iorc;
        more := iorc != 0 && iorc == wsz;
      }
      var iorc := Seek(pos, Set);
      rc := if iorc == pos then OK else IOError;
    }

    /** The special case of length 0.  The chain would be wiped only if reading its first
        block failed, which it does not: the record forgets the chain. */
    method TruncZero()
      requires Valid() && rw
      modifies fs`view, inode`count, inode`firstBlock, inode`dataSize, fs.dev`disk, fs.dev`bits, fs.dev`hint
      ensures Emptied(old(fs.dev.disk), old(fs.view))
    {
      if inode.firstBlock != 0 {
        var _, _ := fs.dev.Read(inode.firstBlock);
      }
      ghost var d, v := fs.dev.disk, fs.view;
      inode.count := 0;
      inode.firstBlock := 0;
      inode.dataSize := 0;
      var _ := fs.InodeFlush(inode);
      if v.chains[inode.id] == [] {
        SizeOnDisk(fs.dev.bs, d, v, inode.id, 0);
        fs.Settle(inode, inode, d, v);
        fs.AdoptSize(inode);
        OthersTwice(fs.dev.bs, d, v, fs.dev.disk, v, fs.dev.disk, fs.view, inode.id);
      } else {
        assert IsChain(d.heads, d.inodes[inode.id].first, v.chains[inode.id]);
        assert !IsChain(d.heads, 0, v.chains[inode.id]);
      }
    }

    ghost predicate Emptied(d: Disk, v: View)
      requires Inv(fs.dev.bs, d, v) && inode.id < |v.chains|
      reads this, fs, fs.dev, inode`writer, inode`dataSize
      reads fs.live`firstBlock, fs.live`list, fs.live`count, fs.live`dataSize, fs.live`writer
    {
      && fs.dev.disk == d.(inodes := d.inodes[inode.id := InodeRec(0, 0)])
      && inode.dataSize == 0
      && (Valid() <==> v.chains[inode.id] == [])
      && (Valid() ==> Resized(fs.dev.bs, d, v, fs.dev.disk, fs.view, inode.id, 0) && fs.view.chains == v.chains)
    }
  }
}
