/** The block layer (src/whefs_block.c): headers, wiping, and the allocator with
    its bitset cache and search hint. */
module Blocks {
  import opened Bytes
  import opened BlockStore
  import opened StoreSteps
  import opened ReturnCodes

  /** The buffer that the source writes zeros from. */
  const ZERO_BUFFER := 4096

  class BlockTable {
    const bs: nat
    var disk: Disk
    /** bits.b_loaded and the set bits of bits.b */
    var loaded: bool
    var bits: set<nat>
    /** hints.unused_block_start */
    var hint: nat

    constructor (bs: nat, disk: Disk, hint: nat)
      ensures this.bs == bs && this.disk == disk && bits == {} && this.hint == hint && !loaded
    {
      this.bs, this.disk, this.hint := bs, disk, hint;
      loaded, bits := false, {};
    }

    ghost predicate Shape()
      reads this
    {
      && bs > 0
      && |disk.heads| == |disk.data| > 0
      && (forall b :: 1 <= b < |disk.heads| ==> disk.heads[b].id == b)
      && (forall b :: 0 <= b < |disk.data| ==> |disk.data[b]| == bs)
    }

    /** The allocator's accelerators tell the truth: no free block lies below the
        hint, and a set bit belongs to a used block. */
    ghost predicate Hinted()
      reads this
    {
      && hint <= |disk.heads|
      && (!loaded ==> bits == {})
      && (forall b :: 1 <= b < |disk.heads| && b < hint ==> disk.heads[b].used)
      && (forall b :: b in bits ==> b < |disk.heads| && (b >= 1 ==> disk.heads[b].used))
    }

    predicate ValidId(id: nat)
      reads this
    {
      1 <= id < |disk.heads|
    }

    method UpdateUsed(bl: Block)
      modifies this`bits, this`hint
      ensures !loaded ==> bits == old(bits) && hint == old(hint)
      ensures loaded && bl.used ==> bits == old(bits) + {bl.id} && hint == old(hint)
      ensures loaded && !bl.used ==> bits == old(bits) - {bl.id} && hint == Min(old(hint), bl.id)
    {
      if !loaded {
        return;
      }
      if bl.used {
        bits := bits + {bl.id};
      } else {
        bits := bits - {bl.id};
        if hint > bl.id {
          hint := bl.id;
        }
      }
    }

    method Flush(bl: Block) returns (rc: Rc)
      requires Shape()
      modifies this`disk, this`bits, this`hint
      ensures Shape()
      ensures rc == if 1 <= bl.id < |old(disk.heads)| then OK else ArgError
      ensures disk == if rc == OK then old(disk).(heads := old(disk.heads)[bl.id := bl]) else old(disk)
      ensures rc == OK && old(Hinted()) && bl.used ==> Hinted() && hint == old(hint)
      ensures rc == OK && old(Hinted()) ==> bl.id !in bits || bl.used
      ensures forall b :: b in bits && b != bl.id ==> b in old(bits)
      ensures hint <= old(hint) && (hint != old(hint) ==> hint == bl.id)
    {
      if !ValidId(bl.id) {
        return ArgError;
      }
      disk := disk.(heads := disk.heads[bl.id := bl]);
      UpdateUsed(bl);
      rc := OK;
    }

    method Read(id: nat) returns (rc: Rc, bl: Block)
      requires Shape()
      modifies this`bits, this`hint
      ensures rc == OK && bl == if ValidId(id) then disk.heads[id] else EMPTY_BLOCK
      ensures old(Hinted()) ==> Hinted() && hint == old(hint)
    {
      if !ValidId(id) {
        return OK, EMPTY_BLOCK;
      }
      bl := disk.heads[id];
      UpdateUsed(bl);
      rc := OK;
    }

    /** Loads the bitset cache.  As reading updates the cache only once it is loaded, it
        starts out empty, which is slow but safe. */
    method LoadCache()
      requires Shape() && Hinted()
      modifies this`loaded, this`bits, this`hint
      ensures Hinted() && loaded && (!old(loaded) ==> bits == {})
    {
      var id := 1;
      while id < |disk.heads|
        invariant Hinted() && loaded == old(loaded)
      {
        var _, _ := Read(id);
        id := id + 1;
      }
      loaded := true;
    }

    method ReadNext(bl: Block) returns (rc: Rc, next: Block)
      requires Shape()
      modifies this`bits, this`hint
      ensures rc == if !ValidId(bl.id) then ArgError else if bl.next == 0 then RangeError else OK
      ensures rc == OK ==> next == if ValidId(bl.next) then disk.heads[bl.next] else EMPTY_BLOCK
      ensures old(Hinted()) ==> Hinted() && hint == old(hint)
    {
      if !ValidId(bl.id) {
        return ArgError, bl;
      }
      if bl.next == 0 {
        return RangeError, bl;
      }
      rc, next := Read(bl.next);
    }

    /** Zeroes a block's data from `start` on, one buffer at a time. */
    method WipeData(bl: Block, start: nat) returns (rc: Rc)
      requires Shape() && ValidId(bl.id)
      modifies this`disk
      ensures Shape()
      ensures rc == if start >= bs then RangeError else OK
      ensures disk == if start >= bs then old(disk) else WithData(old(disk), bl.id, start, Zeros(bs - start))
    {
      if start >= bs {
        return RangeError;
      }
      var count, total := bs - start, 0;
      ghost var was := disk.data[bl.id];
      assert Splice(was, start, Zeros(0)) == was;
      while total < count
        invariant 0 <= total <= count
        invariant disk == WithData(old(disk), bl.id, start, Zeros(total))
      {
        var x := count - total;
        var wsz := if ZERO_BUFFER > x then x else ZERO_BUFFER;
        SpliceZeros(was, start, total, wsz);
        disk := WithData(disk, bl.id, start + total, Zeros(wsz));
        total := total + wsz;
      }
      rc := OK;
    }

    static lemma SpliceZeros(s: seq<Byte>, p: nat, a: nat, b: nat)
      requires p + a + b <= |s|
      ensures Splice(Splice(s, p, Zeros(a)), p + a, Zeros(b)) == Splice(s, p, Zeros(a + b))
    {
      assert Zeros(a) + Zeros(b) == Zeros(a + b);
    }

    /** The container's own device: seek into a block's data and write there. */
    method WriteData(bl: Block, o: nat, w: seq<Byte>)
      requires Shape() && ValidId(bl.id) && o + |w| <= bs
      modifies this`disk
      ensures Shape() && disk == WithData(old(disk), bl.id, o, w)
    {
      disk := WithData(disk, bl.id, o, w);
    }

    /** The chain of in-memory block `bl`: its own link, then the links on disk. */
    ghost predicate Leads(bl: Block, c: seq<nat>)
      reads this
    {
      && c != [] && c[0] == bl.id && bl.next == Succ(c, 0) && Distinct(c)
      && (forall k :: 0 <= k < |c| ==> ValidId(c[k]))
      && (forall k {:trigger disk.heads[c[k]]} :: 1 <= k < |c| ==> disk.heads[c[k]].next == Succ(c, k))
    }

    /** Wipes a block, and with `deep` every block linked after it.  The loop wipes
        the followers first; it ends because the unread part of the chain shrinks. */
    method Wipe(bl: Block, wipeData: bool, wipeMeta: bool, deep: bool, ghost c: seq<nat>) returns (rc: Rc, bl': Block)
      requires Shape()
      requires ValidId(bl.id) ==> c != [] && c[0] == bl.id && (if deep then Leads(bl, c) else |c| == 1)
      modifies this`disk, this`bits, this`hint
      ensures Shape()
      ensures rc == if ValidId(bl.id) then OK else ArgError
      ensures rc == OK ==>
                && HeadsCut(old(disk.heads), disk.heads, If(wipeMeta, c), 0)
                && DataCut(bs, old(disk.data), disk.data, If(wipeData, c))
      ensures disk == old(disk).(heads := disk.heads, data := disk.data)
      ensures rc != OK ==> disk == old(disk)
      ensures old(Hinted()) ==> Hinted()
      decreases |c|, 1
    {
      bl' := bl;
      if !ValidId(bl.id) {
        return ArgError, bl';
      }
      if deep && bl.next != 0 {
        bl' := bl'.(next := 0);
        WipeFollowers(bl, wipeData, wipeMeta, c);
      } else {
        assert c == [bl.id];
      }
      ghost var h, d := disk.heads, disk.data;
      rc, bl' := WipeOne(bl', wipeData, wipeMeta);
      HeadsCutTwice(wipeMeta, old(disk.heads), h, disk.heads, c[1..], bl.id, c);
      DataCutTwice(wipeData, bs, old(disk.data), d, disk.data, c[1..], bl.id, c);
    }

    method WipeFollowers(bl: Block, wipeData: bool, wipeMeta: bool, ghost c: seq<nat>)
      requires Shape() && ValidId(bl.id) && Leads(bl, c) && |c| > 1
      modifies this`disk, this`bits, this`hint
      ensures Shape()
      ensures HeadsCut(old(disk.heads), disk.heads, If(wipeMeta, c[1..]), 0)
      ensures DataCut(bs, old(disk.data), disk.data, If(wipeData, c[1..]))
      ensures disk == old(disk).(heads := disk.heads, data := disk.data)
      ensures old(Hinted()) ==> Hinted()
      decreases |c|, 0
    {
      hide HeadsCut, DataCut;
      NothingCutYet(wipeMeta, wipeData, bs, disk.heads, disk.data, c);
      var xb := bl;
      ghost var j := 0;
      while xb.next != 0
        invariant Shape() && |disk.heads| == |old(disk.heads)|
        invariant 0 <= j < |c| && xb.id == c[j] && xb.next == Succ(c, j)
        invariant HeadsCut(old(disk.heads), disk.heads, If(wipeMeta, c[1..j + 1]), 0)
        invariant DataCut(bs, old(disk.data), disk.data, If(wipeData, c[1..j + 1]))
        invariant disk == old(disk).(heads := disk.heads, data := disk.data)
        invariant old(Hinted()) ==> Hinted()
        decreases |c| - j
      {
        var rc, next := ReadNext(xb);
        NotYetWiped(wipeMeta, old(disk.heads), disk.heads, c, j);
        assert old(disk.heads)[c[j + 1]].next == Succ(c, j + 1);
        xb := next;
        ghost var h, d := disk.heads, disk.data;
        var _, _ := Wipe(next.(next := 0), wipeData, wipeMeta, true, [c[j + 1]]);
        HeadsCutTwice(wipeMeta, old(disk.heads), h, disk.heads, c[1..j + 1], c[j + 1], c[1..j + 2]);
        DataCutTwice(wipeData, bs, old(disk.data), d, disk.data, c[1..j + 1], c[j + 1], c[1..j + 2]);
        j := j + 1;
      }
      assert c[1..j + 1] == c[1..];
    }

    static lemma NothingCutYet(wipeMeta: bool, wipeData: bool, bs: nat, heads: seq<Block>, data: seq<seq<Byte>>,
                               c: seq<nat>)
      requires c != []
      ensures HeadsCut(heads, heads, If(wipeMeta, c[1..1]), 0) && DataCut(bs, data, data, If(wipeData, c[1..1]))
    {
    }

    static lemma NotYetWiped(on: bool, h0: seq<Block>, h: seq<Block>, c: seq<nat>, j: nat)
      requires j + 1 < |c| && Distinct(c) && HeadsCut(h0, h, If(on, c[1..j + 1]), 0) && c[j + 1] < |h0|
      ensures c[j + 1] < |h| && h[c[j + 1]] == h0[c[j + 1]]
      ensures c[1..j + 2] == c[1..j + 1] + [c[j + 1]]
    {
      assert c[j + 1] !in c[1..j + 1];
    }

    static ghost function If(on: bool, c: seq<nat>): seq<nat> { if on then c else [] }

    static lemma HeadsCutTwice(on: bool, h0: seq<Block>, h1: seq<Block>, h2: seq<Block>, a: seq<nat>, x: nat,
                               ax: seq<nat>)
      requires HeadsCut(h0, h1, If(on, a), 0) && HeadsCut(h1, h2, If(on, [x]), 0)
      requires forall b :: b in ax <==> b in a || b == x
      ensures HeadsCut(h0, h2, If(on, ax), 0)
    {
    }

    static lemma DataCutTwice(on: bool, bs: nat, d0: seq<seq<Byte>>, d1: seq<seq<Byte>>, d2: seq<seq<Byte>>,
                              a: seq<nat>, x: nat, ax: seq<nat>)
      requires DataCut(bs, d0, d1, If(on, a)) && DataCut(bs, d1, d2, If(on, [x]))
      requires forall b :: b in ax <==> b in a || b == x
      ensures DataCut(bs, d0, d2, If(on, ax))
    {
    }

    method WipeMeta(id: nat) returns (rc: Rc)
      requires Shape() && ValidId(id)
      modifies this`disk, this`bits, this`hint
      ensures Shape() && rc == OK && disk == old(disk).(heads := old(disk.heads)[id := Block(id, 0, false)])
      ensures old(Hinted()) ==> Hinted()
    {
      rc := Flush(Block(id, 0, false));
      if id < hint {
        hint := id;
      }
    }

    /** Wipes one block alone. */
    method WipeOne(bl: Block, wipeData: bool, wipeMeta: bool) returns (rc: Rc, bl': Block)
      requires Shape() && ValidId(bl.id)
      modifies this`disk, this`bits, this`hint
      ensures Shape() && rc == OK
      ensures bl' == if wipeMeta then Block(bl.id, 0, false) else bl
      ensures HeadsCut(old(disk.heads), disk.heads, If(wipeMeta, [bl.id]), 0)
      ensures DataCut(bs, old(disk.data), disk.data, If(wipeData, [bl.id]))
      ensures disk == old(disk).(heads := disk.heads, data := disk.data)
      ensures old(Hinted()) ==> Hinted()
    {
      rc, bl' := OK, bl;
      if wipeMeta {
        bl' := Block(bl.id, 0, false);
        rc := WipeMeta(bl.id);
      }
      if wipeData {
        rc := WipeData(bl', 0);
        assert Splice(old(disk.data)[bl.id], 0, Zeros(bs)) == Zeros(bs);
      }
    }

    /** Finds the lowest free block, or reports that there is none. */
    method NextFree(markUsed: bool) returns (rc: Rc, tgt: Block)
      requires Shape() && Hinted()
      modifies this`disk, this`bits, this`hint
      ensures Shape() && Hinted()
      ensures rc == OK || rc == FSFull
      ensures rc == FSFull <==> forall b :: 1 <= b < |old(disk.heads)| ==> old(disk.heads)[b].used
      ensures rc == OK ==>
                && 1 <= tgt.id < |old(disk.heads)| && !old(disk.heads)[tgt.id].used
                && (forall b :: 1 <= b < tgt.id ==> old(disk.heads)[b].used)
                && tgt == if markUsed then old(disk.heads)[tgt.id].(used := true) else old(disk.heads)[tgt.id]
      ensures disk == if rc == OK && markUsed then old(disk).(heads := old(disk.heads)[tgt.id := tgt]) else old(disk)
    {
      var i := hint;
      if i == 0 {
        hint := 1;
        i := 1;
      }
      while i < |disk.heads|
        invariant 1 <= i <= |disk.heads|
        invariant Hinted() && disk == old(disk)
        invariant forall b :: 1 <= b < i ==> disk.heads[b].used
      {
        if !(loaded && i in bits) {
          var bl;
          rc, bl := Read(i);
          if bl.used {
            UpdateUsed(bl);
          } else {
            if markUsed {
              bl := bl.(used := true);
              var _ := Flush(bl);
              hint := bl.id + 1;
            }
            return OK, bl;
          }
        }
        i := i + 1;
      }
      rc, tgt := FSFull, EMPTY_BLOCK;
    }

    /** Takes the grown file's bytes as blocks. */
    method Enlarge(raw: seq<(Block, seq<Byte>)>)
      requires Shape() && Hinted()
      requires forall k :: 0 <= k < |raw| ==> raw[k].0.id == |disk.heads| + k && |raw[k].1| == bs
      modifies this`disk
      ensures Shape() && Hinted() && |old(disk.heads)| == |old(disk.data)| > 0
      ensures |disk.heads| == |disk.data| == |old(disk.heads)| + |raw| && disk.inodes == old(disk.inodes)
      ensures old(disk.heads) <= disk.heads && old(disk.data) <= disk.data
    {
      disk := disk.(heads := disk.heads + seq(|raw|, k requires 0 <= k < |raw| => raw[k].0),
                    data := disk.data + seq(|raw|, k requires 0 <= k < |raw| => raw[k].1));
    }

    /** Wipes one block, and not what it says comes after it. */
    method WipeNew(id: nat)
      requires Shape() && Hinted() && 1 <= id < |disk.heads| == |disk.data|
      modifies this`disk, this`bits, this`hint
      ensures Shape() && Hinted()
      ensures disk == Disk(old(disk.heads)[id := Block(id, 0, false)], old(disk.data)[id := Zeros(bs)],
                           old(disk.inodes))
    {
      var _, _ := Wipe(Block(id, 0, false), true, true, false, [id]);
    }

    /** Grows the table by `count` blocks.  `raw` is whatever the enlarged container
        holds where they go; every one of them is wiped. */
    method AppendBlocks(count: nat, raw: seq<(Block, seq<Byte>)>)
      requires Shape() && Hinted() && |raw| == count
      requires forall k :: 0 <= k < count ==> raw[k].0.id == |disk.heads| + k && |raw[k].1| == bs
      modifies this`disk, this`bits, this`hint
      ensures Shape() && Hinted()
      ensures disk == Disk(old(disk.heads) + Blank(|old(disk.heads)|, count),
                           old(disk.data) + BlankData(bs, count), old(disk.inodes))
    {
      hide BlockTable.Shape, BlockTable.Hinted;
      var oldCount := |disk.heads|;
      Enlarge(raw);
      var id := oldCount;
      while id < oldCount + count
        invariant oldCount <= id <= oldCount + count == |disk.heads| == |disk.data|
        invariant Shape() && Hinted() && disk.inodes == old(disk.inodes)
                  && oldCount == |old(disk.heads)| == |old(disk.data)|
        invariant forall b :: 0 <= b < oldCount ==>
                    disk.heads[b] == old(disk.heads)[b] && disk.data[b] == old(disk.data)[b]
        invariant forall b :: oldCount <= b < id ==> disk.heads[b] == Block(b, 0, false) && disk.data[b] == Zeros(bs)
      {
        WipeNew(id);
        id := id + 1;
      }
    }
  }
}
