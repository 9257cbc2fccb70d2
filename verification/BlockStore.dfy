/** The container as an array of block records and an array of inode records,
    and the invariant that ties inodes to the chains of blocks they own.
    Everything here is a value; the classes of module Storage move between
    these values, and module Layout shows where each record lives in the bytes. */
module BlockStore {
  import opened Arithmetic
  import opened Bytes

  /** Metadata of one data block; `next == 0` ends a chain (src/whefs_inode.h:24-40). */
  datatype Block = Block(id: nat, next: nat, used: bool)

  /** The part of an inode record that locates its content. */
  datatype InodeRec = InodeRec(first: nat, size: nat)

  /** Index 0 of `heads` and `data` stands for "no block", index 0 of `inodes` for "no inode". */
  datatype Disk = Disk(heads: seq<Block>, data: seq<seq<Byte>>, inodes: seq<InodeRec>)

  /** What the records mean: the chain each inode owns, the place of each used
      block (inode and index in its chain), and each file's logical size. */
  datatype View = View(chains: seq<seq<nat>>, owner: seq<(nat, nat)>, sizes: seq<nat>)

  const EMPTY_BLOCK := Block(0, 0, false)

  function Succ(c: seq<nat>, k: nat): nat {
    if k + 1 < |c| then c[k + 1] else 0
  }

  ghost predicate IsChain(heads: seq<Block>, first: nat, c: seq<nat>) {
    && first == (if c == [] then 0 else c[0])
    && (forall k :: 0 <= k < |c| ==> 1 <= c[k] < |heads|)
    && (forall k {:trigger heads[c[k]]} :: 0 <= k < |c| ==> heads[c[k]].next == Succ(c, k))
  }

  ghost predicate Distinct(c: seq<nat>) {
    forall k, l :: 0 <= k < l < |c| ==> c[k] != c[l]
  }

  /** The bytes of a chain, block after block. */
  function Flat(data: seq<seq<Byte>>, c: seq<nat>): seq<Byte>
    requires forall k :: 0 <= k < |c| ==> c[k] < |data|
  {
    if c == [] then [] else Flat(data, c[..|c| - 1]) + data[c[|c| - 1]]
  }

  ghost predicate Shaped(bs: nat, d: Disk, v: View) {
    && bs > 0
    && |d.heads| == |d.data| == |v.owner| > 0
    && |d.inodes| == |v.chains| == |v.sizes| > 0
    && (forall b :: 1 <= b < |d.heads| ==> d.heads[b].id == b)
    && (forall b :: 0 <= b < |d.data| ==> |d.data[b]| == bs)
  }

  /** Every chain is a zero-terminated run of used blocks, and `owner` gives each
      block of it back its one place. */
  ghost predicate ChainsOwned(d: Disk, v: View)
    requires |d.inodes| == |v.chains| && |v.owner| == |d.heads|
  {
    && (forall i :: 0 <= i < |v.chains| ==> IsChain(d.heads, d.inodes[i].first, v.chains[i]))
    && (forall i, k {:trigger d.heads[v.chains[i][k]]} {:trigger v.owner[v.chains[i][k]]} ::
          0 <= i < |v.chains| && 0 <= k < |v.chains[i]| ==>
          d.heads[v.chains[i][k]].used && v.owner[v.chains[i][k]] == (i, k))
  }

  ghost predicate Owned(v: View, b: nat)
    requires b < |v.owner|
  {
    && v.owner[b].0 < |v.chains|
    && v.owner[b].1 < |v.chains[v.owner[b].0]|
    && v.chains[v.owner[b].0][v.owner[b].1] == b
  }

  /** A block flagged used sits in a chain; any other block is unlinked and zero. */
  ghost predicate NoneLost(bs: nat, d: Disk, v: View)
    requires Shaped(bs, d, v)
  {
    forall b :: 1 <= b < |d.heads| ==>
      if d.heads[b].used then Owned(v, b) else d.heads[b].next == 0 && d.data[b] == Zeros(bs)
  }

  ghost predicate ZeroTails(bs: nat, d: Disk, v: View)
    requires Shaped(bs, d, v) && ChainsOwned(d, v)
  {
    forall i :: 0 <= i < |v.chains| ==> ZeroFrom(Flat(d.data, v.chains[i]), v.sizes[i])
  }

  /** The storage invariant. */
  ghost predicate Inv(bs: nat, d: Disk, v: View) {
    Shaped(bs, d, v) && ChainsOwned(d, v) && NoneLost(bs, d, v) && ZeroTails(bs, d, v)
  }

  /** The content of pseudofile `i`: `size` bytes, zeros where no block was ever allocated. */
  ghost function Content(bs: nat, d: Disk, v: View, i: nat): (s: seq<Byte>)
    requires Inv(bs, d, v) && i < |v.chains|
    ensures |s| == v.sizes[i]
  {
    Resize(Flat(d.data, v.chains[i]), v.sizes[i])
  }

  /** Nothing outside inode `i` differs between the two states: records, chains, sizes, bytes. */
  ghost predicate OthersKept(bs: nat, d: Disk, v: View, d': Disk, v': View, i: nat)
    requires Inv(bs, d, v) && Inv(bs, d', v')
  {
    && |v'.chains| == |v.chains|
    && forall j :: 0 <= j < |v.chains| && j != i ==>
         && v'.chains[j] == v.chains[j] && v'.sizes[j] == v.sizes[j]
         && d'.inodes[j] == d.inodes[j]
         && Flat(d'.data, v'.chains[j]) == Flat(d.data, v.chains[j])
         && forall k {:trigger d'.heads[v.chains[j][k]]} :: 0 <= k < |v.chains[j]| ==>
             d'.heads[v.chains[j][k]] == d.heads[v.chains[j][k]]
  }

  // ----- positions

  /** The quotient and the remainder of `pos` by `bs`, by repeated subtraction. */
  function BlockIndex(pos: nat, bs: nat): nat
    requires bs > 0
  {
    if pos < bs then 0 else 1 + BlockIndex(pos - bs, bs)
  }

  function BlockOffset(pos: nat, bs: nat): (o: nat)
    requires bs > 0
    ensures o < bs
  {
    if pos < bs then pos else BlockOffset(pos - bs, bs)
  }

  lemma {:induction false} Offset(pos: nat, bs: nat)
    requires bs > 0
    ensures pos == BlockIndex(pos, bs) * bs + BlockOffset(pos, bs)
  {
    if pos < bs {
    } else {
      Offset(pos - bs, bs);
      assert (1 + BlockIndex(pos - bs, bs)) * bs == bs + BlockIndex(pos - bs, bs) * bs;
    }
  }

  lemma DivMod(pos: nat, bs: nat)
    requires bs > 0
    ensures BlockIndex(pos, bs) == pos / bs && BlockOffset(pos, bs) == pos % bs
  {
    Offset(pos, bs);
    hide BlockIndex, BlockOffset;
    assert pos == pos / bs * bs + pos % bs;
    QuotientUnique(BlockIndex(pos, bs), BlockOffset(pos, bs), pos / bs, pos % bs, bs);
  }

  /** Where a length ends relative to the block that holds its last byte. */
  lemma LastBlock(len: nat, bs: nat)
    requires bs > 0 && len > 0
    ensures var m, o := BlockIndex(len - 1, bs), BlockOffset(len, bs);
            && m * bs < len <= m * bs + bs
            && len == if o == 0 then m * bs + bs else m * bs + o
  {
    var m, o := BlockIndex(len - 1, bs), BlockOffset(len, bs);
    Offset(len - 1, bs);
    Offset(len, bs);
    hide BlockIndex, BlockOffset;
    if BlockOffset(len - 1, bs) + 1 == bs {
      assert (m + 1) * bs == m * bs + bs;
      QuotientUnique(BlockIndex(len, bs), o, m + 1, 0, bs);
    } else {
      QuotientUnique(BlockIndex(len, bs), o, m, BlockOffset(len - 1, bs) + 1, bs);
    }
  }

  /** How many blocks a file must have for its byte `pos` to exist. */
  function BlocksNeeded(pos: nat, bs: nat): nat
    requires bs > 0
  {
    1 + BlockIndex(pos, bs)
  }

  /** The uint16 in which the source computes that number does not overflow. */
  ghost predicate Addressable(pos: nat, bs: nat)
    requires bs > 0
  {
    BlocksNeeded(pos, bs) < 0x1_0000
  }

  /** The number as the source computes it. */
  function BlockCount16(pos: nat, bs: nat): nat
    requires bs > 0
  {
    (1 + pos / bs) % 0x1_0000
  }

  lemma CountFits(pos: nat, bs: nat)
    requires bs > 0
    ensures BlockCount16(pos, bs) == BlocksNeeded(pos, bs) <==> Addressable(pos, bs)
  {
    DivMod(pos, bs);
  }

  lemma IndexOrder(p: nat, q: nat, bs: nat)
    requires bs > 0 && p <= q
    ensures BlockIndex(p, bs) <= BlockIndex(q, bs)
  {
    hide BlockIndex, BlockOffset;
    Offset(p, bs);
    Offset(q, bs);
    var i, j := BlockIndex(p, bs), BlockIndex(q, bs);
    assert (j + 1) * bs == j * bs + bs;
    if j < i { MulOrder(j + 1, i, bs); }
  }

  /** A position inside a chain of `m` blocks, or right after it. */
  lemma NearBlocks(pos: nat, m: nat, bs: nat)
    requires bs > 0 && pos <= m * bs
    ensures BlocksNeeded(pos, bs) <= m + 1
    ensures pos < m * bs ==> BlocksNeeded(pos, bs) <= m
  {
    hide BlockIndex, BlockOffset;
    Offset(pos, bs);
    MulOrder(BlockIndex(pos, bs), m, bs);
    MulOrder(m, BlockIndex(pos, bs), bs);
  }

  // ----- the bytes of a chain

  lemma {:induction false} FlatLength(bs: nat, data: seq<seq<Byte>>, c: seq<nat>)
    requires forall b :: 0 <= b < |data| ==> |data[b]| == bs
    requires forall k :: 0 <= k < |c| ==> c[k] < |data|
    ensures |Flat(data, c)| == |c| * bs
  {
    if c == [] {
    } else {
      FlatLength(bs, data, c[..|c| - 1]);
      assert (|c| - 1) * bs + bs == |c| * bs;
    }
  }

  lemma {:induction false} FlatTake(bs: nat, data: seq<seq<Byte>>, c: seq<nat>, m: nat)
    requires forall b :: 0 <= b < |data| ==> |data[b]| == bs
    requires forall k :: 0 <= k < |c| ==> c[k] < |data|
    requires m <= |c|
    ensures m * bs <= |Flat(data, c)| == |c| * bs
    ensures Flat(data, c[..m]) == Flat(data, c)[..m * bs]
  {
    FlatLength(bs, data, c);
    FlatLength(bs, data, c[..m]);
    if m == |c| {
      assert c[..m] == c;
    } else {
      var p := c[..|c| - 1];
      FlatTake(bs, data, p, m);
      assert p[..m] == c[..m];
      FlatLength(bs, data, p);
      assert Flat(data, c)[..m * bs] == Flat(data, p)[..m * bs] by {
        assert m * bs <= |p| * bs;
      }
      assert m * bs <= |c| * bs;
    }
  }

  /** Block `k` of a chain holds bytes `[k*bs, (k+1)*bs)` of the file. */
  lemma FlatBlock(bs: nat, data: seq<seq<Byte>>, c: seq<nat>, k: nat)
    requires forall b :: 0 <= b < |data| ==> |data[b]| == bs
    requires forall k :: 0 <= k < |c| ==> c[k] < |data|
    requires k < |c|
    ensures k * bs + bs <= |c| * bs == |Flat(data, c)|
    ensures Flat(data, c)[k * bs..k * bs + bs] == data[c[k]]
  {
    FlatTake(bs, data, c, k + 1);
    FlatTake(bs, data, c, k);
    assert (k + 1) * bs == k * bs + bs;
    var p := c[..k + 1];
    assert p[..k] == c[..k];
    assert Flat(data, p) == Flat(data, c[..k]) + data[c[k]];
    assert |Flat(data, c[..k])| == k * bs;
    assert Flat(data, c)[..k * bs + bs][k * bs..] == data[c[k]];
  }

  lemma {:induction false} FlatFrame(data: seq<seq<Byte>>, data': seq<seq<Byte>>, c: seq<nat>)
    requires forall k :: 0 <= k < |c| ==> c[k] < |data| && c[k] < |data'| && data[c[k]] == data'[c[k]]
    ensures Flat(data, c) == Flat(data', c)
  {
    if c == [] {
    } else {
      FlatFrame(data, data', c[..|c| - 1]);
    }
  }

  /** Overwriting inside one block overwrites the same bytes of the file. */
  lemma {:induction false} FlatSplice(bs: nat, data: seq<seq<Byte>>, c: seq<nat>, k: nat, o: nat, w: seq<Byte>, at: nat)
    requires forall b :: 0 <= b < |data| ==> |data[b]| == bs
    requires forall k :: 0 <= k < |c| ==> c[k] < |data|
    requires Distinct(c) && k < |c| && o + |w| <= bs && at == k * bs + o
    ensures at + |w| <= |c| * bs == |Flat(data, c)|
    ensures Flat(data[c[k] := Splice(data[c[k]], o, w)], c) == Splice(Flat(data, c), at, w)
  {
    hide Splice;
    var b := c[k];
    var data' := data[b := Splice(data[b], o, w)];
    var p, z := c[..|c| - 1], c[|c| - 1];
    FlatBlock(bs, data, c, k);
    FlatLength(bs, data, p);
    if k == |c| - 1 {
      FlatFrame(data, data', p);
      SpliceRight(Flat(data, p), data[z], o, w);
    } else {
      FlatSplice(bs, data, p, k, o, w, at);
      SpliceLeft(Flat(data, p), data[z], at, w);
    }
  }

  /** Reading inside one block reads the same bytes of the file. */
  lemma ReadBlock(bs: nat, data: seq<seq<Byte>>, c: seq<nat>, size: nat, pos: nat, len: nat)
    requires bs > 0 && forall b :: 0 <= b < |data| ==> |data[b]| == bs
    requires forall k :: 0 <= k < |c| ==> c[k] < |data|
    requires BlocksNeeded(pos, bs) <= |c| && BlockOffset(pos, bs) + len <= bs && pos + len <= size
    ensures pos + len <= |Flat(data, c)|
    ensures data[c[BlocksNeeded(pos, bs) - 1]][BlockOffset(pos, bs)..BlockOffset(pos, bs) + len]
              == Resize(Flat(data, c), size)[pos..pos + len]
  {
    var k, o := BlocksNeeded(pos, bs) - 1, BlockOffset(pos, bs);
    Offset(pos, bs);
    FlatBlock(bs, data, c, k);
    hide BlockIndex, BlockOffset, Flat;
    var f := Flat(data, c);
    SliceSlice(f, k * bs, k * bs + bs, o, len);
    assert Resize(f, size)[pos..pos + len] == f[pos..pos + len];
  }
}
