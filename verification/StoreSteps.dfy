/** The steps between storage states, as values, and what each of them keeps. */
module StoreSteps {
  import opened Arithmetic
  import opened Bytes
  import opened BlockStore

  // ----- chains

  /** A chain is determined by the headers and its first block. */
  lemma {:induction false} ChainUnique(heads: seq<Block>, first: nat, c: seq<nat>, e: seq<nat>)
    requires IsChain(heads, first, c) && IsChain(heads, first, e)
    ensures c == e
  {
    var k := 0;
    while k < |c| && k < |e|
      invariant k <= |c| && k <= |e|
      invariant c[..k] == e[..k]
      invariant k < |c| && k < |e| ==> c[k] == e[k]
      invariant k == |c| ==> |e| == k
      invariant k == |e| ==> |c| == k
    {
      assert heads[c[k]].next == Succ(c, k) == Succ(e, k);
      k := k + 1;
    }
  }

  /** The block reached by following `k` links from block `b`, or 0 past the end. */
  function Follow(heads: seq<Block>, b: nat, k: nat): nat
    decreases k
  {
    if k == 0 || b >= |heads| then b else Follow(heads, heads[b].next, k - 1)
  }

  /** Following `k` links from the first block of a chain ends at its entry `k`: the jump
      into the cached list and the walk along the links agree. */
  lemma {:induction false} FollowIsIndex(heads: seq<Block>, first: nat, c: seq<nat>, j: nat, k: nat)
    requires IsChain(heads, first, c) && j + k < |c|
    ensures Follow(heads, c[j], k) == c[j + k]
    decreases k
  {
    if k > 0 {
      assert heads[c[j]].next == Succ(c, j);
      FollowIsIndex(heads, first, c, j + 1, k - 1);
    }
  }

  /** The owner map makes chains repetition-free and pairwise disjoint. */
  lemma OwnedOnce(bs: nat, d: Disk, v: View, i: nat, j: nat, k: nat, l: nat)
    requires Inv(bs, d, v)
    requires i < |v.chains| && j < |v.chains| && k < |v.chains[i]| && l < |v.chains[j]|
    requires v.chains[i][k] == v.chains[j][l]
    ensures i == j && k == l
  {
    assert v.owner[v.chains[i][k]] == (i, k);
    assert v.owner[v.chains[j][l]] == (j, l);
  }

  lemma ChainDistinct(bs: nat, d: Disk, v: View, i: nat)
    requires Inv(bs, d, v) && i < |v.chains|
    ensures Distinct(v.chains[i])
  {
    assert forall k :: 0 <= k < |v.chains[i]| ==> v.owner[v.chains[i][k]].1 == k;
  }

  /** Block conservation without ghost bookkeeping: chains are repetition-free and
      pairwise disjoint, and a block is flagged used iff it is in some chain. */
  ghost predicate Conserved(d: Disk, chains: seq<seq<nat>>) {
    && |chains| == |d.inodes|
    && (forall i :: 0 <= i < |chains| ==> IsChain(d.heads, d.inodes[i].first, chains[i]) && Distinct(chains[i]))
    && (forall i, j, b :: 0 <= i < j < |chains| ==> !(b in chains[i] && b in chains[j]))
    && (forall b :: 1 <= b < |d.heads| ==>
          (d.heads[b].used <==> exists i :: 0 <= i < |chains| && b in chains[i]))
  }

  lemma InOneChain(bs: nat, d: Disk, v: View, i: nat, b: nat)
    requires Inv(bs, d, v) && i < |v.chains| && b in v.chains[i]
    ensures b < |v.owner| && v.owner[b].0 == i && d.heads[b].used
  {
    hide Flat, ZeroTails;
    var k :| 0 <= k < |v.chains[i]| && v.chains[i][k] == b;
    assert IsChain(d.heads, d.inodes[i].first, v.chains[i]);
    assert v.owner[v.chains[i][k]] == (i, k);
  }

  lemma UsedIffChained(bs: nat, d: Disk, v: View, b: nat)
    requires Inv(bs, d, v) && 1 <= b < |d.heads|
    ensures d.heads[b].used <==> exists i :: 0 <= i < |v.chains| && b in v.chains[i]
  {
    hide Flat, ZeroTails;
    if d.heads[b].used {
      assert Owned(v, b);
      assert b in v.chains[v.owner[b].0];
    }
    if i :| 0 <= i < |v.chains| && b in v.chains[i] {
      InOneChain(bs, d, v, i, b);
    }
  }

  lemma InvariantConserves(bs: nat, d: Disk, v: View)
    requires Inv(bs, d, v)
    ensures Conserved(d, v.chains)
  {
    forall i | 0 <= i < |v.chains| ensures Distinct(v.chains[i]) { ChainDistinct(bs, d, v, i); }
    forall i, j, b | 0 <= i < j < |v.chains| ensures !(b in v.chains[i] && b in v.chains[j]) {
      if b in v.chains[i] { InOneChain(bs, d, v, i, b); }
      if b in v.chains[j] { InOneChain(bs, d, v, j, b); }
    }
    forall b | 1 <= b < |d.heads|
      ensures d.heads[b].used <==> exists i :: 0 <= i < |v.chains| && b in v.chains[i]
    {
      UsedIffChained(bs, d, v, b);
    }
  }

  /** A chain cannot be longer than the block table. */
  lemma ChainFits(bs: nat, d: Disk, v: View, i: nat)
    requires Inv(bs, d, v) && i < |v.chains|
    ensures |v.chains[i]| < |d.heads|
  {
    ChainDistinct(bs, d, v, i);
    DistinctFits(v.chains[i], |d.heads|);
  }

  lemma {:induction false} DistinctFits(c: seq<nat>, n: nat)
    requires n > 0 && Distinct(c) && forall k :: 0 <= k < |c| ==> 1 <= c[k] < n
    ensures |c| < n
  {
    if c == [] {
    } else if n - 1 in c {
      var k :| 0 <= k < |c| && c[k] == n - 1;
      var r := c[..k] + c[k + 1..];
      assert forall l :: 0 <= l < |r| ==> r[l] == if l < k then c[l] else c[l + 1];
      DistinctFits(r, n - 1);
    } else {
      assert forall k :: 0 <= k < |c| ==> c[k] != n - 1;
      DistinctFits(c, n - 1);
    }
  }

  lemma NothingElse(bs: nat, d: Disk, v: View, i: nat)
    requires Inv(bs, d, v)
    ensures OthersKept(bs, d, v, d, v, i)
  {
  }

  lemma ChainsKept(bs: nat, d: Disk, v: View, d': Disk, v': View, i: nat)
    requires Inv(bs, d, v) && Inv(bs, d', v') && i < |v.chains| && OthersKept(bs, d, v, d', v', i)
    ensures |v'.chains| == |v.chains| && v'.chains == v.chains[i := v'.chains[i]]
  {
    hide ChainsOwned, NoneLost, ZeroTails, Flat;
  }

  lemma OthersTwice(bs: nat, d: Disk, v: View, d': Disk, v': View, d'': Disk, v'': View, i: nat)
    requires Inv(bs, d, v) && Inv(bs, d', v') && Inv(bs, d'', v'')
    requires OthersKept(bs, d, v, d', v', i) && OthersKept(bs, d', v', d'', v'', i)
    ensures OthersKept(bs, d, v, d'', v'', i)
  {
    forall j, k | 0 <= j < |v.chains| && j != i && 0 <= k < |v.chains[j]|
      ensures d''.heads[v.chains[j][k]] == d.heads[v.chains[j][k]]
    {
      assert d'.heads[v.chains[j][k]] == d.heads[v.chains[j][k]];
    }
  }

  // ----- extending a chain by one block

  function ExtendHeads(heads: seq<Block>, c: seq<nat>, b: nat): seq<Block>
    requires b < |heads| && forall k :: 0 <= k < |c| ==> c[k] < |heads|
  {
    var marked := heads[b := Block(b, 0, true)];
    if c == [] then marked else marked[c[|c| - 1] := marked[c[|c| - 1]].(next := b)]
  }

  function ExtendView(v: View, i: nat, b: nat): View
    requires i < |v.chains| && b < |v.owner|
  {
    v.(chains := v.chains[i := v.chains[i] + [b]], owner := v.owner[b := (i, |v.chains[i]|)])
  }

  lemma ExtendOthers(bs: nat, d: Disk, v: View, i: nat, b: nat)
    requires Inv(bs, d, v) && i < |v.chains| && 1 <= b < |d.heads| && !d.heads[b].used
    ensures forall j, k :: 0 <= j < |v.chains| && 0 <= k < |v.chains[j]| ==> v.chains[j][k] != b
    ensures forall j, k :: 0 <= j < |v.chains| && j != i && 0 <= k < |v.chains[j]| ==>
              ExtendHeads(d.heads, v.chains[i], b)[v.chains[j][k]] == d.heads[v.chains[j][k]]
  {
    var c := v.chains[i];
    forall j, k | 0 <= j < |v.chains| && j != i && 0 <= k < |v.chains[j]|
      ensures ExtendHeads(d.heads, c, b)[v.chains[j][k]] == d.heads[v.chains[j][k]]
    {
      assert d.heads[v.chains[j][k]].used && v.owner[v.chains[j][k]] == (j, k);
      assert c != [] ==> v.owner[c[|c| - 1]] == (i, |c| - 1);
    }
  }

  lemma ExtendOwn(heads: seq<Block>, first: nat, c: seq<nat>, b: nat)
    requires IsChain(heads, first, c) && Distinct(c) && 1 <= b < |heads|
    requires forall k {:trigger heads[c[k]]} :: 0 <= k < |c| ==> heads[c[k]].used && c[k] != b
    ensures IsChain(ExtendHeads(heads, c, b), if c == [] then b else first, c + [b])
    ensures forall k :: 0 <= k < |c| + 1 ==> ExtendHeads(heads, c, b)[(c + [b])[k]].used
  {
    var h', c' := ExtendHeads(heads, c, b), c + [b];
    if c != [] { assert heads[c[|c| - 1]].used && c[|c| - 1] != b; }
    forall k | 0 <= k < |c'| ensures h'[c'[k]].next == Succ(c', k) && h'[c'[k]].used {
      if k < |c| {
        assert heads[c[k]].next == Succ(c, k) && heads[c[k]].used;
        if k < |c| - 1 { assert c[k] != c[|c| - 1]; }
      }
    }
  }

  lemma ExtendChains(bs: nat, d: Disk, v: View, i: nat, b: nat, d': Disk)
    requires Inv(bs, d, v) && i < |v.chains| && 1 <= b < |d.heads| && !d.heads[b].used
    requires d'.heads == ExtendHeads(d.heads, v.chains[i], b)
    requires |d'.inodes| == |d.inodes|
    requires d'.inodes == d.inodes[i := d'.inodes[i]]
    requires d'.inodes[i].first == if v.chains[i] == [] then b else d.inodes[i].first
    ensures ChainsOwned(d', ExtendView(v, i, b))
  {
    hide Flat, ZeroTails, NoneLost, OthersKept;
    var v' := ExtendView(v, i, b);
    var c, c' := v.chains[i], v'.chains[i];
    ExtendOthers(bs, d, v, i, b);
    ChainDistinct(bs, d, v, i);
    assert IsChain(d.heads, d.inodes[i].first, c);
    ExtendOwn(d.heads, d.inodes[i].first, c, b);
    forall j | 0 <= j < |v'.chains| ensures IsChain(d'.heads, d'.inodes[j].first, v'.chains[j]) {
      if j != i { assert IsChain(d.heads, d.inodes[j].first, v.chains[j]); }
    }
    forall j, k | 0 <= j < |v'.chains| && 0 <= k < |v'.chains[j]|
      ensures d'.heads[v'.chains[j][k]].used && v'.owner[v'.chains[j][k]] == (j, k)
    {
      if j != i || k < |c| {
        assert v'.chains[j][k] == v.chains[j][k];
        assert v.owner[v.chains[j][k]] == (j, k) && d.heads[v.chains[j][k]].used;
      }
    }
  }

  lemma ExtendNoneLost(bs: nat, d: Disk, v: View, i: nat, b: nat, d': Disk)
    requires Inv(bs, d, v) && i < |v.chains| && 1 <= b < |d.heads| && !d.heads[b].used
    requires d'.heads == ExtendHeads(d.heads, v.chains[i], b) && d'.data == d.data
    requires Shaped(bs, d', ExtendView(v, i, b))
    ensures NoneLost(bs, d', ExtendView(v, i, b))
  {
    var v' := ExtendView(v, i, b);
    var c := v.chains[i];
    assert c != [] ==> d.heads[c[|c| - 1]].used;
    assert v'.chains[i][|c|] == b;
    forall x | 1 <= x < |d'.heads|
      ensures if d'.heads[x].used then Owned(v', x) else d'.heads[x].next == 0 && d'.data[x] == Zeros(bs)
    {
      if x != b {
        assert d'.heads[x].used == d.heads[x].used;
        if d.heads[x].used { assert Owned(v, x); }
      }
    }
  }

  lemma ExtendKeeps(bs: nat, d: Disk, v: View, i: nat, b: nat, d': Disk)
    requires Inv(bs, d, v) && i < |v.chains| && 1 <= b < |d.heads| && !d.heads[b].used
    requires d'.heads == ExtendHeads(d.heads, v.chains[i], b) && d'.data == d.data
    requires |d'.inodes| == |d.inodes| && d'.inodes == d.inodes[i := d'.inodes[i]]
    requires d'.inodes[i].first == if v.chains[i] == [] then b else d.inodes[i].first
    ensures Inv(bs, d', ExtendView(v, i, b))
    ensures OthersKept(bs, d, v, d', ExtendView(v, i, b), i)
    ensures Flat(d'.data, ExtendView(v, i, b).chains[i]) == Flat(d.data, v.chains[i]) + Zeros(bs)
  {
    var v' := ExtendView(v, i, b);
    ExtendChains(bs, d, v, i, b, d');
    ExtendNoneLost(bs, d, v, i, b, d');
    ExtendOthers(bs, d, v, i, b);
    assert v'.chains[i][..|v'.chains[i]| - 1] == v.chains[i];
    forall j | 0 <= j < |v'.chains| ensures ZeroFrom(Flat(d'.data, v'.chains[j]), v'.sizes[j]) {
      assert ZeroFrom(Flat(d.data, v.chains[j]), v.sizes[j]);
    }
  }

  /** Inode `i`'s chain may have gained zero blocks at its end; nothing else differs. */
  ghost predicate Grown(bs: nat, d: Disk, v: View, d': Disk, v': View, i: nat)
    requires Inv(bs, d, v) && Inv(bs, d', v') && i < |v.chains|
  {
    && OthersKept(bs, d, v, d', v', i)
    && |d'.heads| == |d.heads| && |d'.inodes| == |d.inodes| && v'.sizes == v.sizes
    && v.chains[i] <= v'.chains[i]
    && Flat(d.data, v.chains[i]) <= Flat(d'.data, v'.chains[i])
    && ZeroFrom(Flat(d'.data, v'.chains[i]), |Flat(d.data, v.chains[i])|)
  }

  lemma NothingGrown(bs: nat, d: Disk, v: View, i: nat)
    requires Inv(bs, d, v) && i < |v.chains|
    ensures Grown(bs, d, v, d, v, i)
  {
  }

  lemma GrownTwice(bs: nat, d: Disk, v: View, d': Disk, v': View, d'': Disk, v'': View, i: nat)
    requires Inv(bs, d, v) && Inv(bs, d', v') && Inv(bs, d'', v'') && i < |v.chains|
    requires Grown(bs, d, v, d', v', i) && Grown(bs, d', v', d'', v'', i)
    ensures Grown(bs, d, v, d'', v'', i)
  {
    OthersTwice(bs, d, v, d', v', d'', v'', i);
    var f, f', f'' := Flat(d.data, v.chains[i]), Flat(d'.data, v'.chains[i]), Flat(d''.data, v''.chains[i]);
    forall x | |f| <= x < |f''| ensures f''[x] == 0 {
      if x < |f'| { assert f''[x] == f'[x]; }
    }
  }

  lemma GrownContent(bs: nat, d: Disk, v: View, d': Disk, v': View, i: nat)
    requires Inv(bs, d, v) && Inv(bs, d', v') && i < |v.chains|
    requires Grown(bs, d, v, d', v', i)
    ensures Content(bs, d', v', i) == Content(bs, d, v, i)
  {
    var f, f' := Flat(d.data, v.chains[i]), Flat(d'.data, v'.chains[i]);
    assert forall x :: 0 <= x < |f| ==> f'[x] == f[x];
  }

  // ----- changing bytes of one block of one chain

  function WithData(d: Disk, b: nat, o: nat, w: seq<Byte>): Disk
    requires b < |d.data| && o + |w| <= |d.data[b]|
  {
    d.(data := d.data[b := Splice(d.data[b], o, w)])
  }

  lemma SpliceFlat(bs: nat, d: Disk, v: View, i: nat, k: nat, o: nat, w: seq<Byte>)
    requires Inv(bs, d, v) && i < |v.chains| && k < |v.chains[i]| && o + |w| <= bs
    ensures k * bs + o + |w| <= |v.chains[i]| * bs == |Flat(d.data, v.chains[i])|
    ensures Flat(WithData(d, v.chains[i][k], o, w).data, v.chains[i])
              == Splice(Flat(d.data, v.chains[i]), k * bs + o, w)
  {
    ChainDistinct(bs, d, v, i);
    FlatSplice(bs, d.data, v.chains[i], k, o, w, k * bs + o);
  }

  lemma SpliceOther(bs: nat, d: Disk, v: View, i: nat, k: nat, o: nat, w: seq<Byte>, j: nat)
    requires Inv(bs, d, v) && i < |v.chains| && k < |v.chains[i]| && o + |w| <= bs
    requires j < |v.chains| && j != i
    ensures Flat(WithData(d, v.chains[i][k], o, w).data, v.chains[j]) == Flat(d.data, v.chains[j])
  {
    var d' := WithData(d, v.chains[i][k], o, w);
    assert v.owner[v.chains[i][k]] == (i, k);
    assert forall l :: 0 <= l < |v.chains[j]| ==> v.owner[v.chains[j][l]] == (j, l);
    FlatFrame(d.data, d'.data, v.chains[j]);
  }

  lemma ZeroAfterSplice(f: seq<Byte>, p: nat, w: seq<Byte>, size: nat, size': nat)
    requires p + |w| <= |f| && ZeroFrom(f, size) && size <= size'
    requires p + |w| <= size' || w == Zeros(|w|)
    ensures ZeroFrom(Splice(f, p, w), size')
  {
    var f' := Splice(f, p, w);
    forall x | size' <= x < |f'| ensures f'[x] == 0 {
      if p <= x < p + |w| { assert f'[x] == f'[p..p + |w|][x - p]; }
    }
  }

  /** Storing bytes inside one block of one chain, the size not shrinking and every
      byte past it staying zero, keeps the invariant and every other file. */
  lemma SpliceKeeps(bs: nat, d: Disk, v: View, i: nat, k: nat, o: nat, w: seq<Byte>, size: nat)
    requires Inv(bs, d, v) && i < |v.chains| && k < |v.chains[i]| && o + |w| <= bs
    requires v.sizes[i] <= size && (k * bs + o + |w| <= size || w == Zeros(|w|))
    ensures Inv(bs, WithData(d, v.chains[i][k], o, w), v.(sizes := v.sizes[i := size]))
    ensures OthersKept(bs, d, v, WithData(d, v.chains[i][k], o, w), v.(sizes := v.sizes[i := size]), i)
  {
    hide Flat;
    var b := v.chains[i][k];
    var d', v' := WithData(d, b, o, w), v.(sizes := v.sizes[i := size]);
    forall j | 0 <= j < |v.chains|
      ensures j != i ==> Flat(d'.data, v.chains[j]) == Flat(d.data, v.chains[j])
      ensures ZeroFrom(Flat(d'.data, v'.chains[j]), v'.sizes[j])
    {
      assert ZeroFrom(Flat(d.data, v.chains[j]), v.sizes[j]);
      if j == i {
        SpliceFlat(bs, d, v, i, k, o, w);
        ZeroAfterSplice(Flat(d.data, v.chains[i]), k * bs + o, w, v.sizes[i], size);
      } else {
        SpliceOther(bs, d, v, i, k, o, w, j);
      }
    }
    SpliceNoneLost(bs, d, v, i, k, o, w, v');
    SameChains(d, v, d', v');
  }

  lemma SameChains(d: Disk, v: View, d': Disk, v': View)
    requires |d.inodes| == |v.chains| && |v.owner| == |d.heads| && ChainsOwned(d, v)
    requires d'.heads == d.heads && d'.inodes == d.inodes && v'.chains == v.chains && v'.owner == v.owner
    ensures ChainsOwned(d', v')
  {
    assert forall j :: 0 <= j < |v'.chains| ==> IsChain(d'.heads, d'.inodes[j].first, v'.chains[j]);
    assert forall i, k :: 0 <= i < |v.chains| && 0 <= k < |v.chains[i]| ==>
        d.heads[v.chains[i][k]].used && v.owner[v.chains[i][k]] == (i, k);
  }

  lemma SpliceNoneLost(bs: nat, d: Disk, v: View, i: nat, k: nat, o: nat, w: seq<Byte>, v': View)
    requires Inv(bs, d, v) && i < |v.chains| && k < |v.chains[i]| && o + |w| <= bs
    requires v'.chains == v.chains && v'.owner == v.owner && |v'.sizes| == |v.sizes|
    ensures NoneLost(bs, WithData(d, v.chains[i][k], o, w), v')
  {
    assert d.heads[v.chains[i][k]].used;
    forall x | 1 <= x < |d.heads|
      ensures if d.heads[x].used then Owned(v', x)
              else d.heads[x].next == 0 && WithData(d, v.chains[i][k], o, w).data[x] == Zeros(bs)
    {
      if d.heads[x].used { assert Owned(v, x); }
    }
  }

  /** Storing bytes in a block, with the file's size raised to cover them, is a
      file-level write. */
  lemma StoreIsWrite(bs: nat, d: Disk, v: View, i: nat, k: nat, o: nat, w: seq<Byte>, d': Disk, v': View)
    requires Inv(bs, d, v) && i < |v.chains| && k < |v.chains[i]| && o + |w| <= bs && w != []
    requires d' == WithData(d, v.chains[i][k], o, w)
    requires v' == v.(sizes := v.sizes[i := Max(v.sizes[i], k * bs + o + |w|)])
    ensures Inv(bs, d', v') && OthersKept(bs, d, v, d', v', i)
    ensures Content(bs, d', v', i) == WriteAt(Content(bs, d, v, i), k * bs + o, w)
  {
    SpliceKeeps(bs, d, v, i, k, o, w, Max(v.sizes[i], k * bs + o + |w|));
    SpliceFlat(bs, d, v, i, k, o, w);
    assert ZeroFrom(Flat(d.data, v.chains[i]), v.sizes[i]);
    SpliceResize(Flat(d.data, v.chains[i]), v.sizes[i], k * bs + o, w);
  }

  /** The same, for the block that holds file position `pos`. */
  lemma StoreAt(bs: nat, d: Disk, v: View, i: nat, pos: nat, w: seq<Byte>, d': Disk, v': View)
    requires Inv(bs, d, v) && i < |v.chains| && BlocksNeeded(pos, bs) <= |v.chains[i]|
    requires BlockOffset(pos, bs) + |w| <= bs && w != []
    requires d' == WithData(d, v.chains[i][BlocksNeeded(pos, bs) - 1], BlockOffset(pos, bs), w)
    requires v' == v.(sizes := v.sizes[i := Max(v.sizes[i], pos + |w|)])
    ensures Inv(bs, d', v') && Wrote(bs, d, v, d', v', i, pos, w)
  {
    hide ChainsOwned, NoneLost, ZeroTails, OthersKept, Content, WriteAt, Splice, Flat;
    Offset(pos, bs);
    StoreIsWrite(bs, d, v, i, BlocksNeeded(pos, bs) - 1, BlockOffset(pos, bs), w, d', v');
    SpliceFlat(bs, d, v, i, BlocksNeeded(pos, bs) - 1, BlockOffset(pos, bs), w);
  }

  lemma SpliceResize(f: seq<Byte>, size: nat, p: nat, w: seq<Byte>)
    requires p + |w| <= |f| && w != [] && ZeroFrom(f, size)
    ensures Resize(Splice(f, p, w), Max(size, p + |w|)) == WriteAt(Resize(f, size), p, w)
  {
    var l, r := Resize(Splice(f, p, w), Max(size, p + |w|)), WriteAt(Resize(f, size), p, w);
    forall x | 0 <= x < |l| ensures l[x] == r[x] {
      if p <= x < p + |w| {
        assert Splice(f, p, w)[x] == Splice(f, p, w)[p..p + |w|][x - p];
        assert r[x] == r[p..p + |w|][x - p];
      }
    }
  }

  /** Between the two states inode `i`'s file was written with `w` at `pos`, and nothing
      else happened to any file. */
  ghost predicate Wrote(bs: nat, d: Disk, v: View, d': Disk, v': View, i: nat, pos: nat, w: seq<Byte>)
    requires Inv(bs, d, v) && Inv(bs, d', v') && i < |v.chains|
  {
    && OthersKept(bs, d, v, d', v', i) && |d'.heads| == |d.heads|
    && Content(bs, d', v', i) == WriteAt(Content(bs, d, v, i), pos, w)
    && Roomier(|Flat(d.data, v.chains[i])|, v.sizes[i], |Flat(d'.data, v'.chains[i])|, v'.sizes[i], pos, w)
  }

  /** A write never loses room, has room for what it wrote, and does not let a file of
      size `s` outgrow its `r` allocated bytes. */
  ghost predicate Roomier(r: nat, s: nat, r': nat, s': nat, pos: nat, w: seq<Byte>) {
    r <= r' && (w != [] ==> pos + |w| <= r') && (s <= r ==> s' <= r')
  }

  lemma WroteTwice(bs: nat, d: Disk, v: View, d': Disk, v': View, d'': Disk, v'': View, i: nat, pos: nat,
                   a: seq<Byte>, b: seq<Byte>)
    requires Inv(bs, d, v) && Inv(bs, d', v') && Inv(bs, d'', v'') && i < |v.chains|
    requires Wrote(bs, d, v, d', v', i, pos, a) && Wrote(bs, d', v', d'', v'', i, pos + |a|, b)
    ensures Wrote(bs, d, v, d'', v'', i, pos, a + b)
  {
    OthersTwice(bs, d, v, d', v', d'', v'', i);
    WriteAtTwice(Content(bs, d, v, i), pos, a, b);
  }

  lemma GrownWrote(bs: nat, d: Disk, v: View, d': Disk, v': View, i: nat, pos: nat)
    requires Inv(bs, d, v) && Inv(bs, d', v') && i < |v.chains|
    requires Grown(bs, d, v, d', v', i)
    ensures Wrote(bs, d, v, d', v', i, pos, [])
  {
    GrownContent(bs, d, v, d', v', i);
  }

  lemma GrownThenWrote(bs: nat, d: Disk, v: View, d': Disk, v': View, d'': Disk, v'': View, i: nat, pos: nat,
                       w: seq<Byte>)
    requires Inv(bs, d, v) && Inv(bs, d', v') && Inv(bs, d'', v'') && i < |v.chains|
    requires Grown(bs, d, v, d', v', i) && Wrote(bs, d', v', d'', v'', i, pos, w)
    ensures Wrote(bs, d, v, d'', v'', i, pos, w)
  {
    OthersTwice(bs, d, v, d', v', d'', v'', i);
    GrownContent(bs, d, v, d', v', i);
  }

  lemma NothingWrote(bs: nat, d: Disk, v: View, i: nat, pos: nat)
    requires Inv(bs, d, v) && i < |v.chains|
    ensures Wrote(bs, d, v, d, v, i, pos, [])
  {
  }

  // ----- changing only a size

  lemma ResizeKeeps(bs: nat, d: Disk, v: View, i: nat, size: nat, v': View)
    requires Inv(bs, d, v) && i < |v.chains|
    requires v' == v.(sizes := v.sizes[i := size])
    requires ZeroFrom(Flat(d.data, v.chains[i]), size)
    ensures Inv(bs, d, v')
    ensures OthersKept(bs, d, v, d, v', i)
    ensures v.sizes[i] <= size ==> Content(bs, d, v', i) == Resize(Content(bs, d, v, i), size)
  {
    forall j | 0 <= j < |v.chains| ensures ZeroFrom(Flat(d.data, v'.chains[j]), v'.sizes[j]) {
      assert ZeroFrom(Flat(d.data, v.chains[j]), v.sizes[j]);
    }
    assert NoneLost(bs, d, v') by {
      forall x | 1 <= x < |d.heads|
        ensures if d.heads[x].used then Owned(v', x) else d.heads[x].next == 0 && d.data[x] == Zeros(bs)
      {
        assert d.heads[x].used ==> Owned(v, x);
      }
    }
    if v.sizes[i] <= size {
      assert ZeroFrom(Flat(d.data, v.chains[i]), v.sizes[i]);
      assert Content(bs, d, v', i) == Resize(Content(bs, d, v, i), size);
    }
  }

  /** The size in an inode's record on disk is not part of the invariant. */
  lemma SizeOnDisk(bs: nat, d: Disk, v: View, i: nat, size: nat)
    requires Inv(bs, d, v) && i < |v.chains|
    ensures var d' := d.(inodes := d.inodes[i := InodeRec(d.inodes[i].first, size)]);
            Inv(bs, d', v) && OthersKept(bs, d, v, d', v, i)
  {
    hide Flat, NoneLost;
    var d' := d.(inodes := d.inodes[i := InodeRec(d.inodes[i].first, size)]);
    forall j | 0 <= j < |v.chains| ensures IsChain(d'.heads, d'.inodes[j].first, v.chains[j]) {
      assert IsChain(d.heads, d.inodes[j].first, v.chains[j]);
    }
    assert ChainsOwned(d', v);
    assert NoneLost(bs, d', v) by { SameLost(bs, d, d', v); }
  }

  lemma SameLost(bs: nat, d: Disk, d': Disk, v: View)
    requires Shaped(bs, d, v) && Shaped(bs, d', v) && d'.heads == d.heads && d'.data == d.data
    requires NoneLost(bs, d, v)
    ensures NoneLost(bs, d', v)
  {
  }

  /** Between the two states inode `i`'s file was resized to `len` bytes, zeros beyond
      its old end, and nothing else happened to any file. */
  ghost predicate Resized(bs: nat, d: Disk, v: View, d': Disk, v': View, i: nat, len: nat)
    requires Inv(bs, d, v) && Inv(bs, d', v') && i < |v.chains|
  {
    && OthersKept(bs, d, v, d', v', i) && |d'.heads| == |d.heads|
    && Content(bs, d', v', i) == Resize(Content(bs, d, v, i), len)
  }

  /** A new size taken over after the chain may have grown, when it is not smaller than
      the old one or the chain does not reach it. */
  lemma ResizeAfterGrowth(bs: nat, d: Disk, v: View, d': Disk, v': View, i: nat, len: nat, v'': View)
    requires Inv(bs, d, v) && Inv(bs, d', v') && i < |v.chains| && Grown(bs, d, v, d', v', i)
    requires v'' == v'.(sizes := v'.sizes[i := len])
    requires v.sizes[i] <= len || |Flat(d'.data, v'.chains[i])| <= len
    ensures ZeroFrom(Flat(d'.data, v'.chains[i]), len)
    ensures Inv(bs, d', v'') && Resized(bs, d, v, d', v'', i, len)
  {
    var f, f' := Flat(d.data, v.chains[i]), Flat(d'.data, v'.chains[i]);
    assert ZeroFrom(f', v'.sizes[i]);
    ResizeKeeps(bs, d', v', i, len, v'');
    OthersTwice(bs, d, v, d', v', d', v'', i);
    hide Inv, Flat, OthersKept;
    assert f <= f';
    assert forall x :: 0 <= x < |f| ==> f'[x] == f[x];
    assert Resize(f', len) == Resize(Resize(f, v.sizes[i]), len);
  }

  /** A chain has `len` bytes exactly when it has the block for byte `len - 1`. */
  lemma ChainCovers(bs: nat, d: Disk, v: View, i: nat, len: nat)
    requires Inv(bs, d, v) && i < |v.chains| && len > 0
    ensures len <= |Flat(d.data, v.chains[i])| <==> BlocksNeeded(len - 1, bs) <= |v.chains[i]|
  {
    hide BlockIndex, BlockOffset, Flat, NoneLost, ZeroTails;
    var c, m := v.chains[i], BlockIndex(len - 1, bs);
    FlatLength(bs, d.data, c);
    LastBlock(len, bs);
    assert (m + 1) * bs == m * bs + bs;
    if m + 1 <= |c| { MulOrder(m + 1, |c|, bs); } else { MulOrder(|c|, m, bs); }
  }

  lemma ResizedSize(bs: nat, d: Disk, v: View, d': Disk, v': View, i: nat, len: nat)
    requires Inv(bs, d, v) && Inv(bs, d', v') && i < |v.chains| && Resized(bs, d, v, d', v', i, len)
    ensures v'.sizes[i] == len
  {
    assert |Content(bs, d', v', i)| == len;
  }

  lemma ResizedTwice(bs: nat, d: Disk, v: View, d': Disk, v': View, d'': Disk, v'': View, i: nat, len: nat, pos: nat)
    requires Inv(bs, d, v) && Inv(bs, d', v') && Inv(bs, d'', v'') && i < |v.chains|
    requires Resized(bs, d, v, d', v', i, len) && Wrote(bs, d', v', d'', v'', i, pos, [])
    ensures Resized(bs, d, v, d'', v'', i, len)
  {
    OthersTwice(bs, d, v, d', v', d'', v'', i);
  }

  // ----- cutting a chain

  /** Headers after the blocks `gone` were wiped and `last`, if any, unlinked. */
  ghost predicate HeadsCut(heads: seq<Block>, heads': seq<Block>, gone: seq<nat>, last: nat) {
    && |heads'| == |heads|
    && forall x :: 0 <= x < |heads| ==>
         heads'[x] == if x in gone then Block(x, 0, false)
                      else if x == last && last != 0 then heads[x].(next := 0) else heads[x]
  }

  ghost predicate DataCut(bs: nat, data: seq<seq<Byte>>, data': seq<seq<Byte>>, gone: seq<nat>) {
    && |data'| == |data|
    && forall x :: 0 <= x < |data| ==> data'[x] == if x in gone then Zeros(bs) else data[x]
  }

  function CutView(v: View, i: nat, m: nat): View
    requires i < |v.chains| && m <= |v.chains[i]|
  {
    v.(chains := v.chains[i := v.chains[i][..m]])
  }

  lemma CutOthers(bs: nat, d: Disk, v: View, i: nat, m: nat, j: nat, k: nat)
    requires Inv(bs, d, v) && i < |v.chains| && m <= |v.chains[i]|
    requires j < |v.chains| && k < |v.chains[j]| && (j == i ==> k < m)
    ensures v.chains[j][k] !in v.chains[i][m..]
    ensures m > 0 && (j != i || k != m - 1) ==> v.chains[j][k] != v.chains[i][m - 1]
  {
    assert v.owner[v.chains[j][k]] == (j, k);
    assert forall l :: 0 <= l < |v.chains[i]| ==> v.owner[v.chains[i][l]] == (i, l);
  }

  lemma CutChains(bs: nat, d: Disk, v: View, i: nat, m: nat, d': Disk)
    requires Inv(bs, d, v) && i < |v.chains| && m <= |v.chains[i]|
    requires HeadsCut(d.heads, d'.heads, v.chains[i][m..], if m == 0 then 0 else v.chains[i][m - 1])
    requires |d'.inodes| == |d.inodes| && d'.inodes == d.inodes[i := d'.inodes[i]]
    requires d'.inodes[i].first == if m == 0 then 0 else d.inodes[i].first
    ensures ChainsOwned(d', CutView(v, i, m))
    ensures forall j, k :: 0 <= j < |v.chains| && j != i && 0 <= k < |v.chains[j]| ==>
              d'.heads[v.chains[j][k]] == d.heads[v.chains[j][k]]
  {
    var v' := CutView(v, i, m);
    forall j, k | 0 <= j < |v'.chains| && 0 <= k < |v'.chains[j]|
      ensures j != i ==> d'.heads[v.chains[j][k]] == d.heads[v.chains[j][k]]
      ensures d'.heads[v'.chains[j][k]].used && v'.owner[v'.chains[j][k]] == (j, k)
      ensures d'.heads[v'.chains[j][k]].next == Succ(v'.chains[j], k)
    {
      assert v'.chains[j][k] == v.chains[j][k];
      assert v.owner[v.chains[j][k]] == (j, k) && d.heads[v.chains[j][k]].used;
      assert IsChain(d.heads, d.inodes[j].first, v.chains[j]);
      CutOthers(bs, d, v, i, m, j, k);
    }
    forall j | 0 <= j < |v'.chains| ensures IsChain(d'.heads, d'.inodes[j].first, v'.chains[j]) {
      assert IsChain(d.heads, d.inodes[j].first, v.chains[j]);
      forall k | 0 <= k < |v'.chains[j]|
        ensures 1 <= v'.chains[j][k] < |d'.heads| && d'.heads[v'.chains[j][k]].next == Succ(v'.chains[j], k)
      {
        assert v'.chains[j][k] == v.chains[j][k];
      }
    }
  }

  lemma CutFlat(bs: nat, d: Disk, v: View, i: nat, m: nat, d': Disk, j: nat)
    requires Inv(bs, d, v) && i < |v.chains| && m <= |v.chains[i]| && j < |v.chains|
    requires DataCut(bs, d.data, d'.data, v.chains[i][m..])
    ensures m * bs <= |Flat(d.data, v.chains[i])|
    ensures Flat(d'.data, CutView(v, i, m).chains[j])
            == if j == i then Flat(d.data, v.chains[i])[..m * bs] else Flat(d.data, v.chains[j])
  {
    var v' := CutView(v, i, m);
    forall k | 0 <= k < |v'.chains[j]| ensures d'.data[v'.chains[j][k]] == d.data[v.chains[j][k]] {
      assert v'.chains[j][k] == v.chains[j][k];
      CutOthers(bs, d, v, i, m, j, k);
    }
    FlatFrame(d.data, d'.data, v'.chains[j]);
    FlatTake(bs, d.data, v.chains[i], m);
  }

  lemma CutNoneLost(bs: nat, d: Disk, v: View, i: nat, m: nat, d': Disk)
    requires Inv(bs, d, v) && i < |v.chains| && m <= |v.chains[i]|
    requires HeadsCut(d.heads, d'.heads, v.chains[i][m..], if m == 0 then 0 else v.chains[i][m - 1])
    requires DataCut(bs, d.data, d'.data, v.chains[i][m..])
    requires Shaped(bs, d', CutView(v, i, m))
    ensures NoneLost(bs, d', CutView(v, i, m))
  {
    var v', gone := CutView(v, i, m), v.chains[i][m..];
    forall x | 1 <= x < |d'.heads|
      ensures if d'.heads[x].used then Owned(v', x) else d'.heads[x].next == 0 && d'.data[x] == Zeros(bs)
    {
      if x !in gone {
        assert d'.heads[x].used == d.heads[x].used;
        if d.heads[x].used {
          assert Owned(v, x);
          var j, k := v.owner[x].0, v.owner[x].1;
        } else {
          assert d.heads[x].next == 0 && d.data[x] == Zeros(bs);
        }
      }
    }
  }

  /** Wiping the blocks after the first `m` of a chain and ending the chain there
      keeps the invariant and every other file. */
  lemma CutKeeps(bs: nat, d: Disk, v: View, i: nat, m: nat, d': Disk)
    requires Inv(bs, d, v) && i < |v.chains| && m <= |v.chains[i]|
    requires HeadsCut(d.heads, d'.heads, v.chains[i][m..], if m == 0 then 0 else v.chains[i][m - 1])
    requires DataCut(bs, d.data, d'.data, v.chains[i][m..])
    requires |d'.inodes| == |d.inodes| && d'.inodes == d.inodes[i := d'.inodes[i]]
    requires d'.inodes[i].first == if m == 0 then 0 else d.inodes[i].first
    ensures Inv(bs, d', CutView(v, i, m))
    ensures OthersKept(bs, d, v, d', CutView(v, i, m), i)
    ensures m * bs <= |Flat(d.data, v.chains[i])|
    ensures Flat(d'.data, CutView(v, i, m).chains[i]) == Flat(d.data, v.chains[i])[..m * bs]
  {
    var v' := CutView(v, i, m);
    CutShaped(bs, d, v, i, m, d');
    CutChains(bs, d, v, i, m, d');
    CutNoneLost(bs, d, v, i, m, d');
    CutFlat(bs, d, v, i, m, d', i);
    forall j | 0 <= j < |v'.chains|
      ensures j != i ==> Flat(d'.data, v.chains[j]) == Flat(d.data, v.chains[j])
      ensures ZeroFrom(Flat(d'.data, v'.chains[j]), v'.sizes[j])
    {
      assert ZeroFrom(Flat(d.data, v.chains[j]), v.sizes[j]);
      CutFlat(bs, d, v, i, m, d', j);
    }
  }

  /** Inode `i`'s chain was ended after its first `m` blocks, which keep their bytes; the
      rest are free and zero again, and nothing else differs. */
  ghost predicate CutAt(bs: nat, d: Disk, v: View, d': Disk, v': View, i: nat, m: nat)
    requires Inv(bs, d, v) && Inv(bs, d', v') && i < |v.chains| && m <= |v.chains[i]|
  {
    && OthersKept(bs, d, v, d', v', i)
    && v' == CutView(v, i, m)
    && m * bs <= |Flat(d.data, v.chains[i])|
    && Flat(d'.data, v'.chains[i]) == Flat(d.data, v.chains[i])[..m * bs]
    && |d'.heads| == |d.heads|
    && forall b :: b in v.chains[i][m..] ==> b < |d'.heads| && Freed(bs, d', b)
  }

  lemma CutIsCutAt(bs: nat, d: Disk, v: View, i: nat, m: nat, d': Disk)
    requires Inv(bs, d, v) && i < |v.chains| && 0 < m <= |v.chains[i]|
    requires HeadsCut(d.heads, d'.heads, v.chains[i][m..], v.chains[i][m - 1])
    requires DataCut(bs, d.data, d'.data, v.chains[i][m..])
    requires d'.inodes == d.inodes
    ensures Inv(bs, d', CutView(v, i, m))
    ensures CutAt(bs, d, v, d', CutView(v, i, m), i, m)
  {
    hide OthersKept, NoneLost, ZeroTails;
    CutKeeps(bs, d, v, i, m, d');
    assert IsChain(d.heads, d.inodes[i].first, v.chains[i]);
  }

  lemma CutShaped(bs: nat, d: Disk, v: View, i: nat, m: nat, d': Disk)
    requires Inv(bs, d, v) && i < |v.chains| && m <= |v.chains[i]|
    requires HeadsCut(d.heads, d'.heads, v.chains[i][m..], if m == 0 then 0 else v.chains[i][m - 1])
    requires DataCut(bs, d.data, d'.data, v.chains[i][m..])
    requires |d'.inodes| == |d.inodes|
    ensures Shaped(bs, d', CutView(v, i, m))
  {
  }

  lemma UnlinkAfterWipe(h0: seq<Block>, h1: seq<Block>, gone: seq<nat>, last: nat)
    requires HeadsCut(h0, h1, gone, 0) && 1 <= last < |h0| && last !in gone
    ensures HeadsCut(h0, h1[last := h0[last].(next := 0)], gone, last)
  {
  }

  /** A suffix of a chain leads from its own first block to the end. */
  lemma SuffixLeads(bs: nat, d: Disk, v: View, i: nat, m: nat)
    requires Inv(bs, d, v) && i < |v.chains| && m < |v.chains[i]|
    ensures var c, s := v.chains[i], v.chains[i][m..];
            && s[0] == c[m] && d.heads[c[m]].next == Succ(s, 0) && d.heads[c[m]].id == c[m] && Distinct(s)
            && (forall k :: 0 <= k < |s| ==> 1 <= s[k] < |d.heads|)
            && (forall k {:trigger d.heads[s[k]]} :: 1 <= k < |s| ==> d.heads[s[k]].next == Succ(s, k))
    ensures forall k :: 0 <= k < m ==> v.chains[i][k] !in v.chains[i][m..]
  {
    hide NoneLost, ZeroTails;
    var c, s := v.chains[i], v.chains[i][m..];
    ChainDistinct(bs, d, v, i);
    assert IsChain(d.heads, d.inodes[i].first, c);
    forall k | 0 <= k < |s| ensures 1 <= s[k] < |d.heads| && d.heads[s[k]].next == Succ(s, k) {
      assert d.heads[c[m + k]].next == Succ(c, m + k);
    }
  }

  // ----- shrinking a file

  /** What shrinking leaves: the prefix, except that a length that is a multiple of the
      block size also clears the last block that is kept. */
  function Shrunk(s: seq<Byte>, len: nat, bs: nat): (r: seq<Byte>)
    requires bs > 0 && 0 < len <= |s|
    ensures |r| == len
  {
    if BlockOffset(len, bs) != 0 || len < bs then s[..len] else s[..len - bs] + Zeros(bs)
  }

  /** Exactly when shrinking is the truncation it should be. */
  lemma ShrunkIsPrefix(s: seq<Byte>, len: nat, bs: nat)
    requires bs > 0 && 0 < len <= |s|
    ensures Shrunk(s, len, bs) == s[..len] <==> BlockOffset(len, bs) != 0 || s[len - bs..len] == Zeros(bs)
  {
    LastBlock(len, bs);
    if BlockOffset(len, bs) == 0 {
      MulPositive(BlockIndex(len - 1, bs), bs);
      assert s[..len] == s[..len - bs] + s[len - bs..len];
      assert Shrunk(s, len, bs)[len - bs..] == Zeros(bs);
      assert s[..len][len - bs..] == s[len - bs..len];
    }
  }

  /** The bytes after the last kept block was cleared from `len % bs` on and the
      chain was cut behind it. */
  lemma ShrunkFlat(f: seq<Byte>, bs: nat, m: nat, len: nat, size: nat)
    requires bs > 0 && 0 < len < size && m == BlockIndex(len - 1, bs)
    requires m * bs + bs <= |f|
    ensures var o := BlockOffset(len, bs);
            var g := Splice(f, m * bs + o, Zeros(bs - o))[..m * bs + bs];
            && ZeroFrom(g, len) && Resize(g, len) == Shrunk(Resize(f, size), len, bs)
  {
    LastBlock(len, bs);
    MulPositive(m, bs);
    hide BlockIndex, BlockOffset;
    var o := BlockOffset(len, bs);
    var h := Splice(f, m * bs + o, Zeros(bs - o));
    var g := h[..m * bs + bs];
    forall i | 0 <= i < |g|
      ensures g[i] == if m * bs + o <= i then 0 else f[i]
    {
      if m * bs + o <= i {
        assert h[m * bs + o..m * bs + o + (bs - o)][i - (m * bs + o)] == h[i];
      }
    }
  }

  /** Clearing the last block that is kept, from `len % bs` on. */
  lemma ClearKeeps(bs: nat, d: Disk, v: View, i: nat, len: nat, d': Disk)
    requires bs > 0 && Inv(bs, d, v) && i < |v.chains| && len > 0 && BlocksNeeded(len - 1, bs) <= |v.chains[i]|
    requires d' == WithData(d, v.chains[i][BlockIndex(len - 1, bs)], BlockOffset(len, bs),
                            Zeros(bs - BlockOffset(len, bs)))
    ensures Inv(bs, d', v) && OthersKept(bs, d, v, d', v, i)
    ensures ClearedFlat(Flat(d.data, v.chains[i]), Flat(d'.data, v.chains[i]), bs, len)
  {
    hide ChainsOwned, NoneLost, ZeroTails, BlockIndex, BlockOffset, Flat, OthersKept, Splice;
    var k, o := BlockIndex(len - 1, bs), BlockOffset(len, bs);
    SpliceKeeps(bs, d, v, i, k, o, Zeros(bs - o), v.sizes[i]);
    SpliceFlat(bs, d, v, i, k, o, Zeros(bs - o));
    assert v.sizes[i := v.sizes[i]] == v.sizes;
  }

  ghost predicate ClearedFlat(f: seq<Byte>, g: seq<Byte>, bs: nat, len: nat)
    requires bs > 0 && len > 0
  {
    var at, o := BlockIndex(len - 1, bs) * bs, BlockOffset(len, bs);
    && at >= 0 && at + bs <= |f|
    && g == Splice(f, at + o, Zeros(bs - o))
  }

  /** Between the two states inode `i`'s file shrank to `len` bytes: its chain kept just
      the blocks for them, the others are free and zero, and no other file changed. */
  ghost predicate ShrankTo(bs: nat, d: Disk, v: View, d': Disk, v': View, i: nat, len: nat)
    requires Inv(bs, d, v) && Inv(bs, d', v') && i < |v.chains| && 0 < len <= v.sizes[i]
  {
    var m := BlocksNeeded(len - 1, bs);
    && OthersKept(bs, d, v, d', v', i)
    && |v'.chains[i]| == m && (m <= |v.chains[i]| ==> v'.chains[i] == v.chains[i][..m])
    && Content(bs, d', v', i) == Shrunk(Content(bs, d, v, i), len, bs)
    && |d'.heads| == |d.heads|
    && (m <= |v.chains[i]| ==> forall b :: b in v.chains[i][m..] ==> b < |d'.heads| && Freed(bs, d', b))
  }

  ghost predicate Freed(bs: nat, d: Disk, b: nat)
    requires b < |d.heads| == |d.data|
  {
    d.heads[b] == Block(b, 0, false) && d.data[b] == Zeros(bs)
  }

  lemma ShrankAfterGrowth(bs: nat, d: Disk, v: View, d1: Disk, v1: View, d2: Disk, v2: View, i: nat, len: nat)
    requires Inv(bs, d, v) && Inv(bs, d1, v1) && Inv(bs, d2, v2) && i < |v.chains| && 0 < len <= v.sizes[i]
    requires Grown(bs, d, v, d1, v1, i) && |v1.chains[i]| == Max(|v.chains[i]|, BlocksNeeded(len - 1, bs))
    requires ShrankTo(bs, d1, v1, d2, v2, i, len)
    ensures ShrankTo(bs, d, v, d2, v2, i, len)
  {
    hide ChainsOwned, NoneLost, ZeroTails, BlockIndex;
    OthersTwice(bs, d, v, d1, v1, d2, v2, i);
    GrownContent(bs, d, v, d1, v1, i);
    hide OthersKept, Flat, Content;
    if BlocksNeeded(len - 1, bs) <= |v.chains[i]| {
      assert v1.chains[i] == v.chains[i];
    }
  }

  /** Clearing, cutting and adopting the new size together shrink the file. */
  lemma ShrinkSteps(bs: nat, d: Disk, v: View, d1: Disk, d2: Disk, v2: View, i: nat, len: nat, v3: View)
    requires Inv(bs, d, v) && Inv(bs, d1, v) && Inv(bs, d2, v2) && i < |v.chains| && 0 < len < v.sizes[i]
    requires BlocksNeeded(len - 1, bs) <= |v.chains[i]|
    requires d1.heads == d.heads && OthersKept(bs, d, v, d1, v, i)
    requires ClearedFlat(Flat(d.data, v.chains[i]), Flat(d1.data, v.chains[i]), bs, len)
    requires CutAt(bs, d1, v, d2, v2, i, BlocksNeeded(len - 1, bs))
    requires v3 == v2.(sizes := v2.sizes[i := len])
    ensures ZeroFrom(Flat(d2.data, v2.chains[i]), len)
    ensures Inv(bs, d2, v3) && ShrankTo(bs, d, v, d2, v3, i, len)
  {
    hide NoneLost, ZeroTails, BlockIndex, BlockOffset, Flat, Splice;
    var m := BlockIndex(len - 1, bs);
    assert (m + 1) * bs == m * bs + bs;
    ShrunkFlat(Flat(d.data, v.chains[i]), bs, m, len, v.sizes[i]);
    OthersTwice(bs, d, v, d1, v, d2, v2, i);
    ResizeKeeps(bs, d2, v2, i, len, v3);
    OthersTwice(bs, d, v, d2, v2, d2, v3, i);
  }

  /** A chain that already ends there needs no cut. */
  lemma NothingCut(bs: nat, d: Disk, v: View, i: nat)
    requires Inv(bs, d, v) && i < |v.chains|
    ensures CutAt(bs, d, v, d, v, i, |v.chains[i]|)
  {
    var c := v.chains[i];
    FlatLength(bs, d.data, c);
    assert c[..|c|] == c && v.chains[i := c] == v.chains;
    assert Flat(d.data, c)[..|c| * bs] == Flat(d.data, c);
  }

  /** A record that forgets its chain leaves the blocks of the chain in use and out of
      reach: no reading of the records satisfies the invariant, unless there were none. */
  lemma ForgottenChain(bs: nat, d: Disk, v: View, i: nat)
    requires Inv(bs, d, v) && i < |v.chains|
    ensures var d' := d.(inodes := d.inodes[i := InodeRec(0, 0)]);
            (exists v' :: Inv(bs, d', v')) <==> v.chains[i] == []
  {
    var d' := d.(inodes := d.inodes[i := InodeRec(0, 0)]);
    var c := v.chains[i];
    assert IsChain(d.heads, d.inodes[i].first, c);
    if c == [] {
      SizeOnDisk(bs, d, v, i, 0);
      ResizeKeeps(bs, d', v, i, 0, v.(sizes := v.sizes[i := 0]));
    } else if v' :| Inv(bs, d', v') {
      NoOwner(bs, d, v, i, d', v');
    }
  }

  /** A chain that was wiped while its inode's record still leads to it leaves that record
      pointing at a free block: no reading of the records satisfies the invariant, unless
      there was nothing to wipe. */
  lemma WipedChain(bs: nat, d: Disk, v: View, i: nat, d': Disk)
    requires Inv(bs, d, v) && i < |v.chains| && d'.inodes == d.inodes
    requires HeadsCut(d.heads, d'.heads, v.chains[i], 0) && DataCut(bs, d.data, d'.data, v.chains[i])
    ensures (exists v' :: Inv(bs, d', v')) <==> v.chains[i] == []
  {
    var c := v.chains[i];
    assert IsChain(d.heads, d.inodes[i].first, c);
    if c == [] {
      assert d'.heads == d.heads && d'.data == d.data;
      assert d' == d;
    } else {
      assert c[0] in c && !d'.heads[c[0]].used;
      if v' :| Inv(bs, d', v') { FirstUsed(bs, d', v', i); }
    }
  }

  lemma FirstUsed(bs: nat, d: Disk, v: View, i: nat)
    requires Inv(bs, d, v) && i < |d.inodes| && d.inodes[i].first != 0
    ensures d.inodes[i].first < |d.heads| && d.heads[d.inodes[i].first].used
  {
    assert IsChain(d.heads, d.inodes[i].first, v.chains[i]);
    assert d.heads[v.chains[i][0]].used;
  }

  lemma NoOwner(bs: nat, d: Disk, v: View, i: nat, d': Disk, v': View)
    requires Inv(bs, d, v) && Inv(bs, d', v') && i < |v.chains| && v.chains[i] != []
    ensures d' != d.(inodes := d.inodes[i := InodeRec(0, 0)])
  {
    hide Flat, ZeroTails;
    if d' == d.(inodes := d.inodes[i := InodeRec(0, 0)]) {
      var b := v.chains[i][0];
      assert d.heads[b].used && IsChain(d.heads, d.inodes[i].first, v.chains[i]);
      assert Owned(v', b);
      var j, k := v'.owner[b].0, v'.owner[b].1;
      assert IsChain(d'.heads, d'.inodes[j].first, v'.chains[j]);
      if j != i {
        assert IsChain(d.heads, d.inodes[j].first, v.chains[j]);
        ChainUnique(d.heads, d.inodes[j].first, v.chains[j], v'.chains[j]);
        OwnedOnce(bs, d, v, i, j, 0, k);
      }
    }
  }

  // ----- more blocks, and the empty container

  function Blank(from: nat, count: nat): (h: seq<Block>)
    ensures |h| == count && forall x :: 0 <= x < count ==> h[x] == Block(from + x, 0, false)
  {
    seq(count, x requires 0 <= x < count => Block(from + x, 0, false))
  }

  function BlankData(bs: nat, count: nat): (z: seq<seq<Byte>>)
    ensures |z| == count && forall x :: 0 <= x < count ==> z[x] == Zeros(bs)
  {
    seq(count, _ => Zeros(bs))
  }

  lemma AppendKeeps(bs: nat, d: Disk, v: View, count: nat, d': Disk, v': View)
    requires Inv(bs, d, v)
    requires d' == Disk(d.heads + Blank(|d.heads|, count), d.data + BlankData(bs, count), d.inodes)
    requires v' == v.(owner := v.owner + seq(count, _ => (0, 0)))
    ensures Inv(bs, d', v')
    ensures OthersKept(bs, d, v, d', v', 0)
    ensures forall i :: 0 <= i < |v.chains| ==> Flat(d'.data, v.chains[i]) == Flat(d.data, v.chains[i])
  {
    forall i | 0 <= i < |v.chains|
      ensures IsChain(d'.heads, d'.inodes[i].first, v'.chains[i])
      ensures Flat(d'.data, v'.chains[i]) == Flat(d.data, v.chains[i])
      ensures ZeroFrom(Flat(d'.data, v'.chains[i]), v'.sizes[i])
    {
      assert IsChain(d.heads, d.inodes[i].first, v.chains[i]);
      FlatFrame(d.data, d'.data, v.chains[i]);
      assert ZeroFrom(Flat(d.data, v.chains[i]), v.sizes[i]);
    }
    forall i, k | 0 <= i < |v'.chains| && 0 <= k < |v'.chains[i]|
      ensures d'.heads[v'.chains[i][k]].used && v'.owner[v'.chains[i][k]] == (i, k)
    {
      assert v.owner[v.chains[i][k]] == (i, k) && d.heads[v.chains[i][k]].used;
    }
    forall x | 1 <= x < |d'.heads|
      ensures if d'.heads[x].used then Owned(v', x) else d'.heads[x].next == 0 && d'.data[x] == Zeros(bs)
    {
      if x < |d.heads| { assert d.heads[x].used ==> Owned(v, x); }
    }
  }

  function BlankDisk(bs: nat, blocks: nat, inodes: nat): Disk {
    Disk(Blank(0, blocks + 1), BlankData(bs, blocks + 1), seq(inodes + 1, _ => InodeRec(0, 0)))
  }

  function BlankView(blocks: nat, inodes: nat): View {
    View(seq(inodes + 1, _ => []), seq(blocks + 1, _ => (0, 0)), seq(inodes + 1, _ => 0))
  }

  lemma BlankIsValid(bs: nat, blocks: nat, inodes: nat)
    requires bs > 0
    ensures Inv(bs, BlankDisk(bs, blocks, inodes), BlankView(blocks, inodes))
  {
    var d, v := BlankDisk(bs, blocks, inodes), BlankView(blocks, inodes);
    assert forall i :: 0 <= i < |v.chains| ==> v.chains[i] == [];
    assert ChainsOwned(d, v);
  }
}
