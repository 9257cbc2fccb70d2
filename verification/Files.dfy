/** The container seen from outside: one byte string per inode. */
module Files {
  import opened Arithmetic
  import opened Bytes
  import opened BlockStore
  import opened StoreSteps

  /** The contents of all inodes; entry 0 stands for no inode. */
  ghost function Contents(bs: nat, d: Disk, v: View): (f: seq<seq<Byte>>)
    requires Inv(bs, d, v)
    ensures |f| == |v.chains|
    ensures forall i :: 0 <= i < |f| ==> f[i] == Content(bs, d, v, i)
  {
    seq(|v.chains|, i requires 0 <= i < |v.chains| => Content(bs, d, v, i))
  }

  /** Every size fits 32 bits. */
  ghost predicate Fits(v: View) {
    forall i :: 0 <= i < |v.sizes| ==> v.sizes[i] < 0x1_0000_0000
  }

  lemma OtherContents(bs: nat, d: Disk, v: View, d': Disk, v': View, i: nat)
    requires Inv(bs, d, v) && Inv(bs, d', v') && i < |v.chains| && OthersKept(bs, d, v, d', v', i)
    ensures Contents(bs, d', v') == Contents(bs, d, v)[i := Content(bs, d', v', i)]
    ensures v'.chains == v.chains[i := v'.chains[i]]
    ensures Fits(v) && v'.sizes[i] < 0x1_0000_0000 ==> Fits(v')
  {
    forall j | 0 <= j < |v.chains| && j != i ensures Content(bs, d', v', j) == Content(bs, d, v, j) {
    }
  }

  /** A device write is a write to one of the byte strings. */
  lemma WroteContents(bs: nat, d: Disk, v: View, d': Disk, v': View, i: nat, pos: nat, w: seq<Byte>)
    requires Inv(bs, d, v) && Inv(bs, d', v') && i < |v.chains| && Wrote(bs, d, v, d', v', i, pos, w)
    ensures Contents(bs, d', v') == Contents(bs, d, v)[i := WriteAt(Contents(bs, d, v)[i], pos, w)]
    ensures v'.chains == v.chains[i := v'.chains[i]]
    ensures Fits(v) && pos + |w| < 0x1_0000_0000 ==> Fits(v')
  {
    hide ChainsOwned, NoneLost, ZeroTails, OthersKept, Content, Flat;
    OtherContents(bs, d, v, d', v', i);
    assert v'.sizes[i] == |WriteAt(Content(bs, d, v, i), pos, w)|;
  }

  /** A truncation is one of the byte strings resized, or cut and its last block cleared. */
  lemma ResizedContents(bs: nat, d: Disk, v: View, d': Disk, v': View, i: nat, len: nat)
    requires Inv(bs, d, v) && Inv(bs, d', v') && i < |v.chains| && Resized(bs, d, v, d', v', i, len)
    ensures Contents(bs, d', v') == Contents(bs, d, v)[i := Resize(Contents(bs, d, v)[i], len)]
    ensures v'.chains == v.chains[i := v'.chains[i]]
    ensures Fits(v) && len < 0x1_0000_0000 ==> Fits(v')
  {
    hide Inv, OthersKept;
    OtherContents(bs, d, v, d', v', i);
    ResizedSize(bs, d, v, d', v', i, len);
  }

  lemma ShrunkContents(bs: nat, d: Disk, v: View, d': Disk, v': View, i: nat, len: nat)
    requires Inv(bs, d, v) && Inv(bs, d', v') && i < |v.chains| && 0 < len <= v.sizes[i]
             && ShrankTo(bs, d, v, d', v', i, len)
    ensures Contents(bs, d', v') == Contents(bs, d, v)[i := Shrunk(Contents(bs, d, v)[i], len, bs)]
    ensures v'.chains == v.chains[i := v'.chains[i]]
    ensures Fits(v) && len < 0x1_0000_0000 ==> Fits(v')
  {
    ChainCovers(bs, d', v', i, len);
    hide OthersKept, Flat, BlockIndex, BlockOffset;
    OtherContents(bs, d, v, d', v', i);
    assert |Content(bs, d', v', i)| == len;
  }

  lemma ChainBytes(bs: nat, d: Disk, v: View, i: nat)
    requires Inv(bs, d, v) && i < |v.chains|
    ensures |Flat(d.data, v.chains[i])| == |v.chains[i]| * bs
  {
    FlatLength(bs, d.data, v.chains[i]);
  }

  /** In a container of fewer than 2^32 data bytes no file position overflows 32 bits. */
  lemma PositionsFit(bs: nat, d: Disk, v: View, i: nat)
    requires Inv(bs, d, v) && i < |v.chains| && (|d.heads| - 1) * bs < 0x1_0000_0000
    ensures |Flat(d.data, v.chains[i])| < 0x1_0000_0000
  {
    ChainFits(bs, d, v, i);
    ChainBytes(bs, d, v, i);
    MulOrder(|v.chains[i]|, |d.heads| - 1, bs);
  }

  /** Wiping a whole chain and clearing the inode's record frees exactly that chain. */
  lemma UnlinkKeeps(bs: nat, d: Disk, v: View, i: nat, d': Disk, v': View)
    requires Inv(bs, d, v) && i < |v.chains|
    requires HeadsCut(d.heads, d'.heads, v.chains[i], 0) && DataCut(bs, d.data, d'.data, v.chains[i])
    requires d'.inodes == d.inodes[i := InodeRec(0, 0)]
    requires v' == v.(chains := v.chains[i := []], sizes := v.sizes[i := 0])
    ensures Inv(bs, d', v') && OthersKept(bs, d, v, d', v', i)
    ensures Content(bs, d', v', i) == []
  {
    var v1 := CutView(v, i, 0);
    assert v.chains[i][0..] == v.chains[i] && v.chains[i][..0] == [];
    CutKeeps(bs, d, v, i, 0, d');
    ResizeKeeps(bs, d', v1, i, 0, v');
    OthersTwice(bs, d, v, d', v1, d', v', i);
  }

  /** Inode `i` was deleted: it is empty, the blocks it had are free and zero, and
      nothing else differs. */
  ghost predicate Unlinked(bs: nat, d: Disk, v: View, d': Disk, v': View, i: nat)
    requires Inv(bs, d, v) && Inv(bs, d', v') && i < |v.chains|
  {
    && OthersKept(bs, d, v, d', v', i)
    && v'.chains == v.chains[i := []] && v'.sizes == v.sizes[i := 0]
    && d'.inodes == d.inodes[i := InodeRec(0, 0)] && |d'.heads| == |d.heads|
    && forall b :: 1 <= b < |d.heads| ==>
         if b in v.chains[i] then Freed(bs, d', b) else d'.heads[b] == d.heads[b]
  }

  lemma UnlinkFrees(bs: nat, d: Disk, v: View, i: nat, d': Disk, v': View)
    requires Inv(bs, d, v) && Inv(bs, d', v') && i < |v.chains| && OthersKept(bs, d, v, d', v', i)
    requires HeadsCut(d.heads, d'.heads, v.chains[i], 0) && DataCut(bs, d.data, d'.data, v.chains[i])
    requires d'.inodes == d.inodes[i := InodeRec(0, 0)]
    requires v' == v.(chains := v.chains[i := []], sizes := v.sizes[i := 0])
    ensures Unlinked(bs, d, v, d', v', i)
  {
    hide NoneLost, ZeroTails, ChainsOwned, OthersKept;
  }

  lemma UnlinkContents(bs: nat, d: Disk, v: View, d': Disk, v': View, i: nat)
    requires Inv(bs, d, v) && Inv(bs, d', v') && i < |v.chains| && Unlinked(bs, d, v, d', v', i)
    ensures Contents(bs, d', v') == Contents(bs, d, v)[i := []]
    ensures Fits(v) ==> Fits(v')
  {
    hide ChainsOwned, NoneLost, ZeroTails, OthersKept, Content;
    OtherContents(bs, d, v, d', v', i);
  }

  lemma SameContents(bs: nat, d: Disk, v: View, d': Disk, v': View)
    requires Inv(bs, d, v) && Inv(bs, d', v') && v'.chains == v.chains && v'.sizes == v.sizes
    requires forall i :: 0 <= i < |v.chains| ==> Flat(d'.data, v.chains[i]) == Flat(d.data, v.chains[i])
    ensures Contents(bs, d', v') == Contents(bs, d, v)
    ensures Fits(v) ==> Fits(v')
  {
    hide ChainsOwned, NoneLost, ZeroTails, OthersKept;
  }
}
