/** The bytes of a container read as the records of module BlockStore: every write of a
    record changes that record alone (src/whefs_block.c:91-215, src/whefs_inode.c:211-282
    and 751-842, src/whefs_fs.c:605-655). */
module Records {
  import opened Bytes
  import opened BlockStore
  import opened Codec
  import opened Layout

  const BLOCK_TAG: Byte := 0x42
  const INODE_TAG: Byte := 0x49
  const NAME_TAG: Byte := 0x22
  const HINTS_TAG: Byte := 0x48

  /** An inode's record; bit 0 of the flags says that it is used. */
  datatype NodeRec = NodeRec(id: nat, flags: nat, mtime: nat, size: nat, first: nat)

  predicate Fits16(n: nat) { n < 0x1_0000 }

  predicate BlockFits(bl: Block) { Fits16(bl.id) && Fits16(bl.next) }

  predicate NodeFits(n: NodeRec) {
    Fits16(n.id) && n.flags < 256 && n.mtime < 0x1_0000_0000 && n.size < 0x1_0000_0000 && Fits16(n.first)
  }

  /** The integer at `pos`, for records that are read whole; a wrong tag reads as 0. */
  function IntAt(f: Field, b: seq<Byte>, pos: nat): int
    requires ValidField(f) && pos + 1 + f.width <= |b|
  {
    var d := DecodeInt(f, b[pos..]);
    if d.Value? then d.v else 0
  }

  lemma IntAtIs(f: Field, v: nat, b: seq<Byte>, pos: nat)
    requires ValidField(f) && !f.signed && v < Power(f.width)
    requires pos + 1 + f.width <= |b| && b[pos..pos + 1 + f.width] == EncodeInt(f, v)
    ensures DecodeInt(f, b[pos..]) == Value(v) && IntAt(f, b, pos) == v
  {
    hide EncodeInt;
    assert b[pos..][..1 + f.width] == b[pos..pos + 1 + f.width];
    IntRoundTrip(f, v, b[pos..]);
  }

  lemma Powers()
    ensures Power(1) == 0x100 && Power(2) == 0x1_0000 && Power(4) == 0x1_0000_0000
  {
    assert Power(2) == 256 * Power(1) && Power(3) == 256 * Power(2);
  }

  // ----- blocks

  function EncodeBlock(bl: Block): (b: seq<Byte>)
    ensures |b| == BLOCK_HEAD
  {
    [BLOCK_TAG] + EncodeInt(U16, bl.id) + EncodeInt(U8, if bl.used then 1 else 0) + EncodeInt(U16, bl.next) + [0]
  }

  /** A block's metadata, or the empty block where the bytes are no block's. */
  function DecodeBlock(b: seq<Byte>): Block
    requires |b| == BLOCK_HEAD
  {
    if b[0] == BLOCK_TAG && DecodeInt(U16, b[1..]).Value? && DecodeInt(U8, b[4..]).Value?
        && DecodeInt(U16, b[6..]).Value?
       && IntAt(U16, b, 1) >= 0 && IntAt(U16, b, 6) >= 0
    then Block(IntAt(U16, b, 1), IntAt(U16, b, 6), IntAt(U8, b, 4) % 2 == 1)
    else EMPTY_BLOCK
  }

  lemma BlockRoundTrip(bl: Block)
    requires BlockFits(bl)
    ensures DecodeBlock(EncodeBlock(bl)) == bl
  {
    Powers();
    hide EncodeInt, DecodeInt, Power;
    var b := EncodeBlock(bl);
    IntAtIs(U16, bl.id, b, 1);
    IntAtIs(U8, if bl.used then 1 else 0, b, 4);
    IntAtIs(U16, bl.next, b, 6);
  }

  // ----- inodes

  function EncodeNode(n: NodeRec): (b: seq<Byte>)
    ensures |b| == INODE_SIZE
  {
    [INODE_TAG] + EncodeInt(U16, n.id) + EncodeInt(U8, n.flags) + EncodeInt(U32, n.mtime) + EncodeInt(U32, n.size)
    + EncodeInt(U16, n.first)
  }

  function DecodeNode(b: seq<Byte>): NodeRec
    requires |b| == INODE_SIZE
  {
    if b[0] == INODE_TAG && IntAt(U16, b, 1) >= 0 && IntAt(U8, b, 4) >= 0 && IntAt(U32, b, 6) >= 0
        && IntAt(U32, b, 11) >= 0
       && IntAt(U16, b, 16) >= 0
    then NodeRec(IntAt(U16, b, 1), IntAt(U8, b, 4), IntAt(U32, b, 6), IntAt(U32, b, 11), IntAt(U16, b, 16))
    else NodeRec(0, 0, 0, 0, 0)
  }

  lemma NodeRoundTrip(n: NodeRec)
    requires NodeFits(n)
    ensures DecodeNode(EncodeNode(n)) == n
  {
    Powers();
    hide EncodeInt, DecodeInt, Power;
    var b := EncodeNode(n);
    IntAtIs(U16, n.id, b, 1);
    IntAtIs(U8, n.flags, b, 4);
    IntAtIs(U32, n.mtime, b, 6);
    IntAtIs(U32, n.size, b, 11);
    IntAtIs(U16, n.first, b, 16);
  }

  // ----- names

  /** A name's record: header, the bytes, zeros up to the fixed size. */
  function EncodeName(o: Options, id: nat, name: seq<Byte>): (b: seq<Byte>)
    requires |name| <= o.nameLength
    ensures |b| == NameSize(o)
  {
    [NAME_TAG] + EncodeInt(U16, id) + EncodeInt(U16, |name|) + name + Zeros(o.nameLength - |name|)
  }

  /** The name up to its first zero byte, as the C string it is read as. */
  function CString(b: seq<Byte>): (s: seq<Byte>) {
    if b == [] || b[0] == 0 then [] else [b[0]] + CString(b[1..])
  }

  function DecodeName(b: seq<Byte>): seq<Byte>
    requires |b| >= NAME_HEAD
  {
    CString(b[NAME_HEAD..])
  }

  lemma {:induction false} CStringIs(name: seq<Byte>, z: seq<Byte>)
    requires 0 !in name && (z == [] || z[0] == 0)
    ensures CString(name + z) == name
  {
    if name == [] {
      assert name + z == z;
    } else {
      CStringIs(name[1..], z);
      assert (name + z)[1..] == name[1..] + z;
    }
  }

  lemma NameRoundTrip(o: Options, id: nat, name: seq<Byte>)
    requires |name| <= o.nameLength && 0 !in name
    ensures DecodeName(EncodeName(o, id, name)) == name
  {
    hide EncodeInt;
    assert EncodeName(o, id, name)[NAME_HEAD..] == name + Zeros(o.nameLength - |name|);
    CStringIs(name, Zeros(o.nameLength - |name|));
  }

  // ----- the records byte by byte: a letter first, then each number behind its tag

  lemma BlockSpelled(bl: Block)
    ensures EncodeBlock(bl) == [0x42, 0x90] + Two(bl.id) + [0x88, if bl.used then 1 else 0, 0x90] + Two(bl.next) + [0]
  {
    Unsigned16(bl.id);
    Unsigned16(bl.next);
    Unsigned8(if bl.used then 1 else 0);
    hide EncodeInt, Two;
  }

  lemma NodeSpelled(n: NodeRec)
    ensures EncodeNode(n) == [0x49, 0x90] + Two(n.id) + [0x88, n.flags % 256, 0xA0] + Four(n.mtime)
                             + [0xA0] + Four(n.size) + [0x90] + Two(n.first)
  {
    Unsigned16(n.id);
    Unsigned16(n.first);
    Unsigned8(n.flags);
    Unsigned32(n.mtime);
    Unsigned32(n.size);
    hide EncodeInt, Two, Four;
  }

  lemma NameSpelled(o: Options, id: nat, name: seq<Byte>)
    requires |name| <= o.nameLength
    ensures EncodeName(o, id, name) ==
              [0x22, 0x90] + Two(id) + [0x90] + Two(|name|) + name + seq(o.nameLength - |name|, _ => 0)
  {
    Unsigned16(id);
    Unsigned16(|name|);
    hide EncodeInt, Two;
    assert Zeros(o.nameLength - |name|) == seq(o.nameLength - |name|, _ => 0);
  }

  // ----- the container's bytes as records

  /** The bytes of one record. */
  function Bits(o: Options, img: seq<Byte>, r: Rec): (b: seq<Byte>)
    requires ValidRec(o, r) && |img| == Eof(o)
    ensures |b| == Size(o, r)
  {
    InRegion(o, r);
    img[Start(o, r)..End(o, r)]
  }

  /** The container after `w` was written at offset `off` of a record. */
  function Put(o: Options, img: seq<Byte>, r: Rec, off: nat, w: seq<Byte>): (g: seq<Byte>)
    requires ValidRec(o, r) && |img| == Eof(o) && off + |w| <= Size(o, r)
    ensures |g| == Eof(o)
  {
    InRegion(o, r);
    Splice(img, Start(o, r) + off, w)
  }

  /** A write inside one record writes there and leaves every other record alone. */
  lemma PutIsLocal(o: Options, img: seq<Byte>, r: Rec, off: nat, w: seq<Byte>, q: Rec)
    requires ValidRec(o, r) && ValidRec(o, q) && |img| == Eof(o) && off + |w| <= Size(o, r)
    ensures Bits(o, Put(o, img, r, off, w), q) == if q == r then Splice(Bits(o, img, r), off, w) else Bits(o, img, q)
  {
    hide Splice, Start, Region, Eof, ValidRec, Size;
    InRegion(o, r);
    InRegion(o, q);
    if q == r {
      SpliceInside(img, Start(o, r) + off, w, Start(o, r), End(o, r));
    } else {
      RecordsDisjoint(o, r, q);
      SpliceElsewhere(img, Start(o, r) + off, w, Start(o, q), End(o, q));
    }
  }

  /** Wiping a new block whose place wrapped overwrites the data of an old one. */
  lemma MisplacedHead(o: Options, n: Options, img: seq<Byte>, b: nat, c: nat, bl: Block)
    requires |img| == Eof(o) && Misplaced(o, n, b, c)
    ensures Position(n, Head(b)) + BLOCK_HEAD <= |img|
    ensures var at := Position(n, Head(b));
            Bits(o, Splice(img, at, EncodeBlock(bl)), Data(c))
            == Splice(Bits(o, img, Data(c)), at - Start(o, Data(c)), EncodeBlock(bl))
  {
    hide Splice, EncodeBlock, Position;
    InRegion(o, Data(c));
    SpliceInside(img, Position(n, Head(b)), EncodeBlock(bl), Start(o, Data(c)), End(o, Data(c)));
  }

  function NodeOf(n: NodeRec): InodeRec { InodeRec(n.first, n.size) }

  /** The records of a container; entry 0 stands for no block and no inode. */
  function DiskOf(o: Options, img: seq<Byte>): Disk
    requires |img| == Eof(o)
  {
    Disk(seq(o.blockCount + 1, b requires 0 <= b <= o.blockCount =>
               if b == 0 then EMPTY_BLOCK else DecodeBlock(Bits(o, img, Head(b)))),
         seq(o.blockCount + 1, b requires 0 <= b <= o.blockCount =>
               if b == 0 then Zeros(o.blockSize) else Bits(o, img, Data(b))),
         seq(o.inodeCount + 1, i requires 0 <= i <= o.inodeCount =>
               if i == 0 then InodeRec(0, 0) else NodeOf(DecodeNode(Bits(o, img, Node(i))))))
  }

  function NameOf(o: Options, img: seq<Byte>, id: nat): seq<Byte>
    requires |img| == Eof(o) && 1 <= id <= o.inodeCount
  {
    DecodeName(Bits(o, img, Name(id)))
  }

  ghost predicate NamesKept(o: Options, img: seq<Byte>, g: seq<Byte>)
    requires |img| == |g| == Eof(o)
  {
    forall id :: 1 <= id <= o.inodeCount ==> NameOf(o, g, id) == NameOf(o, img, id)
  }

  /** Two containers that differ in one record differ in that entry of the record model. */
  lemma DiskFrom(o: Options, img: seq<Byte>, g: seq<Byte>, r: Rec)
    requires |img| == |g| == Eof(o) && ValidRec(o, r)
    requires forall q :: ValidRec(o, q) && q != r ==> Bits(o, g, q) == Bits(o, img, q)
    ensures var d, e := DiskOf(o, img), DiskOf(o, g);
            && e.heads == (if r.Head? then d.heads[r.id := DecodeBlock(Bits(o, g, r))] else d.heads)
            && e.data == (if r.Data? then d.data[r.id := Bits(o, g, r)] else d.data)
            && e.inodes == (if r.Node? then d.inodes[r.id := NodeOf(DecodeNode(Bits(o, g, r)))] else d.inodes)
    ensures !r.Name? ==> NamesKept(o, img, g)
  {
    hide Bits, DecodeBlock, DecodeNode, DecodeName;
    var d, e := DiskOf(o, img), DiskOf(o, g);
    assert e.heads == if r.Head? then d.heads[r.id := DecodeBlock(Bits(o, g, r))] else d.heads;
    assert e.data == if r.Data? then d.data[r.id := Bits(o, g, r)] else d.data;
    assert e.inodes == if r.Node? then d.inodes[r.id := NodeOf(DecodeNode(Bits(o, g, r)))] else d.inodes;
  }

  /** Flushing a block's metadata updates that header of the record model, and no name. */
  lemma FlushIsHeadUpdate(o: Options, img: seq<Byte>, b: nat, bl: Block)
    requires |img| == Eof(o) && 1 <= b <= o.blockCount && BlockFits(bl)
    ensures var g := Put(o, img, Head(b), 0, EncodeBlock(bl));
            && DiskOf(o, g) == DiskOf(o, img).(heads := DiskOf(o, img).heads[b := bl])
            && NamesKept(o, img, g)
  {
    hide Bits, Put, EncodeBlock, DecodeBlock, DecodeNode, DiskOf, NamesKept, Splice;
    PutEverywhere(o, img, Head(b), 0, EncodeBlock(bl));
    BlockRoundTrip(bl);
    SpliceAll(Bits(o, img, Head(b)), EncodeBlock(bl));
    DiskFrom(o, img, Put(o, img, Head(b), 0, EncodeBlock(bl)), Head(b));
  }

  /** Writing inside a block's data updates that data of the record model, and no name. */
  lemma DataWriteIsDataUpdate(o: Options, img: seq<Byte>, b: nat, off: nat, w: seq<Byte>)
    requires |img| == Eof(o) && 1 <= b <= o.blockCount && off + |w| <= o.blockSize
    ensures var g, d := Put(o, img, Data(b), off, w), DiskOf(o, img);
            && DiskOf(o, g) == d.(data := d.data[b := Splice(d.data[b], off, w)])
            && NamesKept(o, img, g)
  {
    DataBits(o, img, b);
    hide Bits, Put, DecodeBlock, DecodeNode, DiskOf, NamesKept, Splice;
    PutEverywhere(o, img, Data(b), off, w);
    DiskFrom(o, img, Put(o, img, Data(b), off, w), Data(b));
  }

  lemma DataBits(o: Options, img: seq<Byte>, b: nat)
    requires |img| == Eof(o) && 1 <= b <= o.blockCount
    ensures |DiskOf(o, img).data| == o.blockCount + 1 && DiskOf(o, img).data[b] == Bits(o, img, Data(b))
  {
  }

  /** Flushing an inode updates its entry of the record model, and no name. */
  lemma FlushIsNodeUpdate(o: Options, img: seq<Byte>, n: NodeRec)
    requires |img| == Eof(o) && 1 <= n.id <= o.inodeCount && NodeFits(n)
    ensures var g, d := Put(o, img, Node(n.id), 0, EncodeNode(n)), DiskOf(o, img);
            && DiskOf(o, g) == d.(inodes := d.inodes[n.id := InodeRec(n.first, n.size)])
            && NamesKept(o, img, g)
  {
    hide Bits, Put, EncodeNode, DecodeBlock, DecodeNode, DiskOf, NamesKept, Splice;
    PutEverywhere(o, img, Node(n.id), 0, EncodeNode(n));
    NodeRoundTrip(n);
    SpliceAll(Bits(o, img, Node(n.id)), EncodeNode(n));
    DiskFrom(o, img, Put(o, img, Node(n.id), 0, EncodeNode(n)), Node(n.id));
  }

  /** Writing a name changes that name, no other, and nothing of the record model. */
  lemma NameWriteIsNameUpdate(o: Options, img: seq<Byte>, id: nat, name: seq<Byte>, j: nat)
    requires |img| == Eof(o) && 1 <= id <= o.inodeCount && 1 <= j <= o.inodeCount
    requires |name| <= o.nameLength && 0 !in name
    ensures var g := Put(o, img, Name(id), 0, EncodeName(o, id, name));
            && DiskOf(o, g) == DiskOf(o, img)
            && NameOf(o, g, j) == if j == id then name else NameOf(o, img, j)
  {
    hide Bits, Put, EncodeName, DecodeName, DecodeBlock, DecodeNode, DiskOf, Splice;
    PutEverywhere(o, img, Name(id), 0, EncodeName(o, id, name));
    NameRoundTrip(o, id, name);
    SpliceAll(Bits(o, img, Name(id)), EncodeName(o, id, name));
    DiskFrom(o, img, Put(o, img, Name(id), 0, EncodeName(o, id, name)), Name(id));
  }

  lemma PutEverywhere(o: Options, img: seq<Byte>, r: Rec, off: nat, w: seq<Byte>)
    requires ValidRec(o, r) && |img| == Eof(o) && off + |w| <= Size(o, r)
    ensures forall q :: ValidRec(o, q) ==>
              Bits(o, Put(o, img, r, off, w), q) == if q == r then Splice(Bits(o, img, r), off, w) else Bits(o, img, q)
  {
    forall q | ValidRec(o, q)
      ensures Bits(o, Put(o, img, r, off, w), q) == if q == r then Splice(Bits(o, img, r), off, w) else Bits(o, img, q)
    {
      PutIsLocal(o, img, r, off, w, q);
    }
  }

  lemma SpliceAll(s: seq<Byte>, w: seq<Byte>)
    requires |s| == |w|
    ensures Splice(s, 0, w) == w
  {
  }
}
