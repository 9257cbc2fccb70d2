/** Where every record of a container lies, and how it is written (src/whefs_fs.c:570-941
    and 1159-1213, src/whefs_block.c:21-69 and 91-162, src/whefs_inode.c:190-243 and 751-842). */
module Layout {
  import opened Arithmetic
  import opened Bytes
  import opened Codec

  const U8 := Field(1, false)
  const U16 := Field(2, false)
  const U32 := Field(4, false)

  /** Encoded sizes: an id, a block's metadata, an inode, a name's header, the hints, the options. */
  const ID_SIZE := 3
  const BLOCK_HEAD := 10
  const INODE_SIZE := 19
  const NAME_HEAD := 7
  const HINTS_SIZE := 7
  const OPTIONS_SIZE := 14
  const MAGIC_SIZE := 20

  const MAGIC: seq<nat> := [2009, 12, 1, 16]

  const MAX_NAME := 128

  /** Where the searches for a free inode and a free block start in a new container: inode 1
      is the root. */
  const FIRST_INODE := 2
  const FIRST_BLOCK := 1

  /** What a container is made with; `magic` is the client's own cookie. */
  datatype Options = Options(blockSize: nat, blockCount: nat, inodeCount: nat, nameLength: nat, magic: seq<Byte>)

  /** The options that formatting accepts, within the widths of their fields.  Block and
      inode ids are 16 bits wide, and the loops over them need their ends to be below 65535. */
  predicate Accepted(o: Options) {
    && o.inodeCount >= 2 && o.blockSize >= 32 && 1 <= o.nameLength <= MAX_NAME
    && o.magic != [] && o.blockCount >= o.inodeCount
  }

  /** The smallest options that are accepted, the longest names, and what is just outside. */
  lemma JustInside()
    ensures Accepted(Options(32, 2, 2, 1, [0])) && Accepted(Options(32, 2, 2, 128, [0]))
    ensures !Accepted(Options(31, 2, 2, 1, [0])) && !Accepted(Options(32, 1, 1, 1, [0]))
    ensures !Accepted(Options(32, 2, 3, 1, [0])) && !Accepted(Options(32, 2, 2, 0, [0]))
    ensures !Accepted(Options(32, 2, 2, 129, [0])) && !Accepted(Options(32, 2, 2, 1, []))
    ensures forall o :: Accepted(o) && o.blockCount > o.inodeCount ==> Accepted(o.(blockCount := o.blockCount - 1))
    ensures forall o :: Accepted(o) && o.blockCount == o.inodeCount ==> !Accepted(o.(blockCount := o.blockCount - 1))
  {
  }

  predicate Typed(o: Options) {
    o.blockSize < 0x1_0000_0000 && o.blockCount < 0xFFFF && o.inodeCount < 0xFFFF && o.nameLength < 0x1_0000
        && |o.magic| < 0x1_0000
  }

  function NameSize(o: Options): nat { NAME_HEAD + o.nameLength }

  function BlockSize(o: Options): nat { o.blockSize + BLOCK_HEAD }

  // ----- the offset table

  const SIZE_AT := MAGIC_SIZE

  const COOKIE_AT := SIZE_AT + 5

  function OptionsAt(o: Options): nat { COOKIE_AT + 3 + |o.magic| }

  function HintsAt(o: Options): nat { OptionsAt(o) + OPTIONS_SIZE }

  function NamesAt(o: Options): nat { HintsAt(o) + HINTS_SIZE }

  function InodesAt(o: Options): nat { NamesAt(o) + o.inodeCount * NameSize(o) }

  function BlocksAt(o: Options): nat { InodesAt(o) + o.inodeCount * INODE_SIZE }

  function Eof(o: Options): nat { BlocksAt(o) + o.blockCount * BlockSize(o) }

  /** The end of a container with `base` bytes before its `blocks` blocks of `bs` bytes. */
  function EndOf(base: nat, bs: nat, blocks: nat): nat { base + blocks * (bs + BLOCK_HEAD) }

  lemma EofIsEnd(o: Options)
    ensures Eof(o) == EndOf(BlocksAt(o), o.blockSize, o.blockCount)
  {
  }

  /** The data of a container takes less room than the whole. */
  lemma DataBeforeEnd(base: nat, bs: nat, blocks: nat)
    ensures 0 <= blocks * bs <= EndOf(base, bs, blocks)
  {
    MulPositive(blocks, bs);
    assert blocks * (bs + BLOCK_HEAD) == blocks * bs + BLOCK_HEAD * blocks;
  }

  /** The container size that the code computes on its own, from the options alone. */
  function CalculateSize(o: Options): nat {
    5 * |MAGIC| + 5 + 3 + |o.magic| + (5 + ID_SIZE + ID_SIZE + 3) + HINTS_SIZE
    + NameSize(o) * o.inodeCount + INODE_SIZE * o.inodeCount + BlockSize(o) * o.blockCount
  }

  lemma CalculatedSizeIsEof(o: Options)
    ensures CalculateSize(o) == Eof(o)
  {
  }

  /** Where the regions start, in numbers. */
  lemma PlacesInNumbers(o: Options)
    ensures NamesAt(o) == 49 + |o.magic|
    ensures InodesAt(o) == NamesAt(o) + o.inodeCount * (7 + o.nameLength)
    ensures BlocksAt(o) == InodesAt(o) + o.inodeCount * 19
    ensures Eof(o) == BlocksAt(o) + o.blockCount * (10 + o.blockSize)
  {
  }

  datatype Offsets = Offsets(size: nat, cookie: nat, options: nat, hints: nat, names: nat, inodes: nat, blocks: nat,
                             eof: nat)

  /** Where everything is. */
  function Places(o: Options): Offsets {
    Offsets(SIZE_AT, COOKIE_AT, OptionsAt(o), HintsAt(o), NamesAt(o), InodesAt(o), BlocksAt(o), Eof(o))
  }

  function Wrap(n: nat): nat { n % 0x1_0000_0000 }

  /** Options that formatting accepts need not fit: here the 32-bit end of the container
      falls in the middle of its blocks, and on its very start. */
  lemma AcceptedTooLarge()
    ensures var o := Options(0x10_0000, 0x2000, 2, 1, [0]);
            Typed(o) && Accepted(o) && Eof(o) >= 0x1_0000_0000 && Wrap(Eof(o)) < BlocksAt(o) + 2 * BlockSize(o)
  {
  }

  /** Fills the offset table, whose entries are 32 bits wide.  They are right when the whole
      fits 32 bits, and cut to 32 bits in any case. */
  method InitSizes(o: Options) returns (t: Offsets)
    ensures t == Cut(Places(o))
    ensures Eof(o) < 0x1_0000_0000 ==> t == Places(o)
  {
    PartsFit(o);
    hide Wrap;
    var size := Wrap(0 + 5 * |MAGIC|);
    var cookie := Wrap(size + 5);
    var options := Wrap(cookie + 3 + |o.magic|);
    var hints := Wrap(options + OPTIONS_SIZE);
    var names := Wrap(hints + HINTS_SIZE);
    var inodes := Wrap(names + o.inodeCount * NameSize(o));
    var blocks := Wrap(inodes + o.inodeCount * INODE_SIZE);
    var eof := Wrap(blocks + o.blockCount * BlockSize(o));
    t := Offsets(size, cookie, options, hints, names, inodes, blocks, eof);
    WrapSum(SIZE_AT, 5);
    WrapSum(COOKIE_AT, 3 + |o.magic|);
    WrapSum(OptionsAt(o), OPTIONS_SIZE);
    WrapSum(HintsAt(o), HINTS_SIZE);
    WrapSum(NamesAt(o), o.inodeCount * NameSize(o));
    WrapSum(InodesAt(o), o.inodeCount * INODE_SIZE);
    WrapSum(BlocksAt(o), o.blockCount * BlockSize(o));
  }

  function Cut(t: Offsets): Offsets {
    Offsets(Wrap(t.size), Wrap(t.cookie), Wrap(t.options), Wrap(t.hints), Wrap(t.names), Wrap(t.inodes),
            Wrap(t.blocks), Wrap(t.eof))
  }

  lemma WrapSum(a: nat, b: nat)
    ensures Wrap(Wrap(a) + b) == Wrap(a + b)
  {
    SumRemainder(a, b, 0x1_0000_0000);
  }

  /** When the whole fits 32 bits, so do the offsets on the way. */
  lemma PartsFit(o: Options)
    ensures Eof(o) < 0x1_0000_0000 ==> Cut(Places(o)) == Places(o)
  {
    InRegion(o, Header);
  }

  // ----- the records

  datatype Rec = Header | Name(id: nat) | Node(id: nat) | Head(id: nat) | Data(id: nat)

  predicate ValidRec(o: Options, r: Rec) {
    match r
    case Header => true
    case Name(i) => 1 <= i <= o.inodeCount
    case Node(i) => 1 <= i <= o.inodeCount
    case Head(b) => 1 <= b <= o.blockCount
    case Data(b) => 1 <= b <= o.blockCount
  }

  function Slot(base: nat, k: nat, w: nat): (p: nat)
    requires k >= 1
  {
    MulPositive(k - 1, w);
    base + (k - 1) * w
  }

  function Start(o: Options, r: Rec): nat
    requires ValidRec(o, r)
  {
    match r
    case Header => 0
    case Name(i) => Slot(NamesAt(o), i, NameSize(o))
    case Node(i) => Slot(InodesAt(o), i, INODE_SIZE)
    case Head(b) => Slot(BlocksAt(o), b, BlockSize(o))
    case Data(b) => Slot(BlocksAt(o), b, BlockSize(o)) + BLOCK_HEAD
  }

  function Size(o: Options, r: Rec): nat {
    match r
    case Header => NamesAt(o)
    case Name(_) => NameSize(o)
    case Node(_) => INODE_SIZE
    case Head(_) => BLOCK_HEAD
    case Data(_) => o.blockSize
  }

  function End(o: Options, r: Rec): nat
    requires ValidRec(o, r)
  {
    Start(o, r) + Size(o, r)
  }

  lemma SlotOrder(base: nat, k: nat, l: nat, w: nat)
    requires 1 <= k < l
    ensures Slot(base, k, w) + w <= Slot(base, l, w)
  {
    MulPositive(l - k - 1, w);
    assert (l - 1) * w == (k - 1) * w + w + (l - k - 1) * w;
  }

  lemma SlotEnd(base: nat, k: nat, n: nat, w: nat)
    requires 1 <= k <= n
    ensures base <= Slot(base, k, w) && Slot(base, k, w) + w <= base + n * w
  {
    MulPositive(k - 1, w);
    MulPositive(n - k, w);
    assert n * w == (k - 1) * w + w + (n - k) * w;
  }

  /** The region of the container that a record belongs to. */
  function Region(o: Options, r: Rec): (p: (nat, nat)) {
    match r
    case Header => (0, NamesAt(o))
    case Name(_) => (NamesAt(o), InodesAt(o))
    case Node(_) => (InodesAt(o), BlocksAt(o))
    case Head(_) => (BlocksAt(o), Eof(o))
    case Data(_) => (BlocksAt(o), Eof(o))
  }

  lemma InRegion(o: Options, r: Rec)
    requires ValidRec(o, r)
    ensures Region(o, r).0 <= Start(o, r) && End(o, r) <= Region(o, r).1 <= Eof(o)
  {
    MulPositive(o.inodeCount, NameSize(o));
    MulPositive(o.inodeCount, INODE_SIZE);
    MulPositive(o.blockCount, BlockSize(o));
    match r {
      case Header =>
      case Name(i) => SlotEnd(NamesAt(o), i, o.inodeCount, NameSize(o));
      case Node(i) => SlotEnd(InodesAt(o), i, o.inodeCount, INODE_SIZE);
      case Head(b) => SlotEnd(BlocksAt(o), b, o.blockCount, BlockSize(o));
      case Data(b) => SlotEnd(BlocksAt(o), b, o.blockCount, BlockSize(o));
    }
  }

  /** Where the code finds a record: offsets and products are 32 bits wide. */
  function Position(o: Options, r: Rec): nat
    requires ValidRec(o, r)
  {
    match r
    case Header => 0
    case Name(i) => Slot32(NamesAt(o), i, NameSize(o))
    case Node(i) => Slot32(InodesAt(o), i, INODE_SIZE)
    case Head(b) => Slot32(BlocksAt(o), b, BlockSize(o))
    case Data(b) => Wrap(Slot32(BlocksAt(o), b, BlockSize(o)) + BLOCK_HEAD)
  }

  function Slot32(base: nat, k: nat, w: nat): nat
    requires k >= 1
  {
    MulPositive(k - 1, w);
    Wrap(Wrap(base) + Wrap((k - 1) * w))
  }

  lemma SlotIsCut(base: nat, k: nat, w: nat)
    requires k >= 1
    ensures Slot32(base, k, w) == Wrap(Slot(base, k, w))
  {
    MulPositive(k - 1, w);
    var at: nat := (k - 1) * w;
    hide Wrap;
    WrapSum(at, base);
    WrapSum(base, Wrap(at));
  }

  lemma PositionIsCut(o: Options, r: Rec)
    requires ValidRec(o, r)
    ensures Position(o, r) == Wrap(Start(o, r))
  {
    hide Slot, Slot32, NamesAt, InodesAt, BlocksAt, NameSize, BlockSize;
    match r {
      case Header =>
      case Name(i) => SlotIsCut(NamesAt(o), i, NameSize(o));
      case Node(i) => SlotIsCut(InodesAt(o), i, INODE_SIZE);
      case Head(b) => SlotIsCut(BlocksAt(o), b, BlockSize(o));
      case Data(b) =>
        SlotIsCut(BlocksAt(o), b, BlockSize(o));
        WrapSum(Slot(BlocksAt(o), b, BlockSize(o)), BLOCK_HEAD);
    }
  }

  /** The code finds every record of a container where it lies if and only if the end of the
      container fits 32 bits. */
  lemma PositionsRight(o: Options)
    requires o.blockCount > 0
    ensures (forall r :: ValidRec(o, r) ==> Position(o, r) == Start(o, r) && End(o, r) < 0x1_0000_0000)
            <==> Eof(o) < 0x1_0000_0000
  {
    hide ValidRec, Position, Start, End, Eof;
    if Eof(o) < 0x1_0000_0000 {
      forall r | ValidRec(o, r) ensures Position(o, r) == Start(o, r) && End(o, r) < 0x1_0000_0000 {
        PositionRight(o, r);
      }
    } else {
      LastBlockEnds(o);
    }
  }

  lemma PositionRight(o: Options, r: Rec)
    requires ValidRec(o, r) && Eof(o) < 0x1_0000_0000
    ensures Position(o, r) == Start(o, r) && End(o, r) < 0x1_0000_0000
  {
    hide Position, Slot, NamesAt, InodesAt, BlocksAt, NameSize, BlockSize;
    InRegion(o, r);
    PositionIsCut(o, r);
  }

  lemma LastBlockEnds(o: Options)
    requires o.blockCount > 0
    ensures ValidRec(o, Data(o.blockCount)) && End(o, Data(o.blockCount)) == Eof(o)
  {
    assert o.blockCount * BlockSize(o) == (o.blockCount - 1) * BlockSize(o) + BlockSize(o);
  }

  /** In a container enlarged from `o` to `n`, the header of block `b` is taken to be inside
      the data of block `c`, which was there before. */
  predicate Misplaced(o: Options, n: Options, b: nat, c: nat) {
    && ValidRec(n, Head(b)) && !ValidRec(o, Head(b)) && ValidRec(o, Data(c))
    && Start(o, Data(c)) <= Position(n, Head(b)) && Position(n, Head(b)) + BLOCK_HEAD <= End(o, Data(c))
  }

  /** Enlarging a container that fits past 32 bits. */
  lemma EnlargedTooFar(o: Options, n: Options)
    requires o == Options(65530, 65000, 2, 1, [0]) && n == o.(blockCount := 65534)
    ensures Typed(o) && Accepted(o) && Eof(o) < 0x1_0000_0000 && Typed(n) && Eof(n) >= 0x1_0000_0000
    ensures Misplaced(o, n, 65534, 1)
  {
    assert BlocksAt(o) == BlocksAt(n) == 104 && BlockSize(o) == BlockSize(n) == 65540;
    hide BlocksAt, BlockSize;
    assert Position(n, Head(65534)) == 65628;
  }

  predicate Clear(o: Options, r: Rec, q: Rec)
    requires ValidRec(o, r) && ValidRec(o, q)
  {
    End(o, r) <= Start(o, q) || End(o, q) <= Start(o, r)
  }

  /** Every two different records of a container are disjoint. */
  lemma RecordsDisjoint(o: Options, r: Rec, q: Rec)
    requires ValidRec(o, r) && ValidRec(o, q) && r != q
    ensures Clear(o, r, q)
  {
    InRegion(o, r);
    InRegion(o, q);
    MulPositive(o.inodeCount, NameSize(o));
    MulPositive(o.inodeCount, INODE_SIZE);
    if !r.Header? && !q.Header? && Region(o, r) == Region(o, q) && r.id != q.id {
      var k, l := if r.id < q.id then r.id else q.id, if r.id < q.id then q.id else r.id;
      match r {
        case Name(_) => SlotOrder(NamesAt(o), k, l, NameSize(o));
        case Node(_) => SlotOrder(InodesAt(o), k, l, INODE_SIZE);
        case _ => SlotOrder(BlocksAt(o), k, l, BlockSize(o));
      }
    }
  }
}
