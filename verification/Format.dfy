/** Formatting a container and opening it again (src/whefs_fs.c:570-678, 835-941,
    1230-1350 and 1442-1534). */
module Format {
  import opened Bytes
  import opened BlockStore
  import opened StoreSteps
  import opened ReturnCodes
  import opened Codec
  import opened Layout
  import opened Records

  // ----- the header

  function MagicBytes(n: nat): (b: seq<Byte>)
    requires n <= |MAGIC|
    ensures |b| == 5 * n
  {
    if n == 0 then [] else MagicBytes(n - 1) + EncodeInt(U32, MAGIC[n - 1])
  }

  function HintsRecord(inode: nat, block: nat): (b: seq<Byte>)
    ensures |b| == HINTS_SIZE
  {
    [HINTS_TAG] + EncodeInt(U16, inode) + EncodeInt(U16, block)
  }

  /** The pieces of the header, in the order in which they are written. */
  function Piece(o: Options, size: nat, k: nat): seq<Byte>
    requires k < 9
  {
    match k
    case 0 => MagicBytes(|MAGIC|)
    case 1 => EncodeInt(U32, size)
    case 2 => EncodeInt(U16, |o.magic|)
    case 3 => o.magic
    case 4 => EncodeInt(U32, o.blockSize)
    case 5 => EncodeInt(U16, o.blockCount)
    case 6 => EncodeInt(U16, o.inodeCount)
    case 7 => EncodeInt(U16, o.nameLength)
    case _ => HintsRecord(FIRST_INODE, FIRST_BLOCK)
  }

  function PieceAt(o: Options, k: nat): nat {
    match k
    case 0 => 0
    case 1 => SIZE_AT
    case 2 => COOKIE_AT
    case 3 => COOKIE_AT + 3
    case 4 => OptionsAt(o)
    case 5 => OptionsAt(o) + 5
    case 6 => OptionsAt(o) + 8
    case 7 => OptionsAt(o) + 11
    case 8 => HintsAt(o)
    case _ => NamesAt(o)
  }

  function HeaderBytes(o: Options, size: nat, k: nat): (b: seq<Byte>)
    requires k <= 9
    ensures |b| == PieceAt(o, k)
  {
    if k == 0 then [] else HeaderBytes(o, size, k - 1) + Piece(o, size, k - 1)
  }

  lemma {:induction false} HeaderPrefix(o: Options, size: nat, k: nat, n: nat)
    requires k <= n <= 9
    ensures HeaderBytes(o, size, k) <= HeaderBytes(o, size, n)
  {
    if k < n { HeaderPrefix(o, size, k, n - 1); }
  }

  /** Piece `k` of a header, whose hints may be others. */
  lemma HeaderPiece(o: Options, size: nat, img: seq<Byte>, k: nat)
    requires k < 8 && |img| >= HintsAt(o) && img[..HintsAt(o)] == HeaderBytes(o, size, 8)
    ensures PieceAt(o, k) <= PieceAt(o, k + 1) <= |img|
    ensures img[PieceAt(o, k)..PieceAt(o, k + 1)] == Piece(o, size, k)
  {
    HeaderPrefix(o, size, k + 1, 8);
    var h := HeaderBytes(o, size, k + 1);
    hide Piece, HeaderBytes;
    HeaderStep(o, size, k);
    assert img[..PieceAt(o, k + 1)] == h by {
      assert img[..HintsAt(o)][..|h|] == h;
    }
  }

  lemma HeaderStep(o: Options, size: nat, k: nat)
    requires k < 9
    ensures HeaderBytes(o, size, k + 1) == HeaderBytes(o, size, k) + Piece(o, size, k)
    ensures PieceAt(o, k + 1) == PieceAt(o, k) + |Piece(o, size, k)| <= NamesAt(o)
  {
    HeaderPrefix(o, size, k + 1, 9);
  }

  /** The header of a container of `size` bytes, byte by byte. */
  lemma HeaderSpelled(o: Options, size: nat)
    ensures HeaderBytes(o, size, 9) ==
              [0xA0, 0, 0, 7, 0xD9, 0xA0, 0, 0, 0, 12, 0xA0, 0, 0, 0, 1, 0xA0, 0, 0, 0, 16]
              + [0xA0] + Four(size) + [0x90] + Two(|o.magic|) + o.magic + [0xA0] + Four(o.blockSize)
              + [0x90] + Two(o.blockCount) + [0x90] + Two(o.inodeCount) + [0x90] + Two(o.nameLength)
              + [0x48, 0x90, 0, 2, 0x90, 0, 1]
  {
    MagicSpelled();
    HeaderFrom(o, size);
    Unsigned32(size);
    Unsigned16(|o.magic|);
    Unsigned32(o.blockSize);
    Unsigned16(o.blockCount);
    Unsigned16(o.inodeCount);
    Unsigned16(o.nameLength);
    hide EncodeInt, MagicBytes, HeaderBytes, Two, Four, HintsRecord;
    HintsSpelled();
  }

  lemma HintsSpelled()
    ensures HintsRecord(FIRST_INODE, FIRST_BLOCK) == [0x48, 0x90, 0, 2, 0x90, 0, 1]
  {
    Unsigned16(2);
    Unsigned16(1);
  }

  lemma MagicSpelled()
    ensures MagicBytes(4) == [0xA0, 0, 0, 7, 0xD9, 0xA0, 0, 0, 0, 12, 0xA0, 0, 0, 0, 1, 0xA0, 0, 0, 0, 16]
  {
    Unsigned32(2009);
    Unsigned32(12);
    Unsigned32(1);
    Unsigned32(16);
    hide EncodeInt;
    assert MagicBytes(1) == MagicBytes(0) + EncodeInt(U32, MAGIC[0]);
    assert MagicBytes(2) == MagicBytes(1) + EncodeInt(U32, MAGIC[1]);
    assert MagicBytes(3) == MagicBytes(2) + EncodeInt(U32, MAGIC[2]);
    assert MagicBytes(4) == MagicBytes(3) + EncodeInt(U32, MAGIC[3]);
  }

  lemma HeaderFrom(o: Options, size: nat)
    ensures HeaderBytes(o, size, 9) ==
              MagicBytes(4) + EncodeInt(U32, size) + EncodeInt(U16, |o.magic|) + o.magic + EncodeInt(U32, o.blockSize)
              + EncodeInt(U16, o.blockCount) + EncodeInt(U16, o.inodeCount) + EncodeInt(U16, o.nameLength)
              + HintsRecord(FIRST_INODE, FIRST_BLOCK)
  {
    hide EncodeInt, MagicBytes, HintsRecord;
    assert HeaderBytes(o, size, 2) == MagicBytes(4) + EncodeInt(U32, size);
    assert HeaderBytes(o, size, 4) == HeaderBytes(o, size, 3) + o.magic;
    assert HeaderBytes(o, size, 6) == HeaderBytes(o, size, 5) + EncodeInt(U16, o.blockCount);
    assert HeaderBytes(o, size, 8) == HeaderBytes(o, size, 7) + EncodeInt(U16, o.nameLength);
  }

  // ----- tables

  function Table(f: nat -> seq<Byte>, n: nat): seq<Byte> {
    if n == 0 then [] else Table(f, n - 1) + f(n)
  }

  lemma {:induction false} TableLength(f: nat -> seq<Byte>, n: nat, w: nat)
    requires forall k :: |f(k)| == w
    ensures |Table(f, n)| == n * w
  {
    if n > 0 {
      TableLength(f, n - 1, w);
      assert n * w == (n - 1) * w + w;
    }
  }

  lemma {:induction false} TablePrefix(f: nat -> seq<Byte>, k: nat, n: nat)
    requires k <= n
    ensures Table(f, k) <= Table(f, n)
  {
    if k < n { TablePrefix(f, k, n - 1); }
  }

  /** Row `k` of a table in the container, wherever the table starts. */
  lemma TableRow(f: nat -> seq<Byte>, n: nat, w: nat, k: nat, img: seq<Byte>, base: nat)
    requires (forall j :: |f(j)| == w) && 1 <= k <= n
    requires base + n * w <= |img| && n * w >= 0 && img[base..base + n * w] == Table(f, n)
    ensures Slot(base, k, w) + w <= base + n * w
    ensures img[Slot(base, k, w)..Slot(base, k, w) + w] == f(k)
  {
    SlotEnd(base, k, n, w);
    TableLength(f, k - 1, w);
    TableLength(f, k, w);
    TablePrefix(f, k, n);
    var t, lo := Table(f, n), (k - 1) * w;
    assert lo + w == k * w;
    assert t[..k * w] == Table(f, k);
    assert t[lo..lo + w] == f(k);
    assert img[base + lo..base + lo + w] == t[lo..lo + w];
  }

  function NameRow(o: Options): nat -> seq<Byte> { (k: nat) => EncodeName(o, k, []) }

  function NodeRow(): nat -> seq<Byte> { (k: nat) => EncodeNode(NodeRec(k, 0, 0, 0, 0)) }

  function BlockRow(o: Options): nat -> seq<Byte> { (k: nat) => EncodeBlock(Block(k, 0, false)) + Zeros(o.blockSize) }

  /** The container as formatting leaves it. */
  function Image(o: Options): seq<Byte> {
    HeaderBytes(o, Eof(o), 9) + Table(NameRow(o), o.inodeCount) + Table(NodeRow(), o.inodeCount)
    + Table(BlockRow(o), o.blockCount)
  }

  lemma ImageParts(o: Options)
    ensures var g := Image(o);
            && |g| == Eof(o) && NamesAt(o) <= InodesAt(o) <= BlocksAt(o) <= Eof(o)
            && g[..NamesAt(o)] == HeaderBytes(o, Eof(o), 9)
            && g[NamesAt(o)..InodesAt(o)] == Table(NameRow(o), o.inodeCount)
            && g[InodesAt(o)..BlocksAt(o)] == Table(NodeRow(), o.inodeCount)
            && g[BlocksAt(o)..Eof(o)] == Table(BlockRow(o), o.blockCount)
  {
    hide Table, HeaderBytes;
    Tables(o, HeaderBytes(o, Eof(o), 9), NameRow(o), NodeRow(), BlockRow(o), Image(o));
  }

  /** A header and three tables make a container. */
  lemma Tables(o: Options, h: seq<Byte>, names: nat -> seq<Byte>, nodes: nat -> seq<Byte>, blocks: nat -> seq<Byte>,
               g: seq<Byte>)
    requires |h| == NamesAt(o) && (forall k :: |names(k)| == NameSize(o)) && (forall k :: |nodes(k)| == INODE_SIZE)
    requires (forall k :: |blocks(k)| == BlockSize(o))
    requires g == h + Table(names, o.inodeCount) + Table(nodes, o.inodeCount) + Table(blocks, o.blockCount)
    ensures |g| == Eof(o) && NamesAt(o) <= InodesAt(o) <= BlocksAt(o) <= Eof(o)
    ensures g[..NamesAt(o)] == h
    ensures g[NamesAt(o)..InodesAt(o)] == Table(names, o.inodeCount)
    ensures g[InodesAt(o)..BlocksAt(o)] == Table(nodes, o.inodeCount)
    ensures g[BlocksAt(o)..Eof(o)] == Table(blocks, o.blockCount)
  {
    TableLength(names, o.inodeCount, NameSize(o));
    TableLength(nodes, o.inodeCount, INODE_SIZE);
    TableLength(blocks, o.blockCount, BlockSize(o));
    hide Table;
    FourParts(h, Table(names, o.inodeCount), Table(nodes, o.inodeCount), Table(blocks, o.blockCount), g);
  }

  lemma FourParts(a: seq<Byte>, b: seq<Byte>, c: seq<Byte>, d: seq<Byte>, g: seq<Byte>)
    requires g == a + b + c + d
    ensures g[..|a|] == a && g[|a|..|a| + |b|] == b
    ensures g[|a| + |b|..|a| + |b| + |c|] == c && g[|a| + |b| + |c|..|g|] == d
  {
  }

  /** A fresh container holds free blocks of zeros, empty inodes and no names. */
  lemma ImageIsBlank(o: Options)
    requires Typed(o)
    ensures |Image(o)| == Eof(o)
    ensures DiskOf(o, Image(o)) == BlankDisk(o.blockSize, o.blockCount, o.inodeCount)
    ensures forall i :: 1 <= i <= o.inodeCount ==> NameOf(o, Image(o), i) == []
  {
    hide Bits, DecodeBlock, DecodeNode, DecodeName, Image, DiskOf, BlankDisk;
    ImageParts(o);
    var g := Image(o);
    forall b | 1 <= b <= o.blockCount
      ensures DecodeBlock(Bits(o, g, Head(b))) == Block(b, 0, false) && Bits(o, g, Data(b)) == Zeros(o.blockSize)
    {
      BlankBlock(o, b);
    }
    forall i | 1 <= i <= o.inodeCount
      ensures DecodeNode(Bits(o, g, Node(i))) == NodeRec(i, 0, 0, 0, 0) && NameOf(o, g, i) == []
    {
      BlankNode(o, i);
    }
    BlankRecords(o, g);
  }

  lemma BlankRecords(o: Options, g: seq<Byte>)
    requires |g| == Eof(o)
    requires forall b :: 1 <= b <= o.blockCount ==>
               DecodeBlock(Bits(o, g, Head(b))) == Block(b, 0, false) && Bits(o, g, Data(b)) == Zeros(o.blockSize)
    requires forall i :: 1 <= i <= o.inodeCount ==> DecodeNode(Bits(o, g, Node(i))) == NodeRec(i, 0, 0, 0, 0)
    ensures DiskOf(o, g) == BlankDisk(o.blockSize, o.blockCount, o.inodeCount)
  {
    hide Bits, DecodeBlock, DecodeNode;
    var d, e := DiskOf(o, g), BlankDisk(o.blockSize, o.blockCount, o.inodeCount);
    assert d.heads == e.heads;
    assert d.data == e.data;
    assert d.inodes == e.inodes;
  }

  lemma BlankBlock(o: Options, b: nat)
    requires Typed(o) && 1 <= b <= o.blockCount && |Image(o)| == Eof(o)
    ensures DecodeBlock(Bits(o, Image(o), Head(b))) == Block(b, 0, false)
    ensures Bits(o, Image(o), Data(b)) == Zeros(o.blockSize)
  {
    hide Image, EncodeBlock, DecodeBlock, Bits, Slot, Table;
    ImageParts(o);
    TableRow(BlockRow(o), o.blockCount, BlockSize(o), b, Image(o), BlocksAt(o));
    BlockRoundTrip(Block(b, 0, false));
    BlockBits(o, Image(o), b, EncodeBlock(Block(b, 0, false)), Zeros(o.blockSize));
  }

  lemma BlockBits(o: Options, img: seq<Byte>, b: nat, head: seq<Byte>, data: seq<Byte>)
    requires 1 <= b <= o.blockCount && |img| == Eof(o) && |head| == BLOCK_HEAD
    requires var at := Slot(BlocksAt(o), b, BlockSize(o));
             at + BlockSize(o) <= |img| && img[at..at + BlockSize(o)] == head + data
    ensures Bits(o, img, Head(b)) == head && Bits(o, img, Data(b)) == data
  {
    hide Slot, BlocksAt, Eof;
    var at := Slot(BlocksAt(o), b, BlockSize(o));
    SliceSlice(img, at, at + BlockSize(o), 0, BLOCK_HEAD);
    SliceSlice(img, at, at + BlockSize(o), BLOCK_HEAD, o.blockSize);
    assert (head + data)[0..BLOCK_HEAD] == head && (head + data)[BLOCK_HEAD..BLOCK_HEAD + o.blockSize] == data;
  }

  lemma BlankNode(o: Options, i: nat)
    requires Typed(o) && 1 <= i <= o.inodeCount && |Image(o)| == Eof(o)
    ensures DecodeNode(Bits(o, Image(o), Node(i))) == NodeRec(i, 0, 0, 0, 0) && NameOf(o, Image(o), i) == []
  {
    hide Image, EncodeNode, DecodeNode, EncodeName, DecodeName, Slot, Table, Eof;
    ImageParts(o);
    TableRow(NameRow(o), o.inodeCount, NameSize(o), i, Image(o), NamesAt(o));
    TableRow(NodeRow(), o.inodeCount, INODE_SIZE, i, Image(o), InodesAt(o));
    NodeRoundTrip(NodeRec(i, 0, 0, 0, 0));
    NameRoundTrip(o, i, []);
  }

  // ----- formatting

  /** Writes at the device's cursor, which stands at `at`. */
  method Emit(dev: array<Byte>, at: nat, b: seq<Byte>, ghost done: seq<Byte>)
    requires at + |b| <= dev.Length && |done| == at && dev[..at] == done
    modifies dev
    ensures dev[..at + |b|] == done + b
  {
    ghost var was := dev[..];
    Store(dev, at, b);
    SpliceParts(was, at, b);
  }

  /** Formats the device, which was truncated to the size that the options ask for.  What
      it held before does not matter.  Beyond 32 bits the size and the offsets wrap, which
      Layout.AcceptedTooLarge shows to be possible. */
  method MkFs(o: Options, dev: array<Byte>) returns (rc: Rc)
    requires Typed(o) && dev.Length == CalculateSize(o) && Eof(o) < 0x1_0000_0000
    modifies dev
    ensures rc == OK || rc == RangeError
    ensures rc == RangeError <==>
              || o.inodeCount < 2 || o.blockSize < 32 || o.nameLength < 1 || o.nameLength > 128
              || |o.magic| == 0 || o.blockCount < o.inodeCount
    ensures if rc == OK then dev[..] == Image(o) else dev[..] == old(dev[..])
  {
    hide HeaderBytes, Image, Table, Slot;
    if !Accepted(o) {
      return RangeError;
    }
    TableSizes(o);
    WriteHeader(o, dev);
    ghost var done := HeaderBytes(o, 0, 9);
    SlotLast(NamesAt(o), o.inodeCount, NameSize(o));
    WriteTable(dev, NamesAt(o), o.inodeCount, NameSize(o), NameRow(o), done, InodesAt(o));
    done := done + Table(NameRow(o), o.inodeCount);
    SlotLast(InodesAt(o), o.inodeCount, INODE_SIZE);
    WriteTable(dev, InodesAt(o), o.inodeCount, INODE_SIZE, NodeRow(), done, BlocksAt(o));
    done := done + Table(NodeRow(), o.inodeCount);
    SlotLast(BlocksAt(o), o.blockCount, BlockSize(o));
    WriteTable(dev, BlocksAt(o), o.blockCount, BlockSize(o), BlockRow(o), done, Eof(o));
    done := done + Table(BlockRow(o), o.blockCount);
    assert dev[..] == done;
    Store(dev, SIZE_AT, EncodeInt(U32, CalculateSize(o)));
    SizeLast(o, done);
    rc := OK;
  }

  lemma TableSizes(o: Options)
    ensures NamesAt(o) <= InodesAt(o) <= BlocksAt(o) <= Eof(o) == CalculateSize(o)
    ensures |Table(NameRow(o), o.inodeCount)| == o.inodeCount * NameSize(o)
    ensures |Table(NodeRow(), o.inodeCount)| == o.inodeCount * INODE_SIZE
    ensures |Table(BlockRow(o), o.blockCount)| == o.blockCount * BlockSize(o)
  {
    TableLength(NameRow(o), o.inodeCount, NameSize(o));
    TableLength(NodeRow(), o.inodeCount, INODE_SIZE);
    TableLength(BlockRow(o), o.blockCount, BlockSize(o));
    InRegion(o, Header);
  }

  method WriteHeader(o: Options, dev: array<Byte>)
    requires Typed(o) && NamesAt(o) <= dev.Length
    modifies dev
    ensures dev[..NamesAt(o)] == HeaderBytes(o, 0, 9)
  {
    hide HeaderBytes, EncodeInt, HintsRecord;
    var i := 0;
    while i < |MAGIC|
      invariant 0 <= i <= |MAGIC| && dev[..5 * i] == MagicBytes(i)
    {
      Emit(dev, 5 * i, EncodeInt(U32, MAGIC[i]), MagicBytes(i));
      i := i + 1;
    }
    NoHeader(o);
    HeaderStep(o, 0, 0);
    WritePiece(o, dev, 1, EncodeInt(U32, 0));
    WritePiece(o, dev, 2, EncodeInt(U16, |o.magic|));
    WritePiece(o, dev, 3, o.magic);
    WritePiece(o, dev, 4, EncodeInt(U32, o.blockSize));
    WritePiece(o, dev, 5, EncodeInt(U16, o.blockCount));
    WritePiece(o, dev, 6, EncodeInt(U16, o.inodeCount));
    WritePiece(o, dev, 7, EncodeInt(U16, o.nameLength));
    WritePiece(o, dev, 8, HintsRecord(FIRST_INODE, FIRST_BLOCK));
  }

  lemma NoHeader(o: Options)
    ensures HeaderBytes(o, 0, 0) == [] && Piece(o, 0, 0) == MagicBytes(|MAGIC|)
  {
  }

  method WritePiece(o: Options, dev: array<Byte>, k: nat, b: seq<Byte>)
    requires k < 9 && NamesAt(o) <= dev.Length && b == Piece(o, 0, k)
    requires PieceAt(o, k) <= dev.Length && dev[..PieceAt(o, k)] == HeaderBytes(o, 0, k)
    modifies dev
    ensures PieceAt(o, k + 1) <= dev.Length && dev[..PieceAt(o, k + 1)] == HeaderBytes(o, 0, k + 1)
  {
    hide HeaderBytes, Piece;
    HeaderStep(o, 0, k);
    Emit(dev, PieceAt(o, k), b, HeaderBytes(o, 0, k));
  }

  method WriteTable(dev: array<Byte>, base: nat, n: nat, w: nat, row: nat -> seq<Byte>, ghost done: seq<Byte>,
                    ghost end: nat)
    requires (forall k :: |row(k)| == w) && base <= end == Slot(base, n + 1, w) <= dev.Length
    requires |done| == base && dev[..base] == done
    modifies dev
    ensures dev[..end] == done + Table(row, n)
  {
    hide Table, Slot;
    var id, at := 1, base;
    NoRows(row);
    SlotNext(base, 1, w);
    while id <= n
      invariant 1 <= id <= n + 1 && at == Slot(base, id, w)
      invariant at <= dev.Length && |done + Table(row, id - 1)| == at && dev[..at] == done + Table(row, id - 1)
    {
      SlotFits(base, id, n, w);
      SlotNext(base, id, w);
      NextRow(row, id);
      Emit(dev, at, row(id), done + Table(row, id - 1));
      at, id := at + w, id + 1;
    }
  }

  lemma SlotFits(base: nat, k: nat, n: nat, w: nat)
    requires 1 <= k <= n
    ensures Slot(base, k, w) + w <= Slot(base, n + 1, w)
  {
    SlotEnd(base, k, n, w);
    SlotLast(base, n, w);
  }

  lemma SlotNext(base: nat, k: nat, w: nat)
    requires k >= 1
    ensures Slot(base, 1, w) == base && Slot(base, k + 1, w) == Slot(base, k, w) + w
  {
    assert k * w == (k - 1) * w + w;
  }

  lemma SlotLast(base: nat, n: nat, w: nat)
    ensures Slot(base, n + 1, w) == base + n * w
  {
  }

  lemma NoRows(row: nat -> seq<Byte>)
    ensures Table(row, 0) == []
  {
  }

  lemma NextRow(row: nat -> seq<Byte>, k: nat)
    requires k >= 1
    ensures Table(row, k) == Table(row, k - 1) + row(k)
  {
  }

  /** Writing the size last completes the header. */
  lemma SizeLast(o: Options, g: seq<Byte>)
    requires g == HeaderBytes(o, 0, 9) + Table(NameRow(o), o.inodeCount) + Table(NodeRow(), o.inodeCount)
             + Table(BlockRow(o), o.blockCount)
    ensures SIZE_AT + 5 <= |g| && Splice(g, SIZE_AT, EncodeInt(U32, Eof(o))) == Image(o)
  {
    HeaderSize(o, Eof(o), 9);
    hide HeaderBytes, Table, EncodeInt, Splice;
    var h, w := HeaderBytes(o, 0, 9), EncodeInt(U32, Eof(o));
    var a, b, c := Table(NameRow(o), o.inodeCount), Table(NodeRow(), o.inodeCount), Table(BlockRow(o), o.blockCount);
    SpliceLeft(h, a, SIZE_AT, w);
    SpliceLeft(h + a, b, SIZE_AT, w);
    SpliceLeft(h + a + b, c, SIZE_AT, w);
  }

  lemma {:induction false} HeaderSize(o: Options, size: nat, k: nat)
    requires 2 <= k <= 9
    ensures SIZE_AT + 5 <= PieceAt(o, k)
    ensures HeaderBytes(o, size, k) == Splice(HeaderBytes(o, 0, k), SIZE_AT, EncodeInt(U32, size))
  {
    HeaderStep(o, 0, k - 1);
    HeaderStep(o, size, k - 1);
    var w := EncodeInt(U32, size);
    if k == 2 {
      HeaderStep(o, 0, 0);
      HeaderStep(o, size, 0);
      assert HeaderBytes(o, size, 1) == HeaderBytes(o, 0, 1);
    } else {
      HeaderSize(o, size, k - 1);
      SpliceLeft(HeaderBytes(o, 0, k - 1), Piece(o, 0, k - 1), SIZE_AT, w);
    }
  }

  // ----- opening

  /** What opening a container learns; the client's cookie itself is not kept. */
  datatype Opening = Opening(blockSize: int, blockCount: int, inodeCount: int, nameLength: int, cookieLength: int,
                             inodeHint: int, blockHint: int)

  /** Reads an integer from the device; a read past its end is an I/O error. */
  function Fetch(f: Field, img: seq<Byte>, pos: nat): Decoded
    requires ValidField(f)
  {
    if pos + 1 + f.width > |img| then Wrong(IOError) else DecodeInt(f, img[pos..])
  }

  lemma FetchIs(f: Field, v: nat, img: seq<Byte>, pos: nat)
    requires ValidField(f) && !f.signed && v < Power(f.width) && pos + 1 + f.width <= |img|
    requires img[pos..pos + 1 + f.width] == EncodeInt(f, v)
    ensures Fetch(f, img, pos) == Value(v)
  {
    IntAtIs(f, v, img, pos);
  }

  /** The magic numbers and the size field say that this is a container of this length. */
  predicate Genuine(img: seq<Byte>) {
    && (forall i :: 0 <= i < |MAGIC| ==> Fetch(U32, img, 5 * i) == Value(MAGIC[i]))
    && Fetch(U32, img, SIZE_AT) == Value(|img|)
  }

  /** Checks the magic numbers and the recorded size. */
  method CheckMagic(img: seq<Byte>) returns (rc: Rc)
    ensures rc == OK <==> Genuine(img)
    ensures rc == OK || rc == BadMagicError || rc == ConsistencyError
  {
    hide DecodeInt;
    var i := 0;
    while i < |MAGIC|
      invariant 0 <= i <= |MAGIC| && forall j :: 0 <= j < i ==> Fetch(U32, img, 5 * j) == Value(MAGIC[j])
    {
      var word := Fetch(U32, img, 5 * i);
      if word.Wrong? || word.v != MAGIC[i] {
        return BadMagicError;
      }
      i := i + 1;
    }
    var size := Fetch(U32, img, SIZE_AT);
    if size.Wrong? {
      return BadMagicError;
    }
    rc := if size.v == 0 || |img| == 0 || |img| != size.v then ConsistencyError else OK;
  }

  method ReadHints(img: seq<Byte>, at: nat, ghost hi: nat, ghost hb: nat) returns (rc: Rc, inode: int, block: int)
    requires hi < 0x1_0000 && hb < 0x1_0000
    ensures at + HINTS_SIZE <= |img| && img[at..at + HINTS_SIZE] == HintsRecord(hi, hb) ==>
              rc == OK && inode == hi && block == hb
  {
    inode, block := 0, 0;
    if at + HINTS_SIZE > |img| {
      return IOError, inode, block;
    }
    if img[at..at + HINTS_SIZE] == HintsRecord(hi, hb) { HintsBack(img, at, hi, hb); }
    if img[at] != HINTS_TAG {
      return ConsistencyError, inode, block;
    }
    var a := Fetch(U16, img, at + 1);
    if a.Wrong? {
      return a.rc, inode, block;
    }
    inode := a.v;
    var b := Fetch(U16, img, at + 4);
    if b.Wrong? {
      return b.rc, inode, block;
    }
    block := b.v;
    rc := OK;
  }

  lemma HintsBack(img: seq<Byte>, at: nat, hi: nat, hb: nat)
    requires hi < 0x1_0000 && hb < 0x1_0000
    requires at + HINTS_SIZE <= |img| && img[at..at + HINTS_SIZE] == HintsRecord(hi, hb)
    ensures img[at] == HINTS_TAG && Fetch(U16, img, at + 1) == Value(hi) && Fetch(U16, img, at + 4) == Value(hb)
  {
    Powers();
    hide EncodeInt, DecodeInt;
    var h := HintsRecord(hi, hb);
    SliceSlice(img, at, at + HINTS_SIZE, 1, 3);
    SliceSlice(img, at, at + HINTS_SIZE, 4, 3);
    assert h[1..4] == EncodeInt(U16, hi) && h[4..7] == EncodeInt(U16, hb);
    FetchIs(U16, hi, img, at + 1);
    FetchIs(U16, hb, img, at + 4);
    assert img[at] == img[at..at + HINTS_SIZE][0];
  }

  /** The container has the header that formatting wrote, whatever its records hold, with
      the hints `inode` and `block`. */
  ghost predicate Formatted(o: Options, img: seq<Byte>, inode: nat, block: nat) {
    && |img| == Eof(o) && HintsAt(o) + HINTS_SIZE == NamesAt(o)
    && Bits(o, img, Header)[..HintsAt(o)] == HeaderBytes(o, Eof(o), 8)
    && Bits(o, img, Header)[HintsAt(o)..] == HintsRecord(inode, block)
  }

  lemma ImageIsFormatted(o: Options)
    ensures Formatted(o, Image(o), FIRST_INODE, FIRST_BLOCK)
  {
    ImageParts(o);
    HeaderStep(o, Eof(o), 8);
    HeaderPrefix(o, Eof(o), 8, 9);
    hide Image, HeaderBytes, HintsRecord, Table;
    assert Bits(o, Image(o), Header) == HeaderBytes(o, Eof(o), 9);
  }

  /** Whatever is written to the records of a container, its header stays. */
  lemma RecordsKeepFormat(o: Options, img: seq<Byte>, r: Rec, off: nat, w: seq<Byte>, inode: nat, block: nat)
    requires Formatted(o, img, inode, block) && ValidRec(o, r) && r != Header && off + |w| <= Size(o, r)
    ensures Formatted(o, Put(o, img, r, off, w), inode, block)
  {
    PutIsLocal(o, img, r, off, w, Header);
  }

  /** Puts the search hints of an open container in its header. */
  method WriteHints(o: Options, dev: array<Byte>, inode: nat, block: nat, ghost hi: nat, ghost hb: nat)
    requires Formatted(o, dev[..], hi, hb)
    modifies dev
    ensures Formatted(o, dev[..], inode, block)
    ensures forall r :: ValidRec(o, r) && r != Header ==> Bits(o, dev[..], r) == Bits(o, old(dev[..]), r)
  {
    hide HeaderBytes, HintsRecord, Splice, Bits;
    InRegion(o, Header);
    var w := HintsRecord(inode, block);
    ghost var was := dev[..];
    Store(dev, HintsAt(o), w);
    HintsPut(o, was, w, hi, hb);
    forall r | ValidRec(o, r) && r != Header ensures Bits(o, dev[..], r) == Bits(o, was, r) {
      PutIsLocal(o, was, Header, HintsAt(o), w, r);
    }
  }

  lemma HintsPut(o: Options, img: seq<Byte>, w: seq<Byte>, hi: nat, hb: nat)
    requires Formatted(o, img, hi, hb) && |w| == HINTS_SIZE
    ensures Put(o, img, Header, HintsAt(o), w) == Splice(img, HintsAt(o), w)
    ensures var h := Bits(o, Put(o, img, Header, HintsAt(o), w), Header);
            h[..HintsAt(o)] == HeaderBytes(o, Eof(o), 8) && h[HintsAt(o)..] == w
  {
    hide HeaderBytes, HintsRecord;
    PutIsLocal(o, img, Header, HintsAt(o), w, Header);
    SpliceParts(Bits(o, img, Header), HintsAt(o), w);
  }

  /** Opens a container.  If it was formatted with options `o`, whatever was done with its
      records and hints since, opening gives back what it was made with, its hints, and the
      offsets that it was laid out by. */
  method OpenFs(img: seq<Byte>, ghost o: Options, ghost hi: nat, ghost hb: nat) returns (rc: Rc, r: Opening, t: Offsets)
    requires Typed(o) && hi < 0x1_0000 && hb < 0x1_0000
    ensures rc == OK ==> Genuine(img)
    ensures Formatted(o, img, hi, hb) && Eof(o) < 0x1_0000_0000 ==>
              rc == OK && r == Opening(o.blockSize, o.blockCount, o.inodeCount, o.nameLength, |o.magic|, hi, hb)
                  && t == Places(o)
  {
    hide DecodeInt, Genuine, Formatted;
    r, t := Opening(0, 0, 0, 0, 0, 0, 0), Offsets(0, 0, 0, 0, 0, 0, 0, 0);
    if Formatted(o, img, hi, hb) && Eof(o) < 0x1_0000_0000 { FormattedFields(o, img, hi, hb); }
    rc := CheckMagic(img);
    if rc != OK {
      return;
    }
    var len := Fetch(U16, img, COOKIE_AT);
    if len.Wrong? {
      rc := len.rc;
      return;
    }
    NotNegative(U16, img, COOKIE_AT);
    var at := COOKIE_AT + 3 + len.v;
    var bs, bc, ic, nl := Fetch(U32, img, at), Fetch(U16, img, at + 5), Fetch(U16, img, at + 8),
        Fetch(U16, img, at + 11);
    if bs.Wrong? || bc.Wrong? || ic.Wrong? || nl.Wrong? {
      rc := if bs.Wrong? then bs.rc else if bc.Wrong? then bc.rc else if ic.Wrong? then ic.rc else nl.rc;
      return;
    }
    NotNegative(U32, img, at);
    NotNegative(U16, img, at + 5);
    NotNegative(U16, img, at + 8);
    NotNegative(U16, img, at + 11);
    t := InitSizes(Options(bs.v, bc.v, ic.v, nl.v, Zeros(len.v)));
    var inode, block;
    rc, inode, block := ReadHints(img, at + OPTIONS_SIZE, hi, hb);
    r := Opening(bs.v, bc.v, ic.v, nl.v, len.v, inode, block);
  }

  lemma NotNegative(f: Field, img: seq<Byte>, pos: nat)
    requires ValidField(f) && !f.signed && Fetch(f, img, pos).Value?
    ensures Fetch(f, img, pos).v >= 0
  {
  }

  /** Every field of a formatted container reads back. */
  lemma FormattedFields(o: Options, g: seq<Byte>, hi: nat, hb: nat)
    requires Typed(o) && Eof(o) < 0x1_0000_0000 && Formatted(o, g, hi, hb)
    ensures Genuine(g) && Fetch(U16, g, COOKIE_AT) == Value(|o.magic|)
    ensures Fetch(U32, g, OptionsAt(o)) == Value(o.blockSize) && Fetch(U16, g, OptionsAt(o) + 5) == Value(o.blockCount)
    ensures Fetch(U16, g, OptionsAt(o) + 8) == Value(o.inodeCount)
    ensures Fetch(U16, g, OptionsAt(o) + 11) == Value(o.nameLength)
    ensures HintsAt(o) + HINTS_SIZE == NamesAt(o) <= |g| && g[HintsAt(o)..NamesAt(o)] == HintsRecord(hi, hb)
  {
    FormattedHeader(o, g, hi, hb);
    Powers();
    hide Image, EncodeInt, DecodeInt, HeaderBytes, HintsRecord, MagicBytes, Table, Power, Formatted, Bits;
    HeaderPiece(o, Eof(o), g, 0);
    PieceBack(o, g, 1, U32, Eof(o));
    PieceBack(o, g, 2, U16, |o.magic|);
    PieceBack(o, g, 4, U32, o.blockSize);
    PieceBack(o, g, 5, U16, o.blockCount);
    PieceBack(o, g, 6, U16, o.inodeCount);
    PieceBack(o, g, 7, U16, o.nameLength);
    MagicBack(g, |MAGIC|);
  }

  lemma FormattedHeader(o: Options, g: seq<Byte>, hi: nat, hb: nat)
    requires Formatted(o, g, hi, hb)
    ensures |g| == Eof(o) >= NamesAt(o) && PieceAt(o, 8) == HintsAt(o) && HintsAt(o) + HINTS_SIZE == NamesAt(o)
    ensures g[..HintsAt(o)] == HeaderBytes(o, Eof(o), 8) && g[HintsAt(o)..NamesAt(o)] == HintsRecord(hi, hb)
  {
    InRegion(o, Header);
    hide HeaderBytes, HintsRecord;
    var h := Bits(o, g, Header);
    assert h == g[..NamesAt(o)];
    assert h[..HintsAt(o)] == g[..HintsAt(o)];
    assert h[HintsAt(o)..] == g[HintsAt(o)..NamesAt(o)];
  }

  lemma PieceBack(o: Options, g: seq<Byte>, k: nat, f: Field, v: nat)
    requires ValidField(f) && !f.signed && v < Power(f.width) && k < 8
    requires HintsAt(o) <= |g| && g[..HintsAt(o)] == HeaderBytes(o, Eof(o), 8) && Piece(o, Eof(o), k) == EncodeInt(f, v)
    ensures Fetch(f, g, PieceAt(o, k)) == Value(v)
  {
    HeaderStep(o, Eof(o), k);
    HeaderPiece(o, Eof(o), g, k);
    hide EncodeInt, DecodeInt, HeaderBytes;
    FetchIs(f, v, g, PieceAt(o, k));
  }

  lemma {:induction false} MagicBack(g: seq<Byte>, n: nat)
    requires n <= |MAGIC| && 5 * n <= |g| && g[..5 * n] == MagicBytes(n)
    ensures forall i :: 0 <= i < n ==> Fetch(U32, g, 5 * i) == Value(MAGIC[i])
  {
    if n > 0 {
      hide EncodeInt, DecodeInt;
      Powers();
      var p := MagicBytes(n);
      assert p == MagicBytes(n - 1) + EncodeInt(U32, MAGIC[n - 1]);
      assert g[..5 * (n - 1)] == g[..5 * n][..5 * (n - 1)] == MagicBytes(n - 1);
      assert g[5 * (n - 1)..5 * n] == g[..5 * n][5 * (n - 1)..] == EncodeInt(U32, MAGIC[n - 1]);
      FetchIs(U32, MAGIC[n - 1], g, 5 * (n - 1));
      MagicBack(g, n - 1);
    }
  }

  // ----- enlarging

  /** Adding blocks moves no record: all that is before the end of the container stays
      where it is, and the new end is what the new options ask for. */
  lemma AppendKeepsPlaces(o: Options, count: nat, r: Rec)
    requires ValidRec(o, r)
    ensures var n := o.(blockCount := o.blockCount + count);
            && ValidRec(n, r) && Start(n, r) == Start(o, r) && Size(n, r) == Size(o, r)
            && CalculateSize(n) == Eof(n) == Eof(o) + BlockSize(o) * count
  {
  }

  /** Enlarging the bytes with anything keeps the records that were there. */
  lemma AppendKeepsRecords(o: Options, count: nat, img: seq<Byte>, more: seq<Byte>)
    requires |img| == Eof(o) && |more| == BlockSize(o) * count
    ensures var n := o.(blockCount := o.blockCount + count);
            && |img + more| == Eof(n)
            && (forall r :: ValidRec(o, r) ==> ValidRec(n, r) && Bits(n, img + more, r) == Bits(o, img, r))
            && DiskOf(o, img).heads <= DiskOf(n, img + more).heads
            && DiskOf(o, img).data <= DiskOf(n, img + more).data
            && DiskOf(o, img).inodes == DiskOf(n, img + more).inodes
            && |DiskOf(n, img + more).heads| == |DiskOf(o, img).heads| + count
  {
    var n := o.(blockCount := o.blockCount + count);
    AppendKeepsPlaces(o, count, Header);
    forall r | ValidRec(o, r) ensures ValidRec(n, r) && Bits(n, img + more, r) == Bits(o, img, r) {
      AppendKeepsPlaces(o, count, r);
      InRegion(o, r);
    }
    hide Bits, DecodeBlock, DecodeNode;
    var d, e := DiskOf(o, img), DiskOf(n, img + more);
    assert forall b :: 0 <= b <= o.blockCount ==> e.heads[b] == d.heads[b] && e.data[b] == d.data[b];
    assert d.inodes == e.inodes;
  }
}
