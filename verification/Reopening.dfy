/** Closing a container and opening it again: what its bytes hold is all that clients saw
    (src/whefs_fs.c:502-590, 594-655 and 1442-1534). */
module Reopening {
  import opened Bytes
  import opened BlockStore
  import opened StoreSteps
  import opened Layout
  import opened Records
  import opened Format
  import opened Files
  import opened Session
  import opened Quota
  import Storage
  import Catalog
  import Naming
  import Calls
  import C = Client

  // ----- names as bytes

  /** A C string of 8-bit characters. */
  predicate Plain(name: string) {
    forall i :: 0 <= i < |name| ==> 0 < name[i] as int < 256
  }

  function Encoded(name: string): (b: seq<Byte>)
    requires Plain(name)
    ensures |b| == |name| && 0 !in b
  {
    seq(|name|, i requires 0 <= i < |name| => name[i] as int)
  }

  function Text(b: seq<Byte>): string {
    seq(|b|, i requires 0 <= i < |b| => b[i] as char)
  }

  lemma TextBack(name: string)
    requires Plain(name)
    ensures Text(Encoded(name)) == name
  {
  }

  // ----- what the bytes of a container hold

  /** All that is stored of a container: records, names, used flags and hints. */
  datatype Holding = Holding(disk: Disk, names: seq<string>, used: seq<bool>, inodeHint: nat, blockHint: nat)

  ghost predicate Sized(o: Options, c: Holding) {
    && |c.disk.heads| == |c.disk.data| == o.blockCount + 1
    && |c.disk.inodes| == |c.names| == |c.used| == o.inodeCount + 1
  }

  /** Entry 0 of each table is not stored. */
  ghost predicate Holds(o: Options, img: seq<Byte>, c: Holding) {
    && Sized(o, c) && |img| == Eof(o) && Formatted(o, img, c.inodeHint, c.blockHint)
    && (forall b :: 1 <= b <= o.blockCount ==> HoldsBlock(o, img, c, b))
    && (forall i :: 1 <= i <= o.inodeCount ==> HoldsNode(o, img, c, i))
  }

  ghost predicate HoldsBlock(o: Options, img: seq<Byte>, c: Holding, b: nat)
    requires |img| == Eof(o) && Sized(o, c) && 1 <= b <= o.blockCount
  {
    DecodeBlock(Bits(o, img, Head(b))) == c.disk.heads[b] && Bits(o, img, Data(b)) == c.disk.data[b]
  }

  ghost predicate HoldsNode(o: Options, img: seq<Byte>, c: Holding, i: nat)
    requires |img| == Eof(o) && Sized(o, c) && 1 <= i <= o.inodeCount
  {
    && NodeOf(DecodeNode(Bits(o, img, Node(i)))) == c.disk.inodes[i] && UsedAt(o, img, i) == c.used[i]
    && Text(NameOf(o, img, i)) == c.names[i]
  }

  function UsedAt(o: Options, img: seq<Byte>, i: nat): bool
    requires |img| == Eof(o) && 1 <= i <= o.inodeCount
  {
    DecodeNode(Bits(o, img, Node(i))).flags % 2 == 1
  }

  /** A freshly formatted container holds free blocks and no names. */
  lemma ImageHolds(o: Options)
    requires Typed(o)
    ensures Holds(o, Image(o), Holding(BlankDisk(o.blockSize, o.blockCount, o.inodeCount),
                                       seq(o.inodeCount + 1, _ => ""),
                                       seq(o.inodeCount + 1, _ => false), FIRST_INODE, FIRST_BLOCK))
  {
    ImageIsFormatted(o);
    ImageParts(o);
    hide Image, Formatted, Bits, DecodeBlock, DecodeNode, DecodeName;
    forall b | 1 <= b <= o.blockCount
      ensures DecodeBlock(Bits(o, Image(o), Head(b))) == Block(b, 0, false)
      ensures Bits(o, Image(o), Data(b)) == Zeros(o.blockSize)
    {
      BlankBlock(o, b);
    }
    forall i | 1 <= i <= o.inodeCount
      ensures DecodeNode(Bits(o, Image(o), Node(i))) == NodeRec(i, 0, 0, 0, 0) && NameOf(o, Image(o), i) == []
    {
      BlankNode(o, i);
    }
  }

  // ----- bytes for any content

  /** Everything fits the fields that it is stored in. */
  ghost predicate Storable(o: Options, c: Holding) {
    && Sized(o, c)
    && (forall b :: 1 <= b <= o.blockCount ==> BlockFits(c.disk.heads[b]) && |c.disk.data[b]| == o.blockSize)
    && (forall i :: 1 <= i <= o.inodeCount ==>
          Fits16(i) && Fits16(c.disk.inodes[i].first) && c.disk.inodes[i].size < 0x1_0000_0000)
    && (forall i :: 1 <= i <= o.inodeCount ==> Plain(c.names[i]) && |c.names[i]| <= o.nameLength)
  }

  function NodeFor(c: Holding, i: nat): NodeRec
    requires i < |c.used| == |c.disk.inodes|
  {
    NodeRec(i, if c.used[i] then 1 else 0, 0, c.disk.inodes[i].size, c.disk.inodes[i].first)
  }

  function NameBytes(o: Options, c: Holding, k: nat): (b: seq<Byte>)
    ensures |b| == NameSize(o)
  {
    if k < |c.names| && Plain(c.names[k]) && |c.names[k]| <= o.nameLength then EncodeName(o, k, Encoded(c.names[k]))
    else EncodeName(o, k, [])
  }

  function NodeBytes(c: Holding, k: nat): (b: seq<Byte>)
    ensures |b| == INODE_SIZE
  {
    if k < |c.used| == |c.disk.inodes| then EncodeNode(NodeFor(c, k)) else EncodeNode(NodeRec(k, 0, 0, 0, 0))
  }

  function BlockBytes(o: Options, c: Holding, k: nat): (b: seq<Byte>)
    ensures |b| == BlockSize(o)
  {
    if k < |c.disk.heads| == |c.disk.data| && |c.disk.data[k]| == o.blockSize
    then EncodeBlock(c.disk.heads[k]) + c.disk.data[k]
    else EncodeBlock(EMPTY_BLOCK) + Zeros(o.blockSize)
  }

  function NameRows(o: Options, c: Holding): nat -> seq<Byte> { (k: nat) => NameBytes(o, c, k) }

  function NodeRows(c: Holding): nat -> seq<Byte> { (k: nat) => NodeBytes(c, k) }

  function BlockRows(o: Options, c: Holding): nat -> seq<Byte> { (k: nat) => BlockBytes(o, c, k) }

  function Saved(o: Options, c: Holding): seq<Byte> {
    HeaderBytes(o, Eof(o), 8) + HintsRecord(c.inodeHint, c.blockHint) + Table(NameRows(o, c), o.inodeCount)
    + Table(NodeRows(c), o.inodeCount) + Table(BlockRows(o, c), o.blockCount)
  }

  lemma SavedParts(o: Options, c: Holding)
    ensures var g := Saved(o, c);
            && |g| == Eof(o) && NamesAt(o) <= InodesAt(o) <= BlocksAt(o) <= Eof(o)
            && g[..NamesAt(o)] == HeaderBytes(o, Eof(o), 8) + HintsRecord(c.inodeHint, c.blockHint)
            && g[NamesAt(o)..InodesAt(o)] == Table(NameRows(o, c), o.inodeCount)
            && g[InodesAt(o)..BlocksAt(o)] == Table(NodeRows(c), o.inodeCount)
            && g[BlocksAt(o)..Eof(o)] == Table(BlockRows(o, c), o.blockCount)
  {
    hide Table, HeaderBytes, HintsRecord, NameBytes, NodeBytes, BlockBytes;
    Tables(o, HeaderBytes(o, Eof(o), 8) + HintsRecord(c.inodeHint, c.blockHint), NameRows(o, c), NodeRows(c),
           BlockRows(o, c),
           Saved(o, c));
  }

  /** Where the bytes of each block, name and inode are. */
  lemma SavedBlockAt(o: Options, c: Holding, b: nat)
    requires 1 <= b <= o.blockCount && |Saved(o, c)| == Eof(o)
    ensures var at := Slot(BlocksAt(o), b, BlockSize(o));
            at + BlockSize(o) <= |Saved(o, c)| && Saved(o, c)[at..at + BlockSize(o)] == BlockBytes(o, c, b)
  {
    SavedParts(o, c);
    hide Saved, BlockBytes, Slot, Table;
    TableRow(BlockRows(o, c), o.blockCount, BlockSize(o), b, Saved(o, c), BlocksAt(o));
  }

  lemma SavedNodeAt(o: Options, c: Holding, i: nat)
    requires 1 <= i <= o.inodeCount && |Saved(o, c)| == Eof(o)
    ensures Bits(o, Saved(o, c), Node(i)) == NodeBytes(c, i)
  {
    SavedParts(o, c);
    hide Saved, NodeBytes, Slot, Table, Eof;
    TableRow(NodeRows(c), o.inodeCount, INODE_SIZE, i, Saved(o, c), InodesAt(o));
  }

  lemma SavedNameAt(o: Options, c: Holding, i: nat)
    requires 1 <= i <= o.inodeCount && |Saved(o, c)| == Eof(o)
    ensures Bits(o, Saved(o, c), Name(i)) == NameBytes(o, c, i)
  {
    SavedParts(o, c);
    hide Saved, NameBytes, Slot, Table, Eof;
    TableRow(NameRows(o, c), o.inodeCount, NameSize(o), i, Saved(o, c), NamesAt(o));
  }

  lemma SavedBlock(o: Options, c: Holding, b: nat)
    requires Storable(o, c) && 1 <= b <= o.blockCount && |Saved(o, c)| == Eof(o)
    ensures HoldsBlock(o, Saved(o, c), c, b)
  {
    hide Saved, EncodeBlock, DecodeBlock, Bits, Slot;
    SavedBlockAt(o, c, b);
    BlockRoundTrip(c.disk.heads[b]);
    BlockBits(o, Saved(o, c), b, EncodeBlock(c.disk.heads[b]), c.disk.data[b]);
  }

  lemma SavedNode(o: Options, c: Holding, i: nat)
    requires Storable(o, c) && 1 <= i <= o.inodeCount && |Saved(o, c)| == Eof(o)
    ensures HoldsNode(o, Saved(o, c), c, i)
  {
    hide Saved, EncodeNode, DecodeNode, EncodeName, DecodeName, Bits, Encoded, Text, Plain;
    SavedNodeAt(o, c, i);
    SavedNameAt(o, c, i);
    NodeRoundTrip(NodeFor(c, i));
    NameRoundTrip(o, i, Encoded(c.names[i]));
    TextBack(c.names[i]);
  }

  /** Whatever fits its fields can be stored. */
  lemma SavedHolds(o: Options, c: Holding)
    requires Storable(o, c)
    ensures |Saved(o, c)| == Eof(o) && Holds(o, Saved(o, c), c)
  {
    SavedParts(o, c);
    HeaderStep(o, Eof(o), 8);
    hide Saved, HoldsBlock, HoldsNode, HeaderBytes, HintsRecord;
    assert Bits(o, Saved(o, c), Header) == Saved(o, c)[..NamesAt(o)];
    forall b | 1 <= b <= o.blockCount ensures HoldsBlock(o, Saved(o, c), c, b) { SavedBlock(o, c, b); }
    forall i | 1 <= i <= o.inodeCount ensures HoldsNode(o, Saved(o, c), c, i) { SavedNode(o, c, i); }
  }

  // ----- opening again

  /** The client's own cookie is not read back, but its length is. */
  lemma {:induction false} CookieApart(o: Options, p: Options, img: seq<Byte>, r: Rec)
    requires p == o.(magic := p.magic) && |p.magic| == |o.magic| && |img| == Eof(o) && ValidRec(o, r)
    ensures Eof(p) == Eof(o) && ValidRec(p, r) && Bits(p, img, r) == Bits(o, img, r)
  {
  }

  function NamesOf(o: Options, img: seq<Byte>): seq<string>
    requires |img| == Eof(o)
  {
    seq(o.inodeCount + 1, i requires 0 <= i <= o.inodeCount => if i == 0 then "" else Text(NameOf(o, img, i)))
  }

  function UsedOf(o: Options, img: seq<Byte>): seq<bool>
    requires |img| == Eof(o)
  {
    seq(o.inodeCount + 1, i requires 0 <= i <= o.inodeCount => i > 0 && UsedAt(o, img, i))
  }

  /** The same records, but for entry 0, which is blank. */
  ghost predicate SameRecords(bs: nat, d: Disk, e: Disk) {
    && |e.data| > 0 && |e.data[0]| == bs && |e.inodes| > 0 && e.inodes[0] == InodeRec(0, 0)
    && |d.heads| == |e.heads| && |d.data| == |e.data| && |d.inodes| == |e.inodes|
    && (forall b :: 1 <= b < |d.heads| ==> e.heads[b] == d.heads[b])
    && (forall b :: 1 <= b < |d.data| ==> e.data[b] == d.data[b])
    && (forall i :: 1 <= i < |d.inodes| ==> e.inodes[i] == d.inodes[i])
  }

  /** What is read is what was stored, whichever cookie of that length is taken. */
  lemma ReadBack(o: Options, p: Options, img: seq<Byte>, c: Holding)
    requires p == o.(magic := p.magic) && |p.magic| == |o.magic| && Holds(o, img, c)
    requires c.names[0] == "" && !c.used[0]
    ensures Eof(p) == |img| && SameRecords(o.blockSize, c.disk, DiskOf(p, img))
    ensures NamesOf(p, img) == c.names && UsedOf(p, img) == c.used
  {
    hide Formatted, Bits, DecodeBlock, DecodeNode, DecodeName, Text;
    CookieApart(o, p, img, Header);
    forall b | 1 <= b <= o.blockCount ensures HoldsBlock(p, img, c, b) {
      assert HoldsBlock(o, img, c, b);
      CookieApart(o, p, img, Head(b));
      CookieApart(o, p, img, Data(b));
    }
    forall i | 1 <= i <= o.inodeCount ensures HoldsNode(p, img, c, i) {
      assert HoldsNode(o, img, c, i);
      CookieApart(o, p, img, Node(i));
      CookieApart(o, p, img, Name(i));
    }
    Assembled(p, img, c);
  }

  lemma Assembled(p: Options, img: seq<Byte>, c: Holding)
    requires |img| == Eof(p) && Sized(p, c) && c.names[0] == "" && !c.used[0]
    requires forall b :: 1 <= b <= p.blockCount ==> HoldsBlock(p, img, c, b)
    requires forall i :: 1 <= i <= p.inodeCount ==> HoldsNode(p, img, c, i)
    ensures SameRecords(p.blockSize, c.disk, DiskOf(p, img)) && NamesOf(p, img) == c.names && UsedOf(p, img) == c.used
  {
    hide Bits, DecodeBlock, DecodeNode, DecodeName, Text;
    var d := DiskOf(p, img);
    assert d.data[0] == Zeros(p.blockSize) && d.inodes[0] == InodeRec(0, 0);
    forall b | 1 <= b <= p.blockCount ensures d.heads[b] == c.disk.heads[b] && d.data[b] == c.disk.data[b] {
      assert HoldsBlock(p, img, c, b);
    }
    forall i | 1 <= i <= p.inodeCount
      ensures d.inodes[i] == c.disk.inodes[i] && NamesOf(p, img)[i] == c.names[i] && UsedOf(p, img)[i] == c.used[i]
    {
      assert HoldsNode(p, img, c, i);
    }
  }

  /** Entry 0 is in no chain. */
  lemma InvAgain(bs: nat, d: Disk, v: View, e: Disk)
    requires Inv(bs, d, v) && SameRecords(bs, d, e)
    requires v.chains[0] == [] && v.sizes[0] == 0
    ensures Inv(bs, e, v) && Contents(bs, e, v) == Contents(bs, d, v)
  {
    forall i | 0 <= i < |v.chains| ensures Flat(e.data, v.chains[i]) == Flat(d.data, v.chains[i]) {
      FlatFrame(d.data, e.data, v.chains[i]);
    }
    SameContents(bs, d, v, e, v);
  }

  /** What a container has to store. */
  ghost function Of(box: Container): Holding
    reads box.fs.dev, box.cat
  {
    Holding(box.fs.dev.disk, box.cat.names, box.cat.used, box.cat.hint, box.fs.dev.hint)
  }

  /** Nothing is open in the container, and entry 0 of its tables is unused. */
  ghost predicate AtRest(c: C.Client)
    reads c, c.devs.Values`posabs, c.box, c.box.fs, c.box.fs.dev, c.box.list
    reads c.box.fs.live`firstBlock, c.box.fs.live`list, c.box.fs.live`count, c.box.fs.live`dataSize,
          c.box.fs.live`writer
    reads c.box.list.repr`next, c.box.list.repr`prev, c.box.list.repr`openCount, c.box.list.repr`writer
    reads c.box.cat, c.box.cat.cache
  {
    c.Valid() && c.box.fs.Core() && c.handles == map[] && Calls.Rooted(c.Seen())
  }

  /** What is stored makes sense on its own: read as `v`, it is a container. */
  ghost predicate Sensible(o: Options, h: Holding, v: View) {
    && Typed(o) && Eof(o) < 0x1_0000_0000 && Sized(o, h)
    && Storage.Fs.Kept(o.blockSize, h.disk, h.blockHint, o.inodeCount, v) && Fits(v)
    && v.chains[0] == [] && v.sizes[0] == 0
    && Catalog.Catalog.Kept(o.nameLength, h.names, h.used, h.inodeHint) && Catalog.Unique(h.names) && !h.used[0]
  }

  lemma RestSensible(c: C.Client)
    requires AtRest(c)
    ensures |c.box.fs.dev.disk.heads| > 0 && Sensible(c.box.Now(), Of(c.box), c.box.fs.view)
  {
    hide ChainsOwned, NoneLost, ZeroTails, C.Client.Devices, Calls.Counts, Catalog.CacheOK;
    Calls.NothingOpen(c.handles, c.box.list.table);
    c.box.fs.IsKept();
    c.box.cat.IsKept();
    EofIsEnd(c.box.Now());
  }

  /** So does what is read back of it. */
  lemma KeptAgain(bs: nat, d: Disk, v: View, hint: nat, n: nat, e: Disk)
    requires Storage.Fs.Kept(bs, d, hint, n, v) && SameRecords(bs, d, e)
    requires v.chains[0] == [] && v.sizes[0] == 0
    ensures Storage.Fs.Kept(bs, e, hint, n, v) && Contents(bs, e, v) == Contents(bs, d, v)
  {
    InvAgain(bs, d, v, e);
    hide Inv;
  }

  /** The options and hints that the header holds. */
  method ReadHeader(img: seq<Byte>, ghost o: Options, ghost h: Holding)
    returns (p: Options, inodeHint: nat, blockHint: nat)
    requires Holds(o, img, h) && Typed(o) && Eof(o) < 0x1_0000_0000 && h.inodeHint < 0x1_0000 && h.blockHint < 0x1_0000
    ensures p == o.(magic := p.magic) && |p.magic| == |o.magic| && inodeHint == h.inodeHint && blockHint == h.blockHint
  {
    hide Formatted;
    var _, r, _ := OpenFs(img, o, h.inodeHint, h.blockHint);
    p := Options(r.blockSize, r.blockCount, r.inodeCount, r.nameLength, Zeros(r.cookieLength));
    inodeHint, blockHint := r.inodeHint, r.blockHint;
  }

  /** What is read of a sensible container is one, and holds the same files. */
  lemma ReadSensible(o: Options, p: Options, img: seq<Byte>, h: Holding, v: View)
    requires Sensible(o, h, v) && Holds(o, img, h) && p == o.(magic := p.magic) && |p.magic| == |o.magic|
    ensures Eof(p) == |img| && Typed(p) && BlocksAt(p) == BlocksAt(o) && Inv(o.blockSize, h.disk, v)
    ensures var e := DiskOf(p, img);
            && Storage.Fs.Kept(o.blockSize, e, h.blockHint, o.inodeCount, v) && |e.heads| == o.blockCount + 1
            && Contents(o.blockSize, e, v) == Contents(o.blockSize, h.disk, v)
    ensures NamesOf(p, img) == h.names && UsedOf(p, img) == h.used && |h.names| == o.inodeCount + 1
    ensures Catalog.Catalog.Kept(o.nameLength, h.names, h.used, h.inodeHint) && Catalog.Unique(h.names)
    ensures h.inodeHint < 0x1_0000 && h.blockHint < 0x1_0000
  {
    hide Formatted, Inv, Contents, Catalog.Unique, DiskOf, NamesOf, UsedOf, HoldsBlock, HoldsNode;
    ReadBack(o, p, img, h);
    KeptAgain(o.blockSize, h.disk, v, h.blockHint, o.inodeCount, DiskOf(p, img));
  }

  /** The container that the bytes hold. */
  method Build(img: seq<Byte>, hashfunc: string -> nat, ghost o: Options, ghost h: Holding, ghost v: View)
    returns (box: Container)
    requires Sensible(o, h, v) && Holds(o, img, h)
    ensures box.Valid() && fresh(box) && fresh(box.fs) && fresh(box.fs.dev) && fresh(box.list)
    ensures fresh(box.cat) && fresh(box.cat.cache) && box.list.table == map[] && box.fs.live == {}
    ensures box.cat.names == h.names && box.cat.used == h.used && box.cat.limit == o.nameLength
    ensures box.cat.hashfunc == hashfunc && box.cat.enabled && !box.cat.loaded && box.Base() == BlocksAt(o)
    ensures box.fs.view == v && box.fs.dev.bs == o.blockSize && |box.fs.dev.disk.heads| == o.blockCount + 1
    ensures Inv(o.blockSize, h.disk, v) && Inv(o.blockSize, box.fs.dev.disk, v)
    ensures Contents(o.blockSize, box.fs.dev.disk, v) == Contents(o.blockSize, h.disk, v)
  {
    ReadSensible(o, o, img, h, v);
    SensibleEnds(o, h, v);
    hide Holds, Sensible, Inv, Contents, Catalog.Unique, Container.Valid, DiskOf, NamesOf, UsedOf, Eof, BlocksAt,
         Catalog.Catalog.Kept, Storage.Fs.Kept;
    var p, inodeHint, blockHint := ReadHeader(img, o, h);
    ReadSensible(o, p, img, h, v);
    var disk := DiskOf(p, img);
    box := new Container.Stored(p, hashfunc, disk, NamesOf(p, img), UsedOf(p, img), inodeHint, blockHint, v);
  }

  /** What clients see of a container with this content. */
  ghost function Shown(o: Options, h: Holding, v: View, known: set<string>): Calls.State
    requires Inv(o.blockSize, h.disk, v)
  {
    Calls.State(BlocksAt(o), o.blockSize, o.blockCount, Contents(o.blockSize, h.disk, v), Lengths(v.chains), map[], 1,
                Naming.Names(h.names, h.used, true, false, o.nameLength, known))
  }

  method Attach(img: seq<Byte>, hashfunc: string -> nat, ghost o: Options, ghost h: Holding, ghost v: View,
                ghost known: set<string>)
    returns (c: C.Client)
    requires Sensible(o, h, v) && Holds(o, img, h)
    requires Naming.Separates(hashfunc, known) && forall i :: 0 <= i < |h.names| ==> h.names[i] in known + {""}
    ensures fresh(c) && fresh(c.box) && c.Valid() && c.box.fs.Core() && c.handles == map[]
    ensures c.box.cat.hashfunc == hashfunc && c.known == known
    ensures Inv(o.blockSize, h.disk, v) && c.Seen() == Shown(o, h, v, known)
  {
    EofIsEnd(o);
    SensibleEnds(o, h, v);
    hide Holds, Inv, Sensible, Storage.Fs.Core, Contents, Container.Valid, C.Client.Valid, Naming.Separates, Lengths,
         BlocksAt, Eof, EndOf, Fits;
    var box := Build(img, hashfunc, o, h, v);
    c := new C.Client.Stored(box, known);
  }

  /** Opens the bytes of a container that was at rest: clients see all that they saw. */
  method Open(img: seq<Byte>, hashfunc: string -> nat, ghost was: C.Client) returns (c: C.Client)
    requires AtRest(was) && Holds(was.box.Now(), img, Of(was.box)) && hashfunc == was.box.cat.hashfunc
    ensures fresh(c) && fresh(c.box) && AtRest(c) && c.Seen() == Calls.Again(was.Seen())
    ensures c.box.cat.hashfunc == hashfunc && c.known == was.known
  {
    RestKnown(was);
    RestSensible(was);
    ghost var o, h, v := was.box.Now(), Of(was.box), was.box.fs.view;
    ghost var s := was.Seen();
    assert Calls.Again(s) == Shown(o, h, v, was.known);
    hide Holds, Inv, AtRest, Sensible, Storage.Fs.Core, Contents, Container.Valid, C.Client.Valid, Naming.Separates,
         Lengths,
         Calls.Rooted, Calls.Again, Shown, Of, Container.Now;
    c := Attach(img, hashfunc, o, h, v, was.known);
    AtRestAgain(s, c);
  }

  lemma SensibleEnds(o: Options, h: Holding, v: View)
    requires Sensible(o, h, v)
    ensures Typed(o) && Eof(o) < 0x1_0000_0000 && Fits(v)
  {
  }

  lemma RestKnown(c: C.Client)
    requires AtRest(c)
    ensures c.box.fs.Core() && |c.box.fs.dev.disk.heads| > 0 && c.box.Made() && Calls.Rooted(c.Seen())
    ensures Inv(c.box.fs.dev.bs, c.box.fs.dev.disk, c.box.fs.view)
    ensures Naming.Separates(c.box.cat.hashfunc, c.known)
    ensures forall i :: 0 <= i < |c.box.cat.names| ==> c.box.cat.names[i] in c.known + {""}
  {
  }

  lemma AtRestAgain(s: Calls.State, c: C.Client)
    requires Calls.Rooted(s) && c.Valid() && c.box.fs.Core() && c.handles == map[] && c.Seen() == Calls.Again(s)
    ensures AtRest(c)
  {
  }

  /** What is stored fits its fields. */
  lemma SensibleStorable(o: Options, h: Holding, v: View)
    requires Sensible(o, h, v) && forall i :: 0 <= i < |h.names| ==> Plain(h.names[i])
    ensures Storable(o, h)
  {
    forall b | 1 <= b <= o.blockCount ensures BlockFits(h.disk.heads[b]) {
      if h.disk.heads[b].used { assert Owned(v, b); }
    }
  }

  /** Closes a container at rest and opens it again. */
  method Reopen(was: C.Client) returns (c: C.Client)
    requires AtRest(was) && forall n :: n in was.known ==> Plain(n)
    ensures fresh(c) && fresh(c.box) && AtRest(c) && c.Seen() == Calls.Again(was.Seen())
    ensures c.box.cat.hashfunc == was.box.cat.hashfunc && c.known == was.known
  {
    RestKnown(was);
    RestSensible(was);
    hide C.Client.Valid, Storage.Fs.Core, Holds, Storable, Saved, Calls.Rooted, Sensible, Inv, AtRest, Contents, Plain;
    var o := was.box.options.(blockCount := |was.box.fs.dev.disk.heads| - 1);
    var h := Holding(was.box.fs.dev.disk, was.box.cat.names, was.box.cat.used, was.box.cat.hint, was.box.fs.dev.hint);
    SensibleStorable(o, h, was.box.fs.view);
    SavedHolds(o, h);
    c := Open(Saved(o, h), was.box.cat.hashfunc, was);
  }

  /** A whole life: formatting, any lawful run that ends with nothing open, closing and opening
      again.  The run is answered as module Calls computes, and the container that is opened
      again shows the state that the run led to. */
  method Live(o: Options, hashfunc: string -> nat, ghost known: set<string>, calls: seq<Calls.Call>,
              stale: nat -> (nat, bool, nat -> Byte))
    returns (outs: seq<Calls.Outcome>, c: C.Client)
    requires Typed(o) && Accepted(o) && Eof(o) < 0x1_0000_0000
    requires Naming.Separates(hashfunc, known) && forall n :: n in known ==> Plain(n)
    requires Calls.Lawful(Calls.Fresh(o, known), calls) && Calls.Run(Calls.Fresh(o, known), calls).0.handles == map[]
    ensures var (s, answers) := Calls.Run(Calls.Fresh(o, known), calls);
            outs == answers && fresh(c) && AtRest(c) && c.Seen() == Calls.Again(s)
  {
    hide C.Client.Valid, Storage.Fs.Core, Inv, Calls.Lawful, Calls.Run, Calls.Rooted, Plain, Calls.Fresh, AtRest,
         Contents;
    var first := new C.Client(o, hashfunc, known);
    first.CoreHolds();
    ghost var s := first.Seen();
    outs := first.Replay(calls, stale);
    first.CoreHolds();
    FreshRooted(o, known);
    Calls.RootedRun(s, calls);
    Rests(first);
    c := Reopen(first);
  }

  lemma FreshRooted(o: Options, known: set<string>)
    ensures Calls.Rooted(Calls.Fresh(o, known))
  {
  }

  lemma Rests(c: C.Client)
    requires c.Valid() && c.box.fs.Core() && c.Seen().handles == map[] && Calls.Rooted(c.Seen())
    ensures AtRest(c)
  {
  }
}
