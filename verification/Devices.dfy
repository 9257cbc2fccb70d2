/** The memory device, fenced sub-devices and record devices over them
    (src/whio_dev_mem.c:145-273, src/whio_dev_subdev.c:139-267 and 376-405,
    src/whio_dev.c:409-482). */
module Devices {
  import opened Arithmetic
  import opened Bytes
  import opened ReturnCodes

  const TWO32 := 0x1_0000_0000

  const SIZE_T_ERROR := 0xFFFF_FFFF

  function Wrap(n: int): nat { n % TWO32 }

  /** A memory buffer that does not grow.  `size` of its bytes are in use. */
  class Membuf {
    var buffer: array<Byte>
    var size: nat
    var pos: nat

    ghost predicate Valid()
      reads this
    {
      size <= buffer.Length < TWO32 && pos < TWO32
    }

    ghost function Used(): seq<Byte>
      requires Valid()
      reads this, buffer
    {
      buffer[..size]
    }

    constructor (size: nat)
      requires size < TWO32
      ensures Valid() && fresh(buffer) && Used() == Zeros(size) && pos == 0 && this.size == buffer.Length == size
    {
      buffer := new Byte[size](_ => 0);
      this.size, pos := size, 0;
    }

    method Read(n: nat) returns (got: seq<Byte>)
      requires Valid() && n < TWO32
      modifies `pos
      ensures Valid() && pos == old(pos) + |got|
      ensures |got| == Min(n, Max(0, size - old(pos)))
      ensures got != [] ==> pos <= size && got == Used()[old(pos)..pos]
    {
      got := [];
      if pos >= size {
        return;
      }
      var rlen := n;
      if Wrap(pos + n) >= size || Wrap(pos + n) < pos {
        rlen := size - pos;
      }
      got := buffer[pos..pos + rlen];
      pos := pos + rlen;
    }

    /** Writes as much as fits; nothing when the end of the write overflows.  What is in use
        grows to the end of the write even if that is so far out that nothing is written. */
    method Write(src: seq<Byte>) returns (k: nat)
      requires Valid() && |src| < TWO32
      modifies `pos, `size, buffer
      ensures Valid() && k <= |src| && pos == old(pos) + k
      ensures k == if old(pos) + |src| >= TWO32 then 0 else Max(0, Min(|src|, buffer.Length - old(pos)))
      ensures k > 0 ==> old(pos) + k <= buffer.Length && buffer[..] == Splice(old(buffer[..]), old(pos), src[..k])
      ensures k == 0 ==> buffer[..] == old(buffer[..])
      ensures size == if src == [] || old(pos) + |src| >= TWO32 then old(size)
                      else Max(old(size), Min(old(pos) + |src|, buffer.Length))
    {
      if src == [] {
        return 0;
      }
      var newEnd := Wrap(pos + |src|);
      if newEnd < pos {
        return 0;
      }
      var wlen := |src|;
      if newEnd >= size {
        size := if newEnd > buffer.Length then buffer.Length else newEnd;
      }
      if pos >= size {
        return 0;
      }
      if newEnd >= size {
        wlen := size - pos;
      }
      Store(buffer, pos, src[..wlen]);
      pos := pos + wlen;
      if size < pos {
        size := pos;
      }
      k := wlen;
    }

    method SeekSet(to: int) returns (at: nat)
      modifies `pos
      ensures if to < 0 then at == SIZE_T_ERROR && pos == old(pos) else at == pos == Wrap(to)
    {
      if to < 0 {
        return SIZE_T_ERROR;
      }
      pos := Wrap(to);
      at := pos;
    }
  }

  /** A device that is a fenced part of another: bytes [lower, upper) of the parent.  Its
      own cursor `pos` counts from the start of the parent.  The upper bound 0 is meant to be
      none, but nothing can be read or written then. */
  class SubDev {
    const parent: Membuf
    const lower: nat
    const upper: nat
    var pos: nat

    ghost predicate Valid()
      reads this, parent
    {
      parent.Valid() && lower < TWO32 && (upper == 0 || lower < upper < TWO32) && pos < TWO32
    }

    constructor (parent: Membuf, lower: nat, upper: nat)
      requires parent.Valid() && lower < TWO32 && (upper == 0 || lower < upper < TWO32)
      ensures Valid() && this.parent == parent && this.lower == lower && this.upper == upper && pos == lower
    {
      this.parent, this.lower, this.upper, pos := parent, lower, upper, lower;
    }

    /** What a transfer of `n` bytes comes to, as the 32-bit arithmetic has it. */
    function Length(n: nat): nat
      reads `pos
    {
      var rend := Wrap(pos + n);
      Wrap((if rend > upper then upper else rend) - pos)
    }

    static lemma SamePlace(p: nat)
      ensures Wrap(p) == if p < TWO32 then p else if p < 2 * TWO32 then p - TWO32 else Wrap(p)
    {
    }

    lemma LengthIs(n: nat)
      requires lower <= pos < upper < TWO32 && n < TWO32
      ensures Length(n) == (if pos + n < TWO32 then Min(n, upper - pos) else n) && Wrap(pos) == pos
    {
      if pos + n >= TWO32 {
        assert Wrap(pos + n) == pos + n - TWO32;
        assert Wrap(pos + n - TWO32 - pos) == n;
      }
    }

    /** The fenced part can be used from here: the cursor is inside, and the parent's cursor is
        not at 2^32 - 1, which is taken for an error. */
    predicate Ready()
      reads `pos, parent`pos
    {
      lower <= pos < upper && parent.pos != SIZE_T_ERROR
    }

    /** Reads from the fenced part, as far as it is in use, and puts the parent's cursor back.
        A length that makes the end of the read overflow is not fenced: it is passed on. */
    method Read(n: nat) returns (got: seq<Byte>)
      requires Valid() && n < TWO32
      modifies `pos, parent`pos
      ensures Valid() && parent.pos == old(parent.pos) && pos == old(pos) + |got|
      ensures got != [] ==> pos <= parent.size && got == parent.Used()[old(pos)..pos]
      ensures |got| == if !old(Ready()) then 0
                       else Min(if old(pos) + n < TWO32 then Min(n, upper - old(pos)) else n,
                                Max(0, parent.size - old(pos)))
    {
      got := [];
      if pos < lower || pos >= upper {
        return;
      }
      var opos := parent.pos;
      if opos == SIZE_T_ERROR {
        return;
      }
      LengthIs(n);
      SamePlace(opos);
      hide Wrap, SubDev.Length;
      var _ := parent.SeekSet(pos);
      var rlen := Length(n);
      if rlen != 0 {
        got := parent.Read(rlen);
      }
      pos := pos + |got|;
      var _ := parent.SeekSet(opos);
    }

    /** The bytes of a write that the fence lets through. */
    function Inside(n: nat): nat
      reads `pos, parent`pos
    {
      if Ready() && pos + n < TWO32 then Min(n, upper - pos) else 0
    }

    /** Writes to the fenced part, as far as the parent has room, and puts the parent's cursor
        back.  Whatever the arguments, no byte of the parent outside the fence changes. */
    method Write(src: seq<Byte>) returns (k: nat)
      requires Valid() && |src| < TWO32
      modifies `pos, parent`pos, parent`size, parent.buffer
      ensures Valid() && parent.pos == old(parent.pos)
      ensures k <= |src| && pos == old(pos) + k
      ensures var n := old(Inside(|src|));
              && k == Max(0, Min(n, parent.buffer.Length - old(pos)))
              && parent.size == if n == 0 then old(parent.size)
                  else Max(old(parent.size), Min(old(pos) + n, parent.buffer.Length))
      ensures k > 0 ==> lower <= old(pos) && old(pos) + k <= upper && old(pos) + k <= parent.buffer.Length
                        && parent.buffer[..] == Splice(old(parent.buffer[..]), old(pos), src[..k])
      ensures k == 0 ==> parent.buffer[..] == old(parent.buffer[..])
    {
      k := 0;
      if pos < lower || pos >= upper {
        return;
      }
      var opos := parent.pos;
      if opos == SIZE_T_ERROR {
        return;
      }
      LengthIs(|src|);
      SamePlace(opos);
      hide Wrap, SubDev.Length, Splice;
      var _ := parent.SeekSet(pos);
      var wlen := Length(|src|);
      if wlen != 0 {
        k := PassOn(src, wlen);
      }
      pos := pos + k;
      var _ := parent.SeekSet(opos);
    }

    /** Writes the first `n` bytes at the parent's cursor. */
    method PassOn(src: seq<Byte>, n: nat) returns (k: nat)
      requires parent.Valid() && 0 < n <= |src| < TWO32
      modifies parent`pos, parent`size, parent.buffer
      ensures var at, room := old(parent.pos), parent.buffer.Length;
              && parent.Valid() && k == (if at + n >= TWO32 then 0 else Max(0, Min(n, room - at)))
              && parent.size == (if at + n >= TWO32 then old(parent.size) else Max(old(parent.size), Min(at + n, room)))
              && (k > 0 ==> at + k <= room && parent.buffer[..] == Splice(old(parent.buffer[..]), at, src[..k]))
      ensures k == 0 ==> parent.buffer[..] == old(parent.buffer[..])
    {
      hide Splice;
      k := parent.Write(src[..n]);
      assert src[..n][..k] == src[..k];
    }

    /** Moves the cursor, relative to the fence; the parent's cursor moves along. */
    method SeekSet(to: int) returns (at: nat)
      requires Valid()
      modifies `pos, parent`pos
      ensures Valid()
      ensures if to < 0 || lower + Wrap(to) >= TWO32 then at == SIZE_T_ERROR && pos == old(pos)
              else at == Wrap(to) && pos == parent.pos == lower + Wrap(to)
    {
      if to < 0 {
        return SIZE_T_ERROR;
      }
      SamePlace(lower + Wrap(to));
      var too := Wrap(lower + Wrap(to));
      if too < lower {
        return SIZE_T_ERROR;
      }
      pos := too;
      var upos := parent.SeekSet(too);
      at := SIZE_T_ERROR;
      if upos == pos {
        at := pos - lower;
      }
    }
  }

  /** `count` records of `size` bytes each, inside a fence that is just as long. */
  class BlockDev {
    const fence: SubDev
    const size: nat
    const count: nat
    const prototype: seq<Byte>

    ghost predicate Valid()
      reads this, fence, fence.parent
    {
      && fence.Valid() && fence.lower < fence.upper && size > 0 && count > 0 && |prototype| == size
      && fence.upper == fence.lower + count * size <= fence.parent.size == fence.parent.buffer.Length
    }

    /** The source makes the fence itself; it refuses empty records and empty devices. */
    constructor (parent: Membuf, offset: nat, size: nat, count: nat, prototype: seq<Byte>)
      requires parent.Valid() && size > 0 && count > 0 && |prototype| == size
      requires offset + count * size <= parent.size == parent.buffer.Length
      ensures Valid() && fence.parent == parent && fence.lower == offset && this.size == size && this.count == count
      ensures this.prototype == prototype
    {
      MulPositive(count, size);
      fence := new SubDev(parent, offset, offset + count * size);
      this.size, this.count, this.prototype := size, count, prototype;
    }

    /** The records that the fenced bytes are. */
    ghost function Records(): (r: seq<seq<Byte>>)
      requires Valid()
      reads this, fence, fence.parent, fence.parent.buffer
      ensures |r| == count
    {
      Rows(fence.parent.buffer[..], fence.lower, size, count)
    }

    static function Rows(b: seq<Byte>, base: nat, size: nat, count: nat): (r: seq<seq<Byte>>)
      requires base + count * size <= |b|
      ensures |r| == count && forall i :: 0 <= i < count ==> r[i] == Row(b, base, size, count, i)
    {
      seq(count, i requires 0 <= i < count => Row(b, base, size, count, i))
    }

    static function Row(b: seq<Byte>, base: nat, size: nat, count: nat, id: nat): (r: seq<Byte>)
      requires id < count && base + count * size <= |b|
      ensures |r| == size
    {
      RowFits(base, size, count, id);
      b[base + id * size..base + id * size + size]
    }

    static lemma RowFits(base: nat, size: nat, count: nat, id: nat)
      requires id < count
      ensures 0 <= id * size && id * size + size <= count * size
    {
      MulPositive(id, size);
      MulPositive(count - id - 1, size);
      assert count * size == id * size + size + (count - id - 1) * size;
    }

    /** Writing over one row changes that row alone. */
    static lemma RowWrite(b: seq<Byte>, base: nat, size: nat, count: nat, id: nat, w: seq<Byte>, j: nat)
      requires id < count && j < count && base + count * size <= |b| && |w| == size
      ensures base <= base + id * size && base + id * size + size <= |b|
      ensures Row(Splice(b, base + id * size, w), base, size, count, j)
              == if j == id then w else Row(b, base, size, count, j)
    {
      RowFits(base, size, count, id);
      RowFits(base, size, count, j);
      var at, lo := base + id * size, base + j * size;
      if j < id {
        RowFits(base, size, id, j);
        SpliceElsewhere(b, at, w, lo, lo + size);
      } else if j > id {
        RowFits(base, size, j, id);
        SpliceElsewhere(b, at, w, lo, lo + size);
      }
    }

    static lemma RowsWrite(b: seq<Byte>, base: nat, size: nat, count: nat, id: nat, w: seq<Byte>)
      requires id < count && base + count * size <= |b| && |w| == size
      ensures base <= base + id * size && base + id * size + size <= base + count * size
      ensures Rows(Splice(b, base + id * size, w), base, size, count) == Rows(b, base, size, count)[id := w]
      ensures Splice(b, base + id * size, w)[..base] == b[..base]
      ensures Splice(b, base + id * size, w)[base + count * size..] == b[base + count * size..]
    {
      RowFits(base, size, count, id);
      forall j | 0 <= j < count
        ensures Row(Splice(b, base + id * size, w), base, size, count, j)
                == if j == id then w else Row(b, base, size, count, j)
      {
        RowWrite(b, base, size, count, id, w, j);
      }
      SpliceElsewhere(b, base + id * size, w, 0, base);
      SpliceElsewhere(b, base + id * size, w, base + count * size, |b|);
    }

    predicate InRange(id: nat) { if count != 0 then id < count else true }

    /** Where a record starts, relative to the fence. */
    function OffsetFor(id: nat): nat {
      if !InRange(id) then SIZE_T_ERROR else Wrap(id * size)
    }

    lemma OffsetFits(id: nat)
      requires Valid()
      ensures OffsetFor(id) == SIZE_T_ERROR <==> id >= count
      ensures id < count ==> 0 <= OffsetFor(id) == id * size && fence.lower + id * size + size <= fence.upper
    {
      if id < count {
        RowFits(fence.lower, size, count, id);
        Remainder(TWO32, 0, id * size);
      }
    }

    /** The fence lets a whole record through. */
    lemma RecordInside(id: nat)
      requires Valid() && id < count
      ensures Wrap(OffsetFor(id)) == OffsetFor(id) && 0 <= OffsetFor(id)
              && fence.lower + OffsetFor(id) + size <= fence.upper
      ensures fence.pos == fence.parent.pos == fence.lower + OffsetFor(id) ==>
                fence.Ready() && fence.Inside(size) == size
    {
      hide Wrap;
      OffsetFits(id);
      SubDev.SamePlace(OffsetFor(id));
    }

    /** Stores one record. */
    method Write(id: nat, src: seq<Byte>) returns (rc: Rc)
      requires Valid() && |src| == size
      modifies fence`pos, fence.parent`pos, fence.parent`size, fence.parent.buffer
      ensures Valid() && rc == if id < count then OK else RangeError
      ensures Records() == if rc == OK then old(Records())[id := src] else old(Records())
      ensures fence.parent.buffer[..fence.lower] == old(fence.parent.buffer[..fence.lower])
      ensures fence.parent.buffer[fence.upper..] == old(fence.parent.buffer[fence.upper..])
    {
      hide Rows, Row, Splice, Wrap, BlockDev.OffsetFor, SubDev.Inside;
      OffsetFits(id);
      var pos := OffsetFor(id);
      if pos == SIZE_T_ERROR {
        return RangeError;
      }
      RecordInside(id);
      ghost var b := fence.parent.buffer[..];
      var at := fence.SeekSet(pos);
      RecordInside(id);
      var k := fence.Write(src);
      assert src[..k] == src;
      RowsWrite(b, fence.lower, size, count, id, src);
      rc := if at == pos && k == size then OK else IOError;
    }

    /** Fetches one record. */
    method Read(id: nat) returns (rc: Rc, dest: seq<Byte>)
      requires Valid()
      modifies fence`pos, fence.parent`pos
      ensures Valid() && rc == if id < count then OK else RangeError
      ensures rc == OK ==> dest == Records()[id]
    {
      OffsetFits(id);
      var pos := OffsetFor(id);
      if pos == SIZE_T_ERROR {
        return RangeError, [];
      }
      RecordInside(id);
      var at := fence.SeekSet(pos);
      RecordInside(id);
      dest := fence.Read(size);
      rc := if at == pos && |dest| == size then OK else IOError;
    }

    method Wipe(id: nat) returns (rc: Rc)
      requires Valid()
      modifies fence`pos, fence.parent`pos, fence.parent`size, fence.parent.buffer
      ensures Valid() && rc == if id < count then OK else RangeError
      ensures Records() == if rc == OK then old(Records())[id := prototype] else old(Records())
      ensures fence.parent.buffer[..fence.lower] == old(fence.parent.buffer[..fence.lower])
      ensures fence.parent.buffer[fence.upper..] == old(fence.parent.buffer[fence.upper..])
    {
      rc := Write(id, prototype);
    }
  }
}
