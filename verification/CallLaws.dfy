/** What follows for clients from module Calls, for every state and call: how calls combine,
    and what they leave alone. */
module CallLaws {
  import opened Bytes
  import opened BlockStore
  import opened Quota
  import opened Nodedev
  import opened Naming
  import opened Calls

  /** The file a call is about. */
  function FileOf(s: State, c: Call): nat {
    match c
    case Unlink(id) => id
    case Read(h, _) => if h in s.handles then s.handles[h].file else 0
    case Write(h, _) => if h in s.handles then s.handles[h].file else 0
    case Truncate(h, _) => if h in s.handles then s.handles[h].file else 0
    case _ => 0
  }

  /** No call changes another file, or takes blocks from it. */
  lemma OthersUntouched(s: State, c: Call, j: nat)
    requires Legal(s, c) && j < |s.files| && j != FileOf(s, c)
    ensures var t := After(s, c);
            |t.files| == |t.held| == |s.files| && t.files[j] == s.files[j] && t.held[j] == s.held[j]
  {
  }

  lemma ShortHeld(s: State, e: Handle, n: nat)
    requires Sane(s) && e.file < |s.files| && e.rw && Taken(s, e, n) < n
    ensures var r := HeldByWrite(s, e, n);
            r == s.held[e.file] + (s.blocks - Sum(s.held)) || (r == s.held[e.file] && BlockOf(s.bs, e.at) > s.blocks)
  {
    var k, m := Taken(s, e, n), Reach(s, e.file);
    if k > 0 {
      BlockInside(s.bs, e.at, m);
      BlockInside(s.bs, e.at + k - 1, m);
      BlockInside(s.bs, e.at + k - 1, m - 1);
    }
  }

  /** A write that is cut short leaves no block free, unless the container is too small for
      the next byte anyway. */
  lemma ShortMeansFull(s: State, h: nat, src: seq<Byte>)
    requires Legal(s, Write(h, src)) && s.handles[h].rw
    requires Taken(s, s.handles[h], |src|) < |src|
    ensures var t, e := After(s, Write(h, src)), s.handles[h];
            Sum(t.held) == s.blocks || (t.held == s.held && BlockOf(s.bs, e.at) > s.blocks)
  {
    var e := s.handles[h];
    ShortHeld(s, e, |src|);
    hide Taken, HeldByWrite, Reach;
    SumUpdate(s.held, e.file, HeldByWrite(s, e, |src|));
    assert s.held[e.file := s.held[e.file]] == s.held;
  }

  /** A write leaves its file the same reach: what it takes was free. */
  lemma ReachStays(s: State, e: Handle, src: seq<Byte>)
    requires Sane(s) && e.file < |s.files|
    ensures var t := AfterWrite(s, e, src); Sane(t) && Reach(t, e.file) == Reach(s, e.file)
  {
    WriteInReach(s, e, |src|);
    SumUpdate(s.held, e.file, HeldByWrite(s, e, |src|));
  }

  /** The counts of two writes, one after the other. */
  lemma TakenTwice(s: State, e: Handle, t: State, m: nat, n: nat)
    requires Sane(s) && e.file < |s.files| && Sane(t) && t.bs == s.bs && |t.files| == |s.files|
    requires Reach(t, e.file) == Reach(s, e.file)
    ensures var k := Taken(s, e, m);
            var l := Taken(t, e.(at := e.at + k), n);
            k + l == Taken(s, e, m + n) && (k < m ==> l == 0)
  {
    hide Reach, Sane;
    var room := Reach(s, e.file) * s.bs;
    assert room == Reach(t, e.file) * t.bs;
  }

  lemma CountTwice(s: State, e: Handle, t: State, m: nat, n: nat)
    requires Sane(s) && e.file < |s.files| && Sane(t) && t.bs == s.bs && t.blocks == s.blocks && |t.files| == |s.files|
    requires t.held[e.file] == HeldByWrite(s, e, m) && Reach(t, e.file) == Reach(s, e.file)
    ensures HeldByWrite(t, e.(at := e.at + Taken(s, e, m)), n) == HeldByWrite(s, e, m + n)
  {
    hide Sound, Reach, HeldFor;
    HeldTwice(s.bs, s.blocks, s.held[e.file], Reach(s, e.file), e.at, m, n);
  }

  lemma HeldTwice(bs: nat, blocks: nat, held: nat, r: nat, at: nat, m: nat, n: nat)
    requires bs > 0 && held <= r <= blocks
    ensures var k := Min(m, Max(0, r * bs - at));
            HeldFor(bs, blocks, HeldFor(bs, blocks, held, r, at, m), r, at + k, n)
                == HeldFor(bs, blocks, held, r, at, m + n)
  {
    var room := r * bs;
    var k := Min(m, Max(0, room - at));
    var l := Min(n, Max(0, room - at - k));
    hide BlockOf;
    if m > 0 && n > 0 {
      BlockInside(bs, at, r);
      BlockInside(bs, at + k, r);
      if l > 0 && k > 0 {
        BlockOrder(bs, at + k - 1, at + k + l - 1);
      } else if k > 0 {
        LastInside(bs, r);
      }
    }
  }

  /** The last byte of `r` blocks is in the last of them. */
  lemma LastInside(bs: nat, r: nat)
    requires bs > 0 && r > 0
    ensures r * bs > 0 && BlockOf(bs, r * bs - 1) == r
  {
    assert (r - 1) * bs + bs == r * bs;
    BlockInside(bs, r * bs - 1, r);
    BlockInside(bs, r * bs - 1, r - 1);
  }

  lemma BlockOrder(bs: nat, p: nat, q: nat)
    requires bs > 0 && p <= q
    ensures BlockOf(bs, p) <= BlockOf(bs, q)
  {
    IndexOrder(p, q, bs);
    DivMod(p, bs);
    DivMod(q, bs);
  }

  lemma SameReach(s: State, t: State, i: nat)
    requires Sane(s) && Sane(t) && i < |s.files| && |t.files| == |s.files| && t.held == s.held && t.blocks == s.blocks
    ensures Reach(t, i) == Reach(s, i)
  {
  }

  lemma AfterWriteTwice(s: State, e: Handle, t: State, a: seq<Byte>, b: seq<Byte>)
    requires Sane(s) && e.file < |s.files| && Sane(t) && t == AfterWrite(s, e, a).(handles := t.handles)
    ensures var k := Taken(s, e, |a|);
            var g := e.(at := e.at + k);
            && k + Taken(t, g, |b|) == Taken(s, e, |a + b|)
            && AfterWrite(t, g, b).(handles := s.handles) == AfterWrite(s, e, a + b)
  {
    hide Taken, HeldByWrite, WriteAt, Reach, Sum;
    ReachStays(s, e, a);
    var t1 := AfterWrite(s, e, a);
    assert t1.held == t.held && t1.blocks == t.blocks;
    assert Reach(t1, e.file) == Reach(t, e.file) by { SameReach(t1, t, e.file); }
    TakenTwice(s, e, t, |a|, |b|);
    CountTwice(s, e, t, |a|, |b|);
    var k := Taken(s, e, |a|);
    var l := Taken(t, e.(at := e.at + k), |b|);
    assert k + l == Taken(s, e, |a + b|);
    WriteAtTwice(s.files[e.file], e.at, a[..k], b[..l]);
    PiecesJoin(a, b, k, l);
  }

  lemma PiecesJoin(a: seq<Byte>, b: seq<Byte>, k: nat, l: nat)
    requires k <= |a| && l <= |b| && (l > 0 ==> k == |a|)
    ensures a[..k] + b[..l] == (a + b)[..k + l]
  {
  }

  lemma ExtensiblePart(s: State, e: Handle, m: nat, n: nat)
    requires Sane(s) && e.file < |s.files| && Extensible(s, e, n) && m <= n
    ensures Extensible(s, e, m)
  {
    if m > 0 { BlockOrder(s.bs, e.at + m - 1, e.at + n - 1); }
  }

  lemma ExtensibleRest(s: State, e: Handle, t: State, a: seq<Byte>, n: nat)
    requires Sane(s) && e.file < |s.files| && Sane(t) && t == AfterWrite(s, e, a).(handles := t.handles)
    requires Extensible(s, e, |a| + n)
    ensures Extensible(t, e.(at := e.at + Taken(s, e, |a|)), n)
  {
    var k := Taken(s, e, |a|);
    ReachStays(s, e, a);
    SameReach(AfterWrite(s, e, a), t, e.file);
    BlockInside(s.bs, e.at, Reach(s, e.file));
    if n > 0 { BlockOrder(s.bs, e.at + k + n - 1, e.at + |a| + n - 1); }
  }

  /** Writing two pieces one after the other is writing them at once: the same bytes are
      taken, and the same state is reached, however full the container is. */
  lemma WriteTwice(s: State, h: nat, a: seq<Byte>, b: seq<Byte>)
    requires Legal(s, Write(h, a + b))
    ensures Legal(s, Write(h, a))
    ensures var t := After(s, Write(h, a));
            && Legal(t, Write(h, b)) && After(t, Write(h, b)) == After(s, Write(h, a + b))
            && Answer(s, Write(h, a)).k + Answer(t, Write(h, b)).k == Answer(s, Write(h, a + b)).k
  {
    hide After, Answer, AfterWrite, Taken, Sane, Extensible;
    var e := s.handles[h];
    WriteIs(s, h, a + b);
    ExtensiblePart(s, e, |a|, |a + b|);
    var t := After(s, Write(h, a));
    SaneAfter(s, Write(h, a));
    WriteIs(s, h, a);
    ExtensibleRest(s, e, t, a, |b|);
    WriteIs(t, h, b);
    AfterWriteTwice(s, e, t, a, b);
    assert t.handles[h] == e.(at := e.at + Taken(s, e, |a|));
  }

  lemma SliceTwice(f: seq<Byte>, at: nat, m: nat, n: nat)
    ensures Slice(f, at, m) + Slice(f, at + |Slice(f, at, m)|, n) == Slice(f, at, m + n)
  {
  }

  /** Reading on is reading more at once. */
  lemma ReadTwice(s: State, h: nat, m: nat, n: nat)
    requires Legal(s, Read(h, m))
    ensures var t := After(s, Read(h, m));
            && Legal(t, Read(h, n)) && After(t, Read(h, n)) == After(s, Read(h, m + n))
            && Answer(s, Read(h, m)).bytes + Answer(t, Read(h, n)).bytes == Answer(s, Read(h, m + n)).bytes
  {
    hide After, Answer, Sane, Slice, Readable;
    var t := After(s, Read(h, m));
    SaneAfter(s, Read(h, m));
    ReadIs(s, h, m);
    ReadIs(t, h, n);
    ReadIs(s, h, m + n);
    var i := s.handles[h].file;
    SameReads(s, t, i);
    SliceTwice(Readable(s, i), s.handles[h].at, m, n);
  }

  lemma SameReads(s: State, t: State, i: nat)
    requires Sane(s) && Sane(t) && i < |s.files| && t.files == s.files && t.held == s.held && t.bs == s.bs
    ensures Readable(t, i) == Readable(s, i)
  {
  }

  /** Seeking back after a write and reading gives the bytes that were taken. */
  lemma ReadBack(s: State, h: nat, src: seq<Byte>)
    requires Legal(s, Write(h, src)) && Mappable(s.bs, s.handles[h].at)
    ensures var e := s.handles[h];
            var k := Taken(s, e, |src|);
            var calls := [Write(h, src), Seek(h, e.at, Set), Read(h, k)];
            Lawful(s, calls) && Run(s, calls).1 == [Put(k), At(e.at), Got(src[..k])]
  {
    hide After, Answer, AfterWrite, Taken, Sane, Mappable, Readable, Slice;
    WriteIs(s, h, src);
    var e := s.handles[h];
    var k := Taken(s, e, |src|);
    var c0, c1, c2 := Write(h, src), Seek(h, e.at, Set), Read(h, k);
    SaneAfter(s, c0);
    var t := After(s, c0);
    SeekSetIs(t, h, e.at);
    SaneAfter(t, c1);
    var u := After(t, c1);
    ReadIs(u, h, k);
    WrittenReads(s, e, src);
    SameReads(AfterWrite(s, e, src), u, e.file);
    RunThree(s, c0, c1, c2);
  }

  lemma SeekSetIs(s: State, h: nat, pos: nat)
    requires Sane(s) && h in s.handles && Mappable(s.bs, pos)
    ensures Legal(s, Seek(h, pos, Set)) && Answer(s, Seek(h, pos, Set)) == At(pos)
    ensures After(s, Seek(h, pos, Set)) == Moved(s, h, pos)
  {
  }

  lemma RunThree(s: State, c0: Call, c1: Call, c2: Call)
    requires Legal(s, c0) && Legal(After(s, c0), c1) && Legal(After(After(s, c0), c1), c2)
    ensures Lawful(s, [c0, c1, c2])
    ensures var t := After(s, c0); Run(s, [c0, c1, c2]).1 == [Answer(s, c0), Answer(t, c1), Answer(After(t, c1), c2)]
  {
    hide Legal, After, Answer, Sane;
    LegalIsSane(s, c0);
    RunMore(s, [], c0);
    assert [] + [c0] == [c0];
    RunMore(s, [c0], c1);
    assert [c0] + [c1] == [c0, c1];
    RunMore(s, [c0, c1], c2);
    assert [c0, c1] + [c2] == [c0, c1, c2];
  }

  lemma LegalIsSane(s: State, c: Call)
    requires Legal(s, c)
    ensures Sane(s)
  {
  }

  /** What a write took can be read where it was written. */
  lemma WrittenReads(s: State, e: Handle, src: seq<Byte>)
    requires Sane(s) && e.file < |s.files|
    ensures var t, k := AfterWrite(s, e, src), Taken(s, e, |src|);
            Sane(t) && Slice(Readable(t, e.file), e.at, k) == src[..k]
  {
    var t, k, i := AfterWrite(s, e, src), Taken(s, e, |src|), e.file;
    ReachStays(s, e, src);
    if k > 0 {
      BlockInside(s.bs, e.at, Reach(s, i));
      BlockInside(s.bs, e.at + k - 1, t.held[i]);
      hide Taken, HeldByWrite, Sane, Reach;
      var f := t.files[i];
      assert f[e.at..e.at + k] == src[..k];
      assert Readable(t, i)[e.at..e.at + k] == f[e.at..e.at + k];
    }
  }

  /** Growing a file and shrinking it back restores it, unless it ends with a block: that
      one is zeros afterwards. */
  lemma GrowShrink(s: State, h: nat, len: nat)
    requires Legal(s, Truncate(h, len)) && s.handles[h].rw && 0 < |s.files[s.handles[h].file]| < len
    requires Answer(s, Truncate(h, len)) == Done
    ensures var t, i := After(s, Truncate(h, len)), s.handles[h].file;
            var f := s.files[i];
            Legal(t, Truncate(h, |f|)) ==>
              && Answer(t, Truncate(h, |f|)) == Done
              && var g := After(t, Truncate(h, |f|)).files[i];
                 g == Cut(f, |f|, s.bs) && (g == f <==> |f| % s.bs != 0 || |f| < s.bs || f[|f| - s.bs..] == Zeros(s.bs))
  {
    hide Sound, Cut, BlockOf;
    var e, t := s.handles[h], AfterTruncate(s, s.handles[h], len);
    var f := s.files[e.file];
    SumUpdate(s.held, e.file, HeldByTruncate(s, e.file, len));
    BlockOrder(s.bs, |f| - 1, len - 1);
    CutBack(f, len, s.bs);
  }

  lemma CutBack(f: seq<Byte>, len: nat, bs: nat)
    requires bs > 0 && 0 < |f| < len
    ensures Cut(Resize(f, len), |f|, bs) == Cut(f, |f|, bs)
    ensures Cut(f, |f|, bs) == f <==> |f| % bs != 0 || |f| < bs || f[|f| - bs..] == Zeros(bs)
  {
    assert Resize(f, len)[..|f|] == f;
    if |f| % bs == 0 && |f| >= bs {
      assert Resize(f, len)[..|f| - bs] == f[..|f| - bs];
      assert f == f[..|f| - bs] + f[|f| - bs..];
      assert Cut(f, |f|, bs)[|f| - bs..] == Zeros(bs);
    }
  }
}
