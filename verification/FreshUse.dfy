/** What a freshly formatted container is good for: why formatting asks for as many blocks as
    inodes, for two inodes, and for names of one character at least (src/whefs_fs.c:1246-1260). */
module FreshUse {
  import opened Bytes
  import opened Quota
  import opened Calls
  import opened Catalog
  import Layout
  import Naming

  /** Gives one byte to each of the inodes 1 to `n`, one after the other. */
  function OneByteEach(n: nat): seq<Call> {
    if n == 0 then [] else OneByteEach(n - 1) + [Open(n, true), Write(n, [7]), Close(n)]
  }

  lemma {:induction false} ThreeEach(n: nat)
    ensures |OneByteEach(n)| == 3 * n
  {
    if n > 0 { ThreeEach(n - 1); }
  }

  /** After that the first `n` inodes hold a block each, as far as blocks last. */
  ghost predicate Given(o: Layout.Options, t: State, n: nat) {
    && Sane(t) && t.bs == o.blockSize && t.blocks == o.blockCount && |t.files| == o.inodeCount + 1
    && t.handles == map[] && t.next == n + 1 && Sum(t.held) == Min(n, o.blockCount)
    && forall i :: n < i <= o.inodeCount ==> t.held[i] == 0 && t.files[i] == []
  }

  lemma FreshGiven(o: Layout.Options, known: set<string>)
    requires Layout.Typed(o) && o.blockSize > 0 && o.inodeCount >= 2
    ensures Given(o, Fresh(o, known), 0)
  {
    NoBlocks(o.inodeCount + 1);
  }

  lemma {:induction false} NoBlocks(n: nat)
    ensures Sum(seq(n, _ => 0)) == 0
  {
    if n > 0 {
      NoBlocks(n - 1);
      assert seq(n, _ => 0)[..n - 1] == seq(n - 1, _ => 0);
    }
  }

  /** One more inode: the byte is taken exactly if a block is left. */
  lemma GiveNext(o: Layout.Options, t: State, n: nat)
    requires Given(o, t, n) && n < o.inodeCount < 0xFFFF && o.blockCount < 0xFFFF
    ensures var c0, c1, c2 := Open(n + 1, true), Write(n + 1, [7]), Close(n + 1);
            && Legal(t, c0) && Legal(After(t, c0), c1) && Legal(After(After(t, c0), c1), c2)
            && Answer(After(t, c0), c1) == Put(if n < o.blockCount then 1 else 0)
            && Given(o, After(After(After(t, c0), c1), c2), n + 1)
  {
    var c0, c1, c2 := Open(n + 1, true), Write(n + 1, [7]), Close(n + 1);
    GiveOpen(o, t, n);
    var u := After(t, c0);
    GiveWrite(o, u, n);
    var v := After(u, c1);
    SaneAfter(u, c1);
    GiveClose(o, v, n);
  }

  lemma GiveOpen(o: Layout.Options, t: State, n: nat)
    requires Given(o, t, n) && n < o.inodeCount
    ensures var c := Open(n + 1, true);
            && Legal(t, c) && Sane(After(t, c))
            && After(t, c) == t.(handles := map[n + 1 := Handle(n + 1, true, 0)], next := n + 2)
  {
    assert On(t.handles, n + 1) == {};
    SaneAfter(t, Open(n + 1, true));
  }

  lemma GiveWrite(o: Layout.Options, u: State, n: nat)
    requires Sane(u) && u.bs == o.blockSize && u.blocks == o.blockCount < 0xFFFF && |u.files| == o.inodeCount + 1
    requires u.handles == map[n + 1 := Handle(n + 1, true, 0)] && n < o.inodeCount
    requires Sum(u.held) == Min(n, o.blockCount) && u.held[n + 1] == 0
    ensures var c := Write(n + 1, [7]);
            && Legal(u, c) && Answer(u, c) == Put(if n < o.blockCount then 1 else 0)
            && Sum(After(u, c).held) == Min(n + 1, o.blockCount) && |After(u, c).held| == |u.held|
            && (forall i :: 0 <= i < |u.held| && i != n + 1 ==> After(u, c).held[i] == u.held[i])
            && (forall i :: 0 <= i < |u.files| && i != n + 1 ==> After(u, c).files[i] == u.files[i])
            && |After(u, c).files| == |u.files|
            && After(u, c) == u.(files := After(u, c).files, held := After(u, c).held, handles := After(u, c).handles)
            && After(u, c).handles.Keys == {n + 1}
  {
    var e := Handle(n + 1, true, 0);
    assert BlockOf(u.bs, 0) == 1;
    assert Reach(u, n + 1) == o.blockCount - Min(n, o.blockCount);
    OneTaken(u.bs, o.blockCount, Reach(u, n + 1));
    SumUpdate(u.held, n + 1, HeldByWrite(u, e, 1));
    WriteIs(u, n + 1, [7]);
  }

  lemma OneTaken(bs: nat, blocks: nat, reach: nat)
    requires bs > 0 && reach <= blocks
    ensures Min(1, Max(0, reach * bs - 0)) == (if reach > 0 then 1 else 0)
    ensures HeldFor(bs, blocks, 0, reach, 0, 1) == if reach > 0 then 1 else 0
  {
    assert BlockOf(bs, 0) == 1;
    if reach > 0 { assert reach * bs >= bs; }
  }

  lemma GiveClose(o: Layout.Options, v: State, n: nat)
    requires Sane(v) && v.bs == o.blockSize && v.blocks == o.blockCount && |v.files| == o.inodeCount + 1
    requires v.handles.Keys == {n + 1} && v.next == n + 2 && Sum(v.held) == Min(n + 1, o.blockCount)
    requires forall i :: n + 1 < i <= o.inodeCount ==> v.held[i] == 0 && v.files[i] == []
    ensures Legal(v, Close(n + 1)) && Given(o, After(v, Close(n + 1)), n + 1)
  {
    SaneAfter(v, Close(n + 1));
    assert v.handles - {n + 1} == map[];
  }

  lemma {:induction false} GiveEach(o: Layout.Options, known: set<string>, n: nat)
    requires Layout.Typed(o) && o.blockSize > 0 && 2 <= o.inodeCount && n <= o.inodeCount
    ensures Lawful(Fresh(o, known), OneByteEach(n)) && Given(o, Run(Fresh(o, known), OneByteEach(n)).0, n)
    ensures |Run(Fresh(o, known), OneByteEach(n)).1| == 3 * n
    ensures forall i :: 0 <= i < n ==>
              Run(Fresh(o, known), OneByteEach(n)).1[3 * i + 1] == Put(if i < o.blockCount then 1 else 0)
  {
    hide Sane, Given, Legal, After, Answer, Fresh;
    var s := Fresh(o, known);
    FreshGiven(o, known);
    if n == 0 {
      GivenSane(o, s, 0);
    } else {
      GiveEach(o, known, n - 1);
      var calls, t := OneByteEach(n - 1), Run(s, OneByteEach(n - 1)).0;
      var c0, c1, c2 := Open(n, true), Write(n, [7]), Close(n);
      GiveNext(o, t, n - 1);
      RunMore(s, calls, c0);
      RunMore(s, calls + [c0], c1);
      RunMore(s, calls + [c0] + [c1], c2);
      assert calls + [c0] + [c1] + [c2] == OneByteEach(n);
    }
  }

  lemma GivenSane(o: Layout.Options, t: State, n: nat)
    requires Given(o, t, n)
    ensures Sane(t)
  {
  }

  /** Every inode of a new container can be given a byte if and only if it has as many blocks
      as inodes. */
  lemma ByteForEach(o: Layout.Options, known: set<string>)
    requires Layout.Typed(o) && o.blockSize > 0 && 2 <= o.inodeCount
    ensures var s, calls := Fresh(o, known), OneByteEach(o.inodeCount);
            && Lawful(s, calls) && |Run(s, calls).1| == 3 * o.inodeCount
            && ((forall i :: 0 <= i < o.inodeCount ==> Run(s, calls).1[3 * i + 1] == Put(1)) <==>
                o.blockCount >= o.inodeCount)
  {
    hide Run, Lawful, OneByteEach, Fresh, Layout.Typed;
    GiveEach(o, known, o.inodeCount);
    if o.blockCount < o.inodeCount {
      var i := o.blockCount;
      assert Run(Fresh(o, known), OneByteEach(o.inodeCount)).1[3 * i + 1] == Put(0);
    }
  }

  /** A file can be given a name if and only if names may have a character and there is an
      inode besides the root. */
  lemma NameForOne(o: Layout.Options)
    requires Layout.Typed(o)
    ensures Naming.Create(Fresh(o, {"a"}).names, "a").Found? <==> o.inodeCount >= 2 && o.nameLength >= 1
    ensures o.inodeCount >= 2 && o.nameLength >= 1 ==> Naming.Create(Fresh(o, {"a"}).names, "a") == Found(2)
  {
    var n := Fresh(o, {"a"}).names;
    assert |n.table| == |n.used| == o.inodeCount + 1;
    assert forall j :: 0 <= j < |n.table| ==> n.table[j] == "" && !n.used[j];
    if o.inodeCount >= 2 { assert FreeFrom(n.used, 2) == 2; }
  }

  /** So what formatting accepts is of use for every inode. */
  lemma AcceptedIsOfUse(o: Layout.Options, i: nat)
    requires Layout.Typed(o) && Layout.Accepted(o) && i < o.inodeCount
    ensures var s, calls := Fresh(o, {"a"}), OneByteEach(o.inodeCount);
            Lawful(s, calls) && |Run(s, calls).1| == 3 * o.inodeCount && Run(s, calls).1[3 * i + 1] == Put(1)
    ensures Naming.Create(Fresh(o, {"a"}).names, "a") == Found(2)
  {
    hide Run, Lawful, OneByteEach, Fresh, Layout.Typed;
    ByteForEach(o, {"a"});
    NameForOne(o);
  }
}
