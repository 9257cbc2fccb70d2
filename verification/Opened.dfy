/** The list of opened inodes (src/whefs_inode.c:416-597): one shared object per
    open inode, linked both ways and sorted by id. */
module Opened {
  import opened BlockStore
  import opened ReturnCodes

  /** An opened inode.  `list[..count]` caches its block chain; `writer` is the key
      of the one handle that may write, or 0; `openCount` is a uint16. */
  class Inode {
    const id: nat
    var firstBlock: nat
    var dataSize: nat
    var openCount: nat
    var writer: nat
    var list: seq<Block>
    var count: nat
    var next: Inode?
    var prev: Inode?

    constructor (id: nat, rec: InodeRec, writer: nat)
      ensures this.id == id && firstBlock == rec.first && dataSize == rec.size
      ensures openCount == 0 && this.writer == writer && list == [] && count == 0
      ensures next == null && prev == null
    {
      this.id, firstBlock, dataSize := id, rec.first, rec.size;
      openCount, this.writer, list, count := 0, writer, [], 0;
      next, prev := null, null;
    }
  }

  function Raise(c: nat): nat { if c == 0xFFFF then 0 else c + 1 }

  function Lower(c: nat): nat { if c == 0 then 0xFFFF else c - 1 }

  /** A uint16 counter that has been raised `t` times. */
  function Count16(t: nat): nat { if t == 0 then 0 else Raise(Count16(t - 1)) }

  lemma {:induction false} CountWraps(t: nat)
    ensures Count16(t) == t % 0x1_0000
  {
    if t == 0 {
    } else {
      CountWraps(t - 1);
    }
  }

  lemma CountSteps(t: nat)
    ensures Lower(Count16(t + 1)) == Count16(t)
    ensures Count16(t) == 0 <==> Count16(t + 1) == 1
  {
    CountWraps(t);
  }

  /** The handles outstanding on one inode: readers, and the writer's key if any. */
  datatype Handles = Handles(readers: nat, writer: nat)

  function Total(h: Handles): nat { h.readers + if h.writer == 0 then 0 else 1 }

  type Table = map<nat, Handles>

  predicate Refused(t: Table, id: nat, writer: nat) {
    id in t && t[id].writer != 0 && writer != 0 && t[id].writer != writer
  }

  /** The table after an accepted open: a repeat by the same writer is not counted. */
  function AfterOpen(t: Table, id: nat, writer: nat): Table {
    if id !in t then
      t[id := if writer == 0 then Handles(1, 0) else Handles(0, writer)]
    else if writer == 0 then
      t[id := t[id].(readers := t[id].readers + 1)]
    else
      t[id := t[id].(writer := writer)]
  }

  function ReleasedHandle(h: Handles, writer: nat): Handles
    requires h.readers > 0 || (h.writer != 0 && h.writer == writer)
  {
    if h.writer != 0 && h.writer == writer then h.(writer := 0) else h.(readers := h.readers - 1)
  }

  /** The table after a close: the 16-bit count decides whether the inode goes away. */
  function AfterClose(t: Table, id: nat, writer: nat): Table
    requires id in t && (t[id].readers > 0 || (t[id].writer != 0 && t[id].writer == writer))
  {
    if Count16(Total(t[id])) == 1 then t - {id}
    else t[id := ReleasedHandle(t[id], writer)]
  }

  ghost predicate Before(nodes: seq<Inode>, i: nat, j: nat)
    requires i < |nodes| && j < |nodes|
  {
    nodes[i].id < nodes[j].id
  }

  ghost predicate Sorted(nodes: seq<Inode>) {
    forall i, j {:trigger Before(nodes, i, j)} :: 0 <= i < j < |nodes| ==> Before(nodes, i, j)
  }

  lemma SortedDistinct(nodes: seq<Inode>)
    requires Sorted(nodes)
    ensures forall i, j :: 0 <= i < j < |nodes| ==> nodes[i] != nodes[j]
  {
    forall i, j | 0 <= i < j < |nodes| ensures nodes[i] != nodes[j] {
      assert Before(nodes, i, j);
    }
  }

  lemma SortedInsert(nodes: seq<Inode>, p: nat, n: Inode)
    requires Sorted(nodes) && p <= |nodes|
    requires p > 0 ==> nodes[p - 1].id < n.id
    requires p < |nodes| ==> n.id < nodes[p].id
    ensures Sorted(nodes[..p] + [n] + nodes[p..])
  {
    var l := nodes[..p] + [n] + nodes[p..];
    forall i, j | 0 <= i < j < |l| ensures Before(l, i, j) {
      var i', j' := if i < p then i else i - 1, if j < p then j else j - 1;
      if i == p {
        if p < j' { assert Before(nodes, p, j'); }
      } else if j == p {
        if i < p - 1 { assert Before(nodes, i, p - 1); }
      } else {
        assert Before(nodes, i', j');
      }
    }
  }

  lemma SortedRemove(nodes: seq<Inode>, at: nat)
    requires Sorted(nodes) && at < |nodes|
    ensures Sorted(nodes[..at] + nodes[at + 1..])
  {
    var l := nodes[..at] + nodes[at + 1..];
    forall i, j | 0 <= i < j < |l| ensures Before(l, i, j) {
      assert Before(nodes, if i < at then i else i + 1, if j < at then j else j + 1);
    }
  }

  ghost function At(nodes: seq<Inode>, k: int): Inode? {
    if 0 <= k < |nodes| then nodes[k] else null
  }

  ghost function Elements(nodes: seq<Inode>): set<Inode> {
    set n | n in nodes
  }

  lemma ElementsInsert(nodes: seq<Inode>, p: nat, n: Inode)
    requires p <= |nodes|
    ensures Elements(nodes[..p] + [n] + nodes[p..]) == Elements(nodes) + {n}
  {
    var l := nodes[..p] + [n] + nodes[p..];
    assert l[p] == n;
    forall m | m in nodes ensures m in l {
      var i :| 0 <= i < |nodes| && nodes[i] == m;
      assert l[if i < p then i else i + 1] == m;
    }
  }

  lemma ElementsRemove(nodes: seq<Inode>, at: nat)
    requires Sorted(nodes) && at < |nodes|
    ensures Elements(nodes[..at] + nodes[at + 1..]) == Elements(nodes) - {nodes[at]}
  {
    var l := nodes[..at] + nodes[at + 1..];
    SortedDistinct(nodes);
    forall m | m in nodes && m != nodes[at] ensures m in l {
      var i :| 0 <= i < |nodes| && nodes[i] == m;
      assert l[if i < at then i else i - 1] == m;
    }
  }

  class OpenedList {
    const maxId: nat
    var head: Inode?
    ghost var nodes: seq<Inode>
    ghost var repr: set<Inode>
    ghost var byId: map<nat, Inode>
    ghost var table: Table

    ghost predicate Linked()
      reads `head, `nodes, `repr, repr`next, repr`prev
    {
      repr == Elements(nodes) && Sorted(nodes) && head == At(nodes, 0) && Chained()
    }

    ghost predicate Chained()
      requires repr == Elements(nodes)
      reads `nodes, `repr, repr`next, repr`prev
    {
      && (forall i {:trigger nodes[i].next} :: 0 <= i < |nodes| ==> nodes[i].next == At(nodes, i + 1))
      && (forall i {:trigger nodes[i].prev} :: 0 <= i < |nodes| ==> nodes[i].prev == At(nodes, i - 1))
    }

    ghost predicate Counted(but: Inode? := null)
      reads `repr, `byId, `table, repr`openCount, repr`writer
    {
      && byId.Keys == table.Keys
      && (forall id :: id in byId ==> byId[id] in repr && byId[id].id == id)
      && (forall n :: n in repr ==> n.id in byId && byId[n.id] == n && (n != but ==> Tallied(n, table[n.id])))
    }

    ghost predicate Tallied(n: Inode, h: Handles)
      reads n`openCount, n`writer
    {
      1 <= n.id <= maxId && n.writer == h.writer && n.openCount == Count16(Total(h)) && Total(h) > 0
    }

    ghost predicate Valid()
      reads this, repr`next, repr`prev, repr`openCount, repr`writer
    {
      Linked() && Counted()
    }

    constructor (maxId: nat)
      ensures Valid() && fresh(this) && this.maxId == maxId && repr == {} && table == map[]
    {
      this.maxId := maxId;
      head, nodes, repr, byId, table := null, [], {}, map[], map[];
    }

    /** Early-exit search: the node with this id, or null when none is open. */
    method Find(id: nat) returns (li: Inode?)
      requires Valid()
      ensures li != null <==> id in table
      ensures li != null ==> li in repr && li.id == id
    {
      li := head;
      ghost var k := 0;
      while li != null
        invariant 0 <= k <= |nodes| && li == At(nodes, k)
        invariant forall i :: 0 <= i < k ==> nodes[i].id < id
        invariant id in table ==> exists i :: k <= i < |nodes| && nodes[i].id == id
        decreases |nodes| - k
      {
        if li.id < id {
          assert nodes[k].next == At(nodes, k + 1);
          li, k := li.next, k + 1;
        } else if li.id > id {
          forall j | k < j < |nodes| ensures nodes[k].id < nodes[j].id {
            assert Before(nodes, k, j);
          }
          return null;
        } else {
          return;
        }
      }
    }

    method SearchOpened(id: nat) returns (rc: Rc, n: Inode?)
      requires Valid()
      ensures rc == if !(1 <= id <= maxId) then ArgError else if id in table then OK else RangeError
      ensures if rc == OK then n != null && n in repr && n.id == id else n == null
    {
      if !(1 <= id <= maxId) {
        return ArgError, null;
      }
      n := Find(id);
      rc := if n == null then RangeError else OK;
    }

    /** whefs_inode_open; `rec` is the inode's record as read from disk. */
    method Open(id: nat, writer: nat, rec: InodeRec) returns (rc: Rc, n: Inode?)
      requires Valid()
      modifies this, repr`next, repr`prev, repr`openCount, repr`writer
      ensures Valid()
      ensures rc == if !(1 <= id <= maxId) then ArgError
                    else if Refused(old(table), id, writer) then AccessError else OK
      ensures rc != OK ==> table == old(table) && repr == old(repr) && n == null
      ensures rc == OK ==> table == AfterOpen(old(table), id, writer) && n != null && n in repr && n.id == id
      ensures forall m :: m in old(repr) && m.writer == 0 ==> old(m.writer) == 0
      ensures rc == OK && id in old(table) ==> repr == old(repr)
      ensures rc == OK && id !in old(table) ==> Fresh(n, rec) && fresh(n) && repr == old(repr) + {n}
    {
      hide OpenedList.Linked;
      if !(1 <= id <= maxId) {
        return ArgError, null;
      }
      n := Find(id);
      if n == null {
        n := OpenFirst(id, writer, rec);
        return OK, n;
      }
      if n.writer != 0 {
        if n.writer == writer {
          assert AfterOpen(table, id, writer) == table;
          return OK, n;
        } else if writer != 0 {
          return AccessError, null;
        }
      }
      Share(n, writer);
      rc := OK;
    }

    ghost predicate Fresh(n: Inode, rec: InodeRec)
      reads n
    {
      n.firstBlock == rec.first && n.dataSize == rec.size && n.list == [] && n.count == 0
    }

    /** Counts one more handle on a node that is already open. */
    method Share(n: Inode, writer: nat)
      requires Valid() && n in repr && (n.writer == 0 || writer == 0)
      modifies this`table, n`openCount, n`writer
      ensures Valid() && table == AfterOpen(old(table), n.id, writer)
    {
      if n.writer == 0 {
        n.writer := writer;
      }
      n.openCount := Raise(n.openCount);
      table := AfterOpen(table, n.id, writer);
    }

    /** The first handle: a new node, filled from the record on disk. */
    method OpenFirst(id: nat, writer: nat, rec: InodeRec) returns (n: Inode)
      requires Valid() && 1 <= id <= maxId && id !in table
      modifies this, repr`next, repr`prev
      ensures Valid() && table == AfterOpen(old(table), id, writer)
      ensures Fresh(n, rec) && fresh(n) && n.id == id && repr == old(repr) + {n}
    {
      n := new Inode(id, rec, writer);
      Insert(n);
      n.openCount := 1;
      Register(n, writer);
    }

    ghost method Register(n: Inode, writer: nat)
      requires Linked() && n in repr && n.openCount == 1 && n.writer == writer && 1 <= n.id <= maxId
      requires byId.Keys == table.Keys && n.id !in byId
      requires forall id :: id in byId ==> byId[id] in repr && byId[id].id == id
      requires forall m :: m in repr && m != n ==> m.id in byId && byId[m.id] == m && Tallied(m, table[m.id])
      modifies this`byId, this`table
      ensures Valid() && table == AfterOpen(old(table), n.id, writer)
    {
      table, byId := AfterOpen(table, n.id, writer), byId[n.id := n];
    }

    /** Links a new node in at its place by id and moves the head back to the leftmost node. */
    method Insert(ent: Inode)
      requires Linked() && ent !in repr && ent.next == null && ent.prev == null
      requires forall n :: n in repr ==> n.id != ent.id
      modifies this`head, this`nodes, this`repr, repr`next, repr`prev, ent`next, ent`prev
      ensures Linked() && repr == old(repr) + {ent}
    {
      var li := head;
      if li == null {
        head := ent;
        nodes, repr := [ent], {ent};
        return;
      }
      ghost var k := 0;
      while li.next != null && li.id < ent.id
        invariant 0 <= k < |nodes| && li == nodes[k]
        invariant forall i :: 0 <= i < k ==> nodes[i].id < ent.id
        decreases |nodes| - k
      {
        assert nodes[k].next == At(nodes, k + 1);
        li, k := li.next, k + 1;
      }
      if li.id < ent.id {
        InsertRight(ent, li, k);
      } else {
        InsertLeft(ent, li, k);
      }
      MoveHead();
    }

    method InsertRight(ent: Inode, li: Inode, ghost k: nat)
      requires Linked() && ent !in repr && k < |nodes| && nodes[k] == li
      requires li.id < ent.id && (k + 1 < |nodes| ==> ent.id < nodes[k + 1].id)
      requires ent.next == null && ent.prev == null
      modifies this`nodes, this`repr, repr`next, repr`prev, ent`next, ent`prev
      ensures Linked() && repr == old(repr) + {ent}
    {
      ghost var was := nodes;
      assert nodes[k].next == At(was, k + 1);
      SortedDistinct(was);
      ent.prev := li;
      ent.next := li.next;
      li.next := ent;
      if ent.next != null { ent.next.prev := ent; }
      SortedInsert(was, k + 1, ent);
      ElementsInsert(was, k + 1, ent);
      nodes, repr := was[..k + 1] + [ent] + was[k + 1..], repr + {ent};
      forall i | 0 <= i < |nodes| ensures nodes[i].next == At(nodes, i + 1) && nodes[i].prev == At(nodes, i - 1) {
        if i <= k {
          assert nodes[i] == was[i];
          assert old(was[i].next) == At(was, i + 1) && old(was[i].prev) == At(was, i - 1);
        } else if i > k + 1 {
          assert nodes[i] == was[i - 1];
          assert old(was[i - 1].next) == At(was, i) && old(was[i - 1].prev) == At(was, i - 2);
        }
      }
    }

    method InsertLeft(ent: Inode, li: Inode, ghost k: nat)
      requires Linked() && ent !in repr && k < |nodes| && nodes[k] == li
      requires ent.id < li.id && (k > 0 ==> nodes[k - 1].id < ent.id)
      requires ent.next == null && ent.prev == null
      modifies this`nodes, this`repr, repr`next, repr`prev, ent`next, ent`prev
      ensures repr == old(repr) + {ent} == Elements(nodes) && Sorted(nodes) && Chained()
      ensures |nodes| > 0 && (head == nodes[0] || (|nodes| > 1 && head == nodes[1] && head.prev == nodes[0]))
    {
      ghost var was := nodes;
      assert nodes[k].prev == At(was, k - 1);
      SortedDistinct(was);
      ent.next := li;
      ent.prev := li.prev;
      li.prev := ent;
      if ent.prev != null { ent.prev.next := ent; }
      SortedInsert(was, k, ent);
      ElementsInsert(was, k, ent);
      nodes, repr := was[..k] + [ent] + was[k..], repr + {ent};
      forall i | 0 <= i < |nodes| ensures nodes[i].next == At(nodes, i + 1) && nodes[i].prev == At(nodes, i - 1) {
        if i < k {
          assert nodes[i] == was[i];
          assert old(was[i].next) == At(was, i + 1) && old(was[i].prev) == At(was, i - 1);
        } else if i > k {
          assert nodes[i] == was[i - 1];
          assert old(was[i - 1].next) == At(was, i) && old(was[i - 1].prev) == At(was, i - 2);
        }
      }
    }

    method MoveHead()
      requires |nodes| > 0 && nodes[0].prev == null
      requires head == nodes[0] || (|nodes| > 1 && head == nodes[1] && head.prev == nodes[0])
      modifies this`head
      ensures head == nodes[0]
    {
      while head.prev != null
        invariant head == nodes[0] || (|nodes| > 1 && head == nodes[1] && head.prev == nodes[0])
        decreases head != nodes[0]
      {
        head := head.prev;
      }
    }

    /** whefs_inode_close.  `flush` reports that the record is written back, which the
        source does before the count drops. */
    method Close(src: Inode, writer: nat) returns (rc: Rc, flush: bool)
      requires Valid()
      requires src in repr ==> table[src.id].readers > 0 || (src.writer != 0 && src.writer == writer)
      modifies this, repr`next, repr`prev, src`openCount, src`writer, src`list, src`count
      ensures Valid()
      ensures rc == if src in old(repr) then OK
                    else if 1 <= src.id <= maxId && src.id in old(table) then InternalError else ArgError
      ensures rc != OK ==> table == old(table) && repr == old(repr) && !flush
      ensures rc == OK ==> table == AfterClose(old(table), src.id, writer)
      ensures rc == OK ==> (flush <==> old(src.writer) != 0 && old(src.writer) == writer)
      ensures src.writer == if flush then 0 else old(src.writer)
      ensures rc == OK ==>
                if src.id in table then repr == old(repr) && src.list == old(src.list) && src.count == old(src.count)
                           else repr == old(repr) - {src} && src.list == [] && src.count == 0
      ensures rc != OK ==> src.list == old(src.list) && src.count == old(src.count)
    {
      flush := false;
      if !(1 <= src.id <= maxId) {
        return ArgError, flush;
      }
      var li := Find(src.id);
      if li == null {
        return ArgError, flush;
      }
      if li != src {
        return InternalError, flush;
      }
      flush := Release(li, writer);
      rc := OK;
    }

    method Release(li: Inode, writer: nat) returns (flush: bool)
      requires Valid() && li in repr
      requires table[li.id].readers > 0 || (li.writer != 0 && li.writer == writer)
      modifies this, repr`next, repr`prev, li`openCount, li`writer, li`list, li`count
      ensures Valid() && table == AfterClose(old(table), li.id, writer)
      ensures flush <==> old(li.writer) != 0 && old(li.writer) == writer
      ensures li.writer == if flush then 0 else old(li.writer)
      ensures if li.id in table then repr == old(repr) && li.list == old(li.list) && li.count == old(li.count)
              else repr == old(repr) - {li} && li.list == [] && li.count == 0
    {
      hide OpenedList.Linked;
      ghost var h := table[li.id];
      flush := GiveBack(li, writer);
      if li.openCount == 0 {
        Drop(li);
      } else {
        StillOpen(li, ReleasedHandle(h, writer));
      }
    }

    ghost method StillOpen(li: Inode, h: Handles)
      requires Linked() && Counted(li) && li in repr && Tallied(li, h)
      modifies `table
      ensures Valid() && table == old(table)[li.id := h]
    {
      hide OpenedList.Linked, OpenedList.Tallied;
      table := table[li.id := h];
    }

    method GiveBack(li: Inode, writer: nat) returns (flush: bool)
      requires Valid() && li in repr
      requires table[li.id].readers > 0 || (li.writer != 0 && li.writer == writer)
      modifies li`openCount, li`writer
      ensures Linked() && Counted(li)
      ensures flush <==> old(li.writer) != 0 && old(li.writer) == writer
      ensures li.writer == ReleasedHandle(table[li.id], writer).writer
      ensures li.openCount == Count16(Total(ReleasedHandle(table[li.id], writer)))
      ensures li.openCount == 0 <==> Count16(Total(table[li.id])) == 1
    {
      flush := false;
      if li.writer != 0 && li.writer == writer {
        li.writer := 0;
        flush := true;
      }
      li.openCount := Lower(li.openCount);
      CountSteps(Total(table[li.id]) - 1);
    }

    /** The last counted handle is gone: unlink the node and forget its block cache. */
    method Drop(li: Inode)
      requires Linked() && Counted(li) && li in repr
      modifies this, repr`next, repr`prev, li`list, li`count
      ensures Valid() && table == old(table) - {li.id} && repr == old(repr) - {li}
      ensures li.list == [] && li.count == 0
    {
      Unlink(li);
      Forget(li);
      li.list, li.count := [], 0;
    }

    ghost method Forget(li: Inode)
      requires Linked() && li !in repr && li.id in byId && byId.Keys == table.Keys
      requires forall id :: id in byId && id != li.id ==> byId[id] in repr && byId[id].id == id
      requires forall n :: n in repr ==> n.id in byId && n.id != li.id && byId[n.id] == n && Tallied(n, table[n.id])
      modifies `byId, `table
      ensures Valid() && table == old(table) - {li.id}
    {
      hide OpenedList.Linked, OpenedList.Tallied;
      byId, table := byId - {li.id}, table - {li.id};
    }

    method Unlink(li: Inode)
      requires Linked() && li in repr
      modifies this`head, this`nodes, this`repr, repr`next, repr`prev
      ensures Linked() && repr == old(repr) - {li}
    {
      ghost var was := nodes;
      ghost var at :| 0 <= at < |was| && was[at] == li;
      assert nodes[at].next == At(was, at + 1) && nodes[at].prev == At(was, at - 1);
      SortedDistinct(was);
      if li == head {
        head := if li.next != null then li.next else li.prev;
      }
      if li.prev != null { li.prev.next := li.next; }
      if li.next != null { li.next.prev := li.prev; }
      nodes := was[..at] + was[at + 1..];
      repr := repr - {li};
      ElementsRemove(was, at);
      SortedRemove(was, at);
      forall i | 0 <= i < |nodes| ensures nodes[i].next == At(nodes, i + 1) && nodes[i].prev == At(nodes, i - 1) {
        var o := if i < at then i else i + 1;
        assert nodes[i] == was[o];
        assert old(was[o].next) == At(was, o + 1) && old(was[o].prev) == At(was, o - 1);
      }
    }
  }
}
