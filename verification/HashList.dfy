/** The growing list of hash/id pairs behind the name cache (src/whefs_hash.c). */
module HashList {
  import opened ReturnCodes

  datatype HashId = HashId(hash: nat, id: nat)

  /** What a wiped slot holds. */
  const ZEROED := HashId(0, 0)

  ghost predicate Sorted(l: seq<HashId>) {
    forall i, j :: 0 <= i < j < |l| ==> l[i].hash <= l[j].hash
  }

  /** The leftmost place of hash `h`, or the length of the list when it is not there. */
  function FirstAt(l: seq<HashId>, h: nat): (k: nat)
    ensures k <= |l| && (k < |l| ==> l[k].hash == h)
    ensures forall i :: 0 <= i < k ==> l[i].hash != h
  {
    if l == [] then 0 else if l[0].hash == h then 0 else 1 + FirstAt(l[1..], h)
  }

  lemma FirstAtIs(l: seq<HashId>, h: nat, k: nat)
    requires k <= |l| && (k < |l| ==> l[k].hash == h) && forall i :: 0 <= i < k ==> l[i].hash != h
    ensures FirstAt(l, h) == k
  {
  }

  /** The entries that were not wiped. */
  function Live(l: seq<HashId>): (r: seq<HashId>) {
    if l == [] then []
    else if l[|l| - 1].id != 0 then Live(l[..|l| - 1]) + [l[|l| - 1]] else Live(l[..|l| - 1])
  }

  lemma {:induction false} LiveCounts(l: seq<HashId>, x: HashId)
    ensures multiset(Live(l))[x] == if x.id != 0 then multiset(l)[x] else 0
  {
    if l == [] {
    } else {
      LiveCounts(l[..|l| - 1], x);
      assert l == l[..|l| - 1] + [l[|l| - 1]];
    }
  }

  /** Two arrangements of the same entries have the same live entries. */
  lemma SameLive(l: seq<HashId>, r: seq<HashId>)
    requires forall x: HashId :: x.id != 0 ==> multiset(l)[x] == multiset(r)[x]
    ensures multiset(Live(l)) == multiset(Live(r))
  {
    forall x: HashId ensures multiset(Live(l))[x] == multiset(Live(r))[x] {
      LiveCounts(l, x);
      LiveCounts(r, x);
    }
  }

  lemma {:induction false} AllLive(l: seq<HashId>)
    requires forall x :: x in l ==> x.id != 0
    ensures Live(l) == l
  {
    if l == [] {
    } else {
      AllLive(l[..|l| - 1]);
    }
  }

  /** The library's qsort by hash: all that callers may know is that it sorts. */
  method QSort(l: seq<HashId>) returns (r: seq<HashId>)
    ensures Sorted(r) && multiset(r) == multiset(l)
  {
    r := [];
    for i := 0 to |l|
      invariant Sorted(r) && multiset(r) == multiset(l[..i])
    {
      r := Placed(r, l[i]);
      assert l[..i + 1] == l[..i] + [l[i]];
    }
    assert l[..|l|] == l;
  }

  function Placed(r: seq<HashId>, x: HashId): (p: seq<HashId>)
    requires Sorted(r)
    ensures Sorted(p) && multiset(p) == multiset(r) + multiset{x}
    ensures forall y :: y in p ==> y in r || y == x
  {
    if r == [] || r[|r| - 1].hash <= x.hash then r + [x]
    else
      var z := r[|r| - 1];
      LastIsMost(r);
      var q := Placed(r[..|r| - 1], x);
      AppendSorted(q, z);
      q + [z]
  }

  lemma LastIsMost(r: seq<HashId>)
    requires Sorted(r) && r != []
    ensures var front, z := r[..|r| - 1], r[|r| - 1];
            && Sorted(front) && multiset(r) == multiset(front) + multiset{z} && z in r
            && forall y :: y in front ==> y in r && y.hash <= z.hash
  {
    assert r == r[..|r| - 1] + [r[|r| - 1]];
  }

  lemma AppendSorted(q: seq<HashId>, z: HashId)
    requires Sorted(q) && forall y :: y in q ==> y.hash <= z.hash
    ensures Sorted(q + [z]) && multiset(q + [z]) == multiset(q) + multiset{z}
  {
    assert forall i :: 0 <= i < |q| ==> q[i] in q;
  }

  /** The library's bsearch: some place of hash `h` in a sorted list. */
  method BSearch(l: seq<HashId>, h: nat) returns (k: nat)
    requires Sorted(l)
    ensures k <= |l| && (k < |l| ==> l[k].hash == h)
    ensures k == |l| ==> forall i :: 0 <= i < |l| ==> l[i].hash != h
  {
    var lo, hi := 0, |l|;
    while lo < hi
      invariant 0 <= lo <= hi <= |l|
      invariant forall i :: 0 <= i < |l| && l[i].hash == h ==> lo <= i < hi
    {
      var mid := (lo + hi) / 2;
      if l[mid].hash == h {
        return mid;
      } else if l[mid].hash < h {
        lo := mid + 1;
      } else {
        hi := mid;
      }
    }
    k := |l|;
  }

  class HashIdList {
    /** The first `count` entries of the allocated `alloced`. */
    var list: seq<HashId>
    var alloced: nat
    var maxAlloc: nat
    var isSorted: bool
    var skipAutoSort: bool

    ghost predicate Valid()
      reads this
    {
      && |list| <= alloced < 0x1_0000
      && (isSorted ==> Sorted(list))
      && (forall x :: x in list && x.id == 0 ==> x == ZEROED)
    }

    constructor ()
      ensures Valid() && list == [] && alloced == 0 && maxAlloc == 0 && !isSorted && !skipAutoSort
    {
      list, alloced, maxAlloc, isSorted, skipAutoSort := [], 0, 0, false, false;
    }

    method Alloc(toAlloc: nat) returns (rc: Rc)
      requires Valid() && toAlloc < 0x1_0000
      modifies this
      ensures Valid()
      ensures rc == if toAlloc > old(alloced) && 0 < old(maxAlloc) < toAlloc then AllocError else OK
      ensures if toAlloc == 0 then list == [] && alloced == 0 && maxAlloc == 0 && isSorted && !skipAutoSort
              else
                && list == old(list) && maxAlloc == old(maxAlloc) && skipAutoSort == old(skipAutoSort)
                && alloced == (if rc == OK && toAlloc > old(alloced) then toAlloc else old(alloced))
                && (isSorted <==> old(isSorted) && alloced == old(alloced))
    {
      if toAlloc == 0 {
        list, alloced, maxAlloc, isSorted, skipAutoSort := [], 0, 0, true, false;
        return OK;
      } else if alloced >= toAlloc {
        return OK;
      }
      if maxAlloc != 0 && toAlloc > maxAlloc {
        return AllocError;
      }
      alloced := toAlloc;
      isSorted := false;
      rc := OK;
    }

    /** Appends an entry.  Fails when the list may not or, its size being 16 bits wide,
        cannot grow. */
    method Add(val: HashId) returns (rc: Rc)
      requires Valid() && (val.id == 0 ==> val == ZEROED)
      modifies this
      ensures Valid() && !isSorted && maxAlloc == old(maxAlloc) && skipAutoSort == old(skipAutoSort)
      ensures rc == OK || rc == RangeError || rc == AllocError
      ensures list == if rc == OK then old(list) + [val] else old(list)
      ensures |old(list)| < old(alloced) ==> rc == OK
      ensures rc != OK ==> |old(list)| == old(alloced) && (|old(list)| >= 0x7FFF || 0 < maxAlloc <= |old(list)|)
    {
      isSorted := false;
      if |list| >= alloced {
        var sz := ((|list| + 1) * 2) % 0x1_0000;
        if maxAlloc != 0 && sz > maxAlloc {
          sz := maxAlloc;
        }
        if sz <= |list| {
          return RangeError;
        }
        rc := Alloc(sz);
        if rc != OK {
          return;
        }
      }
      list := list + [val];
      rc := OK;
    }

    /** Sorts by hash and drops wiped entries, which sort to the front.  It drops all of
        them and nothing else when some entry is live and no live one has hash 0. */
    method Sort()
      requires Valid()
      modifies this`list, this`isSorted
      ensures Valid() && isSorted && Sorted(list) && |list| <= |old(list)|
      ensures multiset(Live(list)) == multiset(Live(old(list)))
      ensures (exists x :: x in old(list) && x.id != 0) && (forall x :: x in old(list) && x.id != 0 ==> x.hash != 0) ==>
                Live(list) == list
      ensures (forall x :: x in old(list) ==> x.id != 0) ==> multiset(list) == multiset(old(list))
    {
      isSorted := true;
      if |list| < 2 {
        if (exists x :: x in list && x.id != 0) { AllLive(list); }
        return;
      }
      var r := QSort(list);
      SameMembers(list, r);
      var off := 0;
      while off < |r| && r[off].id == 0
        invariant off <= |r| && forall i :: 0 <= i < off ==> r[i].id == 0
      {
        off := off + 1;
      }
      ghost var was := list;
      list := r;
      if off != 0 && off < |r| {
        list := r[off..];
      }
      Shaved(was, r, off, list);
    }

    static lemma SameMembers(l: seq<HashId>, r: seq<HashId>)
      requires multiset(l) == multiset(r)
      ensures forall x :: x in l <==> x in r
      ensures |l| == |r|
    {
      forall x ensures x in l <==> x in r {
        assert x in multiset(l) <==> x in multiset(r);
      }
      assert |multiset(l)| == |l| && |multiset(r)| == |r|;
    }

    /** What dropping the leading wiped entries of a sorted arrangement leaves. */
    static lemma Shaved(l: seq<HashId>, r: seq<HashId>, off: nat, s: seq<HashId>)
      requires multiset(l) == multiset(r) && Sorted(r) && off <= |r|
      requires forall x :: x in l && x.id == 0 ==> x == ZEROED
      requires forall x :: x in l <==> x in r
      requires forall i :: 0 <= i < off ==> r[i].id == 0
      requires off < |r| ==> r[off].id != 0
      requires s == if 0 < off < |r| then r[off..] else r
      ensures Sorted(s) && |s| <= |r| && forall x :: x in s ==> x in l
      ensures multiset(Live(s)) == multiset(Live(l))
      ensures (exists x :: x in l && x.id != 0) && (forall x :: x in l && x.id != 0 ==> x.hash != 0) ==> Live(s) == s
      ensures (forall x :: x in l ==> x.id != 0) ==> s == r
    {
      hide Sorted, Live;
      ShavedSorted(r, off, s);
      forall x: HashId | x.id != 0 ensures multiset(s)[x] == multiset(l)[x] {
        ShavedCounts(r, off, s, x);
      }
      SameLive(s, l);
      if (exists x :: x in l && x.id != 0) && (forall x :: x in l && x.id != 0 ==> x.hash != 0) {
        ShavedLive(r, off, s);
      }
      if off > 0 {
        assert r[0] in r && r[0].id == 0;
      }
    }

    static lemma ShavedSorted(r: seq<HashId>, off: nat, s: seq<HashId>)
      requires Sorted(r) && off <= |r| && s == if 0 < off < |r| then r[off..] else r
      ensures Sorted(s) && |s| <= |r| && forall x :: x in s ==> x in r
    {
    }

    static lemma ShavedCounts(r: seq<HashId>, off: nat, s: seq<HashId>, x: HashId)
      requires off <= |r| && x.id != 0 && forall i :: 0 <= i < off ==> r[i].id == 0
      requires s == if 0 < off < |r| then r[off..] else r
      ensures multiset(s)[x] == multiset(r)[x]
    {
      if 0 < off < |r| {
        assert r == r[..off] + s;
        assert x !in r[..off];
      }
    }

    static lemma ShavedLive(r: seq<HashId>, off: nat, s: seq<HashId>)
      requires off <= |r| && Sorted(r) && (exists x :: x in r && x.id != 0)
      requires forall i :: 0 <= i < off ==> r[i].id == 0
      requires off < |r| ==> r[off].id != 0
      requires forall x :: x in r ==> if x.id == 0 then x == ZEROED else x.hash != 0
      requires s == if 0 < off < |r| then r[off..] else r
      ensures Live(s) == s
    {
      forall i | off <= i < |r| ensures r[i].id != 0 {
        assert r[off].hash <= r[i].hash;
        assert r[i] in r && r[off] in r;
      }
      AllLive(s);
    }

    /** The leftmost place of a hash, by bisection when the list is sorted; `|list|` stands
        for the source's end marker. */
    method IndexOf(h: nat) returns (ndx: nat)
      requires Valid()
      ensures ndx == FirstAt(list, h)
    {
      if list == [] {
        return 0;
      }
      if !isSorted {
        ndx := 0;
        while ndx < |list| && list[ndx].hash != h
          invariant ndx <= |list| && forall i :: 0 <= i < ndx ==> list[i].hash != h
        {
          ndx := ndx + 1;
        }
        FirstAtIs(list, h, ndx);
        return;
      }
      ndx := BSearch(list, h);
      while 0 < ndx < |list| && list[ndx - 1].hash == h
        invariant ndx <= |list| && (ndx < |list| ==> list[ndx].hash == h)
        invariant ndx == |list| ==> forall i :: 0 <= i < |list| ==> list[i].hash != h
        decreases ndx
      {
        ndx := ndx - 1;
      }
      FirstAtIs(list, h, ndx);
    }

    method WipeIndex(ndx: nat) returns (rc: Rc)
      requires Valid()
      modifies this`list, this`isSorted
      ensures Valid() && rc == if |old(list)| <= ndx then RangeError else OK
      ensures if rc == OK then list == old(list)[ndx := ZEROED] && !isSorted
              else list == old(list) && isSorted == old(isSorted)
    {
      if |list| <= ndx {
        return RangeError;
      }
      list := list[ndx := ZEROED];
      isSorted := false;
      rc := OK;
    }

    /** Gives the entry at `ndx` another hash and puts it where that belongs. */
    method Rehash(ndx: nat, h: nat)
      requires Valid() && ndx < |list| && list[ndx].id != 0
      modifies this`list, this`isSorted
      ensures Valid() && isSorted
      ensures multiset(Live(list)) == multiset(Live(old(list)[ndx := HashId(h, old(list)[ndx].id)]))
      ensures (forall x :: x in old(list) ==> x.id != 0) ==>
                multiset(list) == multiset(old(list)[ndx := HashId(h, old(list)[ndx].id)])
    {
      isSorted := false;
      list := list[ndx := HashId(h, list[ndx].id)];
      Sort();
    }
  }
}
