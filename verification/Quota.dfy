/** Counting blocks: the chains hold exactly as many blocks as are flagged used. */
module Quota {
  import opened BlockStore
  import opened StoreSteps

  function Sum(held: seq<nat>): nat {
    if held == [] then 0 else Sum(held[..|held| - 1]) + held[|held| - 1]
  }

  /** How many blocks each chain has. */
  function Lengths(chains: seq<seq<nat>>): (r: seq<nat>)
    ensures |r| == |chains| && forall i :: 0 <= i < |r| ==> r[i] == |chains[i]|
  {
    seq(|chains|, i requires 0 <= i < |chains| => |chains[i]|)
  }

  lemma {:induction false} SumUpdate(held: seq<nat>, i: nat, n: nat)
    requires i < |held|
    ensures Sum(held[i := n]) == Sum(held) - held[i] + n
  {
    var h, last := held[i := n], |held| - 1;
    if i == last {
      assert h[..last] == held[..last];
    } else {
      assert h[..last] == held[..last][i := n];
      SumUpdate(held[..last], i, n);
    }
  }

  ghost predicate AllUsed(heads: seq<Block>) {
    forall b :: 1 <= b < |heads| ==> heads[b].used
  }

  ghost function InUse(heads: seq<Block>): set<nat> {
    set b: nat | 1 <= b < |heads| && heads[b].used
  }

  ghost function Members(c: seq<nat>): set<nat> { set b | b in c }

  ghost function Chained(chains: seq<seq<nat>>): set<nat> {
    if chains == [] then {} else Chained(chains[..|chains| - 1]) + Members(chains[|chains| - 1])
  }

  lemma {:induction false} MembersCount(c: seq<nat>)
    requires Distinct(c)
    ensures |Members(c)| == |c|
  {
    if c != [] {
      var p, b := c[..|c| - 1], c[|c| - 1];
      MembersCount(p);
      assert b !in Members(p);
      assert Members(c) == Members(p) + {b};
    }
  }

  lemma {:induction false} InChained(chains: seq<seq<nat>>, b: nat)
    ensures b in Chained(chains) <==> exists i :: 0 <= i < |chains| && b in chains[i]
  {
    if chains != [] {
      var p, c := chains[..|chains| - 1], chains[|chains| - 1];
      InChained(p, b);
      if i :| 0 <= i < |chains| && b in chains[i] {
        assert i < |p| ==> b in p[i];
      }
      if b in c { assert b in chains[|p|]; }
    }
  }

  lemma {:induction false} ChainedCount(chains: seq<seq<nat>>)
    requires forall i :: 0 <= i < |chains| ==> Distinct(chains[i])
    requires forall i, j, b :: 0 <= i < j < |chains| ==> !(b in chains[i] && b in chains[j])
    ensures |Chained(chains)| == Sum(Lengths(chains))
  {
    if chains != [] {
      var p, c := chains[..|chains| - 1], chains[|chains| - 1];
      ChainedCount(p);
      MembersCount(c);
      assert Lengths(chains)[..|p|] == Lengths(p);
      forall b | b in Chained(p) ensures b !in c {
        InChained(p, b);
      }
      assert Chained(p) !! Members(c);
    }
  }

  /** The blocks below `n` in use. */
  ghost function InUseBelow(heads: seq<Block>, n: nat): set<nat>
    requires n <= |heads|
  {
    if n <= 1 then {} else InUseBelow(heads, n - 1) + if heads[n - 1].used then {n - 1} else {}
  }

  lemma {:induction false} InBelow(heads: seq<Block>, n: nat, b: nat)
    requires n <= |heads|
    ensures b in InUseBelow(heads, n) <==> 1 <= b < n && heads[b].used
  {
    if n > 1 { InBelow(heads, n - 1, b); }
  }

  lemma {:induction false} BelowCount(heads: seq<Block>, n: nat)
    requires 0 < n <= |heads|
    ensures |InUseBelow(heads, n)| <= n - 1
    ensures |InUseBelow(heads, n)| == n - 1 <==> AllBelow(heads, n)
  {
    if n > 1 {
      BelowCount(heads, n - 1);
      InBelow(heads, n - 1, n - 1);
      AllBelowStep(heads, n);
      hide AllBelow;
    }
  }

  ghost predicate AllBelow(heads: seq<Block>, n: nat)
    requires n <= |heads|
  {
    forall b :: 1 <= b < n ==> heads[b].used
  }

  lemma AllBelowStep(heads: seq<Block>, n: nat)
    requires 1 < n <= |heads|
    ensures AllBelow(heads, n) <==> AllBelow(heads, n - 1) && heads[n - 1].used
  {
  }

  lemma RangeCount(heads: seq<Block>)
    requires heads != []
    ensures |InUse(heads)| <= |heads| - 1
    ensures |InUse(heads)| == |heads| - 1 <==> AllUsed(heads)
  {
    BelowCount(heads, |heads|);
    InUseIsBelow(heads);
    assert AllBelow(heads, |heads|) <==> AllUsed(heads);
  }

  lemma InUseIsBelow(heads: seq<Block>)
    ensures InUse(heads) == InUseBelow(heads, |heads|)
  {
    forall b ensures b in InUse(heads) <==> b in InUseBelow(heads, |heads|) {
      InBelow(heads, |heads|, b);
    }
  }

  /** Conservation, block by block. */
  lemma UsedIsChained(d: Disk, chains: seq<seq<nat>>, b: nat)
    requires Conserved(d, chains)
    ensures b in InUse(d.heads) <==> b in Chained(chains)
  {
    InChained(chains, b);
    hide Chained, Distinct;
    if i :| 0 <= i < |chains| && b in chains[i] {
      assert IsChain(d.heads, d.inodes[i].first, chains[i]);
    }
  }

  lemma InUseIsChained(d: Disk, chains: seq<seq<nat>>)
    requires Conserved(d, chains)
    ensures InUse(d.heads) == Chained(chains)
  {
    hide Conserved, Chained, InUse;
    forall b ensures b in InUse(d.heads) <==> b in Chained(chains) {
      UsedIsChained(d, chains, b);
    }
  }

  lemma ConservedCount(d: Disk, chains: seq<seq<nat>>)
    requires Conserved(d, chains)
    ensures |Chained(chains)| == Sum(Lengths(chains))
  {
    hide IsChain, Distinct, Chained, Sum, Lengths;
    ChainedCount(chains);
  }

  /** The blocks in use are as many as the chains hold together, so the container is full
      exactly when they hold them all. */
  lemma HeldIsUsed(bs: nat, d: Disk, v: View)
    requires Inv(bs, d, v)
    ensures |InUse(d.heads)| == Sum(Lengths(v.chains)) <= |d.heads| - 1
    ensures AllUsed(d.heads) <==> Sum(Lengths(v.chains)) == |d.heads| - 1
  {
    hide ChainsOwned, NoneLost, ZeroTails, Conserved, Chained, Sum, Lengths;
    InvariantConserves(bs, d, v);
    ConservedCount(d, v.chains);
    InUseIsChained(d, v.chains);
    RangeCount(d.heads);
  }

  /** The count when one chain is replaced. */
  lemma HeldUpdate(chains: seq<seq<nat>>, i: nat, c: seq<nat>)
    requires i < |chains|
    ensures Lengths(chains[i := c]) == Lengths(chains)[i := |c|]
    ensures Sum(Lengths(chains[i := c])) == Sum(Lengths(chains)) - |chains[i]| + |c|
  {
    SumUpdate(Lengths(chains), i, |c|);
    assert Lengths(chains[i := c]) == Lengths(chains)[i := |c|];
  }
}
