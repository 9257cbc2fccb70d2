/** From blocks and chains to what a client sees.  The writes and truncations of module
    Nodedev are, on this view, the functions of module Calls. */
module Abstraction {
  import opened Arithmetic
  import opened Bytes
  import opened BlockStore
  import opened StoreSteps
  import opened Quota
  import opened ReturnCodes
  import opened Storage
  import opened Nodedev
  import opened Files
  import Calls
  import Naming

  /** `s` is the container with records `d`, read as `v`. */
  ghost predicate Shows(s: Calls.State, d: Disk, v: View) {
    && Inv(s.bs, d, v) && s.blocks == |d.heads| - 1
    && s.files == Contents(s.bs, d, v) && s.held == Lengths(v.chains)
  }

  /** What is shown is sane: no block is held twice. */
  lemma ShownSane(s: Calls.State, d: Disk, v: View)
    requires Shows(s, d, v) && forall h :: h in s.handles ==> s.handles[h].file < |v.chains|
    requires Naming.Sound(s.names) && |s.names.table| == |v.chains|
    ensures Calls.Sane(s)
  {
    HeldIsUsed(s.bs, d, v);
    hide ChainsOwned, NoneLost, ZeroTails, Contents;
  }

  lemma BlockOfIs(bs: nat, pos: nat)
    requires bs > 0
    ensures Calls.BlockOf(bs, pos) == BlocksNeeded(pos, bs)
  {
    DivMod(pos, bs);
  }

  /** How far a chain may grow, and that it stands there when every block is in use. */
  lemma GrownInReach(s: Calls.State, d: Disk, v: View, d': Disk, v': View, i: nat)
    requires Calls.Sane(s) && Shows(s, d, v) && Inv(s.bs, d', v') && i < |v.chains|
    requires |v'.chains| == |v.chains| && v'.chains == v.chains[i := v'.chains[i]] && |d'.heads| == |d.heads|
    ensures |v'.chains[i]| <= Calls.Reach(s, i)
    ensures AllUsed(d'.heads) ==> |v'.chains[i]| == Calls.Reach(s, i)
    ensures Lengths(v'.chains) == s.held[i := |v'.chains[i]|]
  {
    HeldIsUsed(s.bs, d', v');
    hide Inv, Contents, Sum, Lengths, AllUsed;
    HeldUpdate(v.chains, i, v'.chains[i]);
  }

  /** The whole of a write in numbers: a file with `n` of the `m` blocks it can have, in a
      container of `blocks`, ends up with `n'` when `k` of `len` bytes are taken at `at`. */
  lemma TakenIs(bs: nat, blocks: nat, n: nat, n': nat, m: nat, at: nat, k: nat, len: nat)
    requires bs > 0 && n <= m <= blocks && n' <= m && k <= len && (k > 0 ==> at + k <= n' * bs)
    requires if k == len || BlocksNeeded(at + k, bs) > blocks then n' == Extent(bs, n, at, k)
             else n' == m < BlocksNeeded(at + k, bs)
    ensures k == Min(len, Max(0, m * bs - at))
    ensures n' == if len == 0 || BlocksNeeded(at, bs) > blocks then n
                  else if k == 0 then m else Max(n, BlocksNeeded(at + k - 1, bs))
  {
    hide BlockIndex;
    MulOrder(n', m, bs);
    Calls.BlockInside(bs, at, m);
    BlockOfIs(bs, at);
    Calls.BlockInside(bs, at + k, m);
    BlockOfIs(bs, at + k);
    if 0 < k < len {
      Calls.BlockInside(bs, at + k - 1, m);
      Calls.BlockInside(bs, at + k - 1, m - 1);
      BlockOfIs(bs, at + k - 1);
    }
  }

  lemma WroteHeld(s: Calls.State, e: Calls.Handle, heads': seq<Block>, n': nat, k: nat, len: nat)
    requires Calls.Sane(s) && e.file < |s.files| && e.rw && k <= len && |heads'| == s.blocks + 1
    requires n' <= Calls.Reach(s, e.file) && (AllUsed(heads') ==> n' == Calls.Reach(s, e.file))
    requires Grew(s.bs, heads', s.held[e.file], n', e.at, k, k == len) && (k > 0 ==> e.at + k <= n' * s.bs)
    ensures k == Calls.Taken(s, e, len) && n' == Calls.HeldByWrite(s, e, len)
  {
    hide BlockIndex;
    TakenIs(s.bs, s.blocks, s.held[e.file], n', Calls.Reach(s, e.file), e.at, k, len);
    BlockOfIs(s.bs, e.at);
    if k > 0 { BlockOfIs(s.bs, e.at + k - 1); }
  }

  /** A write, as the client sees it. */
  lemma WroteState(s: Calls.State, e: Calls.Handle, src: seq<Byte>, k: nat, d: Disk, v: View, d': Disk, v': View)
    requires Calls.Sane(s) && Shows(s, d, v) && Inv(s.bs, d', v') && e.file < |v.chains| && k <= |src|
    requires Wrote(s.bs, d, v, d', v', e.file, e.at, src[..k])
    requires if e.rw then Grew(s.bs, d'.heads, |v.chains[e.file]|, |v'.chains[e.file]|, e.at, k, k == |src|)
             else k == 0 && d' == d && v' == v
    ensures k == Calls.Taken(s, e, |src|) && Shows(Calls.AfterWrite(s, e, src), d', v')
    ensures Fits(v) && e.at + k < TWO32 ==> Fits(v')
  {
    hide ChainsOwned, NoneLost, ZeroTails, OthersKept, Content, Flat, BlockIndex, Grew, AllUsed, WriteAt,
         Calls.HeldByWrite;
    var i := e.file;
    WroteContents(s.bs, d, v, d', v', i, e.at, src[..k]);
    GrownInReach(s, d, v, d', v', i);
    ChainBytes(s.bs, d', v', i);
    if e.rw {
      WroteHeld(s, e, d'.heads, |v'.chains[i]|, k, |src|);
    } else {
      NoWrite(s, e, src);
    }
  }

  lemma NoWrite(s: Calls.State, e: Calls.Handle, src: seq<Byte>)
    requires Calls.Sane(s) && e.file < |s.files| && !e.rw
    ensures Calls.AfterWrite(s, e, src) == s
  {
  }

  /** A truncation, as the client sees it. */
  lemma TruncatedState(s: Calls.State, e: Calls.Handle, len: nat, rc: Rc, d: Disk, v: View, d': Disk, v': View)
    requires Calls.Sane(s) && Shows(s, d, v) && Inv(s.bs, d', v') && e.file < |v.chains| && e.rw
             && 0 < len != v.sizes[e.file]
    requires Truncated(s.bs, d, v, d', v', e.file, len, rc)
    ensures rc == Calls.TruncateRc(s, e, len) && Shows(Calls.AfterTruncate(s, e, len), d', v')
    ensures Fits(v) && len < TWO32 ==> Fits(v')
  {
    hide ChainsOwned, NoneLost, ZeroTails, OthersKept, Flat, Content, BlockIndex, BlockOffset;
    var i := e.file;
    if len < v.sizes[i] && rc == OK {
      ShrunkContents(s.bs, d, v, d', v', i, len);
      DivMod(len, s.bs);
    } else {
      ResizedContents(s.bs, d, v, d', v', i, len);
    }
    GrownInReach(s, d, v, d', v', i);
    BlockOfIs(s.bs, len - 1);
  }

  /** Truncating a file without blocks to 0 forgets no chain. */
  lemma EmptiedState(s: Calls.State, e: Calls.Handle, d: Disk, v: View, d': Disk, v': View)
    requires Calls.Sane(s) && Shows(s, d, v) && Inv(s.bs, d', v') && e.file < |v.chains| && e.rw && v.sizes[e.file] != 0
    requires Resized(s.bs, d, v, d', v', e.file, 0) && v'.chains == v.chains
    ensures Calls.TruncateRc(s, e, 0) == OK && Shows(Calls.AfterTruncate(s, e, 0), d', v')
    ensures Fits(v) ==> Fits(v')
  {
    hide ChainsOwned, NoneLost, ZeroTails, OthersKept, Flat, Content;
    ResizedContents(s.bs, d, v, d', v', e.file, 0);
  }

  /** A read, as the client sees it. */
  lemma ReadState(s: Calls.State, e: Calls.Handle, n: nat, got: seq<Byte>, d: Disk, v: View)
    requires Calls.Sane(s) && Shows(s, d, v) && e.file < |v.chains|
    requires |got| == Min(n, Max(0, Min(v.sizes[e.file], |Flat(d.data, v.chains[e.file])|) - e.at))
    requires got != [] ==> e.at + |got| <= v.sizes[e.file] && got == Content(s.bs, d, v, e.file)[e.at..e.at + |got|]
    ensures got == Calls.Slice(Calls.Readable(s, e.file), e.at, n)
  {
    hide ChainsOwned, NoneLost, ZeroTails, OthersKept, Content;
    ChainBytes(s.bs, d, v, e.file);
  }

  /** Blocks that a client may ask for can be had. */
  lemma ListableGrows(s: Calls.State, i: nat, bc: nat, d: Disk, v: View)
    requires Calls.Sane(s) && Shows(s, d, v) && i < |v.chains|
    ensures Calls.Listable(s, i, bc) <==> Growable(v.chains, i, bc, |d.heads| - 1)
  {
    hide ChainsOwned, NoneLost, ZeroTails;
  }

  lemma ExtensibleWrites(s: Calls.State, e: Calls.Handle, n: nat, d: Disk, v: View)
    requires Calls.Sane(s) && Shows(s, d, v) && e.file < |v.chains| && e.rw
    ensures Calls.Extensible(s, e, n) <==> Writable(v.chains, e.file, s.bs, e.at, n, |d.heads| - 1)
  {
    hide ChainsOwned, NoneLost, ZeroTails, BlockIndex;
    BlockOfIs(s.bs, e.at);
    if n > 0 { BlockOfIs(s.bs, e.at + n - 1); }
  }

  /** Among truncations that can be asked for at all, the legal ones are exactly those after
      which the cached list of the chain is true, or that fail, or for length 0 have no
      chain to forget. */
  lemma CuttableExact(s: Calls.State, e: Calls.Handle, len: nat, d: Disk, v: View)
    requires Calls.Sane(s) && Shows(s, d, v) && e.file < |v.chains| && e.rw && len < TWO32 && len != v.sizes[e.file]
    requires len > 0 ==> Calls.Mappable(s.bs, len - 1) && Calls.Listable(s, e.file, Calls.BlockOf(s.bs, len - 1))
    ensures Calls.Cuttable(s, e, len) <==>
              if len == 0 then v.chains[e.file] == []
              else
                || Calls.TruncateRc(s, e, len) != OK || len > v.sizes[e.file] || BlocksNeeded(len - 1, s.bs) == 1
                || BlocksNeeded(len - 1, s.bs) < |v.chains[e.file]|
  {
    hide ChainsOwned, NoneLost, ZeroTails, BlockIndex;
    if len > 0 { BlockOfIs(s.bs, len - 1); }
  }

  /** A legal truncation keeps the cached list of the chain true, or fails. */
  lemma CuttableKeeps(s: Calls.State, e: Calls.Handle, len: nat, d: Disk, v: View)
    requires Calls.Sane(s) && Shows(s, d, v) && e.file < |v.chains| && Calls.Cuttable(s, e, len)
    ensures len > 0 ==> Addressable(len - 1, s.bs)
    ensures e.rw && 0 < len != v.sizes[e.file] ==>
              Growable(v.chains, e.file, BlocksNeeded(len - 1, s.bs), |d.heads| - 1)
    ensures e.rw && 0 < len < v.sizes[e.file] && Calls.TruncateRc(s, e, len) == OK ==>
              BlocksNeeded(len - 1, s.bs) == 1 || BlocksNeeded(len - 1, s.bs) < |v.chains[e.file]|
    ensures e.rw && len == 0 < v.sizes[e.file] ==> v.chains[e.file] == []
  {
    hide ChainsOwned, NoneLost, ZeroTails, BlockIndex;
    if len > 0 {
      BlockOfIs(s.bs, len - 1);
      ListableGrows(s, e.file, BlocksNeeded(len - 1, s.bs), d, v);
    }
  }
}
