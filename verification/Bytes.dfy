/** Byte strings: the currency of every device and every on-disk record. */
module Bytes {

  type Byte = b: int | 0 <= b < 256

  function Min(a: int, b: int): int { if a < b then a else b }

  function Max(a: int, b: int): int { if a < b then b else a }

  function Zeros(n: nat): (z: seq<Byte>)
    ensures |z| == n
    ensures forall i :: 0 <= i < n ==> z[i] == 0
  {
    seq(n, _ => 0)
  }

  /** `s` with the bytes at `pos` overwritten by `w`. */
  function Splice(s: seq<Byte>, pos: nat, w: seq<Byte>): (r: seq<Byte>)
    requires pos + |w| <= |s|
    ensures |r| == |s|
    ensures r[pos..pos + |w|] == w
    ensures forall i :: 0 <= i < |s| && !(pos <= i < pos + |w|) ==> r[i] == s[i]
  {
    s[..pos] + w + s[pos + |w|..]
  }

  lemma SpliceLeft(a: seq<Byte>, b: seq<Byte>, p: nat, w: seq<Byte>)
    requires p + |w| <= |a|
    ensures Splice(a, p, w) + b == Splice(a + b, p, w)
  {
  }

  lemma SpliceRight(a: seq<Byte>, b: seq<Byte>, p: nat, w: seq<Byte>)
    requires p + |w| <= |b|
    ensures a + Splice(b, p, w) == Splice(a + b, |a| + p, w)
  {
    assert (a + b)[..|a| + p] == a + b[..p];
    assert (a + b)[|a| + p + |w|..] == b[p + |w|..];
  }

  lemma SliceSlice(s: seq<Byte>, lo: nat, hi: nat, o: nat, len: nat)
    requires lo + o + len <= hi <= |s|
    ensures s[lo..hi][o..o + len] == s[lo + o..lo + o + len]
  {
    var l, r := s[lo..hi][o..o + len], s[lo + o..lo + o + len];
    assert |l| == |r|;
    assert forall i :: 0 <= i < len ==> l[i] == s[lo + o + i] == r[i];
  }

  lemma SliceJoin(s: seq<Byte>, lo: nat, mid: nat, hi: nat)
    requires lo <= mid <= hi <= |s|
    ensures s[lo..mid] + s[mid..hi] == s[lo..hi]
  {
  }

  ghost predicate ZeroFrom(s: seq<Byte>, from: nat) {
    forall i :: from <= i < |s| ==> s[i] == 0
  }

  /** The first `n` bytes of `s`, continued with zeros where `s` is too short. */
  function Resize(s: seq<Byte>, n: nat): (r: seq<Byte>)
    ensures |r| == n
    ensures forall i :: 0 <= i < n ==> r[i] == if i < |s| then s[i] else 0
  {
    seq(n, i requires 0 <= i < n => if i < |s| then s[i] else 0)
  }

  /** What a POSIX-style write of `w` at `pos` does to a file: the file grows if
      needed and a gap between its old end and `pos` reads as zeros.  An empty
      write changes nothing, wherever it is aimed. */
  function WriteAt(s: seq<Byte>, pos: nat, w: seq<Byte>): (r: seq<Byte>)
  {
    if w == [] then s
    else Splice(Resize(s, Max(|s|, pos + |w|)), pos, w)
  }

  /** Byte for byte. */
  lemma WriteAtIndex(s: seq<Byte>, pos: nat, w: seq<Byte>, i: nat)
    requires w != [] && i < Max(|s|, pos + |w|)
    ensures |WriteAt(s, pos, w)| == Max(|s|, pos + |w|)
    ensures WriteAt(s, pos, w)[i] == if pos <= i < pos + |w| then w[i - pos] else if i < |s| then s[i] else 0
  {
    if pos <= i < pos + |w| {
      assert WriteAt(s, pos, w)[i] == WriteAt(s, pos, w)[pos..pos + |w|][i - pos];
    }
  }

  lemma WriteAtTwice(s: seq<Byte>, pos: nat, a: seq<Byte>, b: seq<Byte>)
    ensures WriteAt(WriteAt(s, pos, a), pos + |a|, b) == WriteAt(s, pos, a + b)
  {
    if a == [] {
      assert a + b == b;
    } else if b == [] {
      assert a + b == a;
    } else {
      var m := WriteAt(s, pos, a);
      var l, r := WriteAt(m, pos + |a|, b), WriteAt(s, pos, a + b);
      var n := Max(|s|, pos + |a| + |b|);
      hide WriteAt;
      WriteAtIndex(s, pos, a, pos);
      WriteAtIndex(m, pos + |a|, b, pos);
      WriteAtIndex(s, pos, a + b, pos);
      forall i | 0 <= i < n ensures l[i] == r[i] {
        if i < |m| { WriteAtIndex(s, pos, a, i); }
        WriteAtIndex(m, pos + |a|, b, i);
        WriteAtIndex(s, pos, a + b, i);
      }
    }
  }

  lemma SpliceParts(s: seq<Byte>, at: nat, w: seq<Byte>)
    requires at + |w| <= |s|
    ensures Splice(s, at, w)[..at + |w|] == s[..at] + w
    ensures Splice(s, at, w)[at + |w|..] == s[at + |w|..]
  {
  }

  /** Bytes that a write does not reach keep what they were. */
  lemma SpliceElsewhere(s: seq<Byte>, at: nat, w: seq<Byte>, lo: nat, hi: nat)
    requires at + |w| <= |s| && lo <= hi <= |s| && (hi <= at || at + |w| <= lo)
    ensures Splice(s, at, w)[lo..hi] == s[lo..hi]
  {
  }

  /** A write inside a stretch of bytes is a write to that stretch. */
  lemma SpliceInside(s: seq<Byte>, at: nat, w: seq<Byte>, lo: nat, hi: nat)
    requires lo <= at && at + |w| <= hi <= |s|
    ensures Splice(s, at, w)[lo..hi] == Splice(s[lo..hi], at - lo, w)
  {
    var l, r := Splice(s, at, w)[lo..hi], Splice(s[lo..hi], at - lo, w);
    forall i | 0 <= i < |l| ensures l[i] == r[i] {
      if at - lo <= i < at - lo + |w| {
        assert r[i] == r[at - lo..at - lo + |w|][i - (at - lo)];
        assert Splice(s, at, w)[lo + i] == Splice(s, at, w)[at..at + |w|][lo + i - at];
      }
    }
  }

  /** Writes bytes through a pointer. */
  method Store(dest: array<Byte>, at: nat, b: seq<Byte>)
    requires at + |b| <= dest.Length
    modifies dest
    ensures dest[..] == Splice(old(dest[..]), at, b)
  {
    forall i | 0 <= i < |b| {
      dest[at + i] := b[i];
    }
  }
}
