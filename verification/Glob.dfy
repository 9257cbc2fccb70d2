/** The pattern matcher (src/whglob.c:166-318), over code points. */
module Glob {

  /** A code point of a C string: anything but the terminator. */
  type Point = c: nat | c > 0 witness 1

  const CARET: Point := 0x5E
  const CLOSE: Point := 0x5D
  const DASH: Point := 0x2D
  const BACKSLASH: Point := 0x5C

  /** The roles that characters play; `matchSet` is 0 where there are no sets. */
  datatype Info = Info(matchAll: Point, matchOne: Point, matchSet: nat, noCase: bool, esc: Point)

  const GLOB := Info(0x2A, 0x3F, 0x5B, false, BACKSLASH)

  function Like(caseSensitive: bool): Info { Info(0x25, 0x5F, 0, !caseSensitive, 0x25) }

  /** ASCII case folding; other code points stand for themselves. */
  function Fold(c: Point): Point {
    if 0x41 <= c <= 0x5A then c + 0x20 else c
  }

  predicate Same(info: Info, a: Point, b: Point) {
    if info.noCase then Fold(a) == Fold(b) else a == b
  }

  // ----- what patterns mean

  datatype Item = Range(lo: Point, hi: Point)

  /** One step of a pattern.  `Never` is a set without its closing bracket. */
  datatype Token = Star | One | Lit(c: Point) | Set(invert: bool, items: seq<Item>) | Never

  predicate InItems(c: Point, items: seq<Item>) {
    exists i :: 0 <= i < |items| && items[i].lo <= c <= items[i].hi
  }

  /** The rules of the source's comment, over tokens. */
  ghost predicate Match(info: Info, t: seq<Token>, s: seq<Point>)
    decreases |t|
  {
    if t == [] then s == []
    else match t[0]
      case Star => exists k :: 0 <= k <= |s| && Match(info, t[1..], s[k..])
      case One => s != [] && Match(info, t[1..], s[1..])
      case Lit(c) => s != [] && Same(info, c, s[0]) && Match(info, t[1..], s[1..])
      case Set(invert, items) => s != [] && InItems(s[0], items) != invert && Match(info, t[1..], s[1..])
      case Never => false
  }

  datatype Items = Items(items: seq<Item>, rest: seq<Point>) | Unclosed

  function Before(i: Item, r: Items): Items {
    if r.Unclosed? then Unclosed else Items([i] + r.items, r.rest)
  }

  /** The members of a set, up to its closing bracket; a dash between two of them is a range. */
  function ParseItems(q: seq<Point>, prior: nat): (r: Items)
    ensures r.Items? ==> |r.rest| < |q| && forall x :: x in r.rest ==> x in q
    decreases |q|
  {
    if q == [] then Unclosed
    else if q[0] == CLOSE then Items([], q[1..])
    else if q[0] == DASH && |q| > 1 && q[1] != CLOSE && prior > 0 then Before(Range(prior, q[1]), ParseItems(q[2..], 0))
    else Before(Range(q[0], q[0]), ParseItems(q[1..], q[0]))
  }

  /** The same after the opening of the set: a closing bracket in the first place is a member. */
  function ParseBody(q: seq<Point>): (r: Items)
    ensures r.Items? ==> |r.rest| < |q| && forall x :: x in r.rest ==> x in q
  {
    if q != [] && q[0] == CLOSE then Before(Range(CLOSE, CLOSE), ParseItems(q[1..], 0)) else ParseItems(q, 0)
  }

  function Inverted(q: seq<Point>): bool { q != [] && q[0] == CARET }

  function ParseSet(q: seq<Point>): (r: Items)
    ensures r.Items? ==> |r.rest| < |q| && forall x :: x in r.rest ==> x in q
  {
    ParseBody(if Inverted(q) then q[1..] else q)
  }

  /** What a pattern means.  Behind an escape every character stands for itself; an escape
      with nothing behind it stands for nothing.  (LIKE has no escape of its own: there the
      escape character is the percent sign.) */
  function Tokens(info: Info, p: seq<Point>): (t: seq<Token>)
    decreases |p|
  {
    if p == [] then []
    else if p[0] == info.matchAll then [Star] + Tokens(info, p[1..])
    else if p[0] == info.matchOne then [One] + Tokens(info, p[1..])
    else if p[0] == info.matchSet then
      var r := ParseSet(p[1..]);
      if r.Unclosed? then [Never] else [Set(Inverted(p[1..]), r.items)] + Tokens(info, r.rest)
    else if p[0] == info.esc then
      if |p| == 1 then [Never] else [Lit(p[1])] + Tokens(info, p[2..])
    else [Lit(p[0])] + Tokens(info, p[1..])
  }

  /** What the code makes of a pattern.  `escaped`: the last character was an escape; `star`:
      only wildcards, a star among them, lie between the last other step and here.  A set
      behind a star is given up on, an escape does not keep a bracket from opening a set
      unless it is behind a star, and stays in force across that set, and an escape at the
      end is ignored, unless it is behind a star. */
  function Read(info: Info, p: seq<Point>, escaped: bool, star: bool): (t: seq<Token>)
    decreases |p|
  {
    if p == [] then (if escaped && star then [Never] else [])
    else if !escaped && p[0] == info.matchAll then [Star] + Read(info, p[1..], false, true)
    else if !escaped && p[0] == info.matchOne then [One] + Read(info, p[1..], false, star)
    else if p[0] == info.matchSet && !(escaped && star) then
      var r := ParseSet(p[1..]);
      if star || r.Unclosed? then [Never] else [Set(Inverted(p[1..]), r.items)] + Read(info, r.rest, escaped, false)
    else if !escaped && p[0] == info.esc then Read(info, p[1..], true, star)
    else [Lit(p[0])] + Read(info, p[1..], false, false)
  }

  /** Every escape has a character behind it, and one that can be escaped. */
  predicate Regular(info: Info, p: seq<Point>, star: bool)
    decreases |p|
  {
    if p == [] then true
    else if p[0] == info.matchAll then Regular(info, p[1..], true)
    else if p[0] == info.matchOne then Regular(info, p[1..], star)
    else if p[0] == info.matchSet then
      var r := ParseSet(p[1..]);
      r.Unclosed? || Regular(info, r.rest, false)
    else if p[0] == info.esc then
      if |p| == 1 then star else (star || p[1] != info.matchSet) && Regular(info, p[2..], false)
    else Regular(info, p[1..], false)
  }

  /** Stars and single-character steps, and then a set. */
  predicate RunThenSet(t: seq<Token>)
    decreases |t|
  {
    t != [] && (t[0].Set? || t[0].Never? || ((t[0].Star? || t[0].One?) && RunThenSet(t[1..])))
  }

  /** A set directly follows a run that starts with a star: there the code gives up. */
  predicate StarSet(t: seq<Token>)
    decreases |t|
  {
    t != [] && ((t[0].Star? && RunThenSet(t[1..])) || StarSet(t[1..]))
  }

  ghost predicate Accepts(info: Info, t: seq<Token>, s: seq<Point>) {
    !StarSet(t) && Match(info, t, s)
  }

  // ----- the steps of the matcher

  lemma StarStar(info: Info, t: seq<Token>, s: seq<Point>)
    ensures Match(info, [Star, Star] + t, s) <==> Match(info, [Star] + t, s)
  {
    var u, v := [Star, Star] + t, [Star] + t;
    assert u[1..] == v && v[1..] == t;
    if Match(info, u, s) {
      var k :| 0 <= k <= |s| && Match(info, v, s[k..]);
      var l :| 0 <= l <= |s[k..]| && Match(info, t, s[k..][l..]);
      assert s[k..][l..] == s[k + l..];
    }
    if Match(info, v, s) {
      assert s[0..] == s;
    }
  }

  lemma StarOne(info: Info, t: seq<Token>, s: seq<Point>)
    ensures Match(info, [Star, One] + t, s) <==> s != [] && Match(info, [Star] + t, s[1..])
  {
    var u, v, w := [Star, One] + t, [Star] + t, [One] + t;
    assert u[1..] == w && v[1..] == t && w[1..] == t;
    if Match(info, u, s) {
      var k :| 0 <= k <= |s| && Match(info, w, s[k..]);
      assert s[k..][1..] == s[1..][k..];
    }
    if s != [] && Match(info, v, s[1..]) {
      var k :| 0 <= k <= |s[1..]| && Match(info, t, s[1..][k..]);
      assert s[k..][1..] == s[1..][k..];
      assert Match(info, w, s[k..]);
    }
  }

  lemma StarEnd(info: Info, s: seq<Point>)
    ensures Match(info, [Star], s)
  {
    assert [Star][1..] == [] && s[|s|..] == [];
  }

  /** After a star, a literal is looked for in every place. */
  lemma StarLit(info: Info, c: Point, t: seq<Token>, s: seq<Point>)
    ensures Match(info, [Star, Lit(c)] + t, s) <==>
            exists j :: 0 <= j < |s| && Same(info, c, s[j]) && Match(info, t, s[j + 1..])
  {
    var u, v := [Star, Lit(c)] + t, [Lit(c)] + t;
    assert u[1..] == v && v[1..] == t;
    if Match(info, u, s) {
      var k :| 0 <= k <= |s| && Match(info, v, s[k..]);
      assert s[k..][1..] == s[k + 1..];
    }
    if j :| 0 <= j < |s| && Same(info, c, s[j]) && Match(info, t, s[j + 1..]) {
      assert s[j..][1..] == s[j + 1..];
      assert Match(info, v, s[j..]);
    }
  }

  /** Every other step takes one character. */
  lemma OneStep(info: Info, k: Token, t: seq<Token>, s: seq<Point>)
    requires !k.Star? && !k.Never?
    ensures Match(info, [k] + t, s) <==> s != [] && Takes(info, k, s[0]) && Match(info, t, s[1..])
  {
    assert ([k] + t)[1..] == t;
  }

  lemma NeverStep(info: Info, t: seq<Token>, s: seq<Point>)
    ensures !Match(info, [Never] + t, s) && !Match(info, [Star, Never] + t, s)
  {
    var u, v := [Star, Never] + t, [Never] + t;
    assert u[1..] == v;
  }

  predicate Takes(info: Info, k: Token, c: Point)
    requires !k.Star? && !k.Never?
  {
    match k
    case One => true
    case Lit(l) => Same(info, l, c)
    case Set(invert, items) => InItems(c, items) != invert
  }

  lemma InFirst(c: Point, i: Item, items: seq<Item>)
    ensures InItems(c, [i] + items) <==> i.lo <= c <= i.hi || InItems(c, items)
  {
    var l := [i] + items;
    if i.lo <= c <= i.hi { assert l[0] == i; }
    if k :| 0 <= k < |items| && items[k].lo <= c <= items[k].hi { assert l[k + 1] == items[k]; }
    if k :| 0 <= k < |l| && l[k].lo <= c <= l[k].hi { assert k > 0 ==> l[k] == items[k - 1]; }
  }

  /** What the literal `c` followed by `t` still finds in `s`. */
  ghost predicate Later(info: Info, c: Point, t: seq<Token>, s: seq<Point>) {
    exists j :: 0 <= j < |s| && Same(info, c, s[j]) && Match(info, t, s[j + 1..])
  }

  lemma LaterNext(info: Info, c: Point, t: seq<Token>, s: seq<Point>)
    requires s != []
    ensures Later(info, c, t, s) <==> (Same(info, c, s[0]) && Match(info, t, s[1..])) || Later(info, c, t, s[1..])
  {
    if j :| 0 <= j < |s| && Same(info, c, s[j]) && Match(info, t, s[j + 1..]) {
      if j > 0 {
        assert s[1..][j - 1] == s[j] && s[1..][j..] == s[j + 1..];
      }
    }
    if j :| 0 <= j < |s[1..]| && Same(info, c, s[1..][j]) && Match(info, t, s[1..][j + 1..]) {
      assert s[j + 1] == s[1..][j] && s[1..][j + 1..] == s[j + 2..];
    }
  }

  // ----- the matcher

  predicate Known(info: Info) { info == GLOB || info == Like(true) || info == Like(false) }

  /** Whether `c` is in the set that starts `zp`, and where the pattern goes on. */
  method InSet(zp: seq<Point>, c: Point) returns (ok: bool, rest: seq<Point>)
    ensures ok <==> ParseSet(zp).Items? && InItems(c, ParseSet(zp).items) != Inverted(zp)
    ensures ok ==> rest == ParseSet(zp).rest
  {
    var z, invert, seen := zp, false, false;
    if z != [] && z[0] == CARET {
      invert, z := true, z[1..];
    }
    if z != [] && z[0] == CLOSE {
      if c == CLOSE {
        seen := true;
      }
      z := z[1..];
      if ParseItems(z, 0).Items? { InFirst(c, Range(CLOSE, CLOSE), ParseItems(z, 0).items); }
    }
    hide ParseItems, InItems;
    var closed;
    closed, seen, rest := InList(z, c, seen);
    ok := closed && seen != invert;
  }

  method InList(q: seq<Point>, c: Point, already: bool) returns (closed: bool, seen: bool, rest: seq<Point>)
    ensures closed <==> ParseItems(q, 0).Items?
    ensures closed ==> rest == ParseItems(q, 0).rest && (seen <==> already || InItems(c, ParseItems(q, 0).items))
  {
    hide InItems;
    seen, rest := already, q;
    var prior: nat := 0;
    while rest != [] && rest[0] != CLOSE
      invariant ParseItems(q, 0).Items? <==> ParseItems(rest, prior).Items?
      invariant ParseItems(q, 0).Items? ==>
                  && ParseItems(q, 0).rest == ParseItems(rest, prior).rest
                  && (already || InItems(c, ParseItems(q, 0).items) <==>
                      seen || InItems(c, ParseItems(rest, prior).items))
      decreases |rest|
    {
      ghost var was := ParseItems(rest, prior);
      if rest[0] == DASH && |rest| > 1 && rest[1] != CLOSE && prior > 0 {
        if prior <= c <= rest[1] {
          seen := true;
        }
        prior, rest := 0, rest[2..];
      } else {
        if c == rest[0] {
          seen := true;
        }
        prior, rest := rest[0], rest[1..];
      }
      if was.Items? { InFirst(c, was.items[0], ParseItems(rest, prior).items); }
    }
    if rest == [] {
      return false, seen, [];
    }
    NoItems(c);
    closed, rest := true, rest[1..];
  }

  lemma NoItems(c: Point)
    ensures !InItems(c, [])
  {
  }

  /** The comparison: for every pattern and string, whether the string matches what the code
      makes of the pattern. */
  method PatternCompare(p: seq<Point>, s: seq<Point>, info: Info) returns (r: bool)
    requires Known(info)
    ensures r == Match(info, Read(info, p, false, false), s)
    decreases |p|, 1
  {
    hide Match, ParseSet;
    var zp, zs, prevEscape := p, s, false;
    while zp != []
      invariant |zp| <= |p|
      invariant Match(info, Read(info, p, false, false), s) == Match(info, Read(info, zp, prevEscape, false), zs)
      decreases |zp|
    {
      var c := zp[0];
      ghost var was := zp;
      zp := zp[1..];
      if !prevEscape && c == info.matchAll {
        r := AfterStar(zp, zs, info);
        return;
      } else if !prevEscape && c == info.matchOne {
        OneStep(info, One, Read(info, zp, false, false), zs);
        if zs == [] {
          return false;
        }
        zs := zs[1..];
      } else if c == info.matchSet {
        SetStep(info, was, prevEscape, zs);
        if zs == [] {
          return false;
        }
        var ok;
        ok, zp := InSet(zp, zs[0]);
        if !ok {
          return false;
        }
        zs := zs[1..];
      } else if c == info.esc && !prevEscape {
        prevEscape := true;
      } else {
        OneStep(info, Lit(c), Read(info, zp, false, false), zs);
        if zs == [] || !Same(info, c, zs[0]) {
          return false;
        }
        zs := zs[1..];
        prevEscape := false;
      }
    }
    EmptyStep(info, zs);
    r := zs == [];
  }

  lemma EmptyStep(info: Info, s: seq<Point>)
    ensures Match(info, [], s) <==> s == []
  {
  }

  lemma SetStep(info: Info, p: seq<Point>, escaped: bool, s: seq<Point>)
    requires Known(info) && p != [] && p[0] == info.matchSet
    ensures var q := ParseSet(p[1..]);
            Match(info, Read(info, p, escaped, false), s) <==>
            s != [] && q.Items? && InItems(s[0], q.items) != Inverted(p[1..])
                && Match(info, Read(info, q.rest, escaped, false), s[1..])
  {
    hide Match, ParseSet;
    var q := ParseSet(p[1..]);
    if q.Items? {
      OneStep(info, Set(Inverted(p[1..]), q.items), Read(info, q.rest, escaped, false), s);
    } else {
      NeverStep(info, [], s);
      assert [Never] + [] == [Never];
    }
  }

  /** The part of a pattern after a star: skip the run of wildcards, then look for the next
      literal and try the rest of the pattern behind each of its places. */
  method AfterStar(p: seq<Point>, s: seq<Point>, info: Info) returns (r: bool)
    requires Known(info)
    ensures r == Match(info, [Star] + Read(info, p, false, true), s)
    decreases |p|, 1
  {
    hide Match, ParseSet;
    var zp, zs := p, s;
    while zp != [] && (zp[0] == info.matchAll || zp[0] == info.matchOne)
      invariant |zp| <= |p|
      invariant Match(info, [Star] + Read(info, p, false, true), s)
                  == Match(info, [Star] + Read(info, zp, false, true), zs)
      decreases |zp|
    {
      RunStep(info, zp, zs);
      if zp[0] == info.matchOne {
        if zs == [] {
          return false;
        }
        zs := zs[1..];
      }
      zp := zp[1..];
    }
    if zp == [] {
      assert [Star] + Read(info, zp, false, true) == [Star];
      StarEnd(info, zs);
      return true;
    }
    r := Search(zp, zs, info);
  }

  lemma RunStep(info: Info, p: seq<Point>, s: seq<Point>)
    requires Known(info) && p != [] && (p[0] == info.matchAll || p[0] == info.matchOne)
    ensures Match(info, [Star] + Read(info, p, false, true), s) <==>
            if p[0] == info.matchOne then s != [] && Match(info, [Star] + Read(info, p[1..], false, true), s[1..])
            else Match(info, [Star] + Read(info, p[1..], false, true), s)
  {
    hide Match, ParseSet;
    var t := Read(info, p[1..], false, true);
    if p[0] == info.matchOne {
      StarOne(info, t, s);
      assert [Star] + ([One] + t) == [Star, One] + t;
    } else {
      StarStar(info, t, s);
      assert [Star] + ([Star] + t) == [Star, Star] + t;
    }
  }

  method Search(p: seq<Point>, s: seq<Point>, info: Info) returns (r: bool)
    requires Known(info) && p != [] && p[0] != info.matchAll && p[0] != info.matchOne
    ensures r == Match(info, [Star] + Read(info, p, false, true), s)
    decreases |p|, 0
  {
    hide Match, ParseSet, Read;
    SearchStep(info, p, s);
    var c, zp, zs := p[0], p[1..], s;
    if c == info.esc {
      if zp == [] {
        return false;
      }
      c, zp := zp[0], zp[1..];
    } else if c == info.matchSet {
      return false;
    }
    ghost var t := Read(info, zp, false, false);
    ghost var all := Match(info, [Star] + Read(info, p, false, true), s);
    while zs != []
      invariant all <==> Later(info, c, t, zs)
    {
      while zs != [] && !Same(info, c, zs[0])
        invariant all <==> Later(info, c, t, zs)
      {
        LaterNext(info, c, t, zs);
        zs := zs[1..];
      }
      if zs == [] {
        return false;
      }
      LaterNext(info, c, t, zs);
      zs := zs[1..];
      var ok := PatternCompare(zp, zs, info);
      if ok {
        return true;
      }
    }
    r := false;
  }

  /** What can follow a run of wildcards with a star: an escaped or a plain literal, which is
      looked for, or something that never matches. */
  lemma SearchStep(info: Info, p: seq<Point>, s: seq<Point>)
    requires Known(info) && p != [] && p[0] != info.matchAll && p[0] != info.matchOne
    ensures Match(info, [Star] + Read(info, p, false, true), s) <==>
            if p[0] == info.esc then |p| > 1 && Later(info, p[1], Read(info, p[2..], false, false), s)
            else p[0] != info.matchSet && Later(info, p[0], Read(info, p[1..], false, false), s)
  {
    hide Match, Later, ParseSet;
    assert info.esc != info.matchSet;
    if p[0] == info.matchSet || (p[0] == info.esc && |p| == 1) {
      NeverStep(info, [], s);
      assert [Star] + Read(info, p, false, true) == [Star, Never] + [];
    } else if p[0] == info.esc {
      assert p[1..][1..] == p[2..];
      FindLit(info, p[1], Read(info, p[2..], false, false), s);
      assert [Star] + ([Lit(p[1])] + Read(info, p[2..], false, false))
             == [Star, Lit(p[1])] + Read(info, p[2..], false, false);
    } else {
      FindLit(info, p[0], Read(info, p[1..], false, false), s);
      assert [Star] + ([Lit(p[0])] + Read(info, p[1..], false, false))
             == [Star, Lit(p[0])] + Read(info, p[1..], false, false);
    }
  }

  lemma FindLit(info: Info, c: Point, t: seq<Token>, s: seq<Point>)
    ensures Match(info, [Star, Lit(c)] + t, s) <==> Later(info, c, t, s)
  {
    hide Match;
    StarLit(info, c, t, s);
  }

  // ----- what the code makes of a pattern, and what the pattern means

  /** A regular pattern is read as it is meant, but for the sets that are given up on. */
  lemma {:induction false} ReadIsRules(info: Info, p: seq<Point>, star: bool, s: seq<Point>)
    requires Known(info) && Regular(info, p, star)
    ensures var t := Tokens(info, p);
            Match(info, Read(info, p, false, star), s) <==> Accepts(info, t, s) && !(star && RunThenSet(t))
    decreases |p|
  {
    hide ParseSet;
    var t := Tokens(info, p);
    if p == [] {
    } else if p[0] == info.matchAll {
      ReadStar(info, p, star, s);
    } else if p[0] == info.matchOne {
      assert t[1..] == Tokens(info, p[1..]);
      OneStep(info, One, Read(info, p[1..], false, star), s);
      if s != [] { ReadIsRules(info, p[1..], star, s[1..]); }
    } else if p[0] == info.matchSet {
      ReadSet(info, p, star, s);
    } else if p[0] == info.esc {
      ReadEscape(info, p, star, s);
    } else {
      assert t[1..] == Tokens(info, p[1..]);
      OneStep(info, Lit(p[0]), Read(info, p[1..], false, false), s);
      if s != [] { ReadIsRules(info, p[1..], false, s[1..]); }
    }
  }

  lemma ReadStar(info: Info, p: seq<Point>, star: bool, s: seq<Point>)
    requires Known(info) && Regular(info, p, star) && p != [] && p[0] == info.matchAll
    ensures var t := Tokens(info, p);
            Match(info, Read(info, p, false, star), s) <==> Accepts(info, t, s) && !(star && RunThenSet(t))
    decreases |p|, 0
  {
    var t, u := Tokens(info, p), Read(info, p, false, star);
    assert t[1..] == Tokens(info, p[1..]) && u[1..] == Read(info, p[1..], false, true);
    forall k | 0 <= k <= |s|
      ensures Match(info, u[1..], s[k..]) <==> Accepts(info, t[1..], s[k..]) && !RunThenSet(t[1..])
    {
      ReadIsRules(info, p[1..], true, s[k..]);
    }
  }

  lemma ReadSet(info: Info, p: seq<Point>, star: bool, s: seq<Point>)
    requires Known(info) && Regular(info, p, star) && p != [] && p[0] == info.matchSet
    ensures var t := Tokens(info, p);
            Match(info, Read(info, p, false, star), s) <==> Accepts(info, t, s) && !(star && RunThenSet(t))
    decreases |p|, 0
  {
    hide ParseSet;
    var t, q := Tokens(info, p), ParseSet(p[1..]);
    if q.Items? {
      assert t[1..] == Tokens(info, q.rest);
      OneStep(info, Set(Inverted(p[1..]), q.items), Read(info, q.rest, false, false), s);
      if s != [] { ReadIsRules(info, q.rest, false, s[1..]); }
    }
  }

  lemma ReadEscape(info: Info, p: seq<Point>, star: bool, s: seq<Point>)
    requires Known(info) && Regular(info, p, star) && p != [] && p[0] == info.esc
    requires p[0] != info.matchAll && p[0] != info.matchOne && p[0] != info.matchSet
    ensures var t := Tokens(info, p);
            Match(info, Read(info, p, false, star), s) <==> Accepts(info, t, s) && !(star && RunThenSet(t))
    decreases |p|, 0
  {
    var t := Tokens(info, p);
    if |p| == 1 {
      assert p[1..] == [];
    } else {
      assert p[1..][1..] == p[2..] && t[1..] == Tokens(info, p[2..]);
      OneStep(info, Lit(p[1]), Read(info, p[2..], false, false), s);
      if s != [] { ReadIsRules(info, p[2..], false, s[1..]); }
    }
  }

  // ----- patterns spelled out

  /** Equal, or, if case does not matter, an ASCII capital and its small letter. */
  predicate Alike(a: Point, b: Point, caseSensitive: bool) {
    || a == b
    || (!caseSensitive && ((0x41 <= a <= 0x5A && b == a + 32) || (0x41 <= b <= 0x5A && a == b + 32)))
  }

  /** The string `s` starts as `u` and ends as `w` says, without overlap; `any` stands for any
      one character. */
  ghost predicate Ends(u: seq<Point>, w: seq<Point>, s: seq<Point>, any: Point, caseSensitive: bool) {
    && |u| + |w| <= |s|
    && (forall i :: 0 <= i < |u| ==> u[i] == any || Alike(u[i], s[i], caseSensitive))
    && (forall i :: 0 <= i < |w| ==> w[i] == any || Alike(w[i], s[|s| - |w| + i], caseSensitive))
  }

  ghost predicate PlaceByPlace(p: seq<Point>, s: seq<Point>, any: Point, caseSensitive: bool) {
    |s| == |p| && forall i :: 0 <= i < |p| ==> p[i] == any || Alike(p[i], s[i], caseSensitive)
  }

  /** No character of the pattern is special but the one that stands for any one character. */
  predicate NoStars(info: Info, p: seq<Point>) {
    forall i :: 0 <= i < |p| ==> p[i] != info.matchAll && p[i] != info.matchSet && p[i] != info.esc
  }

  ghost predicate AlikeIs(info: Info, caseSensitive: bool) {
    forall a: Point, b: Point :: Same(info, a, b) <==> Alike(a, b, caseSensitive)
  }

  lemma {:induction false} FixedMatch(info: Info, p: seq<Point>, s: seq<Point>, cs: bool)
    requires NoStars(info, p) && AlikeIs(info, cs)
    ensures Match(info, Tokens(info, p), s) <==> PlaceByPlace(p, s, info.matchOne, cs)
    decreases |p|
  {
    if p == [] {
    } else {
      var t := Tokens(info, p);
      assert t[1..] == Tokens(info, p[1..]);
      if s != [] {
        FixedMatch(info, p[1..], s[1..], cs);
        if PlaceByPlace(p[1..], s[1..], info.matchOne, cs) && (p[0] == info.matchOne || Alike(p[0], s[0], cs)) {
          forall i | 0 <= i < |p| ensures p[i] == info.matchOne || Alike(p[i], s[i], cs) {
            if i > 0 { assert p[1..][i - 1] == p[i] && s[1..][i - 1] == s[i]; }
          }
        }
      }
    }
  }

  /** One star: the string starts with what is before it and ends with what is behind it. */
  lemma {:induction false} OneStarMatch(info: Info, u: seq<Point>, w: seq<Point>, s: seq<Point>, cs: bool)
    requires NoStars(info, u) && NoStars(info, w) && AlikeIs(info, cs) && info.matchAll != info.matchOne
    ensures Match(info, Tokens(info, u + [info.matchAll] + w), s) <==> Ends(u, w, s, info.matchOne, cs)
    decreases |u|
  {
    var p := u + [info.matchAll] + w;
    if u == [] {
      assert p[1..] == w;
      StarMatch(info, w, s, cs);
      assert Tokens(info, p) == [Star] + Tokens(info, w);
    } else {
      var t := Tokens(info, p);
      assert p[1..] == u[1..] + [info.matchAll] + w && p[0] == u[0];
      assert t[1..] == Tokens(info, p[1..]);
      if s != [] {
        OneStarMatch(info, u[1..], w, s[1..], cs);
        EndsStep(u, w, s, info.matchOne, cs);
      }
    }
  }

  lemma EndsStep(u: seq<Point>, w: seq<Point>, s: seq<Point>, any: Point, cs: bool)
    requires u != [] && s != []
    ensures Ends(u, w, s, any, cs) <==> (u[0] == any || Alike(u[0], s[0], cs)) && Ends(u[1..], w, s[1..], any, cs)
  {
    if (u[0] == any || Alike(u[0], s[0], cs)) && Ends(u[1..], w, s[1..], any, cs) {
      forall i | 0 <= i < |u| ensures u[i] == any || Alike(u[i], s[i], cs) {
        if i > 0 { assert u[1..][i - 1] == u[i] && s[1..][i - 1] == s[i]; }
      }
      forall i | 0 <= i < |w| ensures w[i] == any || Alike(w[i], s[|s| - |w| + i], cs) {
        assert s[1..][|s[1..]| - |w| + i] == s[|s| - |w| + i];
      }
    }
    if Ends(u, w, s, any, cs) {
      forall i | 0 <= i < |w| ensures w[i] == any || Alike(w[i], s[1..][|s[1..]| - |w| + i], cs) {
        assert s[1..][|s[1..]| - |w| + i] == s[|s| - |w| + i];
      }
    }
  }

  lemma StarMatch(info: Info, w: seq<Point>, s: seq<Point>, cs: bool)
    requires NoStars(info, w) && AlikeIs(info, cs)
    ensures Match(info, [Star] + Tokens(info, w), s) <==> Ends([], w, s, info.matchOne, cs)
  {
    var t := [Star] + Tokens(info, w);
    assert t[1..] == Tokens(info, w);
    if Match(info, t, s) {
      var k :| 0 <= k <= |s| && Match(info, t[1..], s[k..]);
      FixedMatch(info, w, s[k..], cs);
      assert k == |s| - |w|;
      assert forall i :: 0 <= i < |w| ==> s[k..][i] == s[|s| - |w| + i];
    }
    if Ends([], w, s, info.matchOne, cs) {
      var k := |s| - |w|;
      assert forall i :: 0 <= i < |w| ==> s[k..][i] == s[|s| - |w| + i];
      FixedMatch(info, w, s[k..], cs);
    }
  }

  // ----- the two entry points

  /** Glob patterns.  The code says yes to exactly the strings that match what it makes of the
      pattern; if every escape has something to escape, that is what the pattern means, but
      for a set that directly follows a run with a star. */
  method Matches(pattern: seq<Point>, str: seq<Point>) returns (r: bool)
    ensures r <==> Match(GLOB, Read(GLOB, pattern, false, false), str)
    ensures Regular(GLOB, pattern, false) ==>
              (r <==> Match(GLOB, Tokens(GLOB, pattern), str) && !StarSet(Tokens(GLOB, pattern)))
    ensures GlobPlain(pattern) ==> (r <==> PlaceByPlace(pattern, str, 0x3F, true))
    ensures forall k :: 0 <= k < |pattern| && OneGlobStar(pattern, k) ==>
              (r <==> Ends(pattern[..k], pattern[k + 1..], str, 0x3F, true))
    ensures OneSet(pattern) ==> (r <==> |str| == 1 && InOneSet(pattern, str[0]))
    ensures |pattern| == 2 && pattern[0] == 0x5C && pattern[1] != 0x5B ==> (r <==> str == [pattern[1]])
  {
    hide Match, StarSet, RunThenSet, Tokens, Read, Regular, Ends, PlaceByPlace, OneSet, InOneSet, GlobPlain;
    r := PatternCompare(pattern, str, GLOB);
    if Regular(GLOB, pattern, false) { ReadIsRules(GLOB, pattern, false, str); }
    if GlobPlain(pattern) { GlobFixed(pattern, str); }
    forall k | 0 <= k < |pattern| && OneGlobStar(pattern, k)
      ensures r <==> Ends(pattern[..k], pattern[k + 1..], str, 0x3F, true)
    {
      GlobStar(pattern, k, str);
    }
    if OneSet(pattern) { GlobSet(pattern, str); }
    if |pattern| == 2 && pattern[0] == 0x5C && pattern[1] != 0x5B { GlobEscape(pattern, str); }
  }

  /** Neither star, bracket nor backslash. */
  predicate GlobPlain(p: seq<Point>) {
    forall i :: 0 <= i < |p| ==> p[i] != 0x2A && p[i] != 0x5B && p[i] != 0x5C
  }

  predicate OneGlobStar(p: seq<Point>, k: int) {
    0 <= k < |p| && p[k] == 0x2A && GlobPlain(p[..k]) && GlobPlain(p[k + 1..])
  }

  /** The patterns `[c]`, `[^c]`, `[a-b]` and `[^a-b]`, of whatever characters.  The first end
      of a range is in the set even if the second comes before it. */
  predicate OneSet(p: seq<Point>) {
    && |p| in {3, 4, 5, 6} && p[0] == 0x5B && p[|p| - 1] == 0x5D
    && (|p| == 3 ==> p[1] != 0x5E)
    && (|p| == 4 ==> p[1] == 0x5E)
    && (|p| == 5 ==> p[1] != 0x5E && p[1] != 0x5D && p[2] == 0x2D && p[3] != 0x5D)
    && (|p| == 6 ==> p[1] == 0x5E && p[2] != 0x5D && p[3] == 0x2D && p[4] != 0x5D)
  }

  predicate InOneSet(p: seq<Point>, c: Point)
    requires OneSet(p)
  {
    if |p| == 3 then c == p[1]
    else if |p| == 4 then c != p[2]
    else if |p| == 5 then c == p[1] || p[1] <= c <= p[3]
    else c != p[2] && !(p[2] <= c <= p[4])
  }

  lemma {:induction false} PlainTokens(info: Info, p: seq<Point>, star: bool)
    requires Known(info) && NoStars(info, p)
    ensures Regular(info, p, star) && !StarSet(Tokens(info, p)) && !RunThenSet(Tokens(info, p))
    decreases |p|
  {
    if p == [] {
    } else {
      PlainTokens(info, p[1..], if p[0] == info.matchOne then star else false);
      assert Tokens(info, p)[1..] == Tokens(info, p[1..]);
    }
  }

  lemma {:induction false} OneStarTokens(info: Info, u: seq<Point>, w: seq<Point>, star: bool)
    requires Known(info) && NoStars(info, u) && NoStars(info, w)
    ensures var p := u + [info.matchAll] + w;
            Regular(info, p, star) && !StarSet(Tokens(info, p)) && !RunThenSet(Tokens(info, p))
    decreases |u|
  {
    var p := u + [info.matchAll] + w;
    if u == [] {
      assert p[1..] == w;
      PlainTokens(info, w, true);
    } else {
      assert p[1..] == u[1..] + [info.matchAll] + w && p[0] == u[0];
      OneStarTokens(info, u[1..], w, if p[0] == info.matchOne then star else false);
    }
    assert Tokens(info, p)[1..] == Tokens(info, p[1..]);
  }

  lemma GlobFixed(p: seq<Point>, s: seq<Point>)
    requires GlobPlain(p)
    ensures Match(GLOB, Read(GLOB, p, false, false), s) <==> PlaceByPlace(p, s, 0x3F, true)
  {
    PlainTokens(GLOB, p, false);
    ReadIsRules(GLOB, p, false, s);
    FixedMatch(GLOB, p, s, true);
  }

  lemma GlobStar(p: seq<Point>, k: nat, s: seq<Point>)
    requires OneGlobStar(p, k)
    ensures Match(GLOB, Read(GLOB, p, false, false), s) <==> Ends(p[..k], p[k + 1..], s, 0x3F, true)
  {
    assert p == p[..k] + [0x2A] + p[k + 1..];
    OneStarTokens(GLOB, p[..k], p[k + 1..], false);
    ReadIsRules(GLOB, p, false, s);
    OneStarMatch(GLOB, p[..k], p[k + 1..], s, true);
  }

  lemma GlobEscape(p: seq<Point>, s: seq<Point>)
    requires |p| == 2 && p[0] == 0x5C && p[1] != 0x5B
    ensures Match(GLOB, Read(GLOB, p, false, false), s) <==> s == [p[1]]
  {
    assert p[1..] == [p[1]] && p[1..][1..] == [] && Read(GLOB, [], false, false) == [];
    assert Read(GLOB, p[1..], true, false) == [Lit(p[1])];
    var t := Read(GLOB, p, false, false);
    assert t == [Lit(p[1])] && t[1..] == [];
    if s != [] && s[1..] == [] { assert s == [s[0]]; }
  }

  lemma GlobSet(p: seq<Point>, s: seq<Point>)
    requires OneSet(p)
    ensures Match(GLOB, Read(GLOB, p, false, false), s) <==> |s| == 1 && InOneSet(p, s[0])
  {
    var q := p[1..];
    SetItems(p);
    var r := ParseSet(q);
    assert Read(GLOB, r.rest, false, false) == [];
    var t := Read(GLOB, p, false, false);
    assert t == [Set(Inverted(q), r.items)] && t[1..] == [];
    if s != [] {
      InTwo(s[0], r.items);
      if s[1..] == [] { assert s == [s[0]]; }
    }
  }

  lemma InTwo(c: Point, items: seq<Item>)
    requires 1 <= |items| <= 2
    ensures InItems(c, items) <==>
              items[0].lo <= c <= items[0].hi || (|items| == 2 && items[1].lo <= c <= items[1].hi)
  {
  }

  lemma SetItems(p: seq<Point>)
    requires OneSet(p)
    ensures var r := ParseSet(p[1..]);
            && Inverted(p[1..]) == (|p| in {4, 6}) && r.Items? && r.rest == []
            && r.items == if |p| == 3 then [Range(p[1], p[1])] else if |p| == 4 then [Range(p[2], p[2])]
                          else if |p| == 5 then [Range(p[1], p[1]), Range(p[1], p[3])]
                          else [Range(p[2], p[2]), Range(p[2], p[4])]
  {
    var q := p[1..];
    var b := if Inverted(q) then q[1..] else q;
    var z: seq<Point> := [CLOSE];
    assert z[1..] == [];
    if |b| == 2 {
      assert b == [b[0], CLOSE] && b[1..] == z;
      assert ParseItems(z, b[0]) == Items([], []) && ParseItems(z, 0) == Items([], []);
    } else {
      assert b == [b[0], DASH, b[2], CLOSE] && b[1..] == [DASH, b[2], CLOSE] && b[1..][2..] == z;
      RangeItems(b);
    }
  }

  lemma RangeItems(b: seq<Point>)
    requires |b| == 4 && b[1] == DASH && b[3] == CLOSE && b[0] != CLOSE && b[2] != CLOSE
    ensures ParseBody(b) == Items([Range(b[0], b[0]), Range(b[0], b[2])], [])
  {
    var z: seq<Point> := [CLOSE];
    assert z[1..] == [] && b[1..] == [DASH, b[2], CLOSE] && b[1..][2..] == z;
    assert ParseItems(z, 0) == Items([], []);
    assert ParseItems(b[1..], b[0]) == Items([Range(b[0], b[2])], []);
  }

  /** LIKE, for every pattern: its only wildcards are the percent sign and the underscore. */
  method MatchesLike(pattern: seq<Point>, str: seq<Point>, caseSensitive: bool) returns (r: bool)
    ensures r <==> Match(Like(caseSensitive), Tokens(Like(caseSensitive), pattern), str)
    ensures 0x25 !in pattern ==> (r <==> PlaceByPlace(pattern, str, 0x5F, caseSensitive))
    ensures forall k :: 0 <= k < |pattern| && OnePercent(pattern, k) ==>
              (r <==> Ends(pattern[..k], pattern[k + 1..], str, 0x5F, caseSensitive))
  {
    hide Match, StarSet, RunThenSet, Tokens, Read, Regular, Ends, PlaceByPlace;
    LikeHasNoSets(caseSensitive, pattern, false);
    r := PatternCompare(pattern, str, Like(caseSensitive));
    ReadIsRules(Like(caseSensitive), pattern, false, str);
    if 0x25 !in pattern { FixedMatch(Like(caseSensitive), pattern, str, caseSensitive); }
    forall k | 0 <= k < |pattern| && OnePercent(pattern, k)
      ensures r <==> Ends(pattern[..k], pattern[k + 1..], str, 0x5F, caseSensitive)
    {
      assert pattern == pattern[..k] + [0x25] + pattern[k + 1..];
      OneStarMatch(Like(caseSensitive), pattern[..k], pattern[k + 1..], str, caseSensitive);
    }
  }

  predicate OnePercent(p: seq<Point>, k: int) {
    0 <= k < |p| && p[k] == 0x25 && 0x25 !in p[..k] && 0x25 !in p[k + 1..]
  }

  lemma {:induction false} LikeHasNoSets(caseSensitive: bool, p: seq<Point>, star: bool)
    ensures !StarSet(Tokens(Like(caseSensitive), p)) && !RunThenSet(Tokens(Like(caseSensitive), p))
    ensures Regular(Like(caseSensitive), p, star)
    decreases |p|
  {
    if p == [] {
    } else {
      var i := Like(caseSensitive);
      LikeHasNoSets(caseSensitive, p[1..], if p[0] == i.matchAll then true else p[0] == i.matchOne && star);
      var t := Tokens(i, p);
      assert t[1..] == Tokens(i, p[1..]);
    }
  }

  /** The pattern `*[a]` matches `a` by the rules, but the code says no. */
  lemma SetAfterStarFails()
    ensures var p: seq<Point> := [0x2A, 0x5B, 0x61, 0x5D];
            Match(GLOB, Tokens(GLOB, p), [0x61]) && !Accepts(GLOB, Tokens(GLOB, p), [0x61])
  {
    var p: seq<Point> := [0x2A, 0x5B, 0x61, 0x5D];
    var i := Range(0x61, 0x61);
    assert p[1..] == [0x5B, 0x61, 0x5D] && p[1..][1..] == [0x61, 0x5D];
    var q: seq<Point> := [0x61, 0x5D];
    assert q[1..] == [CLOSE] && ([CLOSE])[1..] == [];
    assert ParseItems([CLOSE], 0x61) == Items([], []);
    assert ParseItems(q, 0) == Items([i], []);
    assert Tokens(GLOB, p[1..]) == [Set(false, [i])];
    var t := [Star, Set(false, [i])];
    assert Tokens(GLOB, p) == t && t[1..] == [Set(false, [i])] && t[1..][1..] == [];
    var s: seq<Point> := [0x61];
    assert [i][0].lo <= 0x61 <= [i][0].hi;
    assert s[1..] == [] && Match(GLOB, t[1..], s) && s[0..] == s;
  }

  /** An escape does not keep a bracket from opening a set: the pattern `\[a]` means the three
      characters behind the backslash, but the code says yes to `a`. */
  lemma EscapedSetFails()
    ensures var p: seq<Point> := [0x5C, 0x5B, 0x61, 0x5D];
            !Match(GLOB, Tokens(GLOB, p), [0x61]) && Match(GLOB, Read(GLOB, p, false, false), [0x61])
  {
    var p: seq<Point> := [0x5C, 0x5B, 0x61, 0x5D];
    var i := Range(0x61, 0x61);
    var q: seq<Point> := [0x61, 0x5D];
    assert p[1..] == [0x5B, 0x61, 0x5D] && p[1..][1..] == q && p[2..] == q && q[1..] == [CLOSE];
    assert ([CLOSE])[1..] == [];
    assert ParseItems([CLOSE], 0x61) == Items([], []);
    assert ParseItems(q, 0) == Items([i], []);
    assert Read(GLOB, p[1..], true, false) == [Set(false, [i])];
    var t, s: seq<Point> := [Set(false, [i])], [0x61];
    assert [i][0].lo <= 0x61 <= [i][0].hi && t[1..] == [] && s[1..] == [];
    assert Tokens(GLOB, p)[0] == Lit(0x5B);
  }

  /** A backslash at the end is not an error: the pattern `a\` matches `a`. */
  lemma EscapeAtEndIgnored()
    ensures var p: seq<Point> := [0x61, 0x5C];
            !Match(GLOB, Tokens(GLOB, p), [0x61]) && Match(GLOB, Read(GLOB, p, false, false), [0x61])
  {
    var p: seq<Point> := [0x61, 0x5C];
    assert p[1..] == [0x5C] && p[1..][1..] == [];
    var s: seq<Point> := [0x61];
    assert s[1..] == [];
    var t, u := Tokens(GLOB, p), Read(GLOB, p, false, false);
    assert t == [Lit(0x61), Never] && t[1..] == [Never];
    assert u == [Lit(0x61)] && u[1..] == [];
  }

  // ----- what matching means, by parts of the string

  function Joined(parts: seq<seq<Point>>): seq<Point> {
    if parts == [] then [] else parts[0] + Joined(parts[1..])
  }

  /** The part of the string that one step of the pattern stands for. */
  predicate Fits(info: Info, k: Token, part: seq<Point>) {
    if k.Star? then true else !k.Never? && |part| == 1 && Takes(info, k, part[0])
  }

  ghost predicate Divides(info: Info, t: seq<Token>, parts: seq<seq<Point>>, s: seq<Point>) {
    |parts| == |t| && Joined(parts) == s && forall i :: 0 <= i < |t| ==> Fits(info, t[i], parts[i])
  }

  /** A pattern matches a string exactly when the string can be divided into parts, one for
      each step of the pattern: the reading of LIKE in section 8.5 of SQL-92. */
  lemma {:induction false} MatchDivides(info: Info, t: seq<Token>, s: seq<Point>)
    ensures Match(info, t, s) <==> exists parts :: Divides(info, t, parts, s)
    decreases |t|
  {
    if t == [] {
      if s == [] { assert Divides(info, t, [], s); }
    } else {
      if Match(info, t, s) { Divide(info, t, s); }
      if parts :| Divides(info, t, parts, s) {
        var k := |parts[0]|;
        assert s == parts[0] + Joined(parts[1..]);
        assert s[k..] == Joined(parts[1..]);
        assert Divides(info, t[1..], parts[1..], s[k..]);
        MatchDivides(info, t[1..], s[k..]);
        if !t[0].Star? { assert Fits(info, t[0], parts[0]) && s[0] == parts[0][0]; }
      }
    }
  }

  lemma Divide(info: Info, t: seq<Token>, s: seq<Point>)
    requires t != [] && Match(info, t, s)
    ensures exists parts :: Divides(info, t, parts, s)
    decreases |t|, 0
  {
    var k: nat := 1;
    if t[0].Star? {
      k :| 0 <= k <= |s| && Match(info, t[1..], s[k..]);
    }
    MatchDivides(info, t[1..], s[k..]);
    var rest :| Divides(info, t[1..], rest, s[k..]);
    var parts := [s[..k]] + rest;
    assert parts[1..] == rest && s[..k] + s[k..] == s;
    assert forall i :: 1 <= i < |t| ==> t[i] == t[1..][i - 1];
    assert Divides(info, t, parts, s);
  }
}
