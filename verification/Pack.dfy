/** Packing several integers by a format string (src/whio_encode.c:581-775). */
module Pack {
  import opened Bytes
  import opened ReturnCodes
  import opened Codec

  const PACK_TAG: Byte := 0xF0

  const COUNT := Field(1, false)

  /** The characters that a format is made of. */
  predicate Known(c: char) { c in " +-1248" }

  function Width(c: char): nat {
    match c case '1' => 1 case '2' => 2 case '4' => 4 case '8' => 8 case _ => 0
  }

  /** The integers a format asks for.  A sign makes the next one signed. */
  function Fields(fmt: string, signed: bool): (r: seq<Field>)
    ensures forall i :: 0 <= i < |r| ==> ValidField(r[i])
  {
    if fmt == "" then []
    else if Width(fmt[0]) != 0 then [Field(Width(fmt[0]), signed)] + Fields(fmt[1..], false)
    else Fields(fmt[1..], signed || fmt[0] == '+' || fmt[0] == '-')
  }

  function SizeOf(fs: seq<Field>): nat {
    if fs == [] then 0 else SizeOf(fs[..|fs| - 1]) + 1 + fs[|fs| - 1].width
  }

  /** After `i` characters of a format, `k` integers were asked for; the rest asks for the others. */
  ghost predicate At(fmt: string, i: nat, signed: bool, k: nat) {
    && i <= |fmt| && k <= |Fields(fmt, false)|
    && Fields(fmt, false)[k..] == Fields(fmt[i..], signed)
  }

  lemma AtStart(fmt: string)
    ensures At(fmt, 0, false, 0)
  {
    assert fmt[0..] == fmt;
  }

  lemma AtEnd(fmt: string, signed: bool, k: nat)
    requires At(fmt, |fmt|, signed, k)
    ensures k == |Fields(fmt, false)|
  {
  }

  lemma AtSkip(fmt: string, i: nat, signed: bool, k: nat)
    requires At(fmt, i, signed, k) && i < |fmt| && Width(fmt[i]) == 0
    ensures At(fmt, i + 1, signed || fmt[i] == '+' || fmt[i] == '-', k)
  {
    assert fmt[i..][1..] == fmt[i + 1..];
  }

  lemma AtItem(fmt: string, i: nat, signed: bool, k: nat)
    requires At(fmt, i, signed, k) && i < |fmt| && Width(fmt[i]) != 0
    ensures k < |Fields(fmt, false)| && Fields(fmt, false)[k] == Field(Width(fmt[i]), signed)
    ensures At(fmt, i + 1, false, k + 1)
  {
    assert fmt[i..][1..] == fmt[i + 1..];
    var fs := Fields(fmt, false);
    assert fs[k..][1..] == fs[k + 1..] && fs[k..][0] == fs[k];
  }

  lemma SizeNext(fs: seq<Field>, k: nat)
    requires k < |fs|
    ensures SizeOf(fs[..k + 1]) == SizeOf(fs[..k]) + 1 + fs[k].width
  {
    assert fs[..k + 1][..k] == fs[..k];
  }

  lemma {:induction false} SizeGrows(fs: seq<Field>, k: nat)
    requires k <= |fs|
    ensures SizeOf(fs[..k]) <= SizeOf(fs)
  {
    if k == |fs| {
      assert fs[..k] == fs;
    } else {
      SizeGrows(fs[..|fs| - 1], k);
      assert fs[..|fs| - 1][..k] == fs[..k];
    }
  }

  /** The encoded size and the item count of a format; 0 bytes for one that is empty or
      has an unknown character. */
  method CalcSize(fmt: string) returns (bytes: nat, items: nat)
    ensures bytes == if Full(fmt) then 3 + SizeOf(Fields(fmt, false)) else 0
    ensures Full(fmt) ==> items == |Fields(fmt, false)|
    ensures SizeByDigits(fmt, bytes, items)
  {
    FormatSize(fmt, false);
    FullIs(fmt);
    hide Fields, SizeOf, At;
    bytes, items := 0, 0;
    if fmt == "" {
      return;
    }
    ghost var fs, sign := Fields(fmt, false), false;
    bytes := 3;
    var i := 0;
    AtStart(fmt);
    NoFields();
    assert fs[..0] == [];
    while i < |fmt|
      invariant 0 <= i <= |fmt| && items <= |fs| && forall j :: 0 <= j < i ==> Known(fmt[j])
      invariant At(fmt, i, sign, items) && bytes == 3 + SizeOf(fs[..items])
    {
      var c := fmt[i];
      if c in " +-" {
        AtSkip(fmt, i, sign, items);
        sign := sign || c != ' ';
      } else if Width(c) != 0 {
        AtItem(fmt, i, sign, items);
        SizeNext(fs, items);
        bytes, items, sign := bytes + 1 + Width(c), items + 1, false;
      } else {
        return 0, items;
      }
      i := i + 1;
    }
    AtEnd(fmt, sign, items);
    assert fs[..items] == fs;
  }

  /** The size and the count in terms of the characters of the format. */
  ghost predicate SizeByDigits(fmt: string, bytes: nat, items: nat) {
    var m := multiset(fmt);
    if fmt != "" && forall i :: 0 <= i < |fmt| ==> fmt[i] in {' ', '+', '-', '1', '2', '4', '8'}
    then bytes == 3 + 2 * m['1'] + 3 * m['2'] + 5 * m['4'] + 9 * m['8']
         && items == m['1'] + m['2'] + m['4'] + m['8']
    else bytes == 0
  }

  lemma FullIs(fmt: string)
    ensures Full(fmt) <==> fmt != "" && forall i :: 0 <= i < |fmt| ==> fmt[i] in {' ', '+', '-', '1', '2', '4', '8'}
  {
  }

  /** Each of the four digits asks for one item: a tag and so many bytes. */
  lemma {:induction false} FormatSize(fmt: string, signed: bool)
    ensures var m, fs := multiset(fmt), Fields(fmt, signed);
            && SizeOf(fs) == 2 * m['1'] + 3 * m['2'] + 5 * m['4'] + 9 * m['8']
            && |fs| == m['1'] + m['2'] + m['4'] + m['8']
    decreases |fmt|
  {
    if fmt == "" {
    } else {
      var rest := fmt[1..];
      FrontCounts(fmt);
      hide Width;
      if Width(fmt[0]) != 0 {
        FormatSize(rest, false);
        hide SizeOf;
        SizeFront(Field(Width(fmt[0]), signed), Fields(rest, false));
      } else {
        FormatSize(rest, signed || fmt[0] == '+' || fmt[0] == '-');
      }
    }
  }

  lemma FrontCounts(fmt: string)
    requires fmt != ""
    ensures var c, m, n := fmt[0], multiset(fmt), multiset(fmt[1..]);
            && m['1'] == n['1'] + (if c == '1' then 1 else 0) && m['2'] == n['2'] + (if c == '2' then 1 else 0)
            && m['4'] == n['4'] + (if c == '4' then 1 else 0) && m['8'] == n['8'] + (if c == '8' then 1 else 0)
            && Width(c) == (if c == '1' then 1 else if c == '2' then 2 else if c == '4' then 4
                            else if c == '8' then 8 else 0)
  {
    assert fmt == [fmt[0]] + fmt[1..];
    assert multiset(fmt) == multiset{fmt[0]} + multiset(fmt[1..]);
  }

  lemma {:induction false} SizeFront(f: Field, fs: seq<Field>)
    ensures SizeOf([f] + fs) == 1 + f.width + SizeOf(fs)
  {
    var all := [f] + fs;
    if fs == [] {
      assert all[..0] == [];
    } else {
      assert all[..|all| - 1] == [f] + fs[..|fs| - 1];
      SizeFront(f, fs[..|fs| - 1]);
    }
  }

  lemma NoFields()
    ensures SizeOf([]) == 0
  {
  }

  /** A format that asks for something in known characters alone. */
  predicate Full(fmt: string) { fmt != "" && forall i :: 0 <= i < |fmt| ==> Known(fmt[i]) }

  /** The encoded values, one after the other. */
  function Body(fs: seq<Field>, vs: seq<int>): (b: seq<Byte>)
    requires |fs| == |vs| && forall i :: 0 <= i < |fs| ==> ValidField(fs[i])
    ensures |b| == SizeOf(fs)
  {
    if fs == [] then []
    else Body(fs[..|fs| - 1], vs[..|fs| - 1]) + EncodeInt(fs[|fs| - 1], vs[|fs| - 1])
  }

  /** What packing writes, with the bytes of the item count given. */
  function Packed(fs: seq<Field>, vs: seq<int>, count: seq<Byte>): seq<Byte>
    requires |fs| == |vs| && forall i :: 0 <= i < |fs| ==> ValidField(fs[i])
  {
    [PACK_TAG] + count + Body(fs, vs)
  }

  /** Packs `args` by `fmt` into `dest`.  The item count is filled in last, and only if
      the size came out as computed; otherwise its bytes stay what they were. */
  method EncodePack(dest: array<Byte>, fmt: string, args: seq<int>) returns (rc: nat, itemCount: nat)
    requires |args| == |Fields(fmt, false)| && 3 + SizeOf(Fields(fmt, false)) <= dest.Length
    modifies dest
    ensures rc == 3 + SizeOf(Fields(fmt, false)) && itemCount == |args|
    ensures dest[..rc] == Packed(Fields(fmt, false), args, if Full(fmt) then EncodeInt(COUNT, |args|)
                                 else old(dest[1..3]))
    ensures dest[rc..] == old(dest[rc..])
  {
    hide Fields, SizeOf, At, Packed, EncodeInt, Full, SizeByDigits;
    var shouldBytes, _ := CalcSize(fmt);
    ghost var fs, was, whole := Fields(fmt, false), dest[1..3], dest[..];
    AtStart(fmt);
    PackedNone(was);
    Store(dest, 0, [PACK_TAG]);
    rc := 3;
    var i, count, isSigned := 0, 0, false;
    assert fs[..0] == [] && args[..0] == [];
    while i < |fmt|
      invariant 0 <= i <= |fmt| && count <= |args|
      invariant At(fmt, i, isSigned, count)
      invariant rc == 3 + SizeOf(fs[..count]) <= dest.Length
      invariant dest[..rc] == Packed(fs[..count], args[..count], was) && dest[rc..] == whole[rc..]
    {
      var c := fmt[i];
      if Width(c) != 0 {
        AtItem(fmt, i, isSigned, count);
        PutItem(dest, rc, fs, args, count, Field(Width(c), isSigned), was, whole);
        rc, count, isSigned := rc + 1 + Width(c), count + 1, false;
      } else {
        AtSkip(fmt, i, isSigned, count);
        if c == '+' || c == '-' {
          isSigned := true;
        }
      }
      i := i + 1;
    }
    AtEnd(fmt, isSigned, count);
    assert fs[..count] == fs && args[..count] == args;
    if shouldBytes == rc {
      PackedCount(fs, args, was, EncodeInt(COUNT, count));
      Store(dest, 1, EncodeInt(COUNT, count));
    }
    itemCount := count;
  }

  /** Encodes one more value at the end of what is packed already. */
  method PutItem(dest: array<Byte>, rc: nat, ghost fs: seq<Field>, args: seq<int>, k: nat, f: Field,
                 ghost was: seq<Byte>,
                 ghost whole: seq<Byte>)
    requires |fs| == |args| && forall i :: 0 <= i < |fs| ==> ValidField(fs[i])
    requires k < |fs| && fs[k] == f && 3 + SizeOf(fs) <= dest.Length
    requires rc == 3 + SizeOf(fs[..k]) <= dest.Length && dest[..rc] == Packed(fs[..k], args[..k], was)
    requires |whole| == dest.Length && dest[rc..] == whole[rc..]
    modifies dest
    ensures rc + 1 + f.width == 3 + SizeOf(fs[..k + 1]) <= dest.Length
    ensures dest[..rc + 1 + f.width] == Packed(fs[..k + 1], args[..k + 1], was)
    ensures dest[rc + 1 + f.width..] == whole[rc + 1 + f.width..]
  {
    SizeNext(fs, k);
    SizeGrows(fs, k + 1);
    NextItem(fs, args, k, was);
    hide SizeOf, Packed, EncodeInt;
    ghost var a := dest[..];
    Store(dest, rc, EncodeInt(f, args[k]));
    SpliceParts(a, rc, EncodeInt(f, args[k]));
    assert a[rc..][1 + f.width..] == whole[rc..][1 + f.width..];
  }

  lemma NextItem(fs: seq<Field>, vs: seq<int>, k: nat, count: seq<Byte>)
    requires |fs| == |vs| && forall i :: 0 <= i < |fs| ==> ValidField(fs[i])
    requires k < |fs|
    ensures Packed(fs[..k + 1], vs[..k + 1], count) == Packed(fs[..k], vs[..k], count) + EncodeInt(fs[k], vs[k])
  {
    assert fs[..k + 1][..k] == fs[..k] && vs[..k + 1][..k] == vs[..k];
  }

  lemma PackedNone(count: seq<Byte>)
    ensures Packed([], [], count) == [PACK_TAG] + count && SizeOf([]) == 0
  {
  }

  lemma PackedCount(fs: seq<Field>, vs: seq<int>, was: seq<Byte>, count: seq<Byte>)
    requires |fs| == |vs| && forall i :: 0 <= i < |fs| ==> ValidField(fs[i])
    requires |was| == |count|
    ensures 1 + |count| <= |Packed(fs, vs, was)| && Splice(Packed(fs, vs, was), 1, count) == Packed(fs, vs, count)
  {
  }

  // ----- unpacking

  /** Where the encoding of item `i` starts. */
  function Place(fs: seq<Field>, i: nat): nat
    requires i <= |fs|
  {
    3 + SizeOf(fs[..i])
  }

  function Item(fs: seq<Field>, src: seq<Byte>, i: nat): Decoded
    requires i < |fs| && ValidField(fs[i]) && Place(fs, i) + 1 + fs[i].width <= |src|
  {
    DecodeInt(fs[i], src[Place(fs, i)..])
  }

  lemma PlaceFits(fs: seq<Field>, i: nat)
    requires i < |fs|
    ensures Place(fs, i) + 1 + fs[i].width == Place(fs, i + 1) <= 3 + SizeOf(fs)
  {
    SizeNext(fs, i);
    SizeGrows(fs, i + 1);
  }

  /** Every item is there with its tag. */
  ghost predicate Tagged(fs: seq<Field>, src: seq<Byte>, k: nat)
    requires k <= |fs| && forall i :: 0 <= i < |fs| ==> ValidField(fs[i])
  {
    forall i :: 0 <= i < k ==> Place(fs, i) + 1 + fs[i].width <= |src| && Item(fs, src, i).Value?
  }

  /** What makes unpacking succeed. */
  ghost predicate Opens(fmt: string, src: seq<Byte>)
    requires |src| >= 3
  {
    var fs := Fields(fmt, false);
    && Full(fmt) && src[0] == PACK_TAG
    && DecodeInt(COUNT, src[1..]) == Value(|fs|) && |fs| > 0
    && Tagged(fs, src, |fs|)
  }

  method DecodePack(src: seq<Byte>, fmt: string) returns (rc: Rc, itemCount: nat, vals: seq<int>)
    requires |src| >= 3 + SizeOf(Fields(fmt, false))
    ensures rc == OK || rc == ConsistencyError
    ensures rc == OK <==> Opens(fmt, src)
    ensures rc == OK ==> itemCount == |vals| == |Fields(fmt, false)|
    ensures rc == OK ==> forall i {:trigger vals[i]} :: 0 <= i < |vals| ==>
              Place(Fields(fmt, false), i) + 1 + Fields(fmt, false)[i].width <= |src|
              && Item(Fields(fmt, false), src, i) == Value(vals[i])
  {
    hide Fields, SizeOf, At, Full, DecodeInt, SizeByDigits;
    itemCount, vals := 0, [];
    var shouldBytes, _ := CalcSize(fmt);
    var packed := DecodeInt(COUNT, src[1..]);
    if src[0] != PACK_TAG || packed.Wrong? || packed.v == 0 {
      return ConsistencyError, itemCount, vals;
    }
    ghost var fs := Fields(fmt, false);
    var at, i, isSigned := 3, 0, false;
    AtStart(fmt);
    NoFields();
    assert fs[..0] == [];
    while i < |fmt|
      invariant 0 <= i <= |fmt| && |vals| <= |fs|
      invariant At(fmt, i, isSigned, |vals|) && at == Place(fs, |vals|)
      invariant Tagged(fs, src, |vals|)
      invariant forall j {:trigger vals[j]} :: 0 <= j < |vals| ==> Item(fs, src, j) == Value(vals[j])
    {
      var c := fmt[i];
      if Width(c) != 0 {
        AtItem(fmt, i, isSigned, |vals|);
        PlaceFits(fs, |vals|);
        var f := Field(Width(c), isSigned);
        var d := DecodeInt(f, src[at..]);
        if d.Wrong? {
          WrongTag(fs, src, |vals|);
          return d.rc, |vals|, vals;
        }
        vals, at, isSigned := vals + [d.v], at + 1 + f.width, false;
      } else {
        AtSkip(fmt, i, isSigned, |vals|);
        if c == '+' || c == '-' {
          isSigned := true;
        }
      }
      i := i + 1;
    }
    AtEnd(fmt, isSigned, |vals|);
    assert fs[..|fs|] == fs;
    itemCount := |vals|;
    rc := if shouldBytes != at || packed.v != itemCount then ConsistencyError else OK;
  }

  lemma WrongTag(fs: seq<Field>, src: seq<Byte>, k: nat)
    requires k < |fs| && forall i :: 0 <= i < |fs| ==> ValidField(fs[i])
    requires Place(fs, k) + 1 + fs[k].width <= |src| && Item(fs, src, k).Wrong?
    ensures !Tagged(fs, src, |fs|) && Item(fs, src, k).rc == ConsistencyError
  {
  }

  lemma {:induction false} BodyPrefix(fs: seq<Field>, vs: seq<int>, k: nat)
    requires |fs| == |vs| && k <= |fs| && forall j :: 0 <= j < |fs| ==> ValidField(fs[j])
    ensures Body(fs[..k], vs[..k]) <= Body(fs, vs)
  {
    if k == |fs| {
      assert fs[..k] == fs && vs[..k] == vs;
    } else {
      var n := |fs| - 1;
      BodyPrefix(fs[..n], vs[..n], k);
      assert fs[..n][..k] == fs[..k] && vs[..n][..k] == vs[..k];
    }
  }

  lemma BodyItem(fs: seq<Field>, vs: seq<int>, i: nat)
    requires |fs| == |vs| && i < |fs| && forall j :: 0 <= j < |fs| ==> ValidField(fs[j])
    ensures SizeOf(fs[..i]) + 1 + fs[i].width == SizeOf(fs[..i + 1]) <= |Body(fs, vs)|
    ensures Body(fs, vs)[SizeOf(fs[..i])..SizeOf(fs[..i + 1])] == EncodeInt(fs[i], vs[i])
  {
    hide EncodeInt;
    SizeNext(fs, i);
    BodyPrefix(fs, vs, i + 1);
    var p := Body(fs[..i + 1], vs[..i + 1]);
    assert fs[..i + 1][..i] == fs[..i] && vs[..i + 1][..i] == vs[..i];
    assert p == Body(fs[..i], vs[..i]) + EncodeInt(fs[i], vs[i]);
    assert Body(fs, vs)[..|p|] == p;
  }

  /** Unpacking what was packed with the same format, of 1 to 255 items, gives the values
      back; each as its type holds it, so those in range come back unchanged. */
  lemma PackRoundTrip(fmt: string, vs: seq<int>, src: seq<Byte>)
    requires var fs := Fields(fmt, false);
             && Full(fmt) && |vs| == |fs| && |src| >= 3 + SizeOf(fs)
             && src[..3 + SizeOf(fs)] == Packed(fs, vs, EncodeInt(COUNT, |fs|))
    ensures Opens(fmt, src) <==> 1 <= |vs| <= 255
    ensures forall i :: 0 <= i < |vs| ==>
              && Place(Fields(fmt, false), i) + 1 + Fields(fmt, false)[i].width <= |src|
              && Item(Fields(fmt, false), src, i) == Value(Narrow(Fields(fmt, false)[i], vs[i]))
              && (InRange(Fields(fmt, false)[i], vs[i]) ==> Item(Fields(fmt, false), src, i) == Value(vs[i]))
  {
    hide Fields, SizeOf, Packed, Full, Item, Narrow, InRange, EncodeInt, DecodeInt, Place;
    var fs := Fields(fmt, false);
    CountBack(fs, vs, src);
    forall i | 0 <= i < |fs|
      ensures Place(fs, i) + 1 + fs[i].width <= |src| && Item(fs, src, i) == Value(Narrow(fs[i], vs[i]))
      ensures InRange(fs[i], vs[i]) ==> Item(fs, src, i) == Value(vs[i])
    {
      ItemBack(fs, vs, src, i);
    }
  }

  lemma ItemBack(fs: seq<Field>, vs: seq<int>, src: seq<Byte>, i: nat)
    requires |fs| == |vs| && i < |fs| && forall j :: 0 <= j < |fs| ==> ValidField(fs[j])
    requires |src| >= 3 + SizeOf(fs) && src[..3 + SizeOf(fs)] == Packed(fs, vs, EncodeInt(COUNT, |fs|))
    ensures Place(fs, i) + 1 + fs[i].width <= |src| && Item(fs, src, i) == Value(Narrow(fs[i], vs[i]))
    ensures InRange(fs[i], vs[i]) ==> Item(fs, src, i) == Value(vs[i])
  {
    hide EncodeInt, DecodeInt, Narrow, Body, SizeOf;
    PlaceFits(fs, i);
    BodyItem(fs, vs, i);
    var p, w := Place(fs, i), 1 + fs[i].width;
    var all := Packed(fs, vs, EncodeInt(COUNT, |fs|));
    AfterHeader([PACK_TAG] + EncodeInt(COUNT, |fs|), Body(fs, vs), p - 3, p - 3 + w);
    assert src[p..][..w] == src[..3 + SizeOf(fs)][p..p + w];
    IntRoundTrip(fs[i], vs[i], src[p..]);
  }

  lemma AfterHeader(h: seq<Byte>, b: seq<Byte>, lo: nat, hi: nat)
    requires lo <= hi <= |b|
    ensures (h + b)[|h| + lo..|h| + hi] == b[lo..hi]
  {
  }

  lemma CountBack(fs: seq<Field>, vs: seq<int>, src: seq<Byte>)
    requires |fs| == |vs| && forall j :: 0 <= j < |fs| ==> ValidField(fs[j])
    requires |src| >= 3 + SizeOf(fs) && src[..3 + SizeOf(fs)] == Packed(fs, vs, EncodeInt(COUNT, |fs|))
    ensures src[0] == PACK_TAG && DecodeInt(COUNT, src[1..]) == Value(|fs| % 256)
  {
    hide EncodeInt, DecodeInt;
    var all := Packed(fs, vs, EncodeInt(COUNT, |fs|));
    assert src[0] == all[0] && src[1..][..2] == all[1..3];
    IntRoundTrip(COUNT, |fs|, src[1..]);
  }

  // ----- formats of one item, byte by byte

  /** One digit, behind any number of blanks and signs: a sign makes the item signed. */
  predicate OneDigit(fmt: string) {
    fmt != "" && fmt[|fmt| - 1] in "1248" && forall i :: 0 <= i < |fmt| - 1 ==> fmt[i] in " +-"
  }

  predicate HasSign(fmt: string) { '+' in fmt || '-' in fmt }

  /** What such a format packs a value to: tag, count, the item's tag, and its bytes, highest
      first. */
  lemma OneItemBytes(fmt: string, v: int)
    requires OneDigit(fmt)
    ensures |Fields(fmt, false)| == 1
    ensures var b, c, s := Packed(Fields(fmt, false), [v], EncodeInt(COUNT, 1)), fmt[|fmt| - 1], HasSign(fmt);
            && (c == '1' ==> b == [0xF0, 0x88, 1, 0x88, v % 256])
            && (c == '2' ==> b == [0xF0, 0x88, 1, if s then 0x91 else 0x90, v / 0x100 % 256, v % 256])
            && (c == '4' ==> b == [0xF0, 0x88, 1, if s then 0xA1 else 0xA0,
                                   v / 0x100_0000 % 256, v / 0x1_0000 % 256, v / 0x100 % 256, v % 256])
            && (c == '8' ==> b == [0xF0, 0x88, 1, if s then 0xC1 else 0xC0] + HighFirst(v))
  {
    OneField(fmt, false);
    hide EncodeInt, Fields, HighFirst, Packed, HasSign, OneDigit;
    var f := Fields(fmt, false)[0];
    PackedOne(f, v);
    EncodedBytes(f, v);
    assert Fields(fmt, false) == [f];
  }

  lemma {:induction false} OneField(fmt: string, signed: bool)
    requires OneDigit(fmt)
    ensures Fields(fmt, signed) == [Field(DigitWidth(fmt[|fmt| - 1]), signed || HasSign(fmt))]
    decreases |fmt|
  {
    if |fmt| == 1 {
      assert fmt[1..] == "" && Fields("", false) == [];
    } else {
      var rest := fmt[1..];
      OneField(rest, signed || fmt[0] == '+' || fmt[0] == '-');
      assert fmt == [fmt[0]] + rest && rest[|rest| - 1] == fmt[|fmt| - 1];
      assert HasSign(fmt) <==> HasSign(rest) || fmt[0] == '+' || fmt[0] == '-';
    }
  }

  lemma PackedOne(f: Field, v: int)
    requires ValidField(f)
    ensures Packed([f], [v], EncodeInt(COUNT, 1)) == [0xF0, 0x88, 1] + EncodeInt(f, v)
  {
    EncodedBytes(COUNT, 1);
    hide EncodeInt;
    var fs := [f];
    assert fs[..0] == [] && Body(fs[..0], [v][..0]) == [];
    assert Body(fs, [v]) == EncodeInt(f, v);
  }

  function DigitWidth(c: char): nat { if c == '1' then 1 else if c == '2' then 2 else if c == '4' then 4 else 8 }

  /** A format that goes on: the items of the second part follow those of the first.  A sign at
      the end of the first part is for the first item of the second. */
  lemma {:induction false} FieldsJoin(a: string, b: string, signed: bool)
    ensures Fields(a + b, signed) == Fields(a, signed) + Fields(b, Pending(a, signed))
    decreases |a|
  {
    if a == "" {
      assert a + b == b;
    } else {
      assert (a + b)[0] == a[0] && (a + b)[1..] == a[1..] + b;
      FieldsJoin(a[1..], b, false);
      FieldsJoin(a[1..], b, signed || a[0] == '+' || a[0] == '-');
    }
  }

  /** A sign that no item has taken yet. */
  function Pending(a: string, signed: bool): bool
    decreases |a|
  {
    if a == "" then signed else Pending(a[1..], if a[0] in "1248" then false else signed || a[0] in "+-")
  }
}
