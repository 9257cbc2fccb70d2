/** Tagged fixed-width integers, the unit of every record on disk (src/whio_encode.c:27-260). */
module Codec {
  import opened Arithmetic
  import opened Bytes
  import opened ReturnCodes

  function Power(w: nat): (p: nat)
    ensures p > 0
  {
    if w == 0 then 1 else 256 * Power(w - 1)
  }

  /** The `w` low bytes of `v`, highest first. */
  function BigEndian(w: nat, v: nat): (b: seq<Byte>)
    ensures |b| == w
  {
    if w == 0 then [] else BigEndian(w - 1, v / 256) + [v % 256]
  }

  function FromBig(b: seq<Byte>): nat {
    if b == [] then 0 else 256 * FromBig(b[..|b| - 1]) + b[|b| - 1]
  }

  lemma {:induction false} FromBigBound(b: seq<Byte>)
    ensures FromBig(b) < Power(|b|)
  {
    if b == [] {
    } else {
      FromBigBound(b[..|b| - 1]);
    }
  }

  lemma {:induction false} BigEndianRound(w: nat, v: nat)
    ensures FromBig(BigEndian(w, v)) == v % Power(w)
  {
    if w == 0 {
    } else {
      BigEndianRound(w - 1, v / 256);
      assert BigEndian(w, v)[..w - 1] == BigEndian(w - 1, v / 256);
      ModSplit(v, Power(w - 1));
    }
  }

  lemma ModSplit(v: nat, p: nat)
    requires p > 0
    ensures v % (256 * p) == 256 * ((v / 256) % p) + v % 256
  {
    var q, r := v / 256 / p, (v / 256) % p;
    assert v / 256 == q * p + r;
    assert v == q * (256 * p) + (256 * r + v % 256) by {
      assert 256 * (q * p) == q * (256 * p);
    }
    Remainder(256 * p, q, 256 * r + v % 256);
  }

  /** An integer type by its width in bytes. */
  datatype Field = Field(width: nat, signed: bool)

  predicate ValidField(f: Field) { f.width in {1, 2, 4, 8} }

  /** Each type has its tag byte; the signed and the unsigned byte share theirs. */
  function Tag(f: Field): Byte
    requires ValidField(f)
  {
    0x80 + 8 * f.width % 128 + (if f.signed && f.width > 1 then 1 else 0)
  }

  /** The value as the type stores it: two's complement, the excess cut off. */
  function Narrow(f: Field, v: int): int {
    var u := v % Power(f.width);
    if f.signed && 2 * u >= Power(f.width) then u - Power(f.width) else u
  }

  predicate InRange(f: Field, v: int) {
    if f.signed then 0 - Power(f.width) <= 2 * v < Power(f.width) else 0 <= v < Power(f.width)
  }

  lemma NarrowKeeps(f: Field, v: int)
    requires InRange(f, v)
    ensures Narrow(f, v) == v
  {
    if v < 0 {
      NegativeRemainder(v, Power(f.width));
    } else {
      Remainder(Power(f.width), 0, v);
    }
  }

  function EncodeInt(f: Field, v: int): (b: seq<Byte>)
    requires ValidField(f)
    ensures |b| == 1 + f.width
  {
    [Tag(f)] + BigEndian(f.width, v % Power(f.width))
  }

  datatype Decoded = Value(v: int) | Wrong(rc: Rc)

  /** Reads a value back, if the tag is that of the type. */
  function DecodeInt(f: Field, b: seq<Byte>): Decoded
    requires ValidField(f) && |b| >= 1 + f.width
  {
    if b[0] != Tag(f) then Wrong(ConsistencyError) else Value(Narrow(f, FromBig(b[1..1 + f.width])))
  }

  /** Decoding what was encoded gives the value back, as its type holds it. */
  lemma IntRoundTrip(f: Field, v: int, b: seq<Byte>)
    requires ValidField(f) && |b| >= 1 + f.width && b[..1 + f.width] == EncodeInt(f, v)
    ensures DecodeInt(f, b) == Value(Narrow(f, v))
    ensures InRange(f, v) ==> DecodeInt(f, b) == Value(v)
  {
    hide Power, FromBig, BigEndian, InRange;
    var p := Power(f.width);
    assert b[0] == b[..1 + f.width][0];
    assert b[1..1 + f.width] == b[..1 + f.width][1..] == BigEndian(f.width, v % p);
    BigEndianRound(f.width, v % p);
    Remainder(p, 0, v % p);
    if InRange(f, v) { NarrowKeeps(f, v); }
  }

  /** The tag tells every two types apart except the two kinds of byte. */
  lemma TagsDiffer(f: Field, g: Field)
    requires ValidField(f) && ValidField(g)
    ensures Tag(f) == Tag(g) <==> f == g || f.width == g.width == 1
  {
  }

  // ----- the bytes themselves

  /** The bytes of a value, each type spelled out: the tag, then the highest byte first. */
  lemma EncodedBytes(f: Field, v: int)
    requires ValidField(f)
    ensures f == Field(1, false) || f == Field(1, true) ==> EncodeInt(f, v) == [0x88, v % 256]
    ensures f == Field(2, false) ==> EncodeInt(f, v) == [0x90, v / 0x100 % 256, v % 256]
    ensures f == Field(2, true) ==> EncodeInt(f, v) == [0x91, v / 0x100 % 256, v % 256]
    ensures f == Field(4, false) ==>
              EncodeInt(f, v) == [0xA0, v / 0x100_0000 % 256, v / 0x1_0000 % 256, v / 0x100 % 256, v % 256]
    ensures f == Field(4, true) ==>
              EncodeInt(f, v) == [0xA1, v / 0x100_0000 % 256, v / 0x1_0000 % 256, v / 0x100 % 256, v % 256]
    ensures f == Field(8, false) ==> EncodeInt(f, v) == [0xC0] + HighFirst(v)
    ensures f == Field(8, true) ==> EncodeInt(f, v) == [0xC1] + HighFirst(v)
  {
    hide BigEndian, Power, Low, HighFirst;
    LowBytes(f.width, v);
    Spelled(v);
  }

  lemma Unsigned8(v: int)
    ensures EncodeInt(Field(1, false), v) == [0x88, v % 256]
  {
    EncodedBytes(Field(1, false), v);
  }

  lemma Unsigned16(v: int)
    ensures EncodeInt(Field(2, false), v) == [0x90] + Two(v)
  {
    EncodedBytes(Field(2, false), v);
  }

  lemma Unsigned32(v: int)
    ensures EncodeInt(Field(4, false), v) == [0xA0] + Four(v)
  {
    EncodedBytes(Field(4, false), v);
  }

  /** The two and the four low bytes of a value, highest first. */
  function Two(v: int): (b: seq<Byte>) { [v / 0x100 % 256, v % 256] }

  function Four(v: int): (b: seq<Byte>) { [v / 0x100_0000 % 256, v / 0x1_0000 % 256, v / 0x100 % 256, v % 256] }

  function HighFirst(v: int): (b: seq<Byte>)
    ensures |b| == 8
  {
    [v / 0x100_0000_0000_0000 % 256, v / 0x1_0000_0000_0000 % 256, v / 0x100_0000_0000 % 256, v / 0x1_0000_0000 % 256,
     v / 0x100_0000 % 256, v / 0x1_0000 % 256, v / 0x100 % 256, v % 256]
  }

  /** The low bytes of any integer; the excess does not show. */
  function Low(w: nat, v: int): (b: seq<Byte>)
    ensures |b| == w
  {
    if w == 0 then [] else Low(w - 1, v / 256) + [v % 256]
  }

  lemma {:induction false} LowBytes(w: nat, v: int)
    ensures BigEndian(w, v % Power(w)) == Low(w, v)
  {
    if w > 0 {
      var p := Power(w - 1);
      LowBytes(w - 1, v / 256);
      ModOut(v, p);
      assert v % Power(w) / 256 == v / 256 % p && v % Power(w) % 256 == v % 256;
    }
  }

  lemma ModOut(v: int, p: nat)
    requires p > 0
    ensures v % (256 * p) / 256 == v / 256 % p && v % (256 * p) % 256 == v % 256
  {
    var q, r := v / 256 / p, v / 256 % p;
    assert v / 256 == q * p + r;
    assert v == q * (256 * p) + (256 * r + v % 256) by {
      assert 256 * (q * p) == q * (256 * p);
    }
    Remainder(256 * p, q, 256 * r + v % 256);
  }

  /** Byte `i` of `w`, counting from the highest. */
  lemma {:induction false} LowByte(w: nat, v: int, i: nat)
    requires i < w
    ensures Low(w, v)[i] == v / Power(w - 1 - i) % 256
  {
    if i < w - 1 {
      LowByte(w - 1, v / 256, i);
      DivideTwice(v, 256, Power(w - 2 - i));
    }
  }

  lemma Spelled(v: int)
    ensures Low(1, v) == [v % 256] && Low(2, v) == [v / 0x100 % 256, v % 256]
    ensures Low(4, v) == [v / 0x100_0000 % 256, v / 0x1_0000 % 256, v / 0x100 % 256, v % 256]
    ensures Low(8, v) == HighFirst(v)
  {
    hide Low;
    SmallPowers();
    hide Power;
    forall w, i | w in {1, 2, 4, 8} && 0 <= i < w ensures Low(w, v)[i] == v / Power(w - 1 - i) % 256 {
      LowByte(w, v, i);
    }
  }

  lemma SmallPowers()
    ensures Power(0) == 1 && Power(1) == 0x100 && Power(2) == 0x1_0000 && Power(3) == 0x100_0000
    ensures Power(4) == 0x1_0000_0000 && Power(5) == 0x100_0000_0000 && Power(6) == 0x1_0000_0000_0000
    ensures Power(7) == 0x100_0000_0000_0000
  {
    assert Power(2) == 256 * Power(1) && Power(3) == 256 * Power(2) && Power(4) == 256 * Power(3);
    assert Power(5) == 256 * Power(4) && Power(6) == 256 * Power(5) && Power(7) == 256 * Power(6);
  }

  // ----- decoding

  /** The values of each type, in numbers. */
  lemma Limits(f: Field, v: int)
    requires ValidField(f)
    ensures f.width == 1 ==> (InRange(f, v) <==> if f.signed then -128 <= v < 128 else 0 <= v < 256)
    ensures f.width == 2 ==> (InRange(f, v) <==> if f.signed then -0x8000 <= v < 0x8000 else 0 <= v < 0x1_0000)
    ensures f.width == 4 ==>
              (InRange(f, v) <==> if f.signed then -0x8000_0000 <= v < 0x8000_0000 else 0 <= v < 0x1_0000_0000)
    ensures f.width == 8 ==>
              (InRange(f, v) <==> if f.signed then -0x8000_0000_0000_0000 <= v < 0x8000_0000_0000_0000
                                  else 0 <= v < 0x1_0000_0000_0000_0000)
  {
    SmallPowers();
    assert Power(8) == 256 * Power(7);
    hide Power;
  }

  /** What a type makes of any value is one of its own, a whole number of its ranges away. */
  lemma NarrowMeans(f: Field, v: int)
    ensures InRange(f, Narrow(f, v)) && (Narrow(f, v) - v) % Power(f.width) == 0
    ensures Narrow(f, v) % Power(f.width) == v % Power(f.width)
  {
    hide Power;
    var p := Power(f.width);
    var q, u := v / p, v % p;
    assert v == q * p + u;
    WholeAway(p, q, u);
    assert Narrow(f, v) == u || Narrow(f, v) == u - p;
  }

  lemma WholeAway(p: nat, q: int, u: nat)
    requires u < p
    ensures (u - (q * p + u)) % p == 0 && (u - p - (q * p + u)) % p == 0 && u % p == u && (u - p) % p == u
  {
    Remainder(p, 0 - q, 0);
    Remainder(p, 0 - q - 1, 0);
    Remainder(p, 0, u);
    Remainder(p, -1, u);
    assert u - (q * p + u) == (0 - q) * p + 0;
    assert u - p - (q * p + u) == (0 - q - 1) * p + 0;
  }

  lemma {:induction false} FromBigRound(b: seq<Byte>)
    ensures BigEndian(|b|, FromBig(b)) == b
  {
    if b != [] {
      var x, y := FromBig(b[..|b| - 1]), b[|b| - 1];
      FromBigRound(b[..|b| - 1]);
      Remainder(256, x, y);
      assert b == b[..|b| - 1] + [y];
    }
  }

  /** Bytes decode to a value if and only if they are what the value encodes to. */
  lemma DecodedIs(f: Field, b: seq<Byte>, v: int)
    requires ValidField(f) && |b| >= 1 + f.width
    ensures DecodeInt(f, b) == Value(v) <==> InRange(f, v) && EncodeInt(f, v) == b[..1 + f.width]
    ensures DecodeInt(f, b).Wrong? ==> DecodeInt(f, b) == Wrong(ConsistencyError)
  {
    if InRange(f, v) && EncodeInt(f, v) == b[..1 + f.width] { IntRoundTrip(f, v, b); }
    if DecodeInt(f, b) == Value(v) { DecodedBack(f, b); }
  }

  lemma DecodedBack(f: Field, b: seq<Byte>)
    requires ValidField(f) && |b| >= 1 + f.width && DecodeInt(f, b).Value?
    ensures InRange(f, DecodeInt(f, b).v) && EncodeInt(f, DecodeInt(f, b).v) == b[..1 + f.width]
  {
    hide Power, FromBig, BigEndian, Narrow, InRange;
    var t := b[1..1 + f.width];
    FromBigBound(t);
    FromBigRound(t);
    NarrowMeans(f, FromBig(t));
    Remainder(Power(f.width), 0, FromBig(t));
    assert b[..1 + f.width] == [b[0]] + t;
  }
}
