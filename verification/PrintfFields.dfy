/** What the fields of the integer conversions look like, flag by flag and letter by letter
    (src/whprintf.c:955-1021 and 1255-1280; section 7.19.6.1 of ISO C99). */
module PrintfFields {
  import opened Printf

  predicate Decimal(c: char) { '0' <= c <= '9' }

  predicate BlankOrSign(c: char) { c == ' ' || c == '+' || c == '-' }

  /** A hexadecimal digit with small letters, or with capital ones. */
  predicate Hex(c: char, lower: bool) { Decimal(c) || (lower && 'a' <= c <= 'f') || (!lower && 'A' <= c <= 'F') }

  /** The field of conversion `c`. */
  function FieldOf(c: char, f: Flags, width: int, precision: int, v: int): string
    requires Known(c)
  {
    Field(ConversionOf(c), f, width, precision, v)
  }

  /** Zeros, digits and ending: what follows the sign. */
  function Tail(cv: Conversion, f: Flags, width: int, precision: int, v: int): string
    requires 2 <= cv.base <= 16
  {
    var number := Digits(cv.base, cv.lower, Magnitude(v)) + Suffix(cv, Magnitude(v));
    Repeat('0', Precision(cv, f, width, precision, v) - |number|) + number
  }

  predicate ToTheLeft(f: Flags, width: int) { f.left || width < 0 }

  /** The blanks on the left of a field, and those on its right. */
  function Before(f: Flags, width: int, n: int): (s: string)
    ensures |s| == if ToTheLeft(f, width) || n <= 0 then 0 else n
    ensures forall i :: 0 <= i < |s| ==> s[i] == ' '
  {
    if ToTheLeft(f, width) then "" else Repeat(' ', n)
  }

  function Behind(f: Flags, width: int, n: int): (s: string)
    ensures |s| == if ToTheLeft(f, width) && n > 0 then n else 0
    ensures forall i :: 0 <= i < |s| ==> s[i] == ' '
  {
    if ToTheLeft(f, width) then Repeat(' ', n) else ""
  }

  /** A field without a mark: blanks on one side, sign, and the rest. */
  lemma Parts(cv: Conversion, f: Flags, width: int, precision: int, v: int)
    requires 2 <= cv.base <= 16 && (cv.mark == "" || !f.alternate || v == 0)
    ensures var sign, tail := Sign(cv, f, v), Tail(cv, f, width, precision, v);
            var n := Width(width) - |sign| - |tail|;
            Field(cv, f, width, precision, v) == Before(f, width, n) + sign + tail + Behind(f, width, n)
  {
    hide Digits, Suffix, Sign, Precision, Repeat, Width;
    var sign, tail := Sign(cv, f, v), Tail(cv, f, width, precision, v);
    var body := Body(cv, f, width, precision, v);
    assert body == Core(cv, f, width, precision, v) == sign + tail;
    var pad := Repeat(' ', Width(width) - |body|);
    assert pad + (sign + tail) == pad + sign + tail + "" && sign + tail + pad == "" + sign + tail + pad;
  }

  lemma {:induction false} DecimalDigits(m: nat)
    ensures forall i :: 0 <= i < |Digits(10, false, m)| ==> Decimal(Digits(10, false, m)[i])
    decreases m
  {
    if m >= 10 { DecimalDigits(m / 10); }
  }

  /** Behind the sign a decimal conversion has a digit, and no blank or sign any more. */
  lemma DecimalTail(c: char, f: Flags, width: int, precision: int, v: int)
    requires c in {'d', 'i', 'r', 'u'}
    ensures var t := Tail(ConversionOf(c), f, width, precision, v);
            && t != "" && Decimal(t[0]) && (forall i :: 0 <= i < |t| ==> !BlankOrSign(t[i]))
            && (c != 'r' ==> forall i :: 0 <= i < |t| ==> Decimal(t[i]))
  {
    var cv, m := ConversionOf(c), Magnitude(v);
    DecimalDigits(m);
    EndingLetters(cv, m);
    assert cv.base == 10 && !cv.lower && (c != 'r' ==> !cv.ordinal);
    hide Digits, Suffix, Precision, Repeat, ConversionOf;
    var number := Digits(10, false, m) + Suffix(cv, m);
    DecimalNumber(Repeat('0', Precision(cv, f, width, precision, v) - |number|), Digits(10, false, m), Suffix(cv, m));
  }

  lemma DecimalNumber(zeros: string, digits: string, ending: string)
    requires digits != "" && forall i :: 0 <= i < |digits| ==> Decimal(digits[i])
    requires (forall i :: 0 <= i < |zeros| ==> zeros[i] == '0')
             && (forall i :: 0 <= i < |ending| ==> !BlankOrSign(ending[i]))
    ensures var t := zeros + (digits + ending);
            && t != "" && Decimal(t[0]) && (forall i :: 0 <= i < |t| ==> !BlankOrSign(t[i]))
            && (ending == "" ==> forall i :: 0 <= i < |t| ==> Decimal(t[i]))
  {
  }

  lemma EndingLetters(cv: Conversion, m: nat)
    ensures forall i :: 0 <= i < |Suffix(cv, m)| ==> !BlankOrSign(Suffix(cv, m)[i])
    ensures !cv.ordinal ==> Suffix(cv, m) == ""
  {
  }

  /** The first digit of the field, and what stands before it. */
  ghost predicate Leads(s: string, k: int, sign: char) {
    && 1 <= k < |s| && Decimal(s[k]) && s[k - 1] == sign && forall j :: 0 <= j < k - 1 ==> s[j] == ' '
  }

  lemma SignOf(c: char, f: Flags, v: int)
    requires c in {'d', 'i', 'r'}
    ensures Sign(ConversionOf(c), f, v) == if v < 0 then "-" else if f.plus then "+" else if f.blank then " " else ""
  {
  }

  lemma NoMark(c: char)
    requires c in {'d', 'i', 'r', 'u'}
    ensures ConversionOf(c).mark == ""
  {
  }

  /** A signed field has a minus exactly for a negative value, and a plus exactly for another
      with the plus flag; each stands right before the digits.  Without plus, the blank flag puts
      one blank there; without either there is no sign. */
  lemma SignShown(c: char, f: Flags, width: int, precision: int, v: int)
    requires c in {'d', 'i', 'r'}
    ensures var s := FieldOf(c, f, width, precision, v);
            && ('-' in s <==> v < 0) && ('+' in s <==> v >= 0 && f.plus)
            && (v < 0 ==> exists k :: Leads(s, k, '-'))
            && (v >= 0 && f.plus ==> exists k :: Leads(s, k, '+'))
            && (v >= 0 && !f.plus && f.blank ==> exists k :: Leads(s, k, ' '))
            && (width == 0 && v >= 0 && !f.plus && f.blank ==>
                Leads(s, 1, ' ') && forall i :: 1 <= i < |s| ==> s[i] != ' ')
            && (width == 0 && v >= 0 && !f.plus && !f.blank ==> s != "" && Decimal(s[0]) && ' ' !in s)
  {
    hide Field, Tail, Leads, Sign, ConversionOf, Before, Behind, ToTheLeft, Decimal, BlankOrSign;
    var cv := ConversionOf(c);
    NoMark(c);
    Parts(cv, f, width, precision, v);
    DecimalTail(c, f, width, precision, v);
    SignOf(c, f, v);
    var sign, tail, s := Sign(cv, f, v), Tail(cv, f, width, precision, v), FieldOf(c, f, width, precision, v);
    var n := Width(width) - |sign| - |tail|;
    Placed(Before(f, width, n), sign, tail, Behind(f, width, n), s);
    assert sign != "" ==> Leads(s, |Before(f, width, n)| + 1, sign[0]);
  }

  lemma Placed(before: string, sign: string, tail: string, behind: string, s: string)
    requires s == before + sign + tail + behind
    requires (forall i :: 0 <= i < |before| ==> before[i] == ' ')
             && (forall i :: 0 <= i < |behind| ==> behind[i] == ' ')
    requires |sign| <= 1 && tail != "" && Decimal(tail[0]) && forall i :: 0 <= i < |tail| ==> !BlankOrSign(tail[i])
    ensures s != "" && ('-' in s <==> sign == "-") && ('+' in s <==> sign == "+")
    ensures sign != "" ==> Leads(s, |before| + 1, sign[0])
    ensures before == "" && behind == "" ==>
            (forall i :: |sign| <= i < |s| ==> s[i] != ' ') && (sign == "" ==> Decimal(s[0]) && ' ' !in s)
  {
    assert forall i :: 0 <= i < |before| ==> s[i] == before[i];
    assert sign != "" ==> s[|before|] == sign[0];
    assert forall i :: 0 <= i < |tail| ==> s[|before| + |sign| + i] == tail[i];
    assert forall i :: 0 <= i < |behind| ==> s[|before| + |sign| + |tail| + i] == behind[i];
  }

  // ----- ordinals

  /** What English puts behind a number. */
  function Ending(m: nat): string {
    if m % 100 == 11 || m % 100 == 12 || m % 100 == 13 then "th"
    else if m % 10 == 1 then "st" else if m % 10 == 2 then "nd" else if m % 10 == 3 then "rd" else "th"
  }

  /** Two letters end at place `k`, and only blanks follow. */
  ghost predicate EndsAt(s: string, k: int, letters: string) {
    2 <= k <= |s| && s[k - 2..k] == letters && forall j :: k <= j < |s| ==> s[j] == ' '
  }

  lemma SuffixIs(m: nat)
    ensures Suffix(ConversionOf('r'), m) == Ending(m) && |Ending(m)| == 2
  {
    assert m / 10 % 10 == m % 100 / 10;
    assert m % 10 == m % 100 % 10;
  }

  /** An ordinal ends with its English ending, but for blanks behind it. */
  lemma OrdinalShown(f: Flags, width: int, precision: int, v: int)
    ensures var s, m := FieldOf('r', f, width, precision, v), Magnitude(v);
            exists k :: EndsAt(s, k, Ending(m)) && (!ToTheLeft(f, width) || width == 0 ==> k == |s|)
  {
    hide Field, Sign, Tail, Ending, EndsAt, Suffix, ConversionOf, Before, Behind;
    var cv, m := ConversionOf('r'), Magnitude(v);
    NoMark('r');
    SuffixIs(m);
    Parts(cv, f, width, precision, v);
    TailEnds(cv, f, width, precision, v, Ending(m));
    var sign, tail, s := Sign(cv, f, v), Tail(cv, f, width, precision, v), FieldOf('r', f, width, precision, v);
    var n := Width(width) - |sign| - |tail|;
    EndPlaced(Before(f, width, n) + sign, tail, Behind(f, width, n), Ending(m));
    assert EndsAt(s, |s| - |Behind(f, width, n)|, Ending(m));
  }

  lemma TailEnds(cv: Conversion, f: Flags, width: int, precision: int, v: int, e: string)
    requires 2 <= cv.base <= 16 && Suffix(cv, Magnitude(v)) == e && |e| == 2
    ensures var t := Tail(cv, f, width, precision, v); |t| >= 2 && t[|t| - 2..] == e
  {
    hide Digits, Suffix, Precision, Repeat;
  }

  lemma EndPlaced(before: string, tail: string, behind: string, e: string)
    requires |e| == 2 <= |tail| && tail[|tail| - 2..] == e && forall i :: 0 <= i < |behind| ==> behind[i] == ' '
    ensures EndsAt(before + tail + behind, |before| + |tail|, e)
  {
    var s, k := before + tail + behind, |before| + |tail|;
    assert s[k - 2..k] == tail[|tail| - 2..];
    assert forall j :: k <= j < |s| ==> s[j] == behind[j - k];
  }

  // ----- padding

  lemma {:induction false} HexDigits(base: nat, lower: bool, m: nat)
    requires 2 <= base <= 16
    ensures forall i :: 0 <= i < |Digits(base, lower, m)| ==>
              Hex(Digits(base, lower, m)[i], lower)
    decreases m
  {
    if m >= base {
      assert m / base < m by { DivStep(base, m); }
      HexDigits(base, lower, m / base);
    }
  }

  lemma NumberSolid(cv: Conversion, m: nat)
    requires 2 <= cv.base <= 16
    ensures var number := Digits(cv.base, cv.lower, m) + Suffix(cv, m);
            number != "" && forall i :: 0 <= i < |number| ==> number[i] != ' '
  {
    HexDigits(cv.base, cv.lower, m);
    EndingLetters(cv, m);
    hide Digits, Suffix;
  }

  lemma SolidEnds(sign: string, zeros: string, number: string)
    requires |sign| <= 1 && number != "" && (forall i :: 0 <= i < |number| ==> number[i] != ' ')
    requires forall i :: 0 <= i < |zeros| ==> zeros[i] != ' '
    ensures var core := sign + zeros + number;
            core != "" && core[|core| - 1] != ' ' && (core[0] == ' ' ==> sign == " ")
  {
    var core := sign + zeros + number;
    assert core[|core| - 1] == number[|number| - 1];
    assert core[0] == if sign != "" then sign[0] else if zeros != "" then zeros[0] else number[0];
  }

  lemma CoreEnds(cv: Conversion, f: Flags, width: int, precision: int, v: int)
    requires 2 <= cv.base <= 16
    ensures var core := Core(cv, f, width, precision, v);
            core != "" && core[|core| - 1] != ' ' && (core[0] == ' ' ==> Sign(cv, f, v) == " ")
  {
    NumberSolid(cv, Magnitude(v));
    OneChar(cv, f, v);
    hide Digits, Suffix, Precision, Repeat, Sign;
    var number := Digits(cv.base, cv.lower, Magnitude(v)) + Suffix(cv, Magnitude(v));
    var zeros := Repeat('0', Precision(cv, f, width, precision, v) - |number|);
    SolidEnds(Sign(cv, f, v), zeros, number);
  }

  /** A body does not end with a blank, and starts with one only if that is its sign. */
  lemma BodyEnds(cv: Conversion, f: Flags, width: int, precision: int, v: int)
    requires 2 <= cv.base <= 16 && cv.mark in {"", "0", "x0", "X0"}
    ensures var b := Body(cv, f, width, precision, v);
            b != "" && b[|b| - 1] != ' ' && (b[0] == ' ' ==> Sign(cv, f, v) == " ")
  {
    CoreEnds(cv, f, width, precision, v);
    MarksRead();
    hide Core, Sign, Reversed;
    var core, b := Core(cv, f, width, precision, v), Body(cv, f, width, precision, v);
    if b != core {
      var r := Reversed(cv.mark);
      assert b == r + core && b[0] == r[0] && b[|b| - 1] == core[|core| - 1];
    }
  }

  lemma OneChar(cv: Conversion, f: Flags, v: int)
    ensures |Sign(cv, f, v)| <= 1 && (Sign(cv, f, v) != "" && Sign(cv, f, v)[0] == ' ' ==> Sign(cv, f, v) == " ")
  {
  }

  lemma MarksRead()
    ensures Reversed("0") == "0" && Reversed("x0") == "0x" && Reversed("X0") == "0X"
  {
    assert "x0"[1..] == "0" && "X0"[1..] == "0" && Reversed("0") == "0";
  }

  /** The sign is a blank: a signed conversion, no negative value, the blank flag without plus. */
  predicate BlankSigned(c: char, f: Flags, v: int) { c in {'d', 'i', 'r'} && v >= 0 && !f.plus && f.blank }

  /** A field is at least as wide as asked for, up to 340.  Blanks fill it up on its left, or on
      its right with the minus flag or a negative width; there are none once it is wide enough. */
  lemma PaddingShown(c: char, f: Flags, width: int, precision: int, v: int)
    requires Known(c)
    ensures var s := FieldOf(c, f, width, precision, v);
            var w := if width < -340 || width > 340 then 340 else if width < 0 then -width else width;
            && s != "" && |s| >= w
            && (!f.left && width >= 0 ==> s[|s| - 1] != ' ')
            && (f.left || width < 0 ==> s[0] == ' ' ==> BlankSigned(c, f, v))
            && (|s| > w ==> s[|s| - 1] != ' ' && (s[0] == ' ' ==> BlankSigned(c, f, v)))
  {
    hide Body, Sign, Repeat, ConversionOf, BlankSigned;
    var cv := ConversionOf(c);
    BlankSign(c, f, v);
    BodyEnds(cv, f, width, precision, v);
    var body := Body(cv, f, width, precision, v);
    Padded(body, Repeat(' ', Width(width) - |body|));
  }

  lemma Padded(body: string, pad: string)
    requires body != ""
    ensures (body + pad)[0] == body[0] && (pad + body)[|pad| + |body| - 1] == body[|body| - 1]
    ensures pad == "" ==> body + pad == body == pad + body
  {
  }

  lemma BlankSign(c: char, f: Flags, v: int)
    requires Known(c)
    ensures Sign(ConversionOf(c), f, v) == " " ==> BlankSigned(c, f, v)
    ensures ConversionOf(c).mark in {"", "0", "x0", "X0"}
  {
  }

  /** With the zero flag a decimal field is filled up with zeros behind its sign instead. */
  lemma ZerosShown(c: char, f: Flags, width: int, precision: int, v: int)
    requires c in {'d', 'i', 'r', 'u'} && f.zeroPad
    ensures ' ' in FieldOf(c, f, width, precision, v) <==> BlankSigned(c, f, v)
  {
    var cv := ConversionOf(c);
    Parts(cv, f, width, precision, v);
    DecimalTail(c, f, width, precision, v);
    TailFills(cv, f, width, precision, v);
    BlankOf(c, f, v);
    var sign, tail, s := Sign(cv, f, v), Tail(cv, f, width, precision, v), FieldOf(c, f, width, precision, v);
    hide Field, Tail, Sign, ConversionOf, Before, Behind;
    var n := Width(width) - |sign| - |tail|;
    Unpadded(Before(f, width, n), sign, tail, Behind(f, width, n));
  }

  lemma Unpadded(before: string, sign: string, tail: string, behind: string)
    requires before == "" && behind == "" && forall i :: 0 <= i < |tail| ==> !BlankOrSign(tail[i])
    ensures ' ' in before + sign + tail + behind <==> ' ' in sign
  {
    assert before + sign + tail + behind == sign + tail;
  }

  lemma BlankOf(c: char, f: Flags, v: int)
    requires c in {'d', 'i', 'r', 'u'}
    ensures |Sign(ConversionOf(c), f, v)| <= 1
    ensures ' ' in Sign(ConversionOf(c), f, v) <==> BlankSigned(c, f, v)
    ensures Sign(ConversionOf(c), f, v) == " " <==> BlankSigned(c, f, v)
  {
  }

  lemma TailFills(cv: Conversion, f: Flags, width: int, precision: int, v: int)
    requires 2 <= cv.base <= 16 && f.zeroPad
    ensures |Tail(cv, f, width, precision, v)| >= Width(width) - |Sign(cv, f, v)|
  {
    hide Digits, Suffix, Sign;
  }

  /** A precision is the least number of characters of an unsigned field, up to 310, which zeros
      in front make up; a number that is longer is not cut. */
  lemma PrecisionShown(c: char, f: Flags, precision: int, v: int)
    requires Known(c) && v >= 0 && !(f.plus || f.blank || f.alternate || f.zeroPad)
    ensures var plain, s := FieldOf(c, f, 0, -1, v), FieldOf(c, f, 0, precision, v);
            var least := if precision > 310 then 310 else precision;
            && |s| == (if least > |plain| then least else |plain|)
            && s[|s| - |plain|..] == plain && forall i :: 0 <= i < |s| - |plain| ==> s[i] == '0'
  {
    var cv := ConversionOf(c);
    UnsignedTail(cv, f, -1, v);
    UnsignedTail(cv, f, precision, v);
    hide Field, Digits, Suffix, ConversionOf;
  }

  lemma UnsignedTail(cv: Conversion, f: Flags, precision: int, v: int)
    requires 2 <= cv.base <= 16 && v >= 0 && !(f.plus || f.blank || f.alternate || f.zeroPad)
    ensures var number := Digits(cv.base, cv.lower, v) + Suffix(cv, v);
            var zeros := Repeat('0', (if precision > 310 then 310 else precision) - |number|);
            number != "" && Field(cv, f, 0, precision, v) == zeros + number
  {
    hide Digits, Suffix, Field, Repeat, Precision, Sign, Before, Behind;
    Parts(cv, f, 0, precision, v);
    LimitIs(cv, f, precision, v);
    var sign, tail := Sign(cv, f, v), Tail(cv, f, 0, precision, v);
    var n := Width(0) - |sign| - |tail|;
    Unfilled(Before(f, 0, n), sign, tail, Behind(f, 0, n), Field(cv, f, 0, precision, v));
  }

  lemma LimitIs(cv: Conversion, f: Flags, precision: int, v: int)
    requires v >= 0 && !(f.plus || f.blank || f.zeroPad)
    ensures Sign(cv, f, v) == "" && Width(0) == 0
    ensures Precision(cv, f, 0, precision, v) == if precision > 310 then 310 else precision
  {
  }

  lemma Unfilled(before: string, sign: string, tail: string, behind: string, s: string)
    requires before == "" && sign == "" && behind == "" && s == before + sign + tail + behind
    ensures s == tail
  {
  }

  // ----- hexadecimal and octal

  /** The letters of hexadecimal digits are small for x and capital for X and p.  The `#` flag
      puts 0x or 0X, of the same letter but for p, before a number that is not zero, and a zero
      before an octal one that has none. */
  lemma MarkShown(c: char, f: Flags, precision: int, v: int)
    requires c in {'x', 'X', 'p', 'o'} && v >= 0
    ensures var s := FieldOf(c, f, 0, precision, v);
            var marked := f.alternate && v > 0;
            && (c == 'x' ==> forall i :: 0 <= i < |s| ==> Hex(s[i], true) || s[i] == 'x')
            && (c == 'X' ==> forall i :: 0 <= i < |s| ==> Hex(s[i], false) || s[i] == 'X')
            && (c == 'p' ==> forall i :: 0 <= i < |s| ==> Hex(s[i], false) || s[i] == 'x')
            && (c in {'x', 'p'} ==> ('x' in s <==> marked) && (marked ==> |s| >= 3 && s[..2] == "0x"))
            && (c == 'X' ==> ('X' in s <==> marked) && (marked ==> |s| >= 3 && s[..2] == "0X"))
            && (c == 'o' && marked ==> s[0] == '0')
  {
    var cv := ConversionOf(c);
    PlainBody(c, f, precision, v);
    TailHex(cv, f, precision, v);
    NoPadding(cv, f, precision, v);
    MarkOf(c);
    var s, tail := FieldOf(c, f, 0, precision, v), Tail(cv, f, 0, precision, v);
    hide ConversionOf, Field, Tail, Body, Reversed, Sign, Suffix;
    Marked(c, cv.mark, tail, f.alternate && v != 0, s);
  }

  lemma MarkOf(c: char)
    requires c in {'x', 'X', 'p', 'o'}
    ensures ConversionOf(c).mark == if c == 'o' then "0" else if c == 'X' then "X0" else "x0"
    ensures !ConversionOf(c).ordinal && (ConversionOf(c).lower <==> c == 'x')
  {
  }

  lemma Marked(c: char, mark: string, tail: string, marked: bool, s: string)
    requires c in {'x', 'X', 'p', 'o'} && mark == if c == 'o' then "0" else if c == 'X' then "X0" else "x0"
    requires tail != "" && forall i :: 0 <= i < |tail| ==> Hex(tail[i], c == 'x')
    requires s == if marked && tail[0] != mark[0] then Reversed(mark) + tail else tail
    ensures (c == 'x' ==> forall i :: 0 <= i < |s| ==> Hex(s[i], true) || s[i] == 'x')
    ensures (c == 'X' ==> forall i :: 0 <= i < |s| ==> Hex(s[i], false) || s[i] == 'X')
    ensures (c == 'p' ==> forall i :: 0 <= i < |s| ==> Hex(s[i], false) || s[i] == 'x')
    ensures (c in {'x', 'p'} ==> ('x' in s <==> marked) && (marked ==> |s| >= 3 && s[..2] == "0x"))
    ensures (c == 'X' ==> ('X' in s <==> marked) && (marked ==> |s| >= 3 && s[..2] == "0X"))
    ensures c == 'o' && marked ==> s[0] == '0'
  {
    MarksRead();
    hide Reversed;
    var r := Reversed(mark);
    if marked && tail[0] != mark[0] {
      assert s == r + tail && s[0] == '0';
      assert forall i :: 0 <= i < |tail| ==> s[|r| + i] == tail[i];
      if |r| == 2 { assert s[..2] == r && s[1] == r[1]; }
    }
  }

  lemma NoPadding(cv: Conversion, f: Flags, precision: int, v: int)
    requires 2 <= cv.base <= 16
    ensures Field(cv, f, 0, precision, v) == Body(cv, f, 0, precision, v)
  {
    hide Body;
    assert Width(0) == 0;
  }

  lemma PlainBody(c: char, f: Flags, precision: int, v: int)
    requires c in {'x', 'X', 'p', 'o'} && v >= 0
    ensures var cv := ConversionOf(c);
            var tail := Tail(cv, f, 0, precision, v);
            && tail != "" && Sign(cv, f, v) == "" && Suffix(cv, v) == ""
            && Body(cv, f, 0, precision, v)
               == if f.alternate && v != 0 && tail[0] != cv.mark[0] then Reversed(cv.mark) + tail else tail
  {
    hide Digits, Precision, Repeat;
    var cv := ConversionOf(c);
    assert Core(cv, f, 0, precision, v) == Tail(cv, f, 0, precision, v);
  }

  lemma TailHex(cv: Conversion, f: Flags, precision: int, v: int)
    requires 2 <= cv.base <= 16 && !cv.ordinal && v >= 0
    ensures var t := Tail(cv, f, 0, precision, v);
            t != "" && forall i :: 0 <= i < |t| ==> Hex(t[i], cv.lower)
  {
    HexDigits(cv.base, cv.lower, v);
    hide Digits, Precision, Repeat;
    var d := Digits(cv.base, cv.lower, v);
    assert d + "" == d;
    var z := Repeat('0', Precision(cv, f, 0, precision, v) - |d|);
    assert Tail(cv, f, 0, precision, v) == z + d;
  }

  /** The number itself: d, i, r and u are decimal, o octal, x, X and p hexadecimal. */
  lemma BaseShown(c: char, f: Flags, width: int, precision: int, v: int)
    requires Known(c) && InRange(ConversionOf(c), v)
    ensures Scan(if c in {'d', 'i', 'r', 'u'} then 10 else if c == 'o' then 8 else 16,
                 FieldOf(c, f, width, precision, v)) == v
    ensures if c in {'d', 'i', 'r'} then 0 - 0x8000_0000_0000_0000 <= v < 0x8000_0000_0000_0000
            else 0 <= v < 0x1_0000_0000_0000_0000
  {
    FieldReadsBack(c, f, width, precision, v);
  }
}
