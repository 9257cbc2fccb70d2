/** The integer conversions of the printf engine (src/whprintf.c:784-1021 and the padding
    at the end of the same loop). */
module Printf {
  import opened Arithmetic

  /** WHPRINTF_BUF_SIZE */
  const BUF_SIZE := 350

  const TWO63 := 0x8000_0000_0000_0000
  const TWO64 := 0x1_0000_0000_0000_0000

  datatype Flags = Flags(left: bool, plus: bool, blank: bool, alternate: bool, zeroPad: bool)

  /** A conversion: its base, its digits' case, and what `#` puts before the digits, last
      character first, as the table has it. */
  datatype Conversion = Conversion(base: nat, signed: bool, ordinal: bool, lower: bool, mark: string)

  predicate Known(c: char) { c in {'d', 'i', 'u', 'o', 'x', 'X', 'p', 'r'} }

  function ConversionOf(c: char): (r: Conversion)
    requires Known(c)
    ensures r.base in {8, 10, 16} && |r.mark| <= 2
  {
    match c
    case 'u' => Conversion(10, false, false, false, "")
    case 'o' => Conversion(8, false, false, false, "0")
    case 'x' => Conversion(16, false, false, true, "x0")
    case 'X' => Conversion(16, false, false, false, "X0")
    case 'p' => Conversion(16, false, false, false, "x0")
    case 'r' => Conversion(10, true, true, false, "")
    case _ => Conversion(10, true, false, false, "")
  }

  predicate InRange(cv: Conversion, v: int) {
    if cv.signed then 0 - TWO63 <= v < TWO63 else 0 <= v < TWO64
  }

  const UPPER := "0123456789ABCDEF"
  const LOWER := "0123456789abcdef"

  function DigitChar(d: nat, lower: bool): char
    requires d < 16
  {
    if lower then LOWER[d] else UPPER[d]
  }

  /** The value of a digit, or 16 for a character that is none. */
  function DigitValue(c: char): (d: nat)
    ensures d <= 16
  {
    if '0' <= c <= '9' then (c - '0') as nat
    else if 'a' <= c <= 'f' then (c - 'a') as nat + 10
    else if 'A' <= c <= 'F' then (c - 'A') as nat + 10
    else 16
  }

  lemma DigitBack(d: nat, lower: bool)
    requires d < 16
    ensures DigitValue(DigitChar(d, lower)) == d
  {
  }

  function Digits(base: nat, lower: bool, v: nat): (s: string)
    requires 2 <= base <= 16
    ensures s != ""
    decreases v
  {
    if v < base then [DigitChar(v, lower)] else Digits(base, lower, v / base) + [DigitChar(v % base, lower)]
  }

  /** Reads digits of the base, up to the first character that is none. */
  function ReadDigits(base: nat, s: string, acc: nat): nat {
    if s == "" || DigitValue(s[0]) >= base then acc else ReadDigits(base, s[1..], acc * base + DigitValue(s[0]))
  }

  lemma {:induction false} DigitsRead(base: nat, lower: bool, v: nat, t: string)
    requires 2 <= base <= 16
    ensures ReadDigits(base, Digits(base, lower, v) + t, 0) == ReadDigits(base, t, v)
    decreases v
  {
    hide DigitChar, DigitValue, Digits, ReadDigits;
    DigitsStep(base, lower, v);
    var d := [DigitChar(v % base, lower)];
    OneDigit(base, lower, v % base, t, v / base);
    if v < base {
      assert d + t == Digits(base, lower, v) + t;
    } else {
      DigitsRead(base, lower, v / base, d + t);
      assert Digits(base, lower, v) + t == Digits(base, lower, v / base) + (d + t);
    }
  }

  lemma DigitsStep(base: nat, lower: bool, v: nat)
    requires 2 <= base <= 16
    ensures v / base * base + v % base == v
    ensures if v < base then v % base == v && v / base == 0 else v / base < v
    ensures Digits(base, lower, v) == (if v < base then "" else Digits(base, lower, v / base))
            + [DigitChar(v % base, lower)]
  {
    hide DigitChar;
    DivStep(base, v);
  }

  lemma DivStep(base: nat, v: nat)
    requires base >= 2
    ensures if v < base then v % base == v && v / base == 0 else v / base < v
  {
    if v < base {
      Remainder(base, 0, v);
    } else {
      MulOrder(2, base, v / base);
      MulPositive(v / base, base);
      assert v == v / base * base + v % base;
    }
  }

  lemma OneDigit(base: nat, lower: bool, d: nat, t: string, acc: nat)
    requires d < base <= 16
    ensures ReadDigits(base, [DigitChar(d, lower)] + t, acc) == ReadDigits(base, t, acc * base + d)
  {
    DigitBack(d, lower);
    hide DigitChar, DigitValue;
    assert ([DigitChar(d, lower)] + t)[1..] == t;
  }

  function Repeat(c: char, n: int): (s: string)
    ensures |s| == if n > 0 then n else 0
    ensures forall i :: 0 <= i < |s| ==> s[i] == c
  {
    if n <= 0 then "" else [c] + Repeat(c, n - 1)
  }

  lemma {:induction false} ZerosRead(base: nat, n: int, t: string)
    requires base >= 2
    ensures ReadDigits(base, Repeat('0', n) + t, 0) == ReadDigits(base, t, 0)
  {
    if n > 0 {
      ZerosRead(base, n - 1, t);
      assert (Repeat('0', n) + t)[1..] == Repeat('0', n - 1) + t;
    } else {
      assert Repeat('0', n) + t == t;
    }
  }

  function Lim(n: nat): nat { if n == 0 then 1 else 8 * Lim(n - 1) }

  lemma {:induction false} FewDigits(base: nat, lower: bool, v: nat, n: nat)
    requires 8 <= base <= 16 && n >= 1 && v < Lim(n)
    ensures |Digits(base, lower, v)| <= n
  {
    assert Lim(1) == 8 * Lim(0);
    if v >= base {
      MulOrder(8, base, v / base);
      assert v / base * base <= v;
      FewDigits(base, lower, v / base, n - 1);
    }
  }

  lemma At64Bits(base: nat, lower: bool, v: nat)
    requires 8 <= base <= 16 && v < TWO64
    ensures |Digits(base, lower, v)| <= 22
  {
    assert Lim(4) == 0x1000 && Lim(8) == 0x100_0000 by { assert Lim(6) == 0x4_0000; }
    assert Lim(12) == 0x10_0000_0000 by { assert Lim(10) == 0x4000_0000; }
    assert Lim(16) == 0x1_0000_0000_0000 by { assert Lim(14) == 0x400_0000_0000; }
    assert Lim(20) == 0x1000_0000_0000_0000 by { assert Lim(18) == 0x40_0000_0000_0000; }
    assert Lim(22) == 64 * Lim(20) by { assert Lim(21) == 8 * Lim(20); }
    FewDigits(base, lower, v, 22);
  }

  // ----- the field

  function Sign(cv: Conversion, f: Flags, v: int): string {
    if !cv.signed then "" else if v < 0 then "-" else if f.plus then "+" else if f.blank then " " else ""
  }

  function Magnitude(v: int): nat { if v < 0 then -v else v }

  const ORDINALS := "thstndrd"

  /** Which ending an ordinal number takes in English. */
  function EndingOf(m: nat): nat { if m % 10 >= 4 || m / 10 % 10 == 1 then 0 else m % 10 }

  function Suffix(cv: Conversion, m: nat): string {
    if cv.ordinal then [ORDINALS[2 * EndingOf(m)], ORDINALS[2 * EndingOf(m) + 1]] else ""
  }

  /** The width and the precision as the engine limits them; -1 stands for no precision. */
  function Width(width: int): nat {
    var w := if width < 0 then -width else width;
    if w > BUF_SIZE - 10 then BUF_SIZE - 10 else w
  }

  function Precision(cv: Conversion, f: Flags, width: int, precision: int, v: int): int {
    var p := if precision > BUF_SIZE - 40 then BUF_SIZE - 40 else precision;
    var w := Width(width) - |Sign(cv, f, v)|;
    if f.zeroPad && p < w then w else p
  }

  /** Sign, zeros, digits and ending. */
  function Core(cv: Conversion, f: Flags, width: int, precision: int, v: int): (s: string)
    requires 2 <= cv.base <= 16
    ensures s != ""
  {
    var number := Digits(cv.base, cv.lower, Magnitude(v)) + Suffix(cv, Magnitude(v));
    Sign(cv, f, v) + Repeat('0', Precision(cv, f, width, precision, v) - |number|) + number
  }

  function Reversed(s: string): (r: string)
    ensures |r| == |s|
  {
    if s == "" then "" else Reversed(s[1..]) + [s[0]]
  }

  /** The base's mark goes in front unless it is there already. */
  function Body(cv: Conversion, f: Flags, width: int, precision: int, v: int): string
    requires 2 <= cv.base <= 16
  {
    var core := Core(cv, f, width, precision, v);
    if f.alternate && v != 0 && cv.mark != "" && core[0] != cv.mark[0] then Reversed(cv.mark) + core else core
  }

  /** The field: the body, padded with spaces on the side away from it. */
  function Field(cv: Conversion, f: Flags, width: int, precision: int, v: int): string
    requires 2 <= cv.base <= 16
  {
    var body := Body(cv, f, width, precision, v);
    var pad := Repeat(' ', Width(width) - |body|);
    if f.left || width < 0 then body + pad else pad + body
  }

  // ----- reading a field back

  /** Reads an integer as a person would: spaces, a sign, a hexadecimal mark, digits. */
  function Scan(base: nat, s: string): int {
    if s != "" && s[0] == ' ' then Scan(base, s[1..])
    else if s != "" && s[0] == '-' then -(ReadNumber(base, s[1..]) as int)
    else if s != "" && s[0] == '+' then ReadNumber(base, s[1..])
    else ReadNumber(base, s)
  }

  function ReadNumber(base: nat, s: string): nat {
    if base == 16 && |s| >= 2 && s[0] == '0' && s[1] in "xX" then ReadDigits(base, s[2..], 0)
    else ReadDigits(base, s, 0)
  }

  lemma {:induction false} SpacesScan(base: nat, n: int, t: string)
    ensures Scan(base, Repeat(' ', n) + t) == Scan(base, t)
  {
    if n > 0 {
      SpacesScan(base, n - 1, t);
      assert (Repeat(' ', n) + t)[1..] == Repeat(' ', n - 1) + t;
    } else {
      assert Repeat(' ', n) + t == t;
    }
  }

  /** What follows the digits is no digit: the ordinal endings and the padding. */
  predicate Stops(base: nat, t: string) { t == "" || (DigitValue(t[0]) >= base && t[0] !in "xX") }

  lemma SuffixStops(cv: Conversion, m: nat, n: int)
    requires cv.ordinal ==> cv.base == 10
    requires cv.base in {8, 10, 16}
    ensures Stops(cv.base, Suffix(cv, m) + Repeat(' ', n))
  {
    var t := Suffix(cv, m) + Repeat(' ', n);
    if cv.ordinal {
      assert t[0] == ORDINALS[2 * EndingOf(m)];
      assert ORDINALS[0] == 't' && ORDINALS[2] == 's' && ORDINALS[4] == 'n' && ORDINALS[6] == 'r';
    }
  }

  /** Zeros, digits and anything that stops them read as the number. */
  lemma NumberReads(base: nat, lower: bool, m: nat, zeros: int, t: string)
    requires base in {8, 10, 16} && Stops(base, t)
    ensures var s := Repeat('0', zeros) + (Digits(base, lower, m) + t);
            && ReadDigits(base, s, 0) == m && ReadNumber(base, s) == m
            && s != "" && s[0] !in " +-"
  {
    hide Digits, DigitChar;
    var n := Digits(base, lower, m) + t;
    ZerosRead(base, zeros, n);
    DigitsRead(base, lower, m, t);
    assert ReadDigits(base, t, m) == m;
    DigitsOnly(base, lower, m);
    var s := Repeat('0', zeros) + n;
    assert s[0] == if zeros > 0 then '0' else n[0];
    assert |s| >= 2 ==> s[1] !in "xX" by {
      if |s| >= 2 {
        if zeros >= 2 {
        } else if zeros == 1 {
          assert s[1] == n[0];
        } else if |Digits(base, lower, m)| >= 2 {
          assert s[1] == Digits(base, lower, m)[1];
        } else {
          assert s[1] == t[0];
        }
      }
    }
  }

  lemma {:induction false} DigitsOnly(base: nat, lower: bool, m: nat)
    requires 2 <= base <= 16
    ensures forall i :: 0 <= i < |Digits(base, lower, m)| ==> DigitValue(Digits(base, lower, m)[i]) < 16
    decreases m
  {
    if m < base {
      DigitBack(m, lower);
    } else {
      DigitsOnly(base, lower, m / base);
      DigitBack(m % base, lower);
    }
  }

  /** Every field reads back as the value that was converted, under all flags, widths and
      precisions, padding, sign, mark and ordinal ending included. */
  lemma FieldReadsBack(c: char, f: Flags, width: int, precision: int, v: int)
    requires Known(c) && InRange(ConversionOf(c), v)
    ensures Scan(ConversionOf(c).base, Field(ConversionOf(c), f, width, precision, v)) == v
  {
    hide Scan, Body, Suffix;
    var cv := ConversionOf(c);
    var body := Body(cv, f, width, precision, v);
    var n := Width(width) - |body|;
    if f.left || width < 0 {
      BodyReads(cv, f, width, precision, v, n);
    } else {
      SpacesScan(cv.base, n, body);
      BodyReads(cv, f, width, precision, v, 0);
      assert body + Repeat(' ', 0) == body;
    }
  }

  lemma BodyReads(cv: Conversion, f: Flags, width: int, precision: int, v: int, n: int)
    requires cv.base in {8, 10, 16} && InRange(cv, v) && (cv.ordinal ==> cv.base == 10)
    requires cv.mark != "" ==> !cv.signed
    requires cv.mark in {"", "0", "x0", "X0"} && (cv.mark == "0" ==> cv.base == 8) && (|cv.mark| == 2 ==> cv.base == 16)
    ensures Scan(cv.base, Body(cv, f, width, precision, v) + Repeat(' ', n)) == v
  {
    hide Digits, Suffix, ReadNumber, ReadDigits, Precision, Repeat, Reversed, Scan;
    var m, t := Magnitude(v), Suffix(cv, Magnitude(v)) + Repeat(' ', n);
    var zeros := Precision(cv, f, width, precision, v) - |Digits(cv.base, cv.lower, m) + Suffix(cv, m)|;
    var number := Repeat('0', zeros) + (Digits(cv.base, cv.lower, m) + t);
    SuffixStops(cv, m, n);
    NumberReads(cv.base, cv.lower, m, zeros, t);
    var core := Core(cv, f, width, precision, v);
    var tail := Repeat(' ', n);
    Regroup(Sign(cv, f, v), Repeat('0', zeros), Digits(cv.base, cv.lower, m), Suffix(cv, m), tail);
    if Body(cv, f, width, precision, v) == core {
      SignReads(cv, f, v, number);
    } else {
      MarkReads(cv, number, m);
      Regroup(Reversed(cv.mark), Repeat('0', zeros), Digits(cv.base, cv.lower, m), Suffix(cv, m), tail);
      NoSign(Repeat('0', zeros), Digits(cv.base, cv.lower, m) + Suffix(cv, m));
    }
  }

  lemma Regroup(a: string, b: string, c: string, d: string, e: string)
    ensures (a + b + (c + d)) + e == a + (b + (c + (d + e)))
    ensures (a + (b + (c + d))) + e == a + (b + (c + (d + e)))
  {
  }

  lemma NoSign(z: string, d: string)
    ensures "" + z + d == z + d
  {
  }

  lemma SignReads(cv: Conversion, f: Flags, v: int, number: string)
    requires number != "" && number[0] !in " +-" && ReadNumber(cv.base, number) == Magnitude(v) && InRange(cv, v)
    ensures Scan(cv.base, Sign(cv, f, v) + number) == v
  {
    hide ReadNumber;
    var s := Sign(cv, f, v);
    if s == "" {
      assert s + number == number;
    } else {
      assert (s + number)[1..] == number;
    }
  }

  lemma MarkReads(cv: Conversion, number: string, m: nat)
    requires cv.mark in {"0", "x0", "X0"} && cv.base == (if cv.mark == "0" then 8 else 16)
    requires ReadDigits(cv.base, number, 0) == m
    ensures Scan(cv.base, Reversed(cv.mark) + number) == m
  {
    var s := Reversed(cv.mark) + number;
    if cv.mark == "0" {
      assert Reversed("0") == "0";
      assert s[1..] == number && s[0] == '0';
    } else {
      assert cv.mark[1..] == "0" && Reversed("0") == "0" && Reversed(cv.mark) == ['0', cv.mark[0]];
      assert s[2..] == number && s[0] == '0' && s[1] == cv.mark[0];
    }
  }

  // ----- the conversion

  /** Puts one character in front of what the buffer holds. */
  method Push(buf: array<char>, at: nat, c: char, ghost t: string) returns (bufpt: nat)
    requires buf.Length == BUF_SIZE && 1 <= at <= BUF_SIZE - 1 && buf[at..BUF_SIZE - 1] == t
    modifies buf
    ensures bufpt == at - 1 && buf[bufpt..BUF_SIZE - 1] == [c] + t
  {
    bufpt := at - 1;
    buf[bufpt] := c;
    assert buf[at..BUF_SIZE - 1] == t;
  }

  method PutDigits(buf: array<char>, at: nat, base: nat, lower: bool, v: nat, ghost t: string) returns (bufpt: nat)
    requires buf.Length == BUF_SIZE && 22 <= at <= BUF_SIZE - 1 && buf[at..BUF_SIZE - 1] == t
    requires 8 <= base <= 16 && v < TWO64
    modifies buf
    ensures bufpt < at <= bufpt + 22 && buf[bufpt..BUF_SIZE - 1] == Digits(base, lower, v) + t
  {
    hide Digits, DigitChar;
    At64Bits(base, lower, v);
    ghost var all := Digits(base, lower, v) + t;
    DigitsStep(base, lower, v);
    bufpt := Push(buf, at, DigitChar(v % base, lower), t);
    var n := v / base;
    ghost var done := [DigitChar(v % base, lower)] + t;
    while n > 0
      invariant bufpt < at && buf[bufpt..BUF_SIZE - 1] == done
      invariant all == (if n > 0 then Digits(base, lower, n) else "") + done
      decreases n
    {
      DigitsStep(base, lower, n);
      assert |all| == |Digits(base, lower, n)| + |done|;
      Shift(if n < base then "" else Digits(base, lower, n / base), DigitChar(n % base, lower), done);
      bufpt := Push(buf, bufpt, DigitChar(n % base, lower), done);
      done := [DigitChar(n % base, lower)] + done;
      n := n / base;
    }
    assert done == all;
  }

  lemma Shift(a: string, c: char, b: string)
    ensures (a + [c]) + b == a + ([c] + b)
  {
  }

  method PutZeros(buf: array<char>, at: nat, n: int, ghost t: string) returns (bufpt: nat)
    requires buf.Length == BUF_SIZE && at <= BUF_SIZE - 1 && n <= at && buf[at..BUF_SIZE - 1] == t
    modifies buf
    ensures bufpt == at - (if n > 0 then n else 0) && buf[bufpt..BUF_SIZE - 1] == Repeat('0', n) + t
  {
    hide Repeat;
    NoZeros(n, t);
    bufpt := at;
    var idx := n;
    ghost var k, done := 0, t;
    while idx > 0
      invariant 0 <= k <= bufpt + k == at && (if n > 0 then 0 <= idx == n - k else k == 0 && idx == n)
      invariant done == Repeat('0', k) + t && buf[bufpt..BUF_SIZE - 1] == done
    {
      bufpt := Push(buf, bufpt, '0', done);
      RepeatPush('0', k, t);
      k, done := k + 1, ['0'] + done;
      idx := idx - 1;
    }
  }

  lemma RepeatPush(c: char, k: nat, t: string)
    ensures [c] + (Repeat(c, k) + t) == Repeat(c, k + 1) + t
  {
    RepeatNext(c, k);
    hide Repeat;
    assert [c] + (Repeat(c, k) + t) == ([c] + Repeat(c, k)) + t;
  }

  lemma NoZeros(n: int, t: string)
    ensures Repeat('0', 0) + t == t && (n <= 0 ==> Repeat('0', n) + t == t)
  {
  }

  lemma RepeatNone(c: char)
    ensures forall n: int :: n <= 0 ==> Repeat(c, n) == ""
  {
  }

  lemma RepeatNext(c: char, n: nat)
    ensures Repeat(c, n + 1) == [c] + Repeat(c, n)
  {
  }

  method PutMark(buf: array<char>, at: nat, mark: string, ghost t: string) returns (bufpt: nat)
    requires buf.Length == BUF_SIZE && |mark| <= at <= BUF_SIZE - 1 && buf[at..BUF_SIZE - 1] == t
    modifies buf
    ensures bufpt == at - |mark| && buf[bufpt..BUF_SIZE - 1] == Reversed(mark) + t
  {
    bufpt := at;
    var i := 0;
    ghost var done := t;
    assert mark[0..] == mark;
    while i < |mark|
      invariant 0 <= i <= |mark| && bufpt == at - i && buf[bufpt..BUF_SIZE - 1] == done
      invariant Reversed(mark) + t == Reversed(mark[i..]) + done
    {
      assert mark[i..][1..] == mark[i + 1..];
      bufpt := Push(buf, bufpt, mark[i], done);
      done := [mark[i]] + done;
      i := i + 1;
    }
  }

  /** The precision stays below the size of the buffer. */
  lemma PrecisionFits(cv: Conversion, f: Flags, width: int, precision: int, v: int)
    ensures Precision(cv, f, width, precision, v) <= BUF_SIZE - 10 && |Sign(cv, f, v)| <= 1
  {
  }

  method PutEnding(buf: array<char>, cv: Conversion, m: nat) returns (bufpt: nat)
    requires buf.Length == BUF_SIZE
    modifies buf
    ensures BUF_SIZE - 3 <= bufpt <= BUF_SIZE - 1 && buf[bufpt..BUF_SIZE - 1] == Suffix(cv, m)
  {
    bufpt := BUF_SIZE - 1;
    if cv.ordinal {
      buf[BUF_SIZE - 3] := ORDINALS[2 * EndingOf(m)];
      buf[BUF_SIZE - 2] := ORDINALS[2 * EndingOf(m) + 1];
      bufpt := bufpt - 2;
    }
  }

  lemma CoreIs(sign: string, zeros: string, number: string)
    requires |sign| <= 1
    ensures sign + zeros + number == if sign == "" then zeros + number else [sign[0]] + (zeros + number)
  {
  }

  /** Ending, digits and zeros, from the end of the buffer backwards. */
  method PutNumber(buf: array<char>, cv: Conversion, limit: int, m: nat) returns (bufpt: nat)
    requires buf.Length == BUF_SIZE && 8 <= cv.base <= 16 && m < TWO64 && limit <= BUF_SIZE - 10
    modifies buf
    ensures var number := Digits(cv.base, cv.lower, m) + Suffix(cv, m);
            3 <= bufpt < BUF_SIZE && buf[bufpt..BUF_SIZE - 1] == Repeat('0', limit - |number|) + number
  {
    hide Digits, Repeat, Suffix;
    bufpt := PutEnding(buf, cv, m);
    bufpt := PutDigits(buf, bufpt, cv.base, cv.lower, m, Suffix(cv, m));
    bufpt := PutZeros(buf, bufpt, limit - (BUF_SIZE - 1 - bufpt), Digits(cv.base, cv.lower, m) + Suffix(cv, m));
  }

  /** And the sign before them. */
  method PutCore(buf: array<char>, cv: Conversion, f: Flags, width: int, precision: int, v: int) returns (bufpt: nat)
    requires buf.Length == BUF_SIZE && 8 <= cv.base <= 16 && InRange(cv, v)
    modifies buf
    ensures 2 <= bufpt < BUF_SIZE && buf[bufpt..BUF_SIZE - 1] == Core(cv, f, width, precision, v)
  {
    hide Digits, Repeat, Precision, Suffix, Sign;
    var longvalue := Magnitude(v);
    var prefix := Sign(cv, f, v);
    var limit := Precision(cv, f, width, precision, v);
    PrecisionFits(cv, f, width, precision, v);
    ghost var number := Digits(cv.base, cv.lower, longvalue) + Suffix(cv, longvalue);
    bufpt := PutNumber(buf, cv, limit, longvalue);
    CoreIs(prefix, Repeat('0', limit - |number|), number);
    if prefix != "" {
      bufpt := Push(buf, bufpt, prefix[0], Repeat('0', limit - |number|) + number);
    }
  }

  /** Fills the buffer from its end backwards: ending, digits, zeros, sign, mark.  Every
      store is inside the buffer. */
  method Convert(buf: array<char>, c: char, f: Flags, width: int, precision: int, v: int) returns (bufpt: nat)
    requires buf.Length == BUF_SIZE && Known(c) && InRange(ConversionOf(c), v)
    modifies buf
    ensures bufpt < BUF_SIZE && buf[bufpt..BUF_SIZE - 1] == Body(ConversionOf(c), f, width, precision, v)
  {
    var cv := ConversionOf(c);
    hide Core, Reversed, ConversionOf;
    bufpt := PutCore(buf, cv, f, width, precision, v);
    if f.alternate && Magnitude(v) != 0 && cv.mark != "" && buf[bufpt] != cv.mark[0] {
      bufpt := PutMark(buf, bufpt, cv.mark, Core(cv, f, width, precision, v));
    }
  }

  /** One conversion, with its padding. */
  method Format(c: char, f: Flags, width: int, precision: int, v: int) returns (out: string)
    requires Known(c) && InRange(ConversionOf(c), v)
    ensures out == Field(ConversionOf(c), f, width, precision, v)
  {
    hide Body, Repeat;
    var buf := new char[BUF_SIZE];
    var bufpt := Convert(buf, c, f, width, precision, v);
    var length := BUF_SIZE - 1 - bufpt;
    var left := f.left || width < 0;
    var nspace := Width(width) - length;
    RepeatNone(' ');
    out := if !left && nspace > 0 then Repeat(' ', nspace) else "";
    out := out + buf[bufpt..BUF_SIZE - 1];
    if left && nspace > 0 {
      out := out + Repeat(' ', nspace);
    }
  }
}
