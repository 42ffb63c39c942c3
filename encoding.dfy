/**
 * `date2int` of reminder.py: the six fields are formatted with `{:4d}{:2d}{:2d}{:2d}{:2d}{:2d}`
 * (right-aligned, padded with spaces), every space is replaced by '0', and the text is read
 * back with `int()`. The result is the 14-digit YYYYMMDDHHMMSS number the store orders by.
 */
module Encoding {
  import opened Calendar

  predicate IsDigit(c: char) {
    '0' <= c <= '9'
  }

  predicate AllDigits(s: string) {
    forall i :: 0 <= i < |s| ==> IsDigit(s[i])
  }

  function DigitChar(d: int): char
    requires 0 <= d < 10
  {
    ('0' as int + d) as char
  }

  function Pow10(k: nat): nat {
    if k == 0 then 1 else 10 * Pow10(k - 1)
  }

  /** Python's `str(n)` for a non-negative integer. */
  function Str(n: nat): (s: string)
    ensures 1 <= |s| && AllDigits(s)
    ensures DigitsValue(s) == n
  {
    if n < 10 then [DigitChar(n)]
    else
      var s := Str(n / 10) + [DigitChar(n % 10)];
      assert s[..|s| - 1] == Str(n / 10);
      s
  }

  /** Python's `int(s)` for a text of ASCII digits. */
  function DigitsValue(s: string): nat
    requires AllDigits(s)
  {
    if s == [] then 0
    else DigitsValue(s[..|s| - 1]) * 10 + (s[|s| - 1] as int - '0' as int)
  }

  function Spaces(k: nat): (s: string)
    ensures |s| == k && forall i :: 0 <= i < k ==> s[i] == ' '
  {
    seq(k, _ => ' ')
  }

  function Zeros(k: nat): (s: string)
    ensures |s| == k && AllDigits(s)
  {
    seq(k, _ => '0')
  }

  /** `"{:<width>d}".format(n)`: the digits of n right-aligned in a field of the given width. */
  function FormatField(n: nat, width: nat): (s: string)
    ensures forall i :: 0 <= i < |s| ==> s[i] == ' ' || IsDigit(s[i])
  {
    var digits := Str(n);
    if |digits| < width then Spaces(width - |digits|) + digits else digits
  }

  /** `s.replace(' ', '0')`. */
  function ZeroFill(s: string): (r: string)
    ensures |r| == |s|
    ensures forall i :: 0 <= i < |s| ==> r[i] == (if s[i] == ' ' then '0' else s[i])
  {
    seq(|s|, i requires 0 <= i < |s| => if s[i] == ' ' then '0' else s[i])
  }

  /** What `int()` can read: no field is negative (every date-time the program encodes is valid). */
  predicate NonNegative(t: DateTime) {
    t.year >= 0 && t.month >= 0 && t.day >= 0 && t.hour >= 0 && t.minute >= 0 && t.second >= 0
  }

  /** The text `date2int` builds before calling `int()`. */
  function EncodedText(t: DateTime): (s: string)
    requires NonNegative(t)
    ensures AllDigits(s)
  {
    ZeroFill(FormatField(t.year, 4) + FormatField(t.month, 2) + FormatField(t.day, 2)
             + FormatField(t.hour, 2) + FormatField(t.minute, 2) + FormatField(t.second, 2))
  }

  /**
   * `date2int`. For fields that fit their widths, the text-built encoding is the arithmetic
   * one: Y*10^10 + M*10^8 + D*10^6 + h*10^4 + m*100 + s.
   */
  function Date2Int(t: DateTime): (r: int)
    requires NonNegative(t)
    ensures FitsWidths(t) ==> r == Pack(t)
    ensures FitsWidths(t) ==> r == t.year * 10000000000 + t.month * 100000000 + t.day * 1000000
                                  + t.hour * 10000 + t.minute * 100 + t.second
  {
    var r := DigitsValue(EncodedText(t));
    assert FitsWidths(t) ==> r == Pack(t) by {
      if FitsWidths(t) {
        EncodedTextIsPack(t);
      }
    }
    r
  }

  /** Fields that fit their printed widths: a year of at most four digits, the others two. */
  predicate FitsWidths(t: DateTime) {
    && 0 <= t.year < 10000
    && 0 <= t.month < 100 && 0 <= t.day < 100
    && 0 <= t.hour < 100 && 0 <= t.minute < 100 && 0 <= t.second < 100
  }

  /** The arithmetic reading of the encoding: two decimal digits per field after the year. */
  function Pack(t: DateTime): int {
    ((((t.year * 100 + t.month) * 100 + t.day) * 100 + t.hour) * 100 + t.minute) * 100 + t.second
  }

  /** Reads the fields back out of an encoding by division and remainder. */
  function Unpack(n: int): DateTime {
    DateTime(n / 10000000000, n / 100000000 % 100, n / 1000000 % 100,
             n / 10000 % 100, n / 100 % 100, n % 100)
  }

  lemma {:induction false} DigitsValueAppend(a: string, b: string)
    requires AllDigits(a) && AllDigits(b)
    ensures AllDigits(a + b)
    ensures DigitsValue(a + b) == DigitsValue(a) * Pow10(|b|) + DigitsValue(b)
    decreases |b|
  {
    var ab := a + b;
    assert AllDigits(ab) by {
      forall i | 0 <= i < |ab| ensures IsDigit(ab[i]) {
        if i < |a| {
          assert ab[i] == a[i];
        } else {
          assert ab[i] == b[i - |a|];
        }
      }
    }
    if b == [] {
      assert ab == a;
    } else {
      var b' := b[..|b| - 1];
      var d := b[|b| - 1] as int - '0' as int;
      assert ab[..|ab| - 1] == a + b' && ab[|ab| - 1] == b[|b| - 1];
      assert AllDigits(b');
      DigitsValueAppend(a, b');
      assert DigitsValue(ab) == DigitsValue(a + b') * 10 + d;
      assert DigitsValue(b) == DigitsValue(b') * 10 + d;
      Shift(DigitsValue(a), Pow10(|b'|), DigitsValue(b'), d);
    }
  }

  /** One more digit on the right: (x*p + y)*10 + d == x*(10*p) + (y*10 + d). */
  lemma Shift(x: int, p: int, y: int, d: int)
    ensures (x * p + y) * 10 + d == x * (10 * p) + (y * 10 + d)
  {
  }

  lemma {:induction false} ZerosValue(k: nat)
    ensures DigitsValue(Zeros(k)) == 0
  {
    if k > 0 {
      assert Zeros(k)[..k - 1] == Zeros(k - 1);
      ZerosValue(k - 1);
    }
  }

  lemma {:induction false} StrLength(n: nat, width: nat)
    requires 1 <= width && n < Pow10(width)
    ensures |Str(n)| <= width
    decreases width
  {
    if n >= 10 {
      StrLength(n / 10, width - 1);
    }
  }

  lemma ZeroFillAppend(a: string, b: string)
    ensures ZeroFill(a + b) == ZeroFill(a) + ZeroFill(b)
  {
  }

  /** A field that fits its width reads back as exactly `width` digits worth its value. */
  lemma FieldValue(n: nat, width: nat)
    requires 1 <= width && n < Pow10(width)
    ensures var f := ZeroFill(FormatField(n, width));
      |f| == width && AllDigits(f) && DigitsValue(f) == n
  {
    StrLength(n, width);
    var digits := Str(n);
    var f := ZeroFill(FormatField(n, width));
    if |digits| < width {
      var k := width - |digits|;
      assert f == Zeros(k) + digits;
      DigitsValueAppend(Zeros(k), digits);
      ZerosValue(k);
    } else {
      assert f == digits;
    }
  }

  /** The padded text, read as a number, is the arithmetic packing of the fields. */
  lemma EncodedTextIsPack(t: DateTime)
    requires FitsWidths(t)
    ensures DigitsValue(EncodedText(t)) == Pack(t)
  {
    var y, mo, d := FormatField(t.year, 4), FormatField(t.month, 2), FormatField(t.day, 2);
    var h, mi, s := FormatField(t.hour, 2), FormatField(t.minute, 2), FormatField(t.second, 2);
    ZeroFillAppend(y + mo + d + h + mi, s);
    ZeroFillAppend(y + mo + d + h, mi);
    ZeroFillAppend(y + mo + d, h);
    ZeroFillAppend(y + mo, d);
    ZeroFillAppend(y, mo);
    var Y, MO, D := ZeroFill(y), ZeroFill(mo), ZeroFill(d);
    var H, MI, S := ZeroFill(h), ZeroFill(mi), ZeroFill(s);
    assert EncodedText(t) == Y + MO + D + H + MI + S;
    FieldValue(t.year, 4);
    FieldValue(t.month, 2);
    FieldValue(t.day, 2);
    FieldValue(t.hour, 2);
    FieldValue(t.minute, 2);
    FieldValue(t.second, 2);
    assert Pow10(2) == 100;
    var ymo := Y + MO;
    DigitsValueAppend(Y, MO);
    assert DigitsValue(ymo) == t.year * 100 + t.month;
    var ymod := ymo + D;
    DigitsValueAppend(ymo, D);
    assert DigitsValue(ymod) == DigitsValue(ymo) * 100 + t.day;
    var ymodh := ymod + H;
    DigitsValueAppend(ymod, H);
    assert DigitsValue(ymodh) == DigitsValue(ymod) * 100 + t.hour;
    var ymodhmi := ymodh + MI;
    DigitsValueAppend(ymodh, MI);
    assert DigitsValue(ymodhmi) == DigitsValue(ymodh) * 100 + t.minute;
    DigitsValueAppend(ymodhmi, S);
    assert DigitsValue(ymodhmi + S) == DigitsValue(ymodhmi) * 100 + t.second;
  }

  /** Every valid date-time fits the widths of the encoding. */
  lemma ValidFitsWidths(t: DateTime)
    requires ValidDateTime(t)
    ensures FitsWidths(t) && NonNegative(t)
  {
  }

  /** Round trip: the fields are recovered from the encoding by division and remainder. */
  lemma UnpackPack(t: DateTime)
    requires FitsWidths(t)
    ensures Unpack(Pack(t)) == t
  {
    var n := Pack(t);
    var a := t.year * 100 + t.month;
    var b := a * 100 + t.day;
    var c := b * 100 + t.hour;
    var e := c * 100 + t.minute;
    DivMod(t.year, t.month, 100);
    DivMod(a, t.day, 100);
    DivMod(b, t.hour, 100);
    DivMod(c, t.minute, 100);
    DivMod(e, t.second, 100);
    Horner(c, t.minute, t.second);
    DivMod(c, t.minute * 100 + t.second, 10000);
    Horner(b, t.hour, t.minute * 100 + t.second);
    DivMod(b, (t.hour * 100 + t.minute) * 100 + t.second, 1000000);
    Horner(a, t.day, (t.hour * 100 + t.minute) * 100 + t.second);
    DivMod(a, ((t.day * 100 + t.hour) * 100 + t.minute) * 100 + t.second, 100000000);
    Horner(t.year, t.month, ((t.day * 100 + t.hour) * 100 + t.minute) * 100 + t.second);
    DivMod(t.year, (((t.month * 100 + t.day) * 100 + t.hour) * 100 + t.minute) * 100 + t.second,
           10000000000);
  }

  lemma Horner(x: int, u: int, v: int)
    ensures (x * 100 + u) * 100 + v == x * 10000 + (u * 100 + v)
  {
  }

  /** Round trip the other way: a non-negative number is rebuilt from its unpacked fields. */
  lemma PackUnpack(n: int)
    requires n >= 0
    ensures Pack(Unpack(n)) == n
  {
    var t := Unpack(n);
    assert n / 100 / 100 == n / 10000;
    assert n / 10000 / 100 == n / 1000000;
    assert n / 1000000 / 100 == n / 100000000;
    assert n / 100000000 / 100 == n / 10000000000;
  }

  lemma HornerOrder(x: int, u: int, y: int, v: int)
    requires 0 <= u < 100 && 0 <= v < 100
    ensures x * 100 + u < y * 100 + v <==> x < y || (x == y && u < v)
  {
  }

  /** Numeric order of encodings is field-by-field order. */
  lemma PackOrder(a: DateTime, b: DateTime)
    requires FitsWidths(a) && FitsWidths(b)
    ensures Pack(a) < Pack(b) <==> Before(a, b)
  {
    var a1, b1 := a.year * 100 + a.month, b.year * 100 + b.month;
    HornerOrder(a.year, a.month, b.year, b.month);
    HornerOrder(b.year, b.month, a.year, a.month);
    var a2, b2 := a1 * 100 + a.day, b1 * 100 + b.day;
    HornerOrder(a1, a.day, b1, b.day);
    HornerOrder(b1, b.day, a1, a.day);
    var a3, b3 := a2 * 100 + a.hour, b2 * 100 + b.hour;
    HornerOrder(a2, a.hour, b2, b.hour);
    HornerOrder(b2, b.hour, a2, a.hour);
    var a4, b4 := a3 * 100 + a.minute, b3 * 100 + b.minute;
    HornerOrder(a3, a.minute, b3, b.minute);
    HornerOrder(b3, b.minute, a3, a.minute);
    HornerOrder(a4, a.second, b4, b.second);
  }

  /**
   * The property the scheduler relies on: for valid date-times, comparing the
   * `date2int` encodings is comparing the moments in time.
   */
  lemma EncodingIsChronological(a: DateTime, b: DateTime)
    requires ValidDateTime(a) && ValidDateTime(b)
    ensures Date2Int(a) < Date2Int(b) <==> ToSeconds(a) < ToSeconds(b)
    ensures Date2Int(a) == Date2Int(b) <==> a == b
  {
    PackOrder(a, b);
    PackOrder(b, a);
    ChronologicalOrder(a, b);
    ChronologicalOrder(b, a);
  }
}
