/**
 * Calendar dates as Python's `datetime.date` holds them, their order, and their
 * text form: the ISO 8601 complete calendar date in extended format `YYYY-MM-DD`
 * (ISO 8601:2004, section 5.2.1.1), which `date.isoformat()` writes and
 * `fromisoformat` reads back.
 */
module Dates {
  import opened Wrappers
  import opened Strings

  datatype Date = Date(year: int, month: int, day: int)

  predicate IsLeapYear(y: int) {
    y % 4 == 0 && (y % 100 != 0 || y % 400 == 0)
  }

  function DaysInMonth(y: int, m: int): (n: int)
    requires 1 <= m <= 12
    ensures 28 <= n <= 31
    ensures n == 29 <==> m == 2 && IsLeapYear(y)
  {
    if m == 2 then (if IsLeapYear(y) then 29 else 28)
    else if m == 4 || m == 6 || m == 9 || m == 11 then 30
    else 31
  }

  /** A date Python can represent: years 1 to 9999 of the proleptic Gregorian calendar. */
  predicate ValidDate(d: Date) {
    && 1 <= d.year <= 9999
    && 1 <= d.month <= 12
    && 1 <= d.day <= DaysInMonth(d.year, d.month)
  }

  /** Three-way comparison of dates, year first, then month, then day. */
  function DateCmp(a: Date, b: Date): int {
    if a.year != b.year then Sign(a.year - b.year)
    else if a.month != b.month then Sign(a.month - b.month)
    else Sign(a.day - b.day)
  }

  predicate DateLe(a: Date, b: Date) {
    DateCmp(a, b) <= 0
  }

  predicate DateLt(a: Date, b: Date) {
    DateCmp(a, b) < 0
  }

  // ----- decimal digits -----

  predicate IsDigit(c: char) {
    '0' <= c <= '9'
  }

  predicate AllDigits(s: string) {
    forall i :: 0 <= i < |s| ==> IsDigit(s[i])
  }

  function DigitChar(n: int): (c: char)
    requires 0 <= n < 10
    ensures IsDigit(c)
  {
    ('0' as int + n) as char
  }

  function DigitValue(c: char): (n: int)
    requires IsDigit(c)
    ensures 0 <= n < 10 && DigitChar(n) == c
  {
    c as int - '0' as int
  }

  function Pow10(w: nat): (p: nat)
    ensures p >= 1
  {
    if w == 0 then 1 else 10 * Pow10(w - 1)
  }

  /** The last `w` decimal digits of `n`, zero-padded on the left (Python's `%0wd` when `n` has at most `w` digits). */
  function Pad(n: nat, w: nat): (s: string)
    ensures |s| == w && AllDigits(s)
  {
    if w == 0 then [] else Pad(n / 10, w - 1) + [DigitChar(n % 10)]
  }

  /** The number a string of decimal digits denotes. */
  function DigitsValue(s: string): (n: nat)
    requires AllDigits(s)
    ensures n < Pow10(|s|)
  {
    if s == [] then 0 else DigitsValue(s[..|s| - 1]) * 10 + DigitValue(s[|s| - 1])
  }

  /** Reading back a padded number gives the number. */
  lemma {:induction false} DigitsOfPad(n: nat, w: nat)
    requires n < Pow10(w)
    ensures DigitsValue(Pad(n, w)) == n
  {
    if w > 0 {
      var s := Pad(n, w);
      DigitsOfPad(n / 10, w - 1);
      assert s[..w - 1] == Pad(n / 10, w - 1);
      assert DigitValue(s[w - 1]) == n % 10;
    }
  }

  /** Appending the digit `d` to `q` and then splitting off the last digit gives `q` and `d`. */
  lemma LastDigit(q: nat, d: int)
    requires 0 <= d < 10
    ensures (q * 10 + d) / 10 == q && (q * 10 + d) % 10 == d
  {
  }

  /** Padding the value of a digit string to its own length gives the string back. */
  lemma {:induction false} PadOfDigits(s: string)
    requires AllDigits(s)
    ensures Pad(DigitsValue(s), |s|) == s
  {
    if s != [] {
      var w := |s|;
      var q := DigitsValue(s[..w - 1]);
      var d := DigitValue(s[w - 1]);
      PadOfDigits(s[..w - 1]);
      LastDigit(q, d);
      assert s == s[..w - 1] + [s[w - 1]];
    }
  }

  /** Padded numbers of one width sort as strings exactly as the numbers sort. */
  lemma {:induction false} PadCmp(x: nat, y: nat, w: nat)
    requires x < Pow10(w) && y < Pow10(w)
    ensures Cmp(Pad(x, w), Pad(y, w)) == Sign(x - y)
  {
    if w > 0 {
      var px, py := Pad(x / 10, w - 1), Pad(y / 10, w - 1);
      var cx, cy := [DigitChar(x % 10)], [DigitChar(y % 10)];
      PadCmp(x / 10, y / 10, w - 1);
      CmpAppend(px, cx, py, cy);
      CmpZero(px, py);
      if px == py {
        assert x / 10 == y / 10;
        if x % 10 != y % 10 {
          assert cx[0] != cy[0] by {
            assert DigitValue(cx[0]) == x % 10 && DigitValue(cy[0]) == y % 10;
          }
        }
      }
    }
  }

  /** `date.isoformat()`: four-digit year, two-digit month and day, separated by hyphens. */
  function Format(d: Date): (s: string)
    requires ValidDate(d)
    ensures |s| == 10 && s[4] == '-' && s[7] == '-'
  {
    Pad(d.year, 4) + "-" + Pad(d.month, 2) + "-" + Pad(d.day, 2)
  }

  /** The calendar-date form `YYYY-MM-DD` that `fromisoformat` accepts; `None` for anything
      else, including well-formed text naming a date that does not exist. */
  function Parse(s: string): (r: Option<Date>)
    ensures r.Some? ==> ValidDate(r.value)
  {
    if |s| == 10 && s[4] == '-' && s[7] == '-'
       && AllDigits(s[..4]) && AllDigits(s[5..7]) && AllDigits(s[8..])
    then
      var d := Date(DigitsValue(s[..4]), DigitsValue(s[5..7]), DigitsValue(s[8..]));
      if ValidDate(d) then Some(d) else None
    else None
  }

  /** What `isoformat` writes, `fromisoformat` reads back as the same date. */
  lemma ParseFormat(d: Date)
    requires ValidDate(d)
    ensures Parse(Format(d)) == Some(d)
  {
    var s := Format(d);
    assert Pow10(2) == 100 && Pow10(4) == 10000;
    assert s[..4] == Pad(d.year, 4);
    assert s[5..7] == Pad(d.month, 2);
    assert s[8..] == Pad(d.day, 2);
    DigitsOfPad(d.year, 4);
    DigitsOfPad(d.month, 2);
    DigitsOfPad(d.day, 2);
  }

  /** Every accepted text is already in the form `isoformat` writes: normalising changes nothing. */
  lemma FormatParse(s: string)
    requires Parse(s).Some?
    ensures Format(Parse(s).value) == s
  {
    var d := Parse(s).value;
    PadOfDigits(s[..4]);
    PadOfDigits(s[5..7]);
    PadOfDigits(s[8..]);
    assert s == s[..4] + "-" + s[5..7] + "-" + s[8..];
  }

  /** Formatted dates compare as strings exactly as the dates compare. */
  lemma FormatCmp(a: Date, b: Date)
    requires ValidDate(a) && ValidDate(b)
    ensures Cmp(Format(a), Format(b)) == DateCmp(a, b)
  {
    assert Pow10(2) == 100 && Pow10(4) == 10000;
    var ya, ma, da := Pad(a.year, 4), Pad(a.month, 2), Pad(a.day, 2);
    var yb, mb, db := Pad(b.year, 4), Pad(b.month, 2), Pad(b.day, 2);
    assert Format(a) == ya + ("-" + (ma + ("-" + da)));
    assert Format(b) == yb + ("-" + (mb + ("-" + db)));
    PadCmp(a.year, b.year, 4);
    PadCmp(a.month, b.month, 2);
    PadCmp(a.day, b.day, 2);
    CmpZero(ya, yb);
    CmpZero(ma, mb);
    CmpAppend(ya, "-" + (ma + ("-" + da)), yb, "-" + (mb + ("-" + db)));
    CmpAppend("-", ma + ("-" + da), "-", mb + ("-" + db));
    CmpAppend(ma, "-" + da, mb, "-" + db);
    CmpAppend("-", da, "-", db);
  }

  /** Corollary: for formatted dates, string order and date order agree. */
  lemma FormatOrder(a: Date, b: Date)
    requires ValidDate(a) && ValidDate(b)
    ensures StrLe(Format(a), Format(b)) <==> DateLe(a, b)
    ensures Format(a) == Format(b) <==> a == b
  {
    FormatCmp(a, b);
    CmpZero(Format(a), Format(b));
  }
}
