/**
 * The calendar fields of a JavaScript `Date` that the shortcut cards show, and
 * the card's `dd/mm/yy` formatter.
 */
module DateFormat {
  import opened Wrappers
  import opened Text

  /**
   * A `Date` as the formatter reads it: the instant in milliseconds and the
   * local calendar fields `getFullYear()`, `getMonth()` (0 for January) and
   * `getDate()`. Which fields belong to which instant depends on the time
   * zone and is not modelled; the fields are taken as given.
   */
  datatype Date = Date(time: int, fullYear: int, month: int, day: int)

  /** The calendar fields a real date has (years from 10 on, so that they have two last digits). */
  predicate ValidDate(d: Date) {
    d.fullYear >= 10 && 0 <= d.month < 12 && 1 <= d.day <= 31
  }

  /**
   * `formatDate`: the day and the month (counted from 1) padded to two digits
   * with `0`, and the last two characters of the year, separated by `/`.
   */
  function FormatDate(d: Date): string {
    var day := PadStart(IntText(d.day), 2, '0');
    var month := PadStart(IntText(d.month + 1), 2, '0');
    var year := SliceLast(IntText(d.fullYear), 2);
    day + "/" + month + "/" + year
  }

  /** The value of two digit characters. */
  function PairValue(a: char, b: char): int {
    10 * (a as int - '0' as int) + (b as int - '0' as int)
  }

  /** Reads a `dd/mm/yy` text back into (day, month, two-digit year); `None` when it is not of that shape. */
  function ReadDate(s: string): (r: Option<(int, int, int)>)
    ensures r.Some? ==> 0 <= r.value.0 < 100 && 0 <= r.value.1 < 100 && 0 <= r.value.2 < 100
    ensures r.Some? <==> (|s| == 8 && s[2] == '/' && s[5] == '/' &&
      IsDigit(s[0]) && IsDigit(s[1]) && IsDigit(s[3]) && IsDigit(s[4]) && IsDigit(s[6]) && IsDigit(s[7]))
  {
    if |s| == 8 && s[2] == '/' && s[5] == '/' &&
      IsDigit(s[0]) && IsDigit(s[1]) && IsDigit(s[3]) && IsDigit(s[4]) && IsDigit(s[6]) && IsDigit(s[7])
    then Some((PairValue(s[0], s[1]), PairValue(s[3], s[4]), PairValue(s[6], s[7])))
    else None
  }

  /** A number below 100, padded to two characters, is its tens digit and its units digit. */
  lemma PaddedTwoDigits(n: int)
    requires 0 <= n < 100
    ensures PadStart(IntText(n), 2, '0') == [DigitChar(n / 10), DigitChar(n % 10)]
  {
    if n < 10 {
      assert IntText(n) == [DigitChar(n)];
      assert Repeat('0', 1) == ['0'];
    } else {
      assert NatText(n / 10) == [DigitChar(n / 10)];
    }
  }

  /** The last two characters of a number from 10 on are its tens digit and its units digit. */
  lemma LastTwoDigits(y: int)
    requires y >= 10
    ensures SliceLast(IntText(y), 2) == [DigitChar(y / 10 % 10), DigitChar(y % 10)]
  {
    var head := NatText(y / 10);
    LastDigit(y / 10);
    assert NatText(y) == head + [DigitChar(y % 10)];
    assert NatText(y)[|NatText(y)| - 2..] == [head[|head| - 1], DigitChar(y % 10)];
  }

  /** The characters of a formatted valid date. */
  lemma FormatDateShape(d: Date)
    requires ValidDate(d)
    ensures FormatDate(d) == [DigitChar(d.day / 10), DigitChar(d.day % 10), '/',
      DigitChar((d.month + 1) / 10), DigitChar((d.month + 1) % 10), '/',
      DigitChar(d.fullYear / 10 % 10), DigitChar(d.fullYear % 10)]
  {
    PaddedTwoDigits(d.day);
    PaddedTwoDigits(d.month + 1);
    LastTwoDigits(d.fullYear);
  }

  /** The text of three two-digit numbers, separated by slashes. */
  function DigitTriple(a: int, b: int, c: int): string
    requires 0 <= a < 100 && 0 <= b < 100 && 0 <= c < 100
  {
    [DigitChar(a / 10), DigitChar(a % 10), '/', DigitChar(b / 10), DigitChar(b % 10), '/',
      DigitChar(c / 10), DigitChar(c % 10)]
  }

  /** Two digit characters read back to the number they were taken from. */
  lemma PairOfDigits(n: int)
    requires 0 <= n < 100
    ensures PairValue(DigitChar(n / 10), DigitChar(n % 10)) == n
  {
  }

  lemma ReadDigitTriple(a: int, b: int, c: int)
    requires 0 <= a < 100 && 0 <= b < 100 && 0 <= c < 100
    ensures ReadDate(DigitTriple(a, b, c)) == Some((a, b, c))
  {
    PairOfDigits(a);
    PairOfDigits(b);
    PairOfDigits(c);
  }

  /** The tens and units digits of a number are those of its last two digits. */
  lemma LastTwoOfYear(y: int)
    requires y >= 0
    ensures y / 10 % 10 == y % 100 / 10 && y % 10 == y % 100 % 10
  {
    var q, r := y / 100, y % 100;
    assert y == 100 * q + r;
    assert y / 10 == 10 * q + r / 10;
  }

  /**
   * A valid date formats as `dd/mm/yy`, and reading it back gives the day,
   * the month counted from 1 and the year modulo 100.
   */
  lemma FormatDateReadsBack(d: Date)
    requires ValidDate(d)
    ensures |FormatDate(d)| == 8
    ensures ReadDate(FormatDate(d)) == Some((d.day, d.month + 1, d.fullYear % 100))
  {
    FormatDateShape(d);
    LastTwoOfYear(d.fullYear);
    assert FormatDate(d) == DigitTriple(d.day, d.month + 1, d.fullYear % 100);
    ReadDigitTriple(d.day, d.month + 1, d.fullYear % 100);
  }

  /** Years before 10 keep a single digit: `slice(-2)` does not pad. */
  lemma ShortYearExample()
    ensures FormatDate(Date(0, 5, 0, 1)) == "01/01/5"
  {
    PaddedTwoDigits(1);
  }
}
