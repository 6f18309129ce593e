/**
 Dates as text: the `yyyy-MM-dd` form that names archive files and bounds the SQL window, and the
 older archiver that obtains the same window by cutting up the text of a timestamp.
 */
module DateText {
  import opened Wrappers
  import opened Calendar

  function Digit(n: int): char
    requires 0 <= n <= 9
  {
    ('0' as int + n) as char
  }

  predicate IsDigit(c: char) {
    '0' <= c <= '9'
  }

  function DigitValue(c: char): int {
    c as int - '0' as int
  }

  function Pad2(n: int): string
    requires 0 <= n <= 99
  {
    [Digit(n / 10), Digit(n % 10)]
  }

  function Pad4(n: int): string
    requires 0 <= n <= 9999
  {
    Pad2(n / 100) + Pad2(n % 100)
  }

  /** The year in at least four digits. */
  function YearText(y: nat): (s: string)
    ensures |s| >= 4 && forall i | 0 <= i < |s| :: IsDigit(s[i])
    ensures |s| == 4 <==> y <= 9999
  {
    if y <= 9999 then Pad4(y) else YearText(y / 10) + [Digit(y % 10)]
  }

  /** Dates of the years that a clock shows. */
  predicate Printable(d: Date) {
    Valid(d) && 0 <= d.year
  }

  function Format(d: Date): (s: string)
    requires Printable(d)
    ensures |s| == |YearText(d.year)| + 6
  {
    YearText(d.year) + "-" + Pad2(d.month) + "-" + Pad2(d.day)
  }

  const MIDNIGHT := " 00:00:00"

  lemma Pad2Injective(m: int, n: int)
    requires 0 <= m <= 99 && 0 <= n <= 99 && Pad2(m) == Pad2(n)
    ensures m == n
  {
    assert Pad2(m)[0] == Pad2(n)[0] && Pad2(m)[1] == Pad2(n)[1];
  }

  lemma Pad4Injective(x: int, y: int)
    requires 0 <= x <= 9999 && 0 <= y <= 9999 && Pad4(x) == Pad4(y)
    ensures x == y
  {
    assert Pad4(x)[..2] == Pad2(x / 100) && Pad4(y)[..2] == Pad2(y / 100);
    assert Pad4(x)[2..] == Pad2(x % 100) && Pad4(y)[2..] == Pad2(y % 100);
    Pad2Injective(x / 100, y / 100);
    Pad2Injective(x % 100, y % 100);
  }

  lemma {:induction false} YearTextInjective(x: nat, y: nat)
    requires YearText(x) == YearText(y)
    ensures x == y
  {
    if x <= 9999 {
      Pad4Injective(x, y);
    } else {
      var s, n := YearText(x), |YearText(x)| - 1;
      assert s[..n] == YearText(x / 10) && s[n] == Digit(x % 10);
      assert YearText(y)[..n] == YearText(y / 10) && YearText(y)[n] == Digit(y % 10);
      YearTextInjective(x / 10, y / 10);
    }
  }

  /** Where the pieces of a date are in its text. */
  lemma FormatPieces(d: Date)
    requires Printable(d)
    ensures var s, n := Format(d), |YearText(d.year)|;
            && s[..n] == YearText(d.year) && s[n] == '-'
            && s[n + 1..n + 3] == Pad2(d.month) && s[n + 3] == '-'
            && s[n + 4..n + 6] == Pad2(d.day) && s[n + 4] == Digit(d.day / 10)
  {
  }

  /** Different days have different texts. */
  lemma FormatInjective(a: Date, b: Date)
    requires Printable(a) && Printable(b)
    ensures Format(a) == Format(b) <==> a == b
  {
    if Format(a) == Format(b) {
      FormatPieces(a);
      FormatPieces(b);
      YearTextInjective(a.year, b.year);
      Pad2Injective(a.month, b.month);
      Pad2Injective(a.day, b.day);
    }
  }

  // ---------------------------------------------------------------- file names

  /** The name of the file of a day: the first ten characters of the lower bound of its window. */
  function FileName(d: Date): (s: string)
    requires Printable(d)
    ensures |s| == 10
  {
    (Format(d) + MIDNIGHT)[..10]
  }

  lemma FiveDigits(y: nat)
    ensures |YearText(y)| == 5 <==> 10_000 <= y <= 99_999
  {
  }

  /** What of a date is in its file name, by the length of the year. */
  lemma FileNamePieces(d: Date)
    requires Printable(d)
    ensures var s, n := FileName(d), |YearText(d.year)|;
            && (forall i | 0 <= i < n && i < 10 :: s[i] == Format(d)[i] && IsDigit(s[i]))
            && (n < 10 ==> s[n] == '-')
            && (n == 4 ==> s == Format(d))
            && (n == 5 ==> s == YearText(d.year) + "-" + Pad2(d.month) + "-" + [Digit(d.day / 10)])
  {
    FormatPieces(d);
    var s, n := Format(d), |YearText(d.year)|;
    assert forall i | 0 <= i < n :: s[i] == YearText(d.year)[i];
    if n == 5 {
      assert s[..10] == YearText(d.year) + "-" + Pad2(d.month) + "-" + [Digit(d.day / 10)];
    }
  }

  lemma SameFileSameLength(a: Date, b: Date)
    requires Printable(a) && Printable(b) && FileName(a) == FileName(b) && |YearText(a.year)| < 10
    ensures |YearText(b.year)| == |YearText(a.year)|
  {
    FileNamePieces(a);
    FileNamePieces(b);
    var m, n := |YearText(a.year)|, |YearText(b.year)|;
    assert FileName(a)[m] == '-' && (n < 10 ==> FileName(b)[n] == '-');
  }

  /** Another day of the same month whose number starts with the same digit. */
  function Twin(d: Date): Date
    requires Valid(d)
  {
    var last := d.day % 10 == 9 || d.day == MonthLength(d.year, d.month);
    d.(day := if last then d.day - 1 else d.day + 1)
  }

  /** The day is the only one of its month whose number starts with a three. */
  predicate AloneInItsTen(d: Date)
    requires Valid(d)
  {
    d.day == 30 && MonthLength(d.year, d.month) == 30
  }

  lemma TwinShares(d: Date)
    requires Printable(d) && d.year > 9999 && !(d.year <= 99_999 && AloneInItsTen(d))
    ensures exists b :: Printable(b) && FileName(b) == FileName(d) && b != d
  {
    var n := |YearText(d.year)|;
    FiveDigits(d.year);
    if n == 5 {
      var b := Twin(d);
      assert b.day / 10 == d.day / 10;
      FileNamePieces(d);
      FileNamePieces(b);
      assert Printable(b) && FileName(b) == FileName(d) && b != d;
    } else {
      var b := d.(day := if d.day == 1 then 2 else 1);
      var text := YearText(d.year) + "-" + Pad2(d.month) + "-";
      assert Format(d) == text + Pad2(d.day) && Format(b) == text + Pad2(b.day);
      assert FileName(d) == text[..10] == FileName(b);
      assert Printable(b) && FileName(b) == FileName(d) && b != d;
    }
  }

  lemma AloneIsUnique(a: Date, b: Date)
    requires Printable(a) && Printable(b) && FileName(a) == FileName(b)
    requires a.year <= 9999 || (a.year <= 99_999 && AloneInItsTen(a))
    ensures a == b
  {
    FiveDigits(a.year);
    SameFileSameLength(a, b);
    FileNamePieces(a);
    FileNamePieces(b);
    if a.year <= 9999 {
      FormatInjective(a, b);
    } else {
      var s := FileName(a);
      assert s[..5] == YearText(a.year) && s[..5] == YearText(b.year);
      assert s[6..8] == Pad2(a.month) && s[6..8] == Pad2(b.month);
      assert s[9] == Digit(a.day / 10) && s[9] == Digit(b.day / 10);
      YearTextInjective(a.year, b.year);
      Pad2Injective(a.month, b.month);
    }
  }

  /** A day is the only one with its file name if and only if its year has four digits, or five and the day
      is the thirtieth of a month without a thirty-first. */
  lemma FileNameUniqueIff(a: Date)
    requires Printable(a)
    ensures (forall b | Printable(b) :: FileName(b) == FileName(a) ==> b == a) <==>
            a.year <= 9999 || (a.year <= 99_999 && AloneInItsTen(a))
  {
    if a.year <= 9999 || (a.year <= 99_999 && AloneInItsTen(a)) {
      forall b | Printable(b) && FileName(b) == FileName(a) ensures b == a {
        AloneIsUnique(a, b);
      }
    } else {
      TwinShares(a);
    }
  }

  // ---------------------------------------------------------------- the older archiver

  /** `Integer.parseInt` on two characters: two digits, or a sign and a digit. */
  function ParsePair(s: string): Option<int>
    requires |s| == 2
  {
    if IsDigit(s[0]) && IsDigit(s[1]) then Some(10 * DigitValue(s[0]) + DigitValue(s[1]))
    else if s[0] == '-' && IsDigit(s[1]) then Some(-DigitValue(s[1]))
    else if s[0] == '+' && IsDigit(s[1]) then Some(DigitValue(s[1]))
    else None
  }

  lemma ParseOfPad(n: int)
    requires 0 <= n <= 99
    ensures ParsePair(Pad2(n)) == Some(n)
  {
  }

  /** The text with its ninth and tenth character replaced by a number, at midnight. */
  function WithDay(text: string, n: int): (s: string)
    requires |text| >= 8 && 0 <= n <= 99
    ensures |s| == 19
  {
    text[..8] + Pad2(n) + MIDNIGHT
  }

  /** The lower bound obtained by rewriting only the day digits of a date text, where they make one. */
  function CutToPreviousDay(text: string): Option<string>
    requires |text| >= 10
  {
    match ParsePair(text[8..10])
    case Some(i) => if 1 <= i then Some(WithDay(text, i - 1)) else None
    case None => None
  }

  /** With a year of four digits, the characters cut out are the day. */
  lemma CutFindsDay(d: Date, rest: string)
    requires Printable(d) && d.year <= 9999
    ensures var text := Format(d) + rest;
            && ParsePair(text[8..10]) == Some(d.day) && text[..8] == Format(d)[..8]
            && WithDay(text, d.day) == Format(d) + MIDNIGHT
  {
    var text := Format(d) + rest;
    FormatPieces(d);
    ParseOfPad(d.day);
    assert text[8..10] == Format(d)[8..10];
    assert text[..8] == Format(d)[..8];
    assert Format(d) == Format(d)[..8] + Pad2(d.day);
  }

  /** A longer year puts a digit where the dash should be. */
  lemma LongYear(d: Date, rest: string, y: Date)
    requires Printable(d) && d.year > 9999 && Printable(y)
    ensures forall n | 0 <= n <= 99 :: WithDay(Format(d) + rest, n) != Format(y) + MIDNIGHT
  {
    var text := Format(d) + rest;
    FormatPieces(d);
    assert IsDigit(text[4]) by {
      assert text[4] == YearText(d.year)[4];
    }
    forall n | 0 <= n <= 99 ensures WithDay(text, n) != Format(y) + MIDNIGHT {
      if y.year <= 9999 {
        FormatPieces(y);
        assert WithDay(text, n)[4] == text[4] && (Format(y) + MIDNIGHT)[4] == '-';
      } else {
        assert |Format(y) + MIDNIGHT| > 19;
      }
    }
  }

  lemma CutOneDay(d: Date, rest: string, n: int)
    requires Printable(d) && Printable(Yesterday(d)) && d.year <= 9999 && n == d.day - 1
    ensures WithDay(Format(d) + rest, n) == Format(Yesterday(d)) + MIDNIGHT <==> d.day > 1
  {
    YesterdayByCases(d.year, d.month, d.day);
    CutGives(d, rest, n, Yesterday(d));
  }

  lemma CutGives(d: Date, rest: string, n: int, y: Date)
    requires Printable(d) && Printable(y) && d.year <= 9999 && y.year <= 9999 && n == d.day - 1
    requires d.day > 1 ==> y == d.(day := n)
    ensures WithDay(Format(d) + rest, n) == Format(y) + MIDNIGHT <==> d.day > 1
  {
    CutFindsDay(d, rest);
    FormatPieces(y);
    var cut := WithDay(Format(d) + rest, n);
    if d.day > 1 {
      assert Format(y) == Format(d)[..8] + Pad2(n);
    } else {
      assert cut[8..10] == Pad2(0) && (Format(y) + MIDNIGHT)[8..10] == Pad2(y.day);
      Pad2Differ(0, y.day);
    }
  }

  lemma Pad2Differ(m: int, n: int)
    requires 0 <= m <= 99 && 0 <= n <= 99 && m != n
    ensures Pad2(m) != Pad2(n)
  {
    if Pad2(m) == Pad2(n) {
      Pad2Injective(m, n);
    }
  }

  /** Rewriting the day digits gives the previous calendar day if and only if the year has four digits and
      the month does not change. */
  lemma CutIsYesterday(d: Date, rest: string)
    requires Printable(d) && Printable(Yesterday(d))
    ensures CutToPreviousDay(Format(d) + rest) == Some(Format(Yesterday(d)) + MIDNIGHT) <==>
            d.year <= 9999 && d.day > 1
  {
    if d.year <= 9999 {
      CutOfShortYear(d, rest);
      CutOneDay(d, rest, d.day - 1);
    } else {
      NoCut(d, rest, Yesterday(d));
    }
  }

  lemma CutOfShortYear(d: Date, rest: string)
    requires Printable(d) && d.year <= 9999
    ensures CutToPreviousDay(Format(d) + rest) == Some(WithDay(Format(d) + rest, d.day - 1))
  {
    CutFindsDay(d, rest);
  }

  lemma NoCut(d: Date, rest: string, y: Date)
    requires Printable(d) && d.year > 9999 && Printable(y)
    ensures CutToPreviousDay(Format(d) + rest) != Some(Format(y) + MIDNIGHT)
  {
    LongYear(d, rest, y);
  }

  /** What `main` does about a window: compute both bounds, leave the day to be archived by hand, or fail on
      digits that are none. */
  datatype Plan = Window(from: string, until: string) | ByHand | Failed

  /** The window of the calendar-based archiver. */
  function DayWindow(now: Date): Plan
    requires Printable(now) && Printable(Yesterday(now))
  {
    Window(Format(Yesterday(now)) + MIDNIGHT, Format(now) + MIDNIGHT)
  }

  /** The window computed by `main` from the text of the current time. It is that of the calendar-based
      archiver if and only if the year has four digits and the day is one of 2 to 25; on the other days of
      such a year nothing is computed. */
  method ComputeWindow(t: string, ghost now: Date, ghost rest: string) returns (w: Plan)
    requires Printable(now) && Printable(Yesterday(now)) && t == Format(now) + rest
    ensures w == DayWindow(now) <==> now.year <= 9999 && 1 < now.day < 26
    ensures now.year <= 9999 && !(1 < now.day < 26) ==> w == ByHand
  {
    if now.year <= 9999 {
      CutFindsDay(now, rest);
      CutOneDay(now, rest, now.day - 1);
    } else {
      LongYear(now, rest, now);
    }
    var d := t;
    var parsed := ParsePair(d[8..10]);
    if parsed.None? {
      return Failed;
    }
    var i := parsed.value;
    if i > 1 && i < 26 {
      d := d[..8] + Pad2(i - 1) + MIDNIGHT;
      var d2 := d[..8] + Pad2(i) + MIDNIGHT;
      assert d == WithDay(t, i - 1) && d2 == WithDay(t, i);
      return Window(d, d2);
    }
    return ByHand;
  }
}
