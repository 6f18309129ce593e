/**
 The bounds of the daily window as the text that is sent to the database: they cut out one calendar day.
 */
module WindowText {
  import opened Calendar
  import opened DateText

  /** Hours, minutes and seconds of a moment of the day. */
  function TimeText(seconds: nat): string
    requires seconds < 86_400
  {
    Pad2(seconds / 3600) + ":" + Pad2(seconds / 60 % 60) + ":" + Pad2(seconds % 60)
  }

  /** A DATETIME value as text. */
  function StampText(t: Stamp): string
    requires Printable(t.date) && t.seconds < 86_400
  {
    Format(t.date) + " " + TimeText(t.seconds)
  }

  /** The order of texts, character by character. */
  predicate TextLess(a: string, b: string) {
    b != "" && (a == "" || (if a[0] != b[0] then a[0] < b[0] else TextLess(a[1..], b[1..])))
  }

  // ---------------------------------------------------------------- fixed-width numbers compare as numbers

  lemma {:induction false} LessConcat(a: string, b: string, x: string, y: string)
    requires |a| == |b|
    ensures TextLess(a + x, b + y) <==> TextLess(a, b) || (a == b && TextLess(x, y))
  {
    if a == "" {
      assert a + x == x && b + y == y;
    } else {
      LessConcat(a[1..], b[1..], x, y);
      assert (a + x)[1..] == a[1..] + x && (b + y)[1..] == b[1..] + y;
      assert a == [a[0]] + a[1..] && b == [b[0]] + b[1..];
    }
  }

  lemma LessPad2(m: int, n: int)
    requires 0 <= m <= 99 && 0 <= n <= 99
    ensures TextLess(Pad2(m), Pad2(n)) <==> m < n
    ensures Pad2(m) == Pad2(n) <==> m == n
  {
    var a, b := Pad2(m), Pad2(n);
    assert a[1..] == [Digit(m % 10)] && b[1..] == [Digit(n % 10)];
    assert TextLess(a[1..], b[1..]) <==> m % 10 < n % 10;
    if a == b {
      Pad2Injective(m, n);
    }
  }

  /** Two numbers and a separator compare as pairs. */
  lemma LessPair(a: string, b: string, sep: string, m: int, n: int)
    requires |a| == |b| && 0 <= m <= 99 && 0 <= n <= 99
    ensures TextLess(a + sep + Pad2(m), b + sep + Pad2(n)) <==> TextLess(a, b) || (a == b && m < n)
    ensures a + sep + Pad2(m) == b + sep + Pad2(n) <==> a == b && m == n
  {
    LessPad2(m, n);
    LessConcat(a + sep, b + sep, Pad2(m), Pad2(n));
    LessConcat(a, b, sep, sep);
    NotLessSelf(sep);
    assert (a + sep)[..|a|] == a && (b + sep)[..|b|] == b;
    var s, t, k := a + sep + Pad2(m), b + sep + Pad2(n), |a + sep|;
    assert s[..k] == a + sep && t[..k] == b + sep && s[k..] == Pad2(m) && t[k..] == Pad2(n);
  }

  lemma {:induction false} NotLessSelf(a: string)
    ensures !TextLess(a, a)
  {
    if a != "" {
      NotLessSelf(a[1..]);
    }
  }

  lemma LessPad4(x: int, y: int)
    requires 0 <= x <= 9999 && 0 <= y <= 9999
    ensures TextLess(Pad4(x), Pad4(y)) <==> x < y
    ensures Pad4(x) == Pad4(y) <==> x == y
  {
    LessPad2(x / 100, y / 100);
    LessPair(Pad2(x / 100), Pad2(y / 100), "", x % 100, y % 100);
    assert Pad2(x / 100) + "" + Pad2(x % 100) == Pad4(x) && Pad2(y / 100) + "" + Pad2(y % 100) == Pad4(y);
  }

  /** Dates of four-digit years compare as dates. */
  lemma LessFormat(a: Date, b: Date)
    requires Printable(a) && Printable(b) && a.year <= 9999 && b.year <= 9999
    ensures TextLess(Format(a), Format(b)) <==> Before(a, b)
    ensures Format(a) == Format(b) <==> a == b
  {
    LessPad4(a.year, b.year);
    var p, q := Pad4(a.year) + "-" + Pad2(a.month), Pad4(b.year) + "-" + Pad2(b.month);
    LessPair(Pad4(a.year), Pad4(b.year), "-", a.month, b.month);
    LessPair(p, q, "-", a.day, b.day);
    assert Format(a) == p + "-" + Pad2(a.day) && Format(b) == q + "-" + Pad2(b.day);
  }

  lemma ClockParts(s: nat)
    ensures s == 3600 * (s / 3600) + 60 * (s / 60 % 60) + s % 60
  {
    var q := s / 60;
    assert s == 60 * q + s % 60;
    assert q == 60 * (q / 60) + q % 60;
    assert s / 3600 == q / 60;
  }

  lemma TripleLess(s: int, h: int, m: int, x: int, t: int, g: int, n: int, y: int)
    requires s == 3600 * h + 60 * m + x && t == 3600 * g + 60 * n + y
    requires 0 <= m < 60 && 0 <= x < 60 && 0 <= n < 60 && 0 <= y < 60
    ensures s < t <==> h < g || (h == g && (m < n || (m == n && x < y)))
  {
  }

  /** Moments of the day compare as numbers of seconds. */
  lemma LessTime(s: nat, t: nat)
    requires s < 86_400 && t < 86_400
    ensures TextLess(TimeText(s), TimeText(t)) <==> s < t
  {
    var h, m, g, n := s / 3600, s / 60 % 60, t / 3600, t / 60 % 60;
    LessPad2(h, g);
    LessPair(Pad2(h), Pad2(g), ":", m, n);
    LessPair(Pad2(h) + ":" + Pad2(m), Pad2(g) + ":" + Pad2(n), ":", s % 60, t % 60);
    ClockParts(s);
    ClockParts(t);
    assert Pad2(h) == Pad2(g) <==> h == g;
    TripleLess(s, h, m, s % 60, t, g, n, t % 60);
  }

  /** The text of a moment is before another if and only if the moment is. */
  lemma LessStamp(a: Stamp, b: Stamp)
    requires Printable(a.date) && Printable(b.date) && a.date.year <= 9999 && b.date.year <= 9999
    requires a.seconds < 86_400 && b.seconds < 86_400
    ensures TextLess(StampText(a), StampText(b)) <==> !AtOrAfter(a, b)
  {
    LessFormat(a.date, b.date);
    LessTime(a.seconds, b.seconds);
    LessConcat(Format(a.date) + " ", Format(b.date) + " ", TimeText(a.seconds), TimeText(b.seconds));
    LessConcat(Format(a.date), Format(b.date), " ", " ");
    NotLessSelf(" ");
    assert (Format(a.date) + " ")[..|Format(a.date)|] == Format(a.date);
    assert (Format(b.date) + " ")[..|Format(b.date)|] == Format(b.date);
  }

  // ---------------------------------------------------------------- the window

  /** A bound is the text of a midnight. */
  lemma BoundIsMidnight(d: Date)
    requires Printable(d)
    ensures Format(d) + MIDNIGHT == StampText(Stamp(d, 0))
  {
    assert Pad2(0) == "00";
    assert " " + TimeText(0) == MIDNIGHT;
  }

  /** Every moment, as text, is at or after the lower bound and before the upper one if and only if it is a
      moment of the day before. */
  lemma WindowCutsOutYesterday(now: Date, t: Stamp)
    requires Printable(now) && Printable(Yesterday(now)) && Printable(t.date) && t.seconds < 86_400
    requires now.year <= 9999 && t.date.year <= 9999
    ensures var text, w := StampText(t), DayWindow(now);
            && (!TextLess(text, w.from) && TextLess(text, w.until) <==> InWindow(now, t))
            && (!TextLess(text, w.from) && TextLess(text, w.until) <==> t.date == Yesterday(now))
  {
    var y := Yesterday(now);
    YesterdayByCases(now.year, now.month, now.day);
    BoundIsMidnight(y);
    BoundIsMidnight(now);
    LessStamp(t, Stamp(y, 0));
    LessStamp(t, Stamp(now, 0));
    WindowsTile(now, t);
    DayNumberInjective(t.date, y);
  }
}
