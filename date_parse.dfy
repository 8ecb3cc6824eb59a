/**
 * Reading the publication date of a question page.
 *
 * `datetime.strptime(t, "%Y.%m.%d")` accepts `t` exactly when it is three
 * dot-separated fields: a four-digit year (`\d\d\d\d`), a month matching
 * `1[0-2]|0[1-9]|[1-9]`, a day matching `3[01]|[12]\d|0[1-9]|[1-9]| [1-9]`,
 * and the resulting date exists (no year 0, no February 30th).
 */
module DateParse {
  import opened Wrappers
  import opened Text
  import opened Calendar

  predicate IsDigit(c: char)
  {
    '0' <= c <= '9'
  }

  predicate AllDigits(s: string)
  {
    forall i :: 0 <= i < |s| ==> IsDigit(s[i])
  }

  function DigitValue(c: char): int
    requires IsDigit(c)
  {
    c as int - '0' as int
  }

  function DigitChar(n: int): (c: char)
    requires 0 <= n <= 9
    ensures IsDigit(c) && DigitValue(c) == n
  {
    ('0' as int + n) as char
  }

  /** The decimal value of a string of digits, most significant first. */
  function Value(s: string): nat
    requires AllDigits(s)
    decreases |s|
  {
    if s == [] then 0 else Value(s[..|s| - 1]) * 10 + DigitValue(s[|s| - 1])
  }

  /** `s.split(".")` */
  function SplitDots(s: string): (parts: seq<string>)
    ensures |parts| >= 1
    decreases |s|
  {
    if s == [] then [[]]
    else
      var rest := SplitDots(s[1..]);
      if s[0] == '.' then [[]] + rest else [[s[0]] + rest[0]] + rest[1..]
  }

  /** `%Y` */
  predicate YearField(s: string)
  {
    |s| == 4 && AllDigits(s)
  }

  /** `%m` */
  predicate MonthField(s: string)
  {
    1 <= |s| <= 2 && AllDigits(s) && 1 <= Value(s) <= 12
  }

  /** `%d`, including its space-padded form `" 5"`. */
  predicate DayField(s: string)
  {
    (1 <= |s| <= 2 && AllDigits(s) && 1 <= Value(s) <= 31)
    || (|s| == 2 && s[0] == ' ' && '1' <= s[1] <= '9')
  }

  function DayValue(s: string): int
    requires DayField(s)
  {
    if s[0] == ' ' then DigitValue(s[1]) else Value(s)
  }

  /** `datetime.strptime(t, "%Y.%m.%d")`, with `None` for the `ValueError` it raises. */
  function ParseYMD(t: string): (r: Option<Date>)
    ensures r.Some? ==> Valid(r.value)
  {
    var parts := SplitDots(t);
    if |parts| == 3 && YearField(parts[0]) && MonthField(parts[1]) && DayField(parts[2]) then
      var d := Date(Value(parts[0]), Value(parts[1]), DayValue(parts[2]));
      if Valid(d) then Some(d) else None
    else None
  }

  /** `n` in two digits, zero-padded. */
  function Pad2(n: int): (s: string)
    requires 0 <= n <= 99
    ensures |s| == 2 && AllDigits(s) && Value(s) == n
  {
    var s := [DigitChar(n / 10), DigitChar(n % 10)];
    Value2(s);
    s
  }

  /** `n` in four digits, zero-padded. */
  function Pad4(n: int): (s: string)
    requires 0 <= n <= 9999
    ensures |s| == 4 && AllDigits(s) && Value(s) == n
  {
    var s := Pad2(n / 100) + Pad2(n % 100);
    Value4(s);
    assert Value(s[..2]) == n / 100 by { Value2(s[..2]); Value2(Pad2(n / 100)); }
    assert Value(s[2..]) == n % 100 by { Value2(s[2..]); Value2(Pad2(n % 100)); }
    Value2(s[..2]);
    Value2(s[2..]);
    s
  }

  /** `d.strftime("%Y.%m.%d")`: the zero-padded form the question pages print. */
  function Render(d: Date): string
    requires Valid(d)
  {
    Pad4(d.year) + "." + Pad2(d.month) + "." + Pad2(d.day)
  }

  lemma {:induction false} SplitNoDot(a: string)
    requires '.' !in a
    ensures SplitDots(a) == [a]
    decreases |a|
  {
    if a != [] {
      SplitNoDot(a[1..]);
      assert [a[0]] + a[1..] == a;
    }
  }

  lemma {:induction false} SplitDotAfter(a: string, rest: string)
    requires '.' !in a
    ensures SplitDots(a + "." + rest) == [a] + SplitDots(rest)
    decreases |a|
  {
    if a == [] {
      assert a + "." + rest == "." + rest;
      assert ("." + rest)[1..] == rest;
    } else {
      assert (a + "." + rest)[1..] == a[1..] + "." + rest;
      SplitDotAfter(a[1..], rest);
      assert [a[0]] + a[1..] == a;
    }
  }

  /** The last field of a split is a suffix of the split string. */
  lemma {:induction false} SplitLastIsSuffix(s: string)
    ensures var p := SplitDots(s); |p[|p| - 1]| <= |s| && p[|p| - 1] == s[|s| - |p[|p| - 1]|..]
    ensures var p := SplitDots(s); |p| == 1 ==> p[0] == s
    decreases |s|
  {
    var p := SplitDots(s);
    if s != [] {
      var t := s[1..];
      var rest := SplitDots(t);
      SplitLastIsSuffix(t);
      SplitStep(s);
      LastFromTail(s, p, rest);
    } else {
      assert p == [[]];
    }
  }

  /** The last-field facts for a split, from the same facts for its tail's split. */
  lemma LastFromTail(s: string, p: seq<string>, rest: seq<string>)
    requires s != [] && |p| >= 1 && |rest| >= 1
    requires |p| == 1 ==> |rest| == 1 && p[0] == [s[0]] + rest[0]
    requires |p| > 1 ==> p[|p| - 1] == rest[|rest| - 1]
    requires var t := s[1..]; |rest[|rest| - 1]| <= |t| && rest[|rest| - 1] == t[|t| - |rest[|rest| - 1]|..]
    requires |rest| == 1 ==> rest[0] == s[1..]
    ensures |p[|p| - 1]| <= |s| && p[|p| - 1] == s[|s| - |p[|p| - 1]|..]
    ensures |p| == 1 ==> p[0] == s
  {
    if |p| == 1 {
      assert [s[0]] + s[1..] == s;
    } else {
      SuffixOfTail(s, p[|p| - 1]);
    }
  }

  /** How the split of `s` is made from the split of its tail. */
  lemma SplitStep(s: string)
    requires s != []
    ensures var p := SplitDots(s); var rest := SplitDots(s[1..]);
      && (|p| == 1 ==> s[0] != '.' && |rest| == 1 && p[0] == [s[0]] + rest[0])
      && (|p| > 1 ==> p[|p| - 1] == rest[|rest| - 1])
  {
  }

  /** A suffix of the tail is a suffix of the string. */
  lemma SuffixOfTail(s: string, q: string)
    requires s != [] && |q| <= |s| - 1 && s[1..][|s| - 1 - |q|..] == q
    ensures s[|s| - |q|..] == q
  {
    assert s[1..][|s| - 1 - |q|..] == s[|s| - |q|..];
  }

  lemma Value2(s: string)
    requires |s| == 2 && AllDigits(s)
    ensures Value(s) == DigitValue(s[0]) * 10 + DigitValue(s[1])
  {
    assert s[..|s| - 1] == s[..1];
    assert s[..1][..0] == [];
    assert Value(s[..1]) == DigitValue(s[0]);
  }

  /** Four digits are worth a hundred times their first two plus their last two. */
  lemma Value4(s: string)
    requires |s| == 4 && AllDigits(s)
    ensures Value(s) == Value(s[..2]) * 100 + Value(s[2..])
  {
    Value2(s[..2]);
    Value2(s[2..]);
    assert s[..|s| - 1] == s[..3];
    assert s[..3][..2] == s[..2];
    assert Value(s[..3]) == Value(s[..2]) * 10 + DigitValue(s[2]);
  }

  /** Rendering a date and parsing it back gives the same date. */
  lemma ParseRender(d: Date)
    requires Valid(d)
    ensures ParseYMD(Render(d)) == Some(d)
  {
    var y, m, dd := Pad4(d.year), Pad2(d.month), Pad2(d.day);
    assert Render(d) == y + "." + (m + "." + dd);
    assert '.' !in y && '.' !in m && '.' !in dd by {
      assert !IsDigit('.');
    }
    SplitDotAfter(y, m + "." + dd);
    SplitDotAfter(m, dd);
    SplitNoDot(dd);
    assert SplitDots(Render(d)) == [y, m, dd];
    assert dd[0] != ' ';
  }

  /** A printed date is digits and dots, starting and ending with a digit. */
  lemma RenderShape(d: Date)
    requires Valid(d)
    ensures var t := Render(d); |t| == 10 && IsDigit(t[0]) && IsDigit(t[9])
    ensures forall i :: 0 <= i < |Render(d)| ==> Render(d)[i] == '.' || IsDigit(Render(d)[i])
  {
  }

  /** The text `is_valid_date` hands to `strptime`: `date_str.strip().rstrip(".")`. */
  function DateOf(s: string): Option<Date>
  {
    ParseYMD(RStripChar(Strip(s), '.'))
  }

  /**
   * `is_valid_date(date_str, start_dt, end_dt)` of the listing crawlers: a
   * relative marker ("3시간 전") is never valid; otherwise the date must parse
   * and lie in the inclusive day window; a parse failure is `False`.
   */
  function IsValidDate(s: string, start: Date, end: Date): (ok: bool)
    ensures '전' in s ==> !ok
    ensures ok ==> DateOf(s).Some? && Le(start, DateOf(s).value) && Le(DateOf(s).value, end)
  {
    if '전' in s then false
    else match DateOf(s)
      case None => false
      case Some(d) => Le(start, d) && Le(d, end)
  }

  /** `rstrip(".")` takes off a single trailing dot from text ending in a digit. */
  lemma RStripOneDot(t: string)
    requires t != [] && t[|t| - 1] != '.'
    ensures RStripChar(t + ".", '.') == t
  {
    assert (t + ".")[..|t + "."| - 1] == t;
  }

  /**
   * A date as the site prints it, `YYYY.MM.DD.`, is valid exactly when it
   * falls in the window.
   */
  lemma PrintedDateValid(d: Date, start: Date, end: Date)
    requires Valid(d)
    ensures IsValidDate(Render(d) + ".", start, end) <==> Le(start, d) && Le(d, end)
  {
    var t := Render(d);
    RenderShape(d);
    assert !IsSpace(t[0]) && !IsSpace('.');
    assert Trimmed(t + ".");
    StripTrimmed(t + ".");
    RStripOneDot(t);
    ParseRender(d);
    assert '전' !in t + "." by {
      assert forall i :: 0 <= i < |t + "."| ==> (t + ".")[i] == '.' || IsDigit((t + ".")[i]);
    }
  }

  /** In a one-day window, a valid date is that very day. */
  lemma OneDayWindow(s: string, d: Date)
    requires IsValidDate(s, d, d)
    ensures DateOf(s) == Some(d)
  {
    LeAntisymmetric(DateOf(s).value, d);
  }

  /** `datetime.strptime(t, "%Y.%m.%d.")`: the same fields followed by exactly one dot. */
  function ParseYMDDot(t: string): Option<Date>
  {
    if t != [] && t[|t| - 1] == '.' then ParseYMD(t[..|t| - 1]) else None
  }

  const FIRST_OF_2024 := Date(2024, 1, 1)
  const LAST_OF_2024 := Date(2024, 12, 31)

  /**
   * `is_valid_date(date_str)` of the docId crawlers: no relative marker, the
   * format `%Y.%m.%d.` after `strip()`, and a date within 2024.
   */
  function IsValidDateIn2024(s: string): bool
  {
    if '전' in s then false
    else match ParseYMDDot(Strip(s))
      case None => false
      case Some(d) => Le(FIRST_OF_2024, d) && Le(d, LAST_OF_2024)
  }

  /** The fixed window is the calendar year 2024, and relative markers never pass. */
  lemma ValidIn2024Iff(s: string)
    ensures IsValidDateIn2024(s) <==>
      '전' !in s && ParseYMDDot(Strip(s)).Some? && ParseYMDDot(Strip(s)).value.year == 2024
  {
    match ParseYMDDot(Strip(s))
    case None =>
    case Some(d) =>
      assert Valid(d);
  }

  /** A field ends in a digit, so parsed text never ends in a dot. */
  lemma ParsedEndsInDigit(t: string)
    requires ParseYMD(t).Some?
    ensures t != [] && IsDigit(t[|t| - 1])
  {
    SplitLastIsSuffix(t);
    var p := SplitDots(t);
    var last := p[|p| - 1];
    assert last == p[2];
    assert IsDigit(last[|last| - 1]);
    assert t[|t| - 1] == last[|last| - 1];
  }

  /**
   * Every date the docId crawlers' check accepts is also accepted by the
   * listing crawlers' check over the same year; the converse fails (see
   * `WindowedAcceptsUndotted`).
   */
  lemma LegacyAcceptedByWindowed(s: string)
    requires IsValidDateIn2024(s)
    ensures IsValidDate(s, FIRST_OF_2024, LAST_OF_2024)
  {
    var t := Strip(s);
    var u := t[..|t| - 1];
    ParsedEndsInDigit(u);
    assert t == u + ".";
    RStripOneDot(u);
  }

  /**
   * A 2024 date printed without its final dot passes the listing crawlers'
   * check but not the docId crawlers' check.
   */
  lemma WindowedAcceptsUndotted(d: Date)
    requires Valid(d) && d.year == 2024
    ensures IsValidDate(Render(d), FIRST_OF_2024, LAST_OF_2024)
    ensures !IsValidDateIn2024(Render(d))
  {
    var t := Render(d);
    RenderShape(d);
    assert Trimmed(t) by {
      assert !IsSpace(t[0]) && !IsSpace(t[9]);
    }
    StripTrimmed(t);
    assert ParseYMDDot(Strip(t)) == None by {
      assert t[|t| - 1] != '.';
    }
    assert RStripChar(t, '.') == t by {
      assert t[|t| - 1] != '.';
    }
    ParseRender(d);
    assert '전' !in t by {
      assert forall i :: 0 <= i < |t| ==> t[i] == '.' || IsDigit(t[i]);
    }
  }
}
