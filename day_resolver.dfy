/** `convert_day_to_url`: resolving the `--day` argument to the year and day
    of a puzzle. The argument is either the word `latest` or a `YYYY/D` or
    `YYYY/DD` string; the result is the (year, day) pair of strings the page
    address is built from. Reading the clock is not modelled: the calendar
    date of "now" (year, month 1-12, day of month 1-31, as chrono reports
    them at the fixed offset UTC+05:00 the program uses) is passed in. */
module DayResolver {
  import opened Wrappers
  import opened Text

  /** The four ways a day argument is refused, one per error return. */
  datatype ParseDayError =
    | BadLength(day: Bytes)   // total length is neither 6 nor 7
    | BadYear                 // the text before the first '/' is not 4 bytes
    | BadDay                  // the text after the first '/' is not 1 or 2 bytes
    | NoSlash                 // there is no '/' at all

  /** The word that asks for the most recent puzzle. */
  const Latest: Bytes := Ascii("latest")

  /** The last puzzle day of an event. */
  const LastDay: Bytes := Ascii("25")

  /** The resolver: the "latest" rule driven by the date, otherwise the
      length checks on the explicit `year/day` text, in the order the program checks them.
      A success on explicit text gives back the two halves of the input,
      which rebuild it; the day-length error is never produced. */
  function Resolve(arg: Bytes, year: int, month: nat, dom: nat): (r: Result<(Bytes, Bytes), ParseDayError>)
    ensures arg == Latest ==> r.Ok?
    ensures arg != Latest && r.Ok? ==>
      r.value.0 + [Slash] + r.value.1 == arg && |r.value.0| == 4 && Slash !in r.value.0
      && 1 <= |r.value.1| <= 2
    ensures r != Err(BadDay)
  {
    if arg == Latest then
      if month == 12 then
        if dom > 25 then Ok((IntToDecimal(year), LastDay))
        else Ok((IntToDecimal(year), NatToDecimal(dom)))
      else Ok((IntToDecimal(year - 1), LastDay))
    else if !(|arg| == 6 || |arg| == 7) then
      Err(BadLength(arg))
    else
      match SplitOnce(arg, Slash)
      case Some((y, d)) =>
        if |y| != 4 then Err(BadYear)
        else if !(|d| == 1 || |d| == 2) then Err(BadDay)
        else Ok((y, d))
      case None => Err(NoSlash)
  }

  /** An independent reading of which explicit arguments are accepted: six or
      seven bytes whose first '/' is the fifth byte. Nothing else is checked,
      in particular not that year and day are digits or in range. */
  predicate WellShaped(arg: Bytes) {
    (|arg| == 6 || |arg| == 7) && arg[4] == Slash && Slash !in arg[..4]
  }

  lemma LastDayIsTwentyFive()
    ensures LastDay == NatToDecimal(25)
  {
  }

  // The next three lemmas spell out the branches of the "latest" rule one
  // by one; what the strings mean as a year and a day is `LatestValues`.

  /** "latest" in December up to the 25th: this year and today. */
  lemma LatestEarlyDecember(year: int, dom: nat)
    requires dom <= 25
    ensures Resolve(Latest, year, 12, dom) == Ok((IntToDecimal(year), NatToDecimal(dom)))
  {
  }

  /** "latest" in December after the 25th: this year and day 25. */
  lemma LatestLateDecember(year: int, dom: nat)
    requires dom > 25
    ensures Resolve(Latest, year, 12, dom) == Ok((IntToDecimal(year), LastDay))
  {
  }

  /** "latest" before December: last year's day 25. */
  lemma LatestOutsideDecember(year: int, month: nat, dom: nat)
    requires month != 12
    ensures Resolve(Latest, year, month, dom) == Ok((IntToDecimal(year - 1), LastDay))
  {
  }

  /** Read back as numbers, "latest" names the year of the last December
      begun and the day min(today, 25) of it (day 25 outside December). */
  lemma LatestValues(year: int, month: nat, dom: nat)
    ensures var r := Resolve(Latest, year, month, dom);
      r.Ok? && AllDigits(r.value.1)
      && DecimalValue(r.value.1) == (if month == 12 && dom <= 25 then dom else 25)
      && SignedValue(r.value.0) == (if month == 12 then year else year - 1)
  {
    var r := Resolve(Latest, year, month, dom);
    LastDayIsTwentyFive();
    NatToDecimalRoundTrip(25);
    NatToDecimalRoundTrip(dom);
    IntToDecimalRoundTrip(year);
    IntToDecimalRoundTrip(year - 1);
  }

  /** The explicit path never looks at the date. */
  lemma ExplicitIgnoresDate(arg: Bytes, y1: int, m1: nat, d1: nat, y2: int, m2: nat, d2: nat)
    requires arg != Latest
    ensures Resolve(arg, y1, m1, d1) == Resolve(arg, y2, m2, d2)
  {
  }

  /** Any explicit argument of the wrong total length is refused by the
      length check, whatever bytes it holds. */
  lemma WrongLengthRefused(arg: Bytes, year: int, month: nat, dom: nat)
    requires arg != Latest && |arg| != 6 && |arg| != 7
    ensures Resolve(arg, year, month, dom) == Err(BadLength(arg))
  {
  }

  /** A six- or seven-byte argument without '/' is refused as not year/day. */
  lemma MissingSlashRefused(arg: Bytes, year: int, month: nat, dom: nat)
    requires arg != Latest && (|arg| == 6 || |arg| == 7) && Slash !in arg
    ensures Resolve(arg, year, month, dom) == Err(NoSlash)
  {
  }

  /** A six- or seven-byte argument whose first '/' is not its fifth byte is
      refused as a bad year. */
  lemma MisplacedSlashRefused(arg: Bytes, k: nat, year: int, month: nat, dom: nat)
    requires arg != Latest && (|arg| == 6 || |arg| == 7)
    requires k < |arg| && arg[k] == Slash && Slash !in arg[..k] && k != 4
    ensures Resolve(arg, year, month, dom) == Err(BadYear)
  {
  }

  /** The day-length check can never fire: once the total is 6 or 7 bytes
      and the year 4, the day after the '/' is 1 or 2 bytes. */
  lemma DayCheckUnreachable(arg: Bytes, y: Bytes, d: Bytes)
    requires |arg| == 6 || |arg| == 7
    requires SplitOnce(arg, Slash) == Some((y, d)) && |y| == 4
    ensures |d| == 1 || |d| == 2
  {
  }

  /** Acceptance of an explicit argument depends on lengths and the place of
      the first '/' only: it succeeds exactly when the argument is well
      shaped, and then splits at byte 4. */
  lemma ExplicitAcceptance(arg: Bytes, year: int, month: nat, dom: nat)
    requires arg != Latest
    ensures Resolve(arg, year, month, dom).Ok? <==> WellShaped(arg)
    ensures WellShaped(arg) ==> Resolve(arg, year, month, dom) == Ok((arg[..4], arg[5..]))
  {
  }

  /** Joining two strings as `year/day` and resolving the result gives them
      back when the year is four bytes with no '/' and the day one or two. */
  lemma ExplicitRoundTrip(y: Bytes, d: Bytes, year: int, month: nat, dom: nat)
    requires |y| == 4 && Slash !in y && 1 <= |d| <= 2
    ensures Resolve(y + [Slash] + d, year, month, dom) == Ok((y, d))
  {
    var arg := y + [Slash] + d;
    assert arg != Latest by {
      assert arg[4] == Slash && Latest[4] != Slash;
    }
    SplitOnceUnique(arg, Slash, y, d);
  }

  /** For a year from 1001 to 9999, what "latest" resolves to is itself an explicit
      argument the resolver accepts unchanged. */
  lemma LatestIsExplicit(year: int, month: nat, dom: nat)
    requires 1001 <= year <= 9999
    ensures var r := Resolve(Latest, year, month, dom);
      r.Ok? && Resolve(r.value.0 + [Slash] + r.value.1, year, month, dom) == r
  {
    var r := Resolve(Latest, year, month, dom);
    NatToDecimalLength(year);
    NatToDecimalLength(year - 1);
    NatToDecimalLength(dom);
    ExplicitRoundTrip(r.value.0, r.value.1, year, month, dom);
  }

  /** Accepted examples: the halves of the argument come back. */
  lemma AcceptedExamples(year: int, month: nat, dom: nat)
    ensures Resolve(Ascii("2020/1"), year, month, dom) == Ok((Ascii("2020"), Ascii("1")))
    ensures Resolve(Ascii("2015/25"), year, month, dom) == Ok((Ascii("2015"), Ascii("25")))
  {
    assert Ascii("2020") + [Slash] + Ascii("1") == Ascii("2020/1");
    ExplicitRoundTrip(Ascii("2020"), Ascii("1"), year, month, dom);
    assert Ascii("2015") + [Slash] + Ascii("25") == Ascii("2015/25");
    ExplicitRoundTrip(Ascii("2015"), Ascii("25"), year, month, dom);
  }

  /** Digits are not checked: any four bytes, '/', and one byte pass. */
  lemma NonDigitExample(year: int, month: nat, dom: nat)
    ensures Resolve(Ascii("abcd/x"), year, month, dom) == Ok((Ascii("abcd"), Ascii("x")))
  {
    assert Ascii("abcd") + [Slash] + Ascii("x") == Ascii("abcd/x");
    ExplicitRoundTrip(Ascii("abcd"), Ascii("x"), year, month, dom);
  }

  /** Too short or too long arguments fail on length, before the '/' is
      looked for: "202/1" is not a year error nor "2020/100" a day error. */
  lemma LengthErrorExamples(year: int, month: nat, dom: nat)
    ensures Resolve(Ascii("20201"), year, month, dom) == Err(BadLength(Ascii("20201")))
    ensures Resolve(Ascii("202/1"), year, month, dom) == Err(BadLength(Ascii("202/1")))
    ensures Resolve(Ascii("2020/100"), year, month, dom) == Err(BadLength(Ascii("2020/100")))
  {
  }

  /** Seven bytes with an early '/' fail on the year; seven without '/'
      fail as not year/day. */
  lemma ShapeErrorExamples(year: int, month: nat, dom: nat)
    ensures Resolve(Ascii("20/2015"), year, month, dom) == Err(BadYear)
    ensures Resolve(Ascii("2020-01"), year, month, dom) == Err(NoSlash)
  {
    var a := Ascii("20/2015");
    assert a != Latest by { assert a[0] != Latest[0]; }
    assert a[..2] == Ascii("20");
    MisplacedSlashRefused(a, 2, year, month, dom);
    var b := Ascii("2020-01");
    assert b != Latest by { assert b[0] != Latest[0]; }
    assert Slash !in b;
    MissingSlashRefused(b, year, month, dom);
  }
}
