/**
 * The elapsed-time label that the assembler draws on every frame: the frame's
 * enumeration index times the seconds per frame, broken into days, hours,
 * minutes and seconds by successive `divmod`, and rendered as
 * `"{days:02d}d {hours:02d}m {minutes:02d}s"`. The field labelled "m" holds
 * the hours and the field labelled "s" holds the minutes; the seconds are
 * computed and never shown.
 */
module Timecode {
  import opened Wrappers
  import opened Decimal

  const SecondsPerDay := 86400
  const SecondsPerHour := 3600
  const SecondsPerMinute := 60

  datatype Breakdown = Breakdown(days: int, hours: int, minutes: int, seconds: int)

  /**
   * Three successive `divmod` calls. Python's `divmod(a, b)` with b > 0 is
   * floor division and a remainder in [0, b), which is exactly Dafny's
   * Euclidean `/` and `%` for a positive divisor, also when a is negative.
   */
  function Decompose(total: int): (b: Breakdown)
    ensures b.days * SecondsPerDay + b.hours * SecondsPerHour + b.minutes * SecondsPerMinute + b.seconds == total
    ensures 0 <= b.hours < 24 && 0 <= b.minutes < 60 && 0 <= b.seconds < 60
    ensures total >= 0 <==> b.days >= 0
  {
    var days, remainder := total / SecondsPerDay, total % SecondsPerDay;
    var hours, remainder' := remainder / SecondsPerHour, remainder % SecondsPerHour;
    Breakdown(days, hours, remainder' / SecondsPerMinute, remainder' % SecondsPerMinute)
  }

  /** The label for a total number of elapsed seconds. */
  function TotalLabel(total: int): string
  {
    var b := Decompose(total);
    FormatInt(b.days, 2) + "d " + FormatInt(b.hours, 2) + "m " + FormatInt(b.minutes, 2) + "s"
  }

  /** The label drawn on the frame with enumeration index `idx`. */
  function Label(idx: nat, spf: int): string
  {
    TotalLabel(idx * spf)
  }

  /** Reads a label back into its three shown fields (days, hours, minutes). */
  function ParseLabel(s: string): Option<(int, int, int)>
  {
    var (days, r1) :- ParseInt(s);
    var r2 :- Expect("d ", r1);
    var (hours, r3) :- ParseInt(r2);
    var r4 :- Expect("m ", r3);
    var (minutes, r5) :- ParseInt(r4);
    var r6 :- Expect("s", r5);
    if r6 == [] then Some((days, hours, minutes)) else None
  }

  /** The breakdown is the only one with the sum and the field bounds of Decompose. */
  lemma {:induction false} DecomposeUnique(total: int, b: Breakdown)
    requires b.days * SecondsPerDay + b.hours * SecondsPerHour + b.minutes * SecondsPerMinute + b.seconds == total
    requires 0 <= b.hours < 24 && 0 <= b.minutes < 60 && 0 <= b.seconds < 60
    ensures b == Decompose(total)
  {
    var c := Decompose(total);
    assert b.days == c.days by {
      var r := b.hours * SecondsPerHour + b.minutes * SecondsPerMinute + b.seconds;
      var r' := c.hours * SecondsPerHour + c.minutes * SecondsPerMinute + c.seconds;
      assert 0 <= r < SecondsPerDay && 0 <= r' < SecondsPerDay;
      assert (b.days - c.days) * SecondsPerDay == r' - r;
    }
    assert b.hours == c.hours by {
      var r := b.minutes * SecondsPerMinute + b.seconds;
      var r' := c.minutes * SecondsPerMinute + c.seconds;
      assert (b.hours - c.hours) * SecondsPerHour == r' - r;
    }
    assert (b.minutes - c.minutes) * SecondsPerMinute == c.seconds - b.seconds;
  }

  /** The shown fields depend on the total only through the whole minutes it contains. */
  lemma {:induction false} DecomposeByMinute(total: int)
    ensures var b := Decompose(total); var m := total / SecondsPerMinute;
      b.days == m / 1440 && b.hours == (m % 1440) / 60 && b.minutes == m % 60
  {
    var m := total / SecondsPerMinute;
    var cand := Breakdown(m / 1440, (m % 1440) / 60, m % 60, total % SecondsPerMinute);
    assert m == (m / 1440) * 1440 + ((m % 1440) / 60) * 60 + m % 60;
    DecomposeUnique(total, cand);
  }

  /** The label loses nothing but the seconds: reading it back gives days, hours and minutes. */
  lemma {:induction false} ParseTotalLabel(total: int)
    ensures var b := Decompose(total); ParseLabel(TotalLabel(total)) == Some((b.days, b.hours, b.minutes))
  {
    var b := Decompose(total);
    var d, h, mi := FormatInt(b.days, 2), FormatInt(b.hours, 2), FormatInt(b.minutes, 2);
    var r5 := "s";
    var r4 := mi + r5;
    var r3 := "m " + r4;
    var r2 := h + r3;
    var r1 := "d " + r2;
    assert TotalLabel(total) == d + r1;
    ParseFormatInt(b.days, 2, r1);
    ExpectLiteral("d ", r2);
    ParseFormatInt(b.hours, 2, r3);
    ExpectLiteral("m ", r4);
    ParseFormatInt(b.minutes, 2, r5);
    ExpectLiteral("s", []);
    assert "s" + [] == "s";
  }

  /** Two totals get the same label exactly when they fall in the same minute. */
  lemma {:induction false} TotalLabelSameIffSameMinute(t1: int, t2: int)
    ensures TotalLabel(t1) == TotalLabel(t2) <==> t1 / SecondsPerMinute == t2 / SecondsPerMinute
  {
    DecomposeByMinute(t1);
    DecomposeByMinute(t2);
    if TotalLabel(t1) == TotalLabel(t2) {
      ParseTotalLabel(t1);
      ParseTotalLabel(t2);
      var m1, m2 := t1 / SecondsPerMinute, t2 / SecondsPerMinute;
      assert m1 == (m1 / 1440) * 1440 + ((m1 % 1440) / 60) * 60 + m1 % 60;
      assert m2 == (m2 / 1440) * 1440 + ((m2 % 1440) / 60) * 60 + m2 % 60;
    }
  }

  /** Frames whose elapsed times fall in the same minute carry the same label, and only those. */
  lemma {:induction false} LabelSameIffSameMinute(i1: nat, i2: nat, spf: int)
    ensures Label(i1, spf) == Label(i2, spf) <==> (i1 * spf) / 60 == (i2 * spf) / 60
  {
    TotalLabelSameIffSameMinute(i1 * spf, i2 * spf);
  }

  /** For a non-negative total every field is shown with at least two digits; days below 100 give an 11-character label. */
  lemma {:induction false} LabelShape(total: int)
    requires total >= 0
    ensures var b := Decompose(total);
      TotalLabel(total) == FormatInt(b.days, 2) + "d " + [DigitChar(b.hours / 10), DigitChar(b.hours % 10)]
        + "m " + [DigitChar(b.minutes / 10), DigitChar(b.minutes % 10)] + "s"
    ensures total < 100 * SecondsPerDay ==> |TotalLabel(total)| == 11
    ensures 100 * SecondsPerDay <= total < 1000 * SecondsPerDay ==> |TotalLabel(total)| == 12
  {
    var b := Decompose(total);
    TwoDigits(b.hours);
    TwoDigits(b.minutes);
    FormatWidth2(b.days);
    if b.days < 10 {
    } else if b.days < 100 {
      NatToStringLength(b.days, 2);
    } else if b.days < 1000 {
      NatToStringLength(b.days, 3);
    }
  }

  lemma {:induction false} TwoDigits(x: int)
    requires 0 <= x < 100
    ensures FormatInt(x, 2) == [DigitChar(x / 10), DigitChar(x % 10)]
  {
    FormatWidth2(x);
    if x >= 10 {
      assert NatToString(x) == NatToString(x / 10) + [DigitChar(x % 10)];
    }
  }

  /** The first frame is always labelled "00d 00m 00s", whatever the seconds per frame. */
  lemma {:induction false} FirstFrameLabel(spf: int)
    ensures Label(0, spf) == "00d 00m 00s"
  {
    FormatWidth2(0);
  }

  /** One day per frame: the second frame reads "01d 00m 00s". */
  lemma {:induction false} OneDayLabel()
    ensures Label(1, 86400) == "01d 00m 00s"
  {
    FormatWidth2(0);
    FormatWidth2(1);
  }

  /** Two hours elapsed read as "00d 02m 00s": the hour count sits in the field labelled "m". */
  lemma {:induction false} TwoHoursLabel()
    ensures Label(2, 3600) == "00d 02m 00s"
  {
    FormatWidth2(0);
    FormatWidth2(2);
  }
}
