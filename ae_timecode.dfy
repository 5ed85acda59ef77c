/**
 * The After Effects text-layer expression for 30-second-per-frame footage:
 * the current frame number times 30 gives the elapsed seconds, split into
 * hours (never rolled over into days), minutes and seconds, and rendered as
 * `HHh:MMm`. The frame number, which the host supplies through
 * `timeToFrames()`, is a parameter.
 */
module AfterEffects {
  import opened Wrappers
  import opened Decimal
  import Timecode

  const SecondsPerFrame := 30

  /**
   * `padNumber`: a "0" in front of values below 10; larger values are
   * returned as numbers and turn into their decimal form when the label
   * string is built.
   */
  function PadNumber(x: nat): string
  {
    if x < 10 then "0" + NatToString(x) else NatToString(x)
  }

  datatype Clock = Clock(hours: nat, minutes: nat, seconds: nat)

  /** The three assignments of the expression, on exact integers. */
  function ClockOf(frame: nat): (c: Clock)
    ensures c.hours * 3600 + c.minutes * 60 + c.seconds == frame * SecondsPerFrame
    ensures c.minutes < 60 && c.seconds < 60
  {
    var total := frame * SecondsPerFrame;
    Clock(total / 60 / 60, (total / 60) % 60, total % 60)
  }

  /** The value the expression evaluates to: the text shown on the layer. */
  function FrameLabel(frame: nat): string
  {
    var c := ClockOf(frame);
    PadNumber(c.hours) + "h:" + PadNumber(c.minutes) + "m"
  }

  /** Reads a label back into its hours and minutes. */
  function ParseFrameLabel(s: string): Option<(int, int)>
  {
    var (hours, r1) :- ParseInt(s);
    var r2 :- Expect("h:", r1);
    var (minutes, r3) :- ParseInt(r2);
    var r4 :- Expect("m", r3);
    if r4 == [] then Some((hours, minutes)) else None
  }

  /** padNumber pads exactly like Python's `:02d` on non-negative values. */
  lemma {:induction false} PadNumberIsFormat02(x: nat)
    ensures PadNumber(x) == FormatInt(x, 2)
  {
    FormatWidth2(x);
  }

  /** Below 10: "0" and the digit; from 10 on: the decimal form, at least two characters wide. */
  lemma {:induction false} PadNumberCases(x: nat)
    ensures x < 10 ==> PadNumber(x) == ['0', DigitChar(x)]
    ensures x >= 10 ==> PadNumber(x) == NatToString(x) && |PadNumber(x)| >= 2 && PadNumber(x)[0] != '0'
  {
  }

  /** Reading a padded number back gives the number: padding loses nothing. */
  lemma {:induction false} ParsePadNumber(x: nat)
    ensures ParseDigits(PadNumber(x)) == x
  {
    ParseNatToString(x);
    if x < 10 {
      ParseDigitsLeadingZeros("0", NatToString(x));
    }
  }

  /** Each field as a closed form of the frame number; seconds are always 0 or 30. */
  lemma {:induction false} ClockFields(frame: nat)
    ensures ClockOf(frame).seconds == (frame * SecondsPerFrame) % 60 == 30 * (frame % 2)
    ensures ClockOf(frame).minutes == ((frame * SecondsPerFrame) / 60) % 60 == (frame / 2) % 60
    ensures ClockOf(frame).hours == (frame * SecondsPerFrame) / 3600 == frame / 120
  {
    var total := frame * SecondsPerFrame;
    assert total / 60 == frame / 2;
  }

  /** The only breakdown with this sum and minutes, seconds below 60 is the one the expression computes. */
  lemma {:induction false} ClockUnique(frame: nat, c: Clock)
    requires c.hours * 3600 + c.minutes * 60 + c.seconds == frame * SecondsPerFrame
    requires c.minutes < 60 && c.seconds < 60
    ensures c == ClockOf(frame)
  {
    var d := ClockOf(frame);
    assert c.hours == d.hours by {
      assert (c.hours - d.hours) * 3600 == (d.minutes * 60 + d.seconds) - (c.minutes * 60 + c.seconds);
    }
    assert (c.minutes - d.minutes) * 60 == d.seconds - c.seconds;
  }

  /** The label shows hours and minutes and nothing else: reading it back gives both. */
  lemma {:induction false} ParseFrameLabelRoundTrip(frame: nat)
    ensures var c := ClockOf(frame); ParseFrameLabel(FrameLabel(frame)) == Some((c.hours as int, c.minutes as int))
  {
    var c := ClockOf(frame);
    PadNumberIsFormat02(c.hours);
    PadNumberIsFormat02(c.minutes);
    var h, mi := PadNumber(c.hours), PadNumber(c.minutes);
    var r3 := "m";
    var r2 := mi + r3;
    var r1 := "h:" + r2;
    assert FrameLabel(frame) == h + r1;
    ParseFormatInt(c.hours, 2, r1);
    ExpectLiteral("h:", r2);
    ParseFormatInt(c.minutes, 2, r3);
    ExpectLiteral("m", []);
    assert "m" + [] == "m";
  }

  /** Two frames get the same label exactly when they fall in the same minute, i.e. the same pair of frames. */
  lemma {:induction false} FrameLabelSameIffSameMinute(f1: nat, f2: nat)
    ensures FrameLabel(f1) == FrameLabel(f2) <==> f1 / 2 == f2 / 2
  {
    ClockFields(f1);
    ClockFields(f2);
    if FrameLabel(f1) == FrameLabel(f2) {
      ParseFrameLabelRoundTrip(f1);
      ParseFrameLabelRoundTrip(f2);
      assert f1 / 2 == (f1 / 120) * 60 + (f1 / 2) % 60;
      assert f2 / 2 == (f2 / 120) * 60 + (f2 / 2) % 60;
    }
  }

  /**
   * Against the assembler's label at the same 30 seconds per frame: the
   * expression's hours are the assembler's days and hours together, its
   * minutes are the number the assembler shows in the field labelled "s".
   */
  lemma {:induction false} AgreesWithAssembler(frame: nat)
    ensures var c := ClockOf(frame); var b := Timecode.Decompose(frame * SecondsPerFrame);
      c.hours == b.days * 24 + b.hours && c.minutes == b.minutes && c.seconds == b.seconds
  {
    var c := ClockOf(frame);
    var b := Timecode.Decompose(frame * SecondsPerFrame);
    var c' := Clock(b.days * 24 + b.hours, b.minutes, b.seconds);
    ClockUnique(frame, c');
  }
}
