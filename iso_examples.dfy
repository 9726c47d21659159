/** The date strings listed beside the pattern in the library, and a few
    others, run through the recognizer. */
module IsoExamples {
  import opened Wrappers
  import opened Decimal
  import opened IsoDateTime

  lemma ExampleOffset()
    ensures Recognize("2013-04-29T22:45:35.4361-04:00")
         == DateValue(DateTime(2013, 4, 29, 22, 45, 35, 436100, Some(TzOffset(-240, -300, ""))))
  {
    FourDigitFraction();
    RecognizeAs("2013-04-29T22:45:35.4361-04:00", "2013-04-29T22:45:35", ".4361", "-04:00",
                DateTime(2013, 4, 29, 22, 45, 35, 436100, Some(TzOffset(-240, -300, ""))));
  }

  /** The same instant with the colon left out of the offset. */
  lemma ExampleOffsetWithoutColon()
    ensures Recognize("2013-04-29T22:45:35.4361-0400")
         == DateValue(DateTime(2013, 4, 29, 22, 45, 35, 436100, Some(TzOffset(-240, -300, ""))))
  {
    FourDigitFraction();
    RecognizeAs("2013-04-29T22:45:35.4361-0400", "2013-04-29T22:45:35", ".4361", "-0400",
                DateTime(2013, 4, 29, 22, 45, 35, 436100, Some(TzOffset(-240, -300, ""))));
  }

  lemma ExampleNaive(s: string)
    requires s == "2013-04-29 22:45:35"
    ensures Recognize(s) == DateValue(DateTime(2013, 4, 29, 22, 45, 35, 0, None))
  {
    NaiveCore(s);
    assert s + "" + "" == s;
    RecognizeParts(s, "", "");
  }

  lemma NaiveCore(s: string)
    requires s == "2013-04-29 22:45:35"
    ensures |s| == 19 && StartsWithCore(s)
    ensures CoreFields(s, 0, None) == DateTime(2013, 4, 29, 22, 45, 35, 0, None)
  {
  }

  lemma ExampleZulu(s: string)
    requires s == "2013-04-29T22:45:35.294303Z"
    ensures Recognize(s) == StringValue(s)
  {
    var core, frac := ZuluParts(s);
    MatchOfParts(core, frac, "", true);
    ZuluIsNeverParsed(s);
  }

  lemma ZuluParts(s: string) returns (core: string, frac: string)
    requires s == "2013-04-29T22:45:35.294303Z"
    ensures |core| == 19 && StartsWithCore(core) && IsFractionText(frac)
    ensures s == core + frac + "" + "Z"
  {
    core, frac := "2013-04-29T22:45:35", ".294303";
  }

  lemma ExampleOutOfRange()
    ensures Recognize("2013-13-40T99:99:99") == StringValue("2013-13-40T99:99:99")
  {
    var core := "2013-13-40T99:99:99";
    assert core + "" + "" == core;
    assert CoreFields(core, 0, None).month == 13;
    RecognizeParts(core, "", "");
  }

  lemma ExampleNotADate()
    ensures Recognize("hello world") == StringValue("hello world")
  {
  }

  /** `+24:00` is read without a range check, but isoformat cannot write it back. */
  lemma ExampleFullDayOffset()
    ensures Recognize("2013-04-29T22:45:35+24:00")
         == DateValue(DateTime(2013, 4, 29, 22, 45, 35, 0, Some(TzOffset(1440, 1380, ""))))
    ensures Isoformat(DateTime(2013, 4, 29, 22, 45, 35, 0, Some(TzOffset(1440, 1380, "")))).Failure?
  {
    RecognizeAs("2013-04-29T22:45:35+24:00", "2013-04-29T22:45:35", "", "+24:00",
                DateTime(2013, 4, 29, 22, 45, 35, 0, Some(TzOffset(1440, 1380, ""))));
  }

  lemma RecognizeAs(s: string, core: string, frac: string, zone: string, dt: DateTime)
    requires s == core + frac + zone
    requires |core| == 19 && StartsWithCore(core)
    requires frac == "" || (IsFractionText(frac) && |frac| <= 7)
    requires zone == "" || IsOffsetText(zone)
    requires dt == CoreFields(core, if frac == "" then 0 else FractionMicros(frac),
                              if zone == "" then None else Some(FixedTzOffset(zone)))
    requires ValidDateTime(dt)
    ensures Recognize(s) == DateValue(dt)
  {
    RecognizeParts(core, frac, zone);
  }

  /** `.4361` is 436100 microseconds: four digits, right-padded to six. */
  lemma FourDigitFraction()
    ensures FractionMicros(".4361") == 436100
  {
    assert ".4361"[1..] == "4361";
    assert "4361"[..3] == "436" && "436"[..2] == "43" && "43"[..1] == "4" && "4"[..0] == "";
    assert DigitsValue("4") == 4;
    assert DigitsValue("43") == 43;
    assert DigitsValue("436") == 436;
  }
}
