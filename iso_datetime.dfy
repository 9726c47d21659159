/** The temporal codec of jsontree.py: the ISO date-time pattern
    `_datetime_iso_re`, the fixed-offset timezone `_FixedTzOffset`, the
    recognizer `_datetimedecoder` with the `datetime.strptime` call it makes,
    and the formatter `_datetimeencoder` (`datetime.isoformat`).
    Offsets are whole minutes; digits are ASCII. */
module IsoDateTime {
  import opened Wrappers
  import opened Decimal

  // ---------------------------------------------------------------------------
  // Values

  /** A `_FixedTzOffset`: what `utcoffset`, `dst` and `tzname` return, the two
      timedeltas in minutes. */
  datatype TzOffset = TzOffset(offset: int, dst: int, name: string)

  /** A `datetime.datetime`: the fields strptime fills, and the tzinfo (None
      for a naive value). */
  datatype DateTime = DateTime(year: nat, month: nat, day: nat,
                               hour: nat, minute: nat, second: nat,
                               microsecond: nat, tz: Option<TzOffset>)

  predicate IsLeapYear(y: nat) {
    y % 4 == 0 && (y % 100 != 0 || y % 400 == 0)
  }

  function DaysInMonth(y: nat, m: nat): (n: nat)
    requires 1 <= m <= 12
    ensures 28 <= n <= 31
    ensures n == 29 <==> m == 2 && IsLeapYear(y)
  {
    if m == 2 then (if IsLeapYear(y) then 29 else 28)
    else if m == 4 || m == 6 || m == 9 || m == 11 then 30
    else 31
  }

  /** The ranges `datetime.datetime` accepts for its fields. */
  predicate ValidDateTime(dt: DateTime) {
    && 1 <= dt.year <= 9999
    && 1 <= dt.month <= 12
    && 1 <= dt.day <= DaysInMonth(dt.year, dt.month)
    && dt.hour < 24 && dt.minute < 60 && dt.second < 60
    && dt.microsecond < 1000000
  }

  // ---------------------------------------------------------------------------
  // Fixed-offset timezone

  predicate IsSign(c: char) {
    c == '+' || c == '-'
  }

  /** `[-+]\d{2}\:?\d{2}`: the text the `z` group captures. */
  predicate IsOffsetText(s: string) {
    && (|s| == 5 || |s| == 6)
    && IsSign(s[0]) && IsDigit(s[1]) && IsDigit(s[2])
    && IsDigit(s[|s| - 2]) && IsDigit(s[|s| - 1])
    && (if |s| == 6 then s[3] == ':' else true)
  }

  function Sign(c: char): int {
    if c == '-' then -1 else 1
  }

  /** `_FixedTzOffset(offset_str)`: hours from characters 1-2, minutes from the
      last two, both negated after a '-'; no range check. */
  function FixedTzOffset(s: string): (tz: TzOffset)
    requires IsOffsetText(s)
    ensures tz.offset == Sign(s[0]) * (60 * (10 * DigitValue(s[1]) + DigitValue(s[2]))
                                       + 10 * DigitValue(s[|s| - 2]) + DigitValue(s[|s| - 1]))
    ensures tz.dst == tz.offset - 60
    ensures tz.name == ""
  {
    var hours: int := 10 * DigitValue(s[1]) + DigitValue(s[2]);
    var mins: int := 10 * DigitValue(s[|s| - 2]) + DigitValue(s[|s| - 1]);
    var h := if s[0] == '-' then -hours else hours;
    var m := if s[0] == '-' then -mins else mins;
    TzOffset(60 * h + m, 60 * (h - 1) + m, "")
  }

  /** The colon between hours and minutes makes no difference. */
  lemma ColonIsOptional(sign: char, h1: char, h2: char, m1: char, m2: char)
    requires IsSign(sign) && IsDigit(h1) && IsDigit(h2) && IsDigit(m1) && IsDigit(m2)
    ensures IsOffsetText([sign, h1, h2, ':', m1, m2]) && IsOffsetText([sign, h1, h2, m1, m2])
    ensures FixedTzOffset([sign, h1, h2, ':', m1, m2]) == FixedTzOffset([sign, h1, h2, m1, m2])
  {
  }

  /** With no range check, every offset text gives at most 99 hours 99 minutes
      either way, which reaches beyond the +-24 hours `datetime` allows. */
  lemma OffsetRange(s: string)
    requires IsOffsetText(s)
    ensures -6039 <= FixedTzOffset(s).offset <= 6039
    ensures FixedTzOffset("+24:00").offset == 1440
  {
    assert IsOffsetText("+24:00");
  }

  /** How `isoformat` writes a utcoffset of whole minutes: `+HH:MM` or `-HH:MM`. */
  function OffsetText(minutes: int): (s: string)
    requires -1440 < minutes < 1440
    ensures IsOffsetText(s) && |s| == 6
  {
    var a := if minutes < 0 then -minutes else minutes;
    [if minutes < 0 then '-' else '+'] + Padded(a / 60, 2) + ":" + Padded(a % 60, 2)
  }

  /** The timezone the recognizer rebuilds from `isoformat`'s offset text has
      the offset that was written. */
  lemma {:induction false} OffsetTextRoundTrip(minutes: int)
    requires -1440 < minutes < 1440
    ensures FixedTzOffset(OffsetText(minutes)) == TzOffset(minutes, minutes - 60, "")
  {
    var s := OffsetText(minutes);
    var a := if minutes < 0 then -minutes else minutes;
    var hh, mm := Padded(a / 60, 2), Padded(a % 60, 2);
    assert s == [s[0]] + hh + ":" + mm;
    assert s[1] == hh[0] && s[2] == hh[1] && s[4] == mm[0] && s[5] == mm[1];
    PaddedValue(a / 60, 2);
    PaddedValue(a % 60, 2);
    assert hh[..1] == [hh[0]] && mm[..1] == [mm[0]];
  }

  // ---------------------------------------------------------------------------
  // The pattern _datetime_iso_re

  /** The named groups after a successful match: `parsable`, `T`, `f`, `z`,
      and whether `Z` took part. */
  datatype Groups = Groups(parsable: string, sep: char, fraction: Option<string>,
                           offset: Option<string>, zulu: bool)

  function OptText(o: Option<string>): string {
    if o.Some? then o.value else ""
  }

  /** The whole text the pattern consumed. */
  function MatchedText(g: Groups): string {
    g.parsable + OptText(g.offset) + (if g.zulu then "Z" else "")
  }

  /** `\d{4}-\d{2}-\d{2}[ T]\d{2}:\d{2}:\d{2}` at the start of s. */
  predicate StartsWithCore(s: string) {
    && |s| >= 19
    && IsDigit(s[0]) && IsDigit(s[1]) && IsDigit(s[2]) && IsDigit(s[3]) && s[4] == '-'
    && IsDigit(s[5]) && IsDigit(s[6]) && s[7] == '-' && IsDigit(s[8]) && IsDigit(s[9])
    && (s[10] == ' ' || s[10] == 'T')
    && IsDigit(s[11]) && IsDigit(s[12]) && s[13] == ':' && IsDigit(s[14]) && IsDigit(s[15])
    && s[16] == ':' && IsDigit(s[17]) && IsDigit(s[18])
  }

  /** The two-digit number at positions i and i + 1. */
  function Field2(s: string, i: nat): (n: nat)
    requires i + 1 < |s| && IsDigit(s[i]) && IsDigit(s[i + 1])
    ensures n < 100
  {
    10 * DigitValue(s[i]) + DigitValue(s[i + 1])
  }

  /** The date and time fields at their fixed positions in a core text. */
  function CoreFields(s: string, us: nat, tz: Option<TzOffset>): DateTime
    requires StartsWithCore(s)
  {
    DateTime(100 * Field2(s, 0) + Field2(s, 2), Field2(s, 5), Field2(s, 8),
             Field2(s, 11), Field2(s, 14), Field2(s, 17), us, tz)
  }

  /** Two strings that agree on their first n characters. */
  predicate AgreeUpTo(s: string, t: string, n: nat) {
    n <= |s| && n <= |t| && forall k :: 0 <= k < n ==> s[k] == t[k]
  }

  lemma CoreOfAgreeing(s: string, t: string, us: nat, tz: Option<TzOffset>)
    requires AgreeUpTo(s, t, 19) && StartsWithCore(t)
    ensures StartsWithCore(s) && CoreFields(s, us, tz) == CoreFields(t, us, tz)
  {
  }

  /** `\.\d{1,7}`: the text the `f` group captures. */
  predicate IsFractionText(f: string) {
    2 <= |f| <= 8 && f[0] == '.' && forall k :: 1 <= k < |f| ==> IsDigit(f[k])
  }

  /** The fraction's digits, right-padded with zeros to six, as `%f` reads them. */
  function FractionMicros(f: string): (us: nat)
    requires IsFractionText(f) && |f| <= 7
    ensures us < 1000000
  {
    var digits := f[1..];
    assert AllDigits(digits) by {
      forall k | 0 <= k < |digits| ensures IsDigit(digits[k]) { assert digits[k] == f[k + 1]; }
    }
    RightPaddedBound(DigitsValue(digits), |digits|, 6);
    DigitsValue(digits) * Pow10(6 - |digits|)
  }

  /** An offset text of either length starts at position i of s. */
  predicate OffsetAt(s: string, i: nat) {
    || (i + 5 <= |s| && IsOffsetText(s[i..i + 5]))
    || (i + 6 <= |s| && IsOffsetText(s[i..i + 6]))
  }

  /** Where the match ends: after `parsable`, the offset group and `Z`. */
  function MatchEnd(g: Groups): nat {
    |g.parsable| + |OptText(g.offset)| + (if g.zulu then 1 else 0)
  }

  /** What it means for the pattern to match s with groups g: the groups lie
      one after the other at the start of s, each has its shape, and each
      optional group took as much as it could (the quantifiers are greedy, and
      with no `$` nothing after them forces a shorter choice). */
  predicate IsMatch(s: string, g: Groups) {
    var p := |g.parsable|;
    var q := p + |OptText(g.offset)|;
    && MatchEnd(g) <= |s|
    && s[..p] == g.parsable
    && (g.offset.Some? ==> s[p..q] == g.offset.value && IsOffsetText(g.offset.value))
    && (g.zulu ==> s[q] == 'Z')
    && StartsWithCore(g.parsable) && g.sep == g.parsable[10]
    && (if g.fraction.None? then p == 19
        else IsFractionText(g.fraction.value) && g.parsable[19..] == g.fraction.value)
    && (g.fraction.None? ==> !(21 <= |s| && s[19] == '.' && IsDigit(s[20])))
    && (g.fraction.Some? && p < 27 && p < |s| ==> !IsDigit(s[p]))
    && (g.offset.None? ==> !OffsetAt(s, p))
    && (!g.zulu && q < |s| ==> s[q] != 'Z')
  }

  /** The text a match consumed is the prefix of s up to its end. */
  lemma MatchedPrefix(s: string, g: Groups)
    requires IsMatch(s, g)
    ensures MatchedText(g) == s[..MatchEnd(g)]
  {
    var p := |g.parsable|;
    var q := p + |OptText(g.offset)|;
    assert s[..q] == s[..p] + s[p..q];
    if g.zulu {
      assert s[..q + 1] == s[..q] + [s[q]];
    }
  }

  /** The number of digits, at most max, that follow position i. */
  function DigitRun(s: string, i: nat, max: nat): (n: nat)
    requires i <= |s|
    ensures n <= max && i + n <= |s|
    ensures forall k :: i <= k < i + n ==> IsDigit(s[k])
    ensures n < max && i + n < |s| ==> !IsDigit(s[i + n])
    decreases max
  {
    if max == 0 || i == |s| || !IsDigit(s[i]) then 0 else 1 + DigitRun(s, i + 1, max - 1)
  }

  /** The length of `(\.\d{1,7})?` matched at i. */
  function FractionLength(s: string, i: nat): (n: nat)
    requires i <= |s|
    ensures n == 0 || (2 <= n <= 8 && i + n <= |s| && IsFractionText(s[i..i + n]))
  {
    if i + 1 < |s| && s[i] == '.' && IsDigit(s[i + 1]) then
      1 + DigitRun(s, i + 1, 7)
    else 0
  }

  /** The length of `([-+]\d{2}\:?\d{2})?` matched at i: the colon is tried
      first, and when it cannot be completed the colon-less form is tried. */
  function OffsetLength(s: string, i: nat): (n: nat)
    requires i <= |s|
    ensures n == 0 || ((n == 5 || n == 6) && i + n <= |s| && IsOffsetText(s[i..i + n]))
    ensures n == 0 <==> !OffsetAt(s, i)
  {
    if i + 3 <= |s| && IsSign(s[i]) && IsDigit(s[i + 1]) && IsDigit(s[i + 2]) then
      if i + 6 <= |s| && s[i + 3] == ':' && IsDigit(s[i + 4]) && IsDigit(s[i + 5]) then 6
      else if i + 5 <= |s| && IsDigit(s[i + 3]) && IsDigit(s[i + 4]) then 5
      else 0
    else 0
  }

  /** The groups the pattern captures from a string that starts with the core. */
  function ScanGroups(s: string): Groups
    requires StartsWithCore(s)
  {
    var p := 19 + FractionLength(s, 19);
    var q := p + OffsetLength(s, p);
    Groups(s[..p], s[10], if p > 19 then Some(s[19..p]) else None,
           if q > p then Some(s[p..q]) else None, q < |s| && s[q] == 'Z')
  }

  lemma ScanGroupsMatch(s: string)
    requires StartsWithCore(s)
    ensures IsMatch(s, ScanGroups(s))
  {
    var g := ScanGroups(s);
    var p := 19 + FractionLength(s, 19);
    var q := p + OffsetLength(s, p);
    assert |g.parsable| == p && MatchEnd(g) <= |s|;
    assert AgreeUpTo(g.parsable, s, 19);
    CoreOfAgreeing(g.parsable, s, 0, None);
    if p > 19 {
      assert g.parsable[19..] == s[19..p];
    }
  }

  /** `_datetime_iso_re.match(s)`: the pattern anchored at the start of s. */
  function MatchIso(s: string): (m: Option<Groups>)
    ensures m.Some? ==> IsMatch(s, m.value)
  {
    if !StartsWithCore(s) then None
    else
      ScanGroupsMatch(s);
      Some(ScanGroups(s))
  }

  lemma {:induction false} DigitRunExact(s: string, i: nat, max: nat, n: nat)
    requires i + n <= |s| && n <= max
    requires forall k :: i <= k < i + n ==> IsDigit(s[k])
    requires n == max || i + n == |s| || !IsDigit(s[i + n])
    ensures DigitRun(s, i, max) == n
    decreases n
  {
    if n > 0 {
      DigitRunExact(s, i + 1, max - 1, n - 1);
    }
  }

  /** The groups MatchIso reports are the only ones the pattern can match with. */
  lemma MatchIsoComplete(s: string, g: Groups)
    requires IsMatch(s, g)
    ensures MatchIso(s) == Some(g)
  {
    var p := |g.parsable|;
    assert AgreeUpTo(s, g.parsable, p);
    CoreOfAgreeing(s, g.parsable, 0, None);
    MatchedFraction(s, g);
    MatchedOffset(s, g);
    assert g.fraction.Some? ==> s[19..p] == g.fraction.value by {
      assert s[19..p] == s[..p][19..];
    }
  }

  lemma MatchedFraction(s: string, g: Groups)
    requires IsMatch(s, g)
    ensures FractionLength(s, 19) == |g.parsable| - 19
  {
    var p := |g.parsable|;
    match g.fraction {
      case None =>
      case Some(f) =>
        assert forall k :: 19 <= k < p ==> s[k] == f[k - 19] by {
          forall k | 19 <= k < p ensures s[k] == f[k - 19] {
            assert s[k] == s[..p][k] == g.parsable[19..][k - 19];
          }
        }
        DigitRunExact(s, 20, 7, p - 20);
    }
  }

  lemma MatchedOffset(s: string, g: Groups)
    requires IsMatch(s, g)
    ensures OffsetLength(s, |g.parsable|) == |OptText(g.offset)|
  {
    var p := |g.parsable|;
    match g.offset {
      case None =>
      case Some(o) =>
        assert forall k :: 0 <= k < |o| ==> s[p + k] == o[k] by {
          forall k | 0 <= k < |o| ensures s[p + k] == o[k] {
            assert s[p + k] == s[p..p + |o|][k];
          }
        }
    }
  }

  // ---------------------------------------------------------------------------
  // datetime.datetime.strptime

  /** The format `_datetimedecoder` builds: "%Y-%m-%d", the separator, "%H:%M:%S",
      then ".%f" when the `f` group matched and a literal "Z" when `Z` did. */
  datatype Format = Format(sep: char, fraction: bool, zulu: bool)

  function FormatOf(g: Groups): Format {
    Format(g.sep, g.fraction.Some?, g.zulu)
  }

  /** What follows the seconds field under fmt: ".%f" (one to six digits,
      right-padded with zeros to microseconds) when the format has it, then
      the literal "Z" when the format has it, and nothing more. */
  function Microseconds(rest: string, fmt: Format): (r: Option<nat>)
    ensures r.Some? ==> r.value < 1000000
  {
    var body :=
      if !fmt.zulu then Some(rest)
      else if |rest| > 0 && rest[|rest| - 1] == 'Z' then Some(rest[..|rest| - 1])
      else None;
    if body.None? then None
    else if !fmt.fraction then (if body.value == [] then Some(0) else None)
    else if IsFractionText(body.value) && |body.value| <= 7 then Some(FractionMicros(body.value))
    else None
  }

  /** `datetime.datetime.strptime(data, format)` for the formats above, with
      None for the ValueError it raises. The year, month, day, hour, minute and
      second are read from their fixed positions, as the pattern captures them
      with exactly four or two digits, and then range-checked. */
  function Strptime(data: string, fmt: Format): (r: Option<DateTime>)
    ensures r.Some? ==> ValidDateTime(r.value) && r.value.tz.None?
  {
    if !StartsWithCore(data) || data[10] != fmt.sep then None
    else match Microseconds(data[19..], fmt)
      case None => None
      case Some(us) =>
        var dt := CoreFields(data, us, None);
        if ValidDateTime(dt) then Some(dt) else None
  }

  // ---------------------------------------------------------------------------
  // The recognizer _datetimedecoder

  /** What the recognizer returns: a datetime, or the string it was given. */
  datatype Decoded = DateValue(dt: DateTime) | StringValue(s: string)

  /** `_datetimedecoder(s)`; it never raises. */
  function Recognize(s: string): (r: Decoded)
    ensures r.StringValue? ==> r.s == s
    ensures r.DateValue? ==> ValidDateTime(r.dt) && MatchIso(s).Some?
    ensures r.DateValue? ==> (r.dt.tz.Some? <==> MatchIso(s).value.offset.Some?)
    ensures r.DateValue? && r.dt.tz.Some? ==> r.dt.tz.value.dst == r.dt.tz.value.offset - 60
  {
    match MatchIso(s)
    case None => StringValue(s)
    case Some(g) =>
      match Strptime(g.parsable, FormatOf(g))
      case None => StringValue(s)
      case Some(dt) =>
        if g.offset.Some? then DateValue(dt.(tz := Some(FixedTzOffset(g.offset.value))))
        else DateValue(dt)
  }

  /** A match that includes the `Z` group never parses: the format then ends in
      a literal "Z" that the `parsable` group cannot contain, so strptime raises
      and the string comes back unchanged. */
  lemma ZuluIsNeverParsed(s: string)
    requires MatchIso(s).Some? && MatchIso(s).value.zulu
    ensures Recognize(s) == StringValue(s)
  {
    var g := MatchIso(s).value;
    var rest := g.parsable[19..];
    if |rest| > 0 {
      assert rest[|rest| - 1] == g.fraction.value[1..][|rest| - 2];
    }
  }

  /** A seven-digit fraction matches the pattern but not `%f`, which takes at
      most six digits, so the string comes back unchanged. */
  lemma LongFractionIsNeverParsed(s: string)
    requires MatchIso(s).Some? && MatchIso(s).value.fraction.Some?
    requires |MatchIso(s).value.fraction.value| == 8
    ensures Recognize(s) == StringValue(s)
  {
  }

  /** The date-time a match denotes before range checks: the fields at their
      positions in s, the fraction right-padded to microseconds, and the
      timezone built from the offset group. */
  function FieldsAt(s: string, g: Groups): (dt: DateTime)
    requires IsMatch(s, g)
    requires g.fraction.Some? ==> |g.fraction.value| <= 7
    ensures dt.microsecond < 1000000
  {
    CoreOfAgreeing(s, g.parsable, 0, None);
    CoreFields(s, if g.fraction.None? then 0 else FractionMicros(g.fraction.value),
               if g.offset.Some? then Some(FixedTzOffset(g.offset.value)) else None)
  }

  /** The recognizer in full: a string turns into a datetime exactly when the
      pattern matches it without the `Z` group, with at most six fraction digits,
      and the fields it denotes are in range; the datetime is then those fields,
      with a timezone exactly when the offset group matched. In every other
      case, an out-of-range month, day, hour, minute or second included, the
      string comes back unchanged. */
  lemma RecognizeCharacterized(s: string)
    ensures Recognize(s).DateValue? <==>
      && MatchIso(s).Some?
      && !MatchIso(s).value.zulu
      && (MatchIso(s).value.fraction.Some? ==> |MatchIso(s).value.fraction.value| <= 7)
      && ValidDateTime(FieldsAt(s, MatchIso(s).value))
    ensures Recognize(s).DateValue? ==> Recognize(s).dt == FieldsAt(s, MatchIso(s).value)
    ensures Recognize(s).StringValue? ==> Recognize(s) == StringValue(s)
  {
    match MatchIso(s)
    case None =>
    case Some(g) =>
      if g.zulu {
        ZuluIsNeverParsed(s);
      } else if g.fraction.Some? && |g.fraction.value| == 8 {
        LongFractionIsNeverParsed(s);
      } else {
        StrptimeOfMatch(s, g);
      }
  }

  /** On a match without `Z` and with at most six fraction digits, strptime
      reads the fields the match denotes and range-checks them. */
  lemma StrptimeOfMatch(s: string, g: Groups)
    requires IsMatch(s, g) && !g.zulu
    requires g.fraction.Some? ==> |g.fraction.value| <= 7
    ensures Strptime(g.parsable, FormatOf(g)) ==
      (var dt := FieldsAt(s, g).(tz := None); if ValidDateTime(dt) then Some(dt) else None)
  {
    var us := if g.fraction.None? then 0 else FractionMicros(g.fraction.value);
    CoreOfAgreeing(s, g.parsable, us, None);
    assert g.fraction.None? ==> g.parsable[19..] == [];
    assert Microseconds(g.parsable[19..], FormatOf(g)) == Some(us);
  }

  /** Appending text that does not begin with a digit, '.', a sign or 'Z' to
      a string the pattern matches completely leaves the match, and so the
      result, as it was. */
  lemma TrailingTextIgnored(p: string, t: string)
    requires MatchIso(p).Some? && MatchEnd(MatchIso(p).value) == |p|
    requires t != [] ==> !(IsDigit(t[0]) || t[0] == '.' || IsSign(t[0]) || t[0] == 'Z')
    ensures MatchIso(p + t) == MatchIso(p)
    ensures Recognize(p + t).DateValue? <==> Recognize(p).DateValue?
    ensures Recognize(p).DateValue? ==> Recognize(p + t) == Recognize(p)
  {
    var g := MatchIso(p).value;
    ExtendedMatch(p, t, g);
    MatchIsoComplete(p + t, g);
  }

  /** The pattern has no `$`, so a match depends only on the text it
      consumed: cutting the string at the end of its match gives the same
      groups, and the same datetime when there is one. */
  lemma MatchOnPrefix(s: string)
    requires MatchIso(s).Some?
    ensures var e := MatchEnd(MatchIso(s).value);
      && MatchIso(s[..e]) == MatchIso(s)
      && (Recognize(s[..e]).DateValue? <==> Recognize(s).DateValue?)
      && (Recognize(s).DateValue? ==> Recognize(s[..e]) == Recognize(s))
  {
    var g := MatchIso(s).value;
    TruncatedMatch(s, g);
    MatchIsoComplete(s[..MatchEnd(g)], g);
  }

  lemma TruncatedMatch(s: string, g: Groups)
    requires IsMatch(s, g)
    ensures IsMatch(s[..MatchEnd(g)], g)
  {
    var e := MatchEnd(g);
    var t := s[..e];
    var n := |g.parsable|;
    var q := n + |OptText(g.offset)|;
    assert forall k :: 0 <= k < e ==> t[k] == s[k];
    assert t[..n] == s[..n];
    assert t[n..q] == s[n..q];
    if g.offset.None? && g.zulu {
      OffsetStartsWithSign(t, n);
    }
  }

  lemma ExtendedMatch(p: string, t: string, g: Groups)
    requires IsMatch(p, g) && MatchEnd(g) == |p|
    requires t != [] ==> !(IsDigit(t[0]) || t[0] == '.' || IsSign(t[0]) || t[0] == 'Z')
    ensures IsMatch(p + t, g)
  {
    var s := p + t;
    var n := |g.parsable|;
    var q := n + |OptText(g.offset)|;
    assert forall k :: 0 <= k < |p| ==> s[k] == p[k];
    assert |p| < |s| ==> s[|p|] == t[0];
    assert s[..|p|] == p;
    assert s[..n] == p[..n] by { assert s[..n] == s[..|p|][..n]; }
    assert s[n..q] == p[n..q] by { assert s[n..q] == s[..|p|][n..q]; }
    assert g.offset.None? && n < |p| ==> p[n] == 'Z';
    if n < |s| && !IsSign(s[n]) {
      OffsetStartsWithSign(s, n);
    }
  }

  lemma OffsetStartsWithSign(s: string, i: nat)
    requires i < |s| && !IsSign(s[i])
    ensures !OffsetAt(s, i)
  {
    if i + 5 <= |s| { assert s[i..i + 5][0] == s[i]; }
    if i + 6 <= |s| { assert s[i..i + 6][0] == s[i]; }
  }

  // ---------------------------------------------------------------------------
  // The formatter _datetimeencoder

  /** `dt.isoformat()`: "YYYY-MM-DDTHH:MM:SS", ".ffffff" when the microseconds
      are not zero, and the utcoffset when there is a timezone; `datetime`
      raises ValueError for a utcoffset of 24 hours or more either way. */
  function Isoformat(dt: DateTime): (r: Result<string>)
    ensures r.Failure? <==> dt.tz.Some? && !(-1440 < dt.tz.value.offset < 1440)
    ensures r.Failure? ==> r.error.ValueError?
  {
    var text := ZeroPadded(dt.year, 4) + "-" + ZeroPadded(dt.month, 2) + "-" + ZeroPadded(dt.day, 2)
      + "T" + ZeroPadded(dt.hour, 2) + ":" + ZeroPadded(dt.minute, 2) + ":" + ZeroPadded(dt.second, 2)
      + (if dt.microsecond != 0 then "." + ZeroPadded(dt.microsecond, 6) else "");
    match dt.tz
    case None => Success(text)
    case Some(z) =>
      if -1440 < z.offset < 1440 then Success(text + OffsetText(z.offset))
      else Failure(ValueError("offset must be a timedelta strictly between -timedelta(hours=24) and timedelta(hours=24)"))
  }

  /** The date-times that both the recognizer and isoformat handle: valid
      fields, and a timezone, if any, of the shape `_FixedTzOffset` builds and
      of less than a day either way. */
  predicate Reproducible(dt: DateTime) {
    && ValidDateTime(dt)
    && (dt.tz.Some? ==> -1440 < dt.tz.value.offset < 1440
                        && dt.tz.value == TzOffset(dt.tz.value.offset, dt.tz.value.offset - 60, ""))
  }

  /** The first nineteen characters isoformat writes, digit by digit. */
  function CoreText(dt: DateTime): (c: string)
    ensures |c| == 19
  {
    [DigitChar(dt.year / 1000 % 10), DigitChar(dt.year / 100 % 10),
     DigitChar(dt.year / 10 % 10), DigitChar(dt.year % 10), '-',
     DigitChar(dt.month / 10 % 10), DigitChar(dt.month % 10), '-',
     DigitChar(dt.day / 10 % 10), DigitChar(dt.day % 10), 'T',
     DigitChar(dt.hour / 10 % 10), DigitChar(dt.hour % 10), ':',
     DigitChar(dt.minute / 10 % 10), DigitChar(dt.minute % 10), ':',
     DigitChar(dt.second / 10 % 10), DigitChar(dt.second % 10)]
  }

  function FractionText(us: nat): string {
    if us != 0 then "." + Padded(us, 6) else ""
  }

  function ZoneText(tz: Option<TzOffset>): string
    requires tz.Some? ==> -1440 < tz.value.offset < 1440
  {
    if tz.Some? then OffsetText(tz.value.offset) else ""
  }

  /** isoformat's date and time fields, written with `ZeroPadded`, are CoreText. */
  lemma DateTextIsCore(dt: DateTime)
    requires ValidDateTime(dt)
    ensures ZeroPadded(dt.year, 4) + "-" + ZeroPadded(dt.month, 2) + "-" + ZeroPadded(dt.day, 2)
      + "T" + ZeroPadded(dt.hour, 2) + ":" + ZeroPadded(dt.minute, 2) + ":" + ZeroPadded(dt.second, 2)
      == CoreText(dt)
  {
    assert Pow10(2) == 100 && Pow10(4) == 10000;
    ZeroPaddedFits(dt.year, 4);
    ZeroPaddedFits(dt.month, 2);
    ZeroPaddedFits(dt.day, 2);
    ZeroPaddedFits(dt.hour, 2);
    ZeroPaddedFits(dt.minute, 2);
    ZeroPaddedFits(dt.second, 2);
    Padded4(dt.year);
    Padded2(dt.month);
    Padded2(dt.day);
    Padded2(dt.hour);
    Padded2(dt.minute);
    Padded2(dt.second);
    Display19(Padded(dt.year, 4), Padded(dt.month, 2), Padded(dt.day, 2),
              Padded(dt.hour, 2), Padded(dt.minute, 2), Padded(dt.second, 2));
  }

  /** Six digit fields joined by isoformat's separators, element by element. */
  lemma Display19(y: string, mo: string, d: string, h: string, mi: string, sc: string)
    requires |y| == 4 && |mo| == 2 && |d| == 2 && |h| == 2 && |mi| == 2 && |sc| == 2
    ensures y + "-" + mo + "-" + d + "T" + h + ":" + mi + ":" + sc
      == [y[0], y[1], y[2], y[3], '-', mo[0], mo[1], '-', d[0], d[1], 'T',
          h[0], h[1], ':', mi[0], mi[1], ':', sc[0], sc[1]]
  {
    var a := y + "-" + mo + "-";
    assert a == [y[0], y[1], y[2], y[3], '-', mo[0], mo[1], '-'];
    var b := a + d + "T" + h + ":";
    assert b == a + [d[0], d[1], 'T', h[0], h[1], ':'];
    assert b + mi + ":" + sc == b + [mi[0], mi[1], ':', sc[0], sc[1]];
  }

  lemma IsoformatText(dt: DateTime)
    requires Reproducible(dt)
    ensures Isoformat(dt) == Success(CoreText(dt) + FractionText(dt.microsecond) + ZoneText(dt.tz))
  {
    DateTextIsCore(dt);
    assert Pow10(6) == 1000000;
    ZeroPaddedFits(dt.microsecond, 6);
    var text := CoreText(dt) + FractionText(dt.microsecond);
    assert Isoformat(dt) == if dt.tz.Some? then Success(text + OffsetText(dt.tz.value.offset)) else Success(text);
    assert text + "" == text;
  }

  lemma TwoDigits(n: nat)
    requires n < 100
    ensures 10 * (n / 10 % 10) + n % 10 == n
  {
  }

  lemma FourDigits(n: nat)
    requires n < 10000
    ensures 100 * (10 * (n / 1000 % 10) + n / 100 % 10) + 10 * (n / 10 % 10) + n % 10 == n
  {
    var hi := n / 100;
    assert n / 1000 == hi / 10;
    TwoDigits(hi);
    assert 10 * (n / 10 % 10) + n % 10 == n % 100;
  }

  lemma CoreTextFields(dt: DateTime, us: nat, tz: Option<TzOffset>)
    requires ValidDateTime(dt)
    ensures StartsWithCore(CoreText(dt)) && CoreText(dt)[10] == 'T'
    ensures CoreFields(CoreText(dt), us, tz) == dt.(microsecond := us, tz := tz)
  {
    FourDigits(dt.year);
    TwoDigits(dt.month);
    TwoDigits(dt.day);
    TwoDigits(dt.hour);
    TwoDigits(dt.minute);
    TwoDigits(dt.second);
  }

  /** A date-time core followed by an optional fraction, an optional offset,
      an optional `Z` and nothing else is matched group by group. */
  lemma MatchOfParts(core: string, frac: string, zone: string, zulu: bool)
    requires |core| == 19 && StartsWithCore(core)
    requires frac == "" || IsFractionText(frac)
    requires zone == "" || IsOffsetText(zone)
    ensures IsMatch(core + frac + zone + (if zulu then "Z" else ""),
                    Groups(core + frac, core[10], if frac == "" then None else Some(frac),
                           if zone == "" then None else Some(zone), zulu))
  {
    var z := if zulu then "Z" else "";
    var a := core + frac;
    var s := a + zone + z;
    var p, q := |a|, |a| + |zone|;
    Layout(a, zone, z);
    CoreOfAgreeing(a, core, 0, None);
    assert zone != "" ==> IsSign(s[p]);
    assert zone == "" && zulu ==> s[p] == 'Z';
    if frac != "" {
      assert a[19..] == frac;
    } else if |s| > 19 {
      assert s[19] == (zone + z)[0];
    }
    if zone == "" && p < |s| {
      OffsetStartsWithSign(s, p);
    }
  }

  /** Where the three parts of a + b + c sit. */
  lemma Layout(a: string, b: string, c: string)
    ensures var s := a + b + c;
      && s[..|a|] == a && s[|a|..|a| + |b|] == b
      && (forall k :: 0 <= k < |a| ==> s[k] == a[k])
      && (forall k :: 0 <= k < |b| ==> s[|a| + k] == b[k])
      && (|a| + |b| < |s| ==> s[|a| + |b|] == c[0])
  {
  }

  /** The recognizer on a string built from its parts: a core, an optional
      fraction of at most six digits and an optional offset, with nothing after
      them, gives the date-time the parts denote when it is valid, and the
      string itself otherwise. */
  lemma RecognizeParts(core: string, frac: string, zone: string)
    requires |core| == 19 && StartsWithCore(core)
    requires frac == "" || (IsFractionText(frac) && |frac| <= 7)
    requires zone == "" || IsOffsetText(zone)
    ensures
      var dt := CoreFields(core, if frac == "" then 0 else FractionMicros(frac),
                           if zone == "" then None else Some(FixedTzOffset(zone)));
      Recognize(core + frac + zone) == if ValidDateTime(dt) then DateValue(dt) else StringValue(core + frac + zone)
  {
    var s := core + frac + zone;
    var g := Groups(core + frac, core[10], if frac == "" then None else Some(frac),
                    if zone == "" then None else Some(zone), false);
    MatchOfParts(core, frac, zone, false);
    assert s + "" == s;
    MatchIsoComplete(s, g);
    assert AgreeUpTo(s, core, 19);
    var us := if frac == "" then 0 else FractionMicros(frac);
    var tz := if zone == "" then None else Some(FixedTzOffset(zone));
    CoreOfAgreeing(s, core, us, tz);
    assert FieldsAt(s, g) == CoreFields(core, us, tz);
    RecognizeCharacterized(s);
  }

  /** The round trip `clone` relies on: every valid date-time whose timezone,
      if any, is a fixed offset of less than a day either way, in the shape the
      recognizer builds (dst an hour less, no name), is written by isoformat
      as a string that the recognizer reads back as the same date-time. */
  lemma IsoformatRoundTrip(dt: DateTime)
    requires Reproducible(dt)
    ensures Isoformat(dt).Success?
    ensures Recognize(Isoformat(dt).value) == DateValue(dt)
  {
    var core, frac, zone := CoreText(dt), FractionText(dt.microsecond), ZoneText(dt.tz);
    IsoformatText(dt);
    CoreTextFields(dt, 0, None);
    if frac != "" {
      assert frac[1..] == Padded(dt.microsecond, 6);
      assert Pow10(6) == 1000000;
      PaddedValue(dt.microsecond, 6);
    }
    if dt.tz.Some? {
      OffsetTextRoundTrip(dt.tz.value.offset);
    }
    var us := if frac == "" then 0 else FractionMicros(frac);
    var tz := if zone == "" then None else Some(FixedTzOffset(zone));
    assert us == dt.microsecond && tz == dt.tz;
    CoreTextFields(dt, us, tz);
    RecognizeParts(core, frac, zone);
  }
}
