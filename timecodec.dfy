/**
 * The time codec shared by both programs: `parse_time_to_seconds` reads
 * `SS[.fff]`, `MM:SS[.fff]` or `HH:MM:SS[.fff]` (with ',' accepted as the
 * decimal separator), `seconds_to_hms` writes `HH:MM:SS.mmm` or `HH:MM:SS`,
 * and the tick labels of the seek bar and the timeline (`_sec_label`) write
 * `MM:SS` or `HH:MM:SS`. Times are exact reals.
 */
module TimeCodec {
  import opened Wrappers
  import opened Numerals
  import opened Text

  /** Why `parse_time_to_seconds` raises ValueError. */
  datatype TimeError =
    | EmptyTime       // nothing left after stripping
    | BadFieldCount   // four or more ':'-separated fields
    | BadNumber       // a field that `int` or `float` rejects

  /** The text the parser works on: stripped, with ',' read as '.'. */
  function Normalise(text: string): string {
    ReplaceChar(Strip(text), ',', '.')
  }

  /** `parse_time_to_seconds`. */
  function ParseTimeToSeconds(text: string): (r: Result<real, TimeError>)
    ensures r.Ok? ==> r.value >= 0.0
  {
    ParseNormalised(Normalise(text))
  }

  /** The parser on already normalised text. */
  function ParseNormalised(s: string): (r: Result<real, TimeError>)
    ensures r.Ok? ==> r.value >= 0.0
  {
    if s == [] then Err(EmptyTime)
    else if !HasChar(s, ':') then
      match ParseDecimal(s)
      case Some(v) => Ok(v)
      case None => Err(BadNumber)
    else ParseFields(SplitChar(s, ':'))
  }

  /** The `MM:SS` and `HH:MM:SS` cases; any other number of fields is an error. */
  function ParseFields(parts: seq<string>): (r: Result<real, TimeError>)
    ensures r.Ok? ==> r.value >= 0.0
  {
    if |parts| == 2 then
      match (ParseNatural(parts[0]), ParseDecimal(parts[1]))
      case (Some(mm), Some(ss)) => Ok((mm * 60) as real + ss)
      case _ => Err(BadNumber)
    else if |parts| == 3 then
      match (ParseNatural(parts[0]), ParseNatural(parts[1]), ParseDecimal(parts[2]))
      case (Some(hh), Some(mm), Some(ss)) => Ok((hh * 3600 + mm * 60) as real + ss)
      case _ => Err(BadNumber)
    else Err(BadFieldCount)
  }

  /** Characters of the texts the formatters produce: digits, ':' and '.'. */
  predicate Clean(s: string) {
    s == [] || ((IsDigit(s[0]) || s[0] == ':' || s[0] == '.') && Clean(s[1..]))
  }

  lemma {:induction false} CleanConcat(a: string, b: string)
    requires Clean(a) && Clean(b)
    ensures Clean(a + b)
  {
    if a == [] {
      assert a + b == b;
    } else {
      assert (a + b)[1..] == a[1..] + b;
      CleanConcat(a[1..], b);
    }
  }

  lemma {:induction false} DigitsClean(s: string)
    requires AllDigits(s)
    ensures Clean(s)
  {
    if s != [] {
      DigitsClean(s[1..]);
    }
  }

  lemma {:induction false} CleanLast(s: string)
    requires s != [] && Clean(s)
    ensures !IsSpace(s[|s| - 1]) && !HasChar(s, ',')
  {
    if |s| > 1 {
      CleanLast(s[1..]);
    } else {
      assert s[1..] == [];
    }
  }

  lemma NormaliseClean(s: string)
    requires s != [] && Clean(s)
    ensures Normalise(s) == s
  {
    CleanLast(s);
    StripUnchanged(s);
    ReplaceAbsent(s, ',', '.');
  }

  /** A digit string contains no separator character. */
  lemma {:induction false} DigitsLack(s: string, c: char)
    requires AllDigits(s) && !IsDigit(c)
    ensures !HasChar(s, c) && CountChar(s, c) == 0
  {
    if s != [] {
      DigitsLack(s[1..], c);
    }
  }

  /** Text with a ':' is read field by field. */
  lemma ParseNormalisedColon(s: string)
    requires HasChar(s, ':')
    ensures ParseNormalised(s) == ParseFields(SplitChar(s, ':'))
  {
  }

  /** `A:B:C` with digit fields A and B is read field by field. */
  lemma SplitThree(a: string, b: string, c: string)
    requires AllDigits(a) && AllDigits(b) && !HasChar(c, ':')
    ensures ParseNormalised(a + ":" + b + ":" + c) == ParseFields([a, b, c])
  {
    SplitCharThree(a, b, c);
    ParseNormalisedColon(a + ":" + b + ":" + c);
  }

  lemma SplitCharThree(a: string, b: string, c: string)
    requires AllDigits(a) && AllDigits(b) && !HasChar(c, ':')
    ensures HasChar(a + ":" + b + ":" + c, ':')
    ensures SplitChar(a + ":" + b + ":" + c, ':') == [a, b, c]
  {
    var rest := b + ":" + c;
    SplitCharTwo(b, c);
    SplitCharLead(a, rest);
    assert a + ":" + b + ":" + c == a + ":" + rest;
    assert [a] + [b, c] == [a, b, c];
  }

  /** A digit field followed by ':' splits off as the first piece. */
  lemma SplitCharLead(a: string, rest: string)
    requires AllDigits(a)
    ensures HasChar(a + ":" + rest, ':')
    ensures SplitChar(a + ":" + rest, ':') == [a] + SplitChar(rest, ':')
  {
    assert a + ":" + rest == a + [':'] + rest == a + ([':'] + rest);
    assert HasChar([':'] + rest, ':');
    DigitsLack(a, ':');
    HasCharConcat(a, [':'] + rest, ':');
    SplitCharFirst(a, ':', rest);
  }

  /** `A:B` with digit field A is read field by field. */
  lemma SplitTwo(a: string, b: string)
    requires AllDigits(a) && !HasChar(b, ':')
    ensures ParseNormalised(a + ":" + b) == ParseFields([a, b])
  {
    SplitCharTwo(a, b);
    ParseNormalisedColon(a + ":" + b);
  }

  lemma SplitCharTwo(a: string, b: string)
    requires AllDigits(a) && !HasChar(b, ':')
    ensures HasChar(a + ":" + b, ':')
    ensures SplitChar(a + ":" + b, ':') == [a, b]
  {
    SplitCharLead(a, b);
    SplitCharAbsent(b, ':');
  }

  /** Empty text, and text with three or more ':' (four or more fields), are rejected. */
  lemma ParseTimeRejects(text: string)
    ensures Strip(text) == [] ==> ParseTimeToSeconds(text) == Err(EmptyTime)
    ensures CountChar(Normalise(text), ':') >= 3 ==> ParseTimeToSeconds(text) == Err(BadFieldCount)
  {
    var s := Normalise(text);
    SplitCharCount(s, ':');
    CountCharHas(s, ':');
  }

  /** With one or two ':', every field before the last must be a whole number: one that `int` rejects sinks the text. */
  lemma NonIntegerFieldRejected(text: string, k: nat)
    requires CountChar(Normalise(text), ':') <= 2
    requires k + 1 < |SplitChar(Normalise(text), ':')|
    requires ParseNatural(SplitChar(Normalise(text), ':')[k]).None?
    ensures ParseTimeToSeconds(text) == Err(BadNumber)
  {
    var s := Normalise(text);
    SplitCharCount(s, ':');
    CountCharHas(s, ':');
  }

  /** A fraction is allowed only in the last field: "1.5:30" is rejected. */
  lemma ParseTimeExampleFractionFirst()
    ensures ParseTimeToSeconds("1.5:30") == Err(BadNumber)
  {
    var a, b := "1.5", "30";
    assert "1.5:30" == a + [':'] + b == a + ([':'] + b);
    assert !HasChar(a, ':') && !HasChar(b, ':') && HasChar([':'] + b, ':');
    assert Clean(a) && Clean([':'] + b);
    CleanConcat(a, [':'] + b);
    ParseClean(a + [':'] + b);
    HasCharConcat(a, [':'] + b, ':');
    SplitCharFirst(a, ':', b);
    SplitCharAbsent(b, ':');
    ParseNormalisedColon(a + [':'] + b);
    assert !AllDigits(a);
  }

  /** Text in the formatters' alphabet is parsed as it stands. */
  lemma ParseClean(s: string)
    requires s != [] && Clean(s)
    ensures ParseTimeToSeconds(s) == ParseNormalised(s)
  {
    NormaliseClean(s);
  }

  /** Worked examples of the parser: an H:M:S text, an M:S text and a decimal comma. */
  lemma ParseTimeExampleHms()
    ensures ParseTimeToSeconds("1:02:03.5") == Ok(3723.5)
  {
    assert Clean("1:02:03.5");
    ParseClean("1:02:03.5");
    ParseNormalisedHms();
  }

  lemma ParseNormalisedHms()
    ensures ParseNormalised("1:02:03.5") == Ok(3723.5)
  {
    assert "1:02:03.5" == "1" + ":" + "02" + ":" + "03.5";
    SplitThree("1", "02", "03.5");
    DecimalExample();
    FieldsHms("1", "02", "03.5", 3.5, 3723.5);
  }

  lemma DecimalExample()
    ensures ParseDecimal("03.5") == Some(3.5)
  {
    assert "03.5" == "03" + "." + "5";
    ParseDecimalFraction("03", "5");
  }

  lemma ParseTimeExampleMs()
    ensures ParseTimeToSeconds("02:03") == Ok(123.0)
  {
    assert Clean("02:03");
    ParseClean("02:03");
    ParseNormalisedMs();
  }

  lemma ParseNormalisedMs()
    ensures ParseNormalised("02:03") == Ok(123.0)
  {
    assert "02:03" == "02" + ":" + "03";
    SplitTwo("02", "03");
    ParseDecimalWhole("03");
    FieldsMs("02", "03", 3.0, 123.0);
  }

  lemma ParseTimeExampleComma()
    ensures ParseTimeToSeconds("12,5") == Ok(12.5)
  {
    assert "12,5" == "12" + "," + "5";
    ParseDecimalComma("12", "5");
    assert FractionValue("5") == 0.5;
  }

  /** A decimal comma reads as a decimal point. */
  lemma ParseDecimalComma(whole: string, frac: string)
    requires whole != [] && AllDigits(whole) && AllDigits(frac)
    ensures ParseTimeToSeconds(whole + "," + frac) == Ok(DigitsValue(whole) as real + FractionValue(frac))
  {
    NormaliseComma(whole, frac);
    SecondsFraction(whole, frac);
    ParseNormalisedDecimal(whole + ("." + frac));
  }

  lemma NormaliseComma(whole: string, frac: string)
    requires whole != [] && AllDigits(whole) && AllDigits(frac)
    ensures Normalise(whole + "," + frac) == whole + ("." + frac)
  {
    StripComma(whole, frac);
    ReplaceComma(whole, frac);
  }

  lemma StripComma(whole: string, frac: string)
    requires whole != [] && AllDigits(whole) && AllDigits(frac)
    ensures Strip(whole + "," + frac) == whole + "," + frac
  {
    CommaEdges(whole, frac);
    StripUnchanged(whole + "," + frac);
  }

  lemma CommaEdges(whole: string, frac: string)
    requires whole != [] && AllDigits(whole) && AllDigits(frac)
    ensures var s := whole + "," + frac; s != [] && !IsSpace(s[0]) && !IsSpace(s[|s| - 1])
  {
    var s := whole + "," + frac;
    assert s[0] == whole[0];
    if frac != [] {
      AllDigitsAt(frac, |frac| - 1);
      assert s[|s| - 1] == frac[|frac| - 1];
    }
  }

  lemma ReplaceComma(whole: string, frac: string)
    requires AllDigits(whole) && AllDigits(frac)
    ensures ReplaceChar(whole + "," + frac, ',', '.') == whole + ("." + frac)
  {
    DigitsLack(whole, ',');
    DigitsLack(frac, ',');
    calc {
      ReplaceChar(whole + "," + frac, ',', '.');
      { assert whole + "," + frac == whole + ("," + frac); }
      ReplaceChar(whole + ("," + frac), ',', '.');
      { ReplaceCharConcat(whole, "," + frac, ',', '.'); }
      ReplaceChar(whole, ',', '.') + ReplaceChar("," + frac, ',', '.');
      { ReplaceAbsent(whole, ',', '.'); ReplaceCommaFirst(frac); }
      whole + ("." + frac);
    }
  }

  lemma ReplaceCommaFirst(frac: string)
    requires !HasChar(frac, ',')
    ensures ReplaceChar("," + frac, ',', '.') == "." + frac
  {
    assert ("," + frac)[1..] == frac;
    ReplaceAbsent(frac, ',', '.');
  }

  /** Text without ':' is read as one decimal number. */
  lemma ParseNormalisedDecimal(s: string)
    requires s != [] && !HasChar(s, ':') && ParseDecimal(s).Some?
    ensures ParseNormalised(s) == Ok(ParseDecimal(s).value)
  {
  }

  lemma ParseTimeExampleFourFields()
    ensures ParseTimeToSeconds("1:2:3:4") == Err(BadFieldCount)
  {
    assert Clean("1:2:3:4");
    ParseClean("1:2:3:4");
    ParseNormalisedFourFields();
  }

  lemma ParseNormalisedFourFields()
    ensures ParseNormalised("1:2:3:4") == Err(BadFieldCount)
  {
    SplitCharCount("1:2:3:4", ':');
    CountCharHas("1:2:3:4", ':');
  }

  /** Python's `round` on a real: nearest integer, ties to the even one. */
  function RoundHalfEven(x: real): (n: int)
    ensures x - 0.5 <= n as real <= x + 0.5
    ensures (n as real - x == 0.5 || x - n as real == 0.5) ==> n % 2 == 0
  {
    var f := x.Floor;
    var d := x - f as real;
    if d < 0.5 then f
    else if d > 0.5 then f + 1
    else if f % 2 == 0 then f else f + 1
  }

  /** Rounding commutes with adding an even integer. */
  lemma RoundHalfEvenShift(x: real, k: int)
    ensures RoundHalfEven(x + (2 * k) as real) == RoundHalfEven(x) + 2 * k
  {
    var y := x + (2 * k) as real;
    assert y.Floor == x.Floor + 2 * k;
  }

  /**
   * `HH:MM:SS` for a whole number of seconds, followed by `tail` (the
   * millisecond part, or nothing); hours are not wrapped, so they may
   * exceed two digits.
   */
  function Clock(w: nat, tail: string): string {
    PadNat(w / 3600, 2) + ":" + PadNat((w / 60) % 60, 2) + ":" + (PadNat(w % 60, 2) + tail)
  }

  lemma ClockFieldsSum(w: nat)
    ensures (w / 3600) * 3600 + ((w / 60) % 60) * 60 + w % 60 == w
  {
    assert w == 60 * (w / 60) + w % 60;
    assert w / 60 == 60 * ((w / 60) / 60) + (w / 60) % 60;
    assert (w / 60) / 60 == w / 3600;
  }

  /** The three fields of `Clock(w, tail)` are numerals whose values add up to w. */
  lemma ClockValue(w: nat)
    ensures var h, m, s := PadNat(w / 3600, 2), PadNat((w / 60) % 60, 2), PadNat(w % 60, 2);
      && h != [] && AllDigits(h) && m != [] && AllDigits(m) && s != [] && AllDigits(s)
      && DigitsValue(h) * 3600 + DigitsValue(m) * 60 + DigitsValue(s) == w
  {
    PadNatValue(w / 3600, 2);
    PadNatValue((w / 60) % 60, 2);
    PadNatValue(w % 60, 2);
    ClockFieldsSum(w);
  }

  function ClampNonNeg(seconds: real): real {
    if seconds < 0.0 then 0.0 else seconds
  }

  /**
   * `seconds_to_hms` as written: the milliseconds are the rounded fractional
   * part, which can round up to 1000 and is then printed as four digits.
   */
  function SecondsToHmsAsWritten(seconds: real, ms: bool): (r: string)
    ensures ClampNonNeg(seconds).Floor < 360_000 ==>
      |r| == if !ms then 8 else if MsField(seconds) < 1000 then 12 else 13
  {
    var x := ClampNonNeg(seconds);
    var w := x.Floor;
    var msPart := RoundHalfEven((x - w as real) * 1000.0);
    if ms then
      if msPart < 1000 then
        PadNatWidth(msPart, 3);
        ClockWidth(w, "." + PadNat(msPart, 3));
        Clock(w, "." + PadNat(msPart, 3))
      else
        assert PadNat(1000, 3) == "1000";
        ClockWidth(w, "." + "1000");
        Clock(w, "." + PadNat(msPart, 3))
    else
      ClockWidth(w, "");
      Clock(w, "")
  }

  /**
   * The millisecond field `seconds_to_hms` writes: the fractional part
   * rounded to thousandths, which reaches 1000 when it rounds up.
   */
  function MsField(seconds: real): (m: int)
    ensures 0 <= m <= 1000
  {
    var x := ClampNonNeg(seconds);
    RoundHalfEven((x - x.Floor as real) * 1000.0)
  }

  /**
   * `seconds_to_hms` as it is evidently meant: the time is rounded to whole
   * milliseconds first, so a fraction that rounds up carries into the seconds.
   */
  function SecondsToHms(seconds: real, ms: bool): (r: string)
    ensures RoundHalfEven(ClampNonNeg(seconds) * 1000.0) < 360_000_000 ==> |r| == if ms then 12 else 8
  {
    var x := ClampNonNeg(seconds);
    if ms then
      var total := RoundHalfEven(x * 1000.0);
      var w, msPart := total / 1000, total % 1000;
      PadNatWidth(msPart, 3);
      ClockWidth(w, "." + PadNat(msPart, 3));
      Clock(w, "." + PadNat(msPart, 3))
    else
      ClockWidth(x.Floor, "");
      Clock(x.Floor, "")
  }

  lemma ClockWidth(w: nat, tail: string)
    ensures w < 360_000 ==> |Clock(w, tail)| == 8 + |tail|
  {
    if w < 360_000 {
      PadNatWidth(w / 3600, 2);
      PadNatWidth((w / 60) % 60, 2);
      PadNatWidth(w % 60, 2);
    }
  }

  /** `H:M:S` with digit fields H and M and a seconds field S worth v reads back as total. */
  lemma ParseHmsText(h: string, m: string, last: string, v: real, total: real)
    requires h != [] && AllDigits(h) && m != [] && AllDigits(m)
    requires last != [] && Clean(last) && !HasChar(last, ':') && ParseDecimal(last) == Some(v)
    requires (DigitsValue(h) * 3600 + DigitsValue(m) * 60) as real + v == total
    ensures ParseTimeToSeconds(h + ":" + m + ":" + last) == Ok(total)
  {
    CleanHms(h, m, last);
    ParseClean(h + ":" + m + ":" + last);
    SplitThree(h, m, last);
    FieldsHms(h, m, last, v, total);
  }

  lemma CleanHms(h: string, m: string, last: string)
    requires AllDigits(h) && AllDigits(m) && Clean(last)
    ensures h + ":" + m + ":" + last != [] && Clean(h + ":" + m + ":" + last)
  {
    DigitsClean(h);
    DigitsClean(m);
    CleanConcat(h, ":");
    CleanConcat(h + ":", m);
    CleanConcat(h + ":" + m, ":");
    CleanConcat(h + ":" + m + ":", last);
  }

  lemma FieldsHms(h: string, m: string, last: string, v: real, total: real)
    requires h != [] && AllDigits(h) && m != [] && AllDigits(m) && ParseDecimal(last) == Some(v)
    requires (DigitsValue(h) * 3600 + DigitsValue(m) * 60) as real + v == total
    ensures ParseFields([h, m, last]) == Ok(total)
  {
  }

  /** `M:S` with a digit field M and a seconds field S worth v reads back as total. */
  lemma ParseMsText(m: string, last: string, v: real, total: real)
    requires m != [] && AllDigits(m)
    requires last != [] && Clean(last) && !HasChar(last, ':') && ParseDecimal(last) == Some(v)
    requires (DigitsValue(m) * 60) as real + v == total
    ensures ParseTimeToSeconds(m + ":" + last) == Ok(total)
  {
    CleanMs(m, last);
    ParseClean(m + ":" + last);
    SplitTwo(m, last);
    FieldsMs(m, last, v, total);
  }

  lemma CleanMs(m: string, last: string)
    requires AllDigits(m) && Clean(last)
    ensures m + ":" + last != [] && Clean(m + ":" + last)
  {
    DigitsClean(m);
    CleanConcat(m, ":");
    CleanConcat(m + ":", last);
  }

  lemma FieldsMs(m: string, last: string, v: real, total: real)
    requires m != [] && AllDigits(m) && ParseDecimal(last) == Some(v)
    requires (DigitsValue(m) * 60) as real + v == total
    ensures ParseFields([m, last]) == Ok(total)
  {
  }

  /** A digit field read as seconds. */
  lemma SecondsWhole(sec: string)
    requires sec != [] && AllDigits(sec)
    ensures Clean(sec) && !HasChar(sec, ':') && ParseDecimal(sec) == Some(DigitsValue(sec) as real)
  {
    DigitsClean(sec);
    DigitsLack(sec, ':');
    ParseDecimalWhole(sec);
  }

  /** A digit field with a fraction read as seconds. */
  lemma SecondsFraction(sec: string, frac: string)
    requires sec != [] && AllDigits(sec) && AllDigits(frac)
    ensures sec + ("." + frac) != [] && Clean(sec + ("." + frac)) && !HasChar(sec + ("." + frac), ':')
    ensures ParseDecimal(sec + ("." + frac)) == Some(DigitsValue(sec) as real + FractionValue(frac))
  {
    assert sec + "." + frac == sec + ("." + frac);
    DigitsClean(sec);
    DigitsClean(frac);
    CleanConcat(sec, ".");
    CleanConcat(sec + ".", frac);
    DigitsLack(sec, ':');
    DigitsLack(frac, ':');
    HasCharConcat(sec, ".", ':');
    HasCharConcat(sec + ".", frac, ':');
    ParseDecimalFraction(sec, frac);
  }

  /** `HH:MM:SS` of w reads back as w. */
  lemma ClockParses(w: nat)
    ensures ParseTimeToSeconds(Clock(w, "")) == Ok(w as real)
  {
    var h, m, sec := PadNat(w / 3600, 2), PadNat((w / 60) % 60, 2), PadNat(w % 60, 2);
    assert sec + "" == sec;
    ClockValue(w);
    SecondsWhole(sec);
    ParseHmsText(h, m, sec, DigitsValue(sec) as real, w as real);
  }

  /** `HH:MM:SS.fff` of w and the fraction digits fff reads back as v = w + 0.fff. */
  lemma ClockFractionParses(w: nat, frac: string, v: real)
    requires AllDigits(frac) && w as real + FractionValue(frac) == v
    ensures ParseTimeToSeconds(Clock(w, "." + frac)) == Ok(v)
  {
    ClockFractionValue(w, frac, v);
    ParseHmsFraction(PadNat(w / 3600, 2), PadNat((w / 60) % 60, 2), PadNat(w % 60, 2), frac, v);
  }

  /** `H:M:S.F` with digit fields reads back as v = 3600 H + 60 M + S + 0.F. */
  lemma ParseHmsFraction(h: string, m: string, sec: string, frac: string, v: real)
    requires h != [] && AllDigits(h) && m != [] && AllDigits(m) && sec != [] && AllDigits(sec)
    requires AllDigits(frac)
    requires (DigitsValue(h) * 3600 + DigitsValue(m) * 60) as real + (DigitsValue(sec) as real + FractionValue(frac)) == v
    ensures ParseTimeToSeconds(h + ":" + m + ":" + (sec + ("." + frac))) == Ok(v)
  {
    SecondsFraction(sec, frac);
    ParseHmsText(h, m, sec + ("." + frac), DigitsValue(sec) as real + FractionValue(frac), v);
  }

  lemma ClockFractionValue(w: nat, frac: string, v: real)
    requires w as real + FractionValue(frac) == v
    ensures var h, m, sec := PadNat(w / 3600, 2), PadNat((w / 60) % 60, 2), PadNat(w % 60, 2);
      && h != [] && AllDigits(h) && m != [] && AllDigits(m) && sec != [] && AllDigits(sec)
      && (DigitsValue(h) * 3600 + DigitsValue(m) * 60) as real + (DigitsValue(sec) as real + FractionValue(frac)) == v
  {
    ClockValue(w);
  }

  /** The clock-only form reads back as the whole seconds of the clamped input. */
  lemma SecondsToHmsNoMsRoundTrip(seconds: real)
    ensures ParseTimeToSeconds(SecondsToHms(seconds, false)) == Ok(ClampNonNeg(seconds).Floor as real)
  {
    var w := ClampNonNeg(seconds).Floor;
    assert SecondsToHms(seconds, false) == Clock(w, "");
    ClockParses(w);
  }

  /** The input rounded to whole milliseconds (after clamping negatives to 0). */
  function RoundToMs(seconds: real): (r: real)
    ensures r >= 0.0
    ensures -0.0005 <= r - ClampNonNeg(seconds) <= 0.0005
  {
    RoundHalfEven(ClampNonNeg(seconds) * 1000.0) as real / 1000.0
  }

  /** `HH:MM:SS.mmm` for a whole number of milliseconds. */
  function ClockMs(total: nat): string {
    Clock(total / 1000, "." + PadNat(total % 1000, 3))
  }

  lemma ClockMsParses(total: nat)
    ensures ParseTimeToSeconds(ClockMs(total)) == Ok(total as real / 1000.0)
  {
    MsFraction(total);
    ClockFractionParses(total / 1000, PadNat(total % 1000, 3), total as real / 1000.0);
  }

  /** The three millisecond digits are the fraction that completes the whole seconds. */
  lemma MsFraction(total: nat)
    ensures AllDigits(PadNat(total % 1000, 3))
    ensures (total / 1000) as real + FractionValue(PadNat(total % 1000, 3)) == total as real / 1000.0
  {
    var w, msPart := total / 1000, total % 1000;
    var digits := PadNat(msPart, 3);
    PadNatValue(msPart, 3);
    PadNatWidth(msPart, 3);
    FractionValueThreeDigits(digits);
    assert w as real + msPart as real / 1000.0 == total as real / 1000.0;
  }

  /**
   * Round trip: parsing `HH:MM:SS.mmm` gives back the input rounded to the
   * millisecond, so within half a millisecond of it.
   */
  lemma SecondsToHmsRoundTrip(seconds: real)
    ensures ParseTimeToSeconds(SecondsToHms(seconds, true)) == Ok(RoundToMs(seconds))
  {
    var total := RoundHalfEven(ClampNonNeg(seconds) * 1000.0);
    assert SecondsToHms(seconds, true) == ClockMs(total);
    ClockMsParses(total);
    assert RoundToMs(seconds) == total as real / 1000.0;
  }

  /** An input in whole milliseconds survives formatting and parsing exactly. */
  lemma SecondsToHmsExact(seconds: real, millis: nat)
    requires seconds == millis as real / 1000.0
    ensures ParseTimeToSeconds(SecondsToHms(seconds, true)) == Ok(seconds)
  {
    assert ClampNonNeg(seconds) * 1000.0 == millis as real;
    assert RoundHalfEven(millis as real) == millis;
    assert SecondsToHms(seconds, true) == ClockMs(millis);
    ClockMsParses(millis);
  }

  /** The two formatters agree unless the written millisecond field reaches 1000. */
  lemma SecondsToHmsAgreement(seconds: real, ms: bool)
    requires MsField(seconds) < 1000
    ensures SecondsToHmsAsWritten(seconds, ms) == SecondsToHms(seconds, ms)
  {
    var x := ClampNonNeg(seconds);
    MillisSplit(x);
    var total, m := RoundHalfEven(x * 1000.0), RoundHalfEven((x - x.Floor as real) * 1000.0);
    if ms {
      assert SecondsToHms(seconds, ms) == Clock(total / 1000, "." + PadNat(total % 1000, 3));
      assert SecondsToHmsAsWritten(seconds, ms) == Clock(x.Floor, "." + PadNat(m, 3));
    }
  }

  /** Rounding a time to milliseconds splits into its whole seconds and its rounded fraction, unless that carries. */
  lemma MillisSplit(x: real)
    requires x >= 0.0
    requires RoundHalfEven((x - x.Floor as real) * 1000.0) < 1000
    ensures RoundHalfEven(x * 1000.0) / 1000 == x.Floor
    ensures RoundHalfEven(x * 1000.0) % 1000 == RoundHalfEven((x - x.Floor as real) * 1000.0)
  {
    var w := x.Floor;
    var frac := (x - w as real) * 1000.0;
    var m := RoundHalfEven(frac);
    RoundHalfEvenShift(frac, 500 * w);
    assert frac + (2 * (500 * w)) as real == x * 1000.0;
    DivModSplit(m, w);
  }

  lemma DivModSplit(m: int, w: int)
    requires 0 <= m < 1000
    ensures (m + 1000 * w) / 1000 == w && (m + 1000 * w) % 1000 == m
  {
  }

  /**
   * Round trip of `seconds_to_hms` as written: the input rounded to the
   * millisecond unless its millisecond field reaches 1000; then the text
   * ends in `.1000` and reads back as the whole seconds plus 0.1.
   */
  lemma SecondsToHmsAsWrittenRoundTrip(seconds: real)
    ensures MsField(seconds) < 1000 ==>
      ParseTimeToSeconds(SecondsToHmsAsWritten(seconds, true)) == Ok(RoundToMs(seconds))
    ensures MsField(seconds) == 1000 ==>
      ParseTimeToSeconds(SecondsToHmsAsWritten(seconds, true)) == Ok(ClampNonNeg(seconds).Floor as real + 0.1)
  {
    if MsField(seconds) < 1000 {
      SecondsToHmsAgreement(seconds, true);
      SecondsToHmsRoundTrip(seconds);
    } else {
      var w := ClampNonNeg(seconds).Floor;
      assert PadNat(1000, 3) == "1000";
      assert SecondsToHmsAsWritten(seconds, true) == Clock(w, "." + "1000");
      CarryFractionParses(w);
    }
  }

  /** `HH:MM:SS.1000` reads back as the whole seconds plus 0.1. */
  lemma CarryFractionParses(w: nat)
    ensures ParseTimeToSeconds(Clock(w, "." + "1000")) == Ok(w as real + 0.1)
  {
    assert FractionValue("1000") == 0.1;
    ClockFractionParses(w, "1000", w as real + 0.1);
  }

  /** An input in whole milliseconds never carries, so the program's text reads back exactly. */
  lemma SecondsToHmsAsWrittenExact(seconds: real, millis: nat)
    requires seconds == millis as real / 1000.0
    ensures MsField(seconds) == millis % 1000
    ensures ParseTimeToSeconds(SecondsToHmsAsWritten(seconds, true)) == Ok(seconds)
  {
    WholeMillisSplit(millis);
    SecondsToHmsAgreement(seconds, true);
    SecondsToHmsExact(seconds, millis);
  }

  lemma WholeMillisSplit(millis: nat)
    ensures var x := millis as real / 1000.0;
      x.Floor == millis / 1000 && (x - x.Floor as real) * 1000.0 == (millis % 1000) as real
  {
    var q, r := millis / 1000, millis % 1000;
    var x := millis as real / 1000.0;
    assert x == q as real + r as real / 1000.0;
    assert x.Floor == q;
  }

  /** 1.9996 s is written `00:00:01.1000`, which reads back as 1.1 s. */
  lemma SecondsToHmsCarryLost()
    ensures ParseTimeToSeconds(SecondsToHmsAsWritten(1.9996, true)) == Ok(1.1)
    ensures ParseTimeToSeconds(SecondsToHms(1.9996, true)) == Ok(2.0)
  {
    CarryLostText();
    CarryFractionParses(1);
    CarryKeptText();
    ClockMsParses(2000);
  }

  lemma CarryLostText()
    ensures SecondsToHmsAsWritten(1.9996, true) == Clock(1, "." + "1000")
  {
    var x := 1.9996;
    assert x.Floor == 1;
    assert (x - 1.0) * 1000.0 == 999.6;
    assert RoundHalfEven(999.6) == 1000;
    assert PadNat(1000, 3) == "1000";
  }

  lemma CarryKeptText()
    ensures SecondsToHms(1.9996, true) == ClockMs(2000)
  {
    assert ClampNonNeg(1.9996) * 1000.0 == 1999.6;
    assert RoundHalfEven(1999.6) == 2000;
  }

  /** `MM:SS` for a whole number of seconds below an hour. */
  function MinSec(s: nat): string {
    PadNat(s / 60, 2) + ":" + PadNat(s % 60, 2)
  }

  /** `_sec_label`: `MM:SS` below an hour, `HH:MM:SS` from an hour on, of the rounded seconds. */
  function SecLabel(sec: real): string {
    var s := RoundHalfEven(sec);
    var hh, mm, ss := s / 3600, (s % 3600) / 60, s % 60;
    if hh > 0 then PadNat(hh, 2) + ":" + PadNat(mm, 2) + ":" + PadNat(ss, 2)
    else PadNat(mm, 2) + ":" + PadNat(ss, 2)
  }

  lemma SecLabelForm(sec: real)
    requires RoundHalfEven(sec) >= 0
    ensures RoundHalfEven(sec) >= 3600 ==> SecLabel(sec) == Clock(RoundHalfEven(sec), "")
    ensures RoundHalfEven(sec) < 3600 ==> SecLabel(sec) == MinSec(RoundHalfEven(sec))
  {
    var s: nat := RoundHalfEven(sec);
    assert (s % 3600) / 60 == (s / 60) % 60;
    if s < 3600 {
      assert s / 3600 == 0 && (s % 3600) / 60 == s / 60;
    } else {
      assert PadNat(s % 60, 2) + "" == PadNat(s % 60, 2);
    }
  }

  lemma MinSecParses(s: nat)
    ensures ParseTimeToSeconds(MinSec(s)) == Ok(s as real)
    ensures CountChar(MinSec(s), ':') == 1
  {
    var m, t := PadNat(s / 60, 2), PadNat(s % 60, 2);
    MinSecValue(s);
    SecondsWhole(t);
    ParseMsText(m, t, DigitsValue(t) as real, s as real);
    DigitsColons(m, t);
    DigitsLack(t, ':');
  }

  /** The two fields of `MinSec(s)` are numerals whose values add up to s. */
  lemma MinSecValue(s: nat)
    ensures var m, t := PadNat(s / 60, 2), PadNat(s % 60, 2);
      m != [] && AllDigits(m) && t != [] && AllDigits(t) && DigitsValue(m) * 60 + DigitsValue(t) == s
  {
    PadNatValue(s / 60, 2);
    PadNatValue(s % 60, 2);
  }

  /** A tick label reads back as the rounded seconds it labels, and shows hours only from one hour on. */
  lemma SecLabelRoundTrip(sec: real)
    requires RoundHalfEven(sec) >= 0
    ensures ParseTimeToSeconds(SecLabel(sec)) == Ok(RoundHalfEven(sec) as real)
    ensures RoundHalfEven(sec) < 3600 <==> CountChar(SecLabel(sec), ':') == 1
  {
    var s: nat := RoundHalfEven(sec);
    SecLabelForm(sec);
    if s >= 3600 {
      ClockParses(s);
      ClockColons(s);
    } else {
      MinSecParses(s);
    }
  }

  lemma ClockColons(w: nat)
    ensures CountChar(Clock(w, ""), ':') == 2
  {
    var h, m, s := PadNat(w / 3600, 2), PadNat((w / 60) % 60, 2), PadNat(w % 60, 2);
    ClockValue(w);
    DigitsColons(h, m + ":" + s);
    DigitsColons(m, s);
    DigitsLack(s, ':');
    assert s + "" == s;
    assert Clock(w, "") == h + ":" + (m + ":" + s);
  }

  /** Two digit strings around one ':' contain exactly one ':' besides those of the right part. */
  lemma DigitsColons(a: string, b: string)
    requires AllDigits(a)
    ensures CountChar(a + ":" + b, ':') == 1 + CountChar(b, ':')
  {
    CountCharConcat(a, ":" + b, ':');
    DigitsLack(a, ':');
    assert (":" + b)[1..] == b;
    assert a + ":" + b == a + (":" + b);
  }
}
