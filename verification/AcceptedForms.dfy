/** Which texts the import accepts for a column, beyond those that an export prints. */
module AcceptedForms {
  import opened Wrappers
  import opened Schema
  import opened Numerals
  import opened TextCodec

  // ---------- white space ----------

  predicate Blank(s: string) {
    forall i :: 0 <= i < |s| ==> IsSpace(s[i])
  }

  /** The characters that count as white space, by code point. */
  lemma SpacesExactly(c: char)
    ensures IsSpace(c) <==> c as int in {
      9, 10, 11, 12, 13, 28, 29, 30, 31, 32, 0x85, 0xA0, 0x1680,
      0x2000, 0x2001, 0x2002, 0x2003, 0x2004, 0x2005, 0x2006, 0x2007, 0x2008, 0x2009, 0x200A,
      0x2028, 0x2029, 0x202F, 0x205F, 0x3000}
  {
  }

  lemma {:induction false} LeftBlanksGo(before: string, s: string)
    requires Blank(before) && (s == "" || !IsSpace(s[0]))
    ensures StripLeft(before + s) == s
    decreases |before|
  {
    if before != "" {
      assert (before + s)[1..] == before[1..] + s;
      LeftBlanksGo(before[1..], s);
    } else {
      assert before + s == s;
    }
  }

  lemma {:induction false} RightBlanksGo(s: string, after: string)
    requires Blank(after) && (s == "" || !IsSpace(s[|s| - 1]))
    ensures StripRight(s + after) == s
    decreases |after|
  {
    if after != "" {
      var n := |after| - 1;
      assert (s + after)[..|s + after| - 1] == s + after[..n];
      RightBlanksGo(s, after[..n]);
    } else {
      assert s + after == s;
    }
  }

  /** White space around a value changes nothing, whatever the type; a cell of white space alone is NULL. */
  lemma OuterSpaceNeverMatters(before: string, s: string, after: string, t: DataType)
    requires Blank(before) && Blank(after)
    ensures Trimmed(s) ==> Convert(before + s + after, t) == Convert(s, t)
    ensures Convert(before, t) == Success(Null)
  {
    if Trimmed(s) {
      assert before + s + after == before + (s + after);
      LeftBlanksGo(before, s + after);
      RightBlanksGo(s, after);
      StripLeavesInnerText(s);
    }
    LeftBlanksGo(before, "");
    assert before + "" == before;
    hide StripLeft, StripRight, IsSpace;
  }

  // ---------- booleans ----------

  /** The text is the word, each letter small or capital. */
  predicate Spells(s: string, word: string) {
    |s| == |word| && forall i :: 0 <= i < |s| ==>
      s[i] == word[i] || ('a' <= word[i] <= 'z' && s[i] as int == word[i] as int - 32)
  }

  lemma LowerSpells(s: string, word: string)
    requires forall i :: 0 <= i < |word| ==> 'a' <= word[i] <= 'z' || IsDigit(word[i])
    ensures Lower(s) == word <==> Spells(s, word)
  {
  }

  /** A boolean is true, yes or 1, or false, no or 0, in any capitals; everything else is refused. */
  lemma BooleansExactly(s: string)
    requires Trimmed(s)
    ensures Convert(s, BooleanType)
      == if Spells(s, "true") || Spells(s, "yes") || Spells(s, "1") then Success(Bool(true))
         else if Spells(s, "false") || Spells(s, "no") || Spells(s, "0") then Success(Bool(false))
         else Failure(NotA(BooleanType))
  {
    StripLeavesInnerText(s);
    LowerSpells(s, "true");
    LowerSpells(s, "yes");
    LowerSpells(s, "1");
    LowerSpells(s, "false");
    LowerSpells(s, "no");
    LowerSpells(s, "0");
    hide Lower, Spells, Strip, IsSpace;
  }

  // ---------- days ----------

  /** The calendar: the months have 30 or 31 days by turns, changing step after July, and February has 28, or 29 in every
      fourth year, of the centuries in every fourth. */
  lemma CalendarIsGregorian(d: Day)
    ensures ValidDay(d)
      <==> && 1 <= d.year <= 9999 && 1 <= d.month <= 12 && 1 <= d.day
           && d.day <= if d.month != 2 then 30 + (d.month + d.month / 8) % 2
                       else if (if d.year % 100 == 0 then d.year / 100 else d.year) % 4 == 0 then 29 else 28
  {
    FourHundredsByCenturies(d.year);
    MonthsByTurns(d.month);
  }

  lemma MonthsByTurns(month: nat)
    ensures 1 <= month <= 12 ==> (30 + (month + month / 8) % 2 == if month in {4, 6, 9, 11} || month == 2 then 30 else 31)
  {
  }

  lemma FourHundredsByCenturies(year: nat)
    ensures year % 400 == 0 <==> year % 100 == 0 && (year / 100) % 4 == 0
  {
    var c := year / 100;
    assert year == 400 * (c / 4) + 100 * (c % 4) + year % 100;
  }

  // ---------- dates with times ----------

  lemma {:induction false} ClockParses(hour: nat, minute: nat, second: nat)
    requires hour < 24 && minute < 60 && second < 60
    ensures ParseTime(PrintTime(hour, minute, second, 0)) == Some((hour, minute, second))
    ensures DigitEnds(PrintTime(hour, minute, second, 0))
  {
    FieldRoundTrip(hour, 0, 23);
    FieldRoundTrip(minute, 0, 59);
    FieldRoundTrip(second, 0, 59);
    var h, m, s := Padded(hour, 2), Padded(minute, 2), Padded(second, 2);
    hide Padded, ParseField;
    var rest := m + [':'] + s;
    var t := h + [':'] + rest;
    assert PrintTime(hour, minute, second, 0) == t;
    FindSkips(h, ':', rest);
    FindSkips(m, ':', s);
    assert t[..2] == h && t[3..] == rest;
    assert rest[..2] == m && rest[3..] == s;
  }

  /** Every valid day and time of day, in either format, is accepted as just that; an offset or a fraction of a second is
      what neither has. */
  lemma {:induction false} TimestampsAreAccepted(d: Day, hour: nat, minute: nat, second: nat, separator: char)
    requires ValidDay(d) && hour < 24 && minute < 60 && second < 60 && (separator == 'T' || separator == ' ')
    ensures Convert(PrintDay(d) + [separator] + PrintTime(hour, minute, second, 0), DatetimeType)
      == Success(Timestamp(d, hour, minute, second, 0, None))
  {
    var day, clock := PrintDay(d), PrintTime(hour, minute, second, 0);
    DayRoundTrip(d);
    ClockParses(hour, minute, second);
    hide PrintDay, PrintTime, ParseDay, ParseTime, ParseTimestamp, Strip, IsSpace, Made, Trimmed, DigitEnds, ValidDay;
    StampParses(day, clock, d, (hour, minute, second), separator);
    if separator == ' ' {
      NoTInside(day, clock);
    }
    StampIsTrimmed(day, clock, separator);
    StampConverts(day + [separator] + clock, separator);
  }

  lemma {:induction false} StampParses(day: string, clock: string, d: Day, time: (nat, nat, nat), separator: char)
    requires ParseDay(day) == Some(d) && ParseTime(clock) == Some(time) && Made(day, {'-'})
    requires separator == 'T' || separator == ' '
    ensures ParseTimestamp(day + [separator] + clock, separator) == Some(Timestamp(d, time.0, time.1, time.2, 0, None))
  {
    SplitsAt(day, separator, clock);
    hide ParseDay, ParseTime, Find, Made;
  }

  lemma {:induction false} SplitsAt(day: string, separator: char, clock: string)
    requires Made(day, {'-'}) && (separator == 'T' || separator == ' ')
    ensures
      var s := day + [separator] + clock;
      Find(s, separator) == |day| < |s| && s[..|day|] == day && s[|day| + 1..] == clock
  {
    forall i | 0 <= i < |day| ensures day[i] != separator {
      assert IsDigit(day[i]) || day[i] in {'-'};
    }
    FindSkips(day, separator, clock);
    hide Find, Made;
  }

  lemma StampIsTrimmed(day: string, clock: string, separator: char)
    requires Trimmed(day) && DigitEnds(clock)
    ensures Trimmed(day + [separator] + clock)
  {
    EndsTrimmed(day, [separator], clock);
  }

  lemma StampConverts(s: string, separator: char)
    requires Trimmed(s) && ParseTimestamp(s, separator).Some? && (separator == 'T' || separator == ' ')
    requires separator == ' ' ==> ParseTimestamp(s, 'T') == None
    ensures Convert(s, DatetimeType) == Success(ParseTimestamp(s, separator).value)
  {
    StripLeavesInnerText(s);
    hide Strip, ParseTimestamp, IsSpace;
  }

  lemma {:induction false} NoTInside(day: string, clock: string)
    requires Made(day, {'-'}) && ParseTime(clock).Some?
    ensures ParseTimestamp(day + [' '] + clock, 'T') == None
  {
    TimeHasNoSign(clock);
    var s := day + [' '] + clock;
    forall i | 0 <= i < |s| ensures s[i] != 'T' {
      if i < |day| {
        assert IsDigit(day[i]) || day[i] in {'-'};
      } else if i > |day| {
        assert IsDigit(clock[i - |day| - 1]) || clock[i - |day| - 1] in {':'};
      }
    }
    FindNone(s, 'T');
  }

  // ---------- numbers ----------

  /** Integers may carry a plus sign and leading zeros. */
  lemma {:induction false} SignsAndZeros(n: nat, zeros: nat)
    ensures ParseInt(Zeros(zeros) + Digits(n)) == Some(n)
    ensures ParseInt("+" + (Zeros(zeros) + Digits(n))) == Some(n)
    ensures ParseInt("-" + (Zeros(zeros) + Digits(n))) == Some(0 - n)
  {
    var s := Zeros(zeros) + Digits(n);
    NumeralOfDigits(n);
    LeadingZeros(zeros, Digits(n));
    SignedParses(s, n);
    hide ParseInt, ParseNat, Digits, Numeral, Zeros;
  }

  lemma {:induction false} SignedParses(s: string, n: nat)
    requires s != "" && AllDigits(s) && ParseNat(s) == Some(n)
    ensures ParseInt(s) == Some(n) && ParseInt("+" + s) == Some(n) && ParseInt("-" + s) == Some(0 - n)
  {
    hide ParseNat;
    assert ("+" + s)[1..] == s && ("-" + s)[1..] == s;
    assert IsDigit(s[0]);
  }

  lemma {:induction false} NumeralBound(s: string)
    requires AllDigits(s)
    ensures Numeral(s) < Power10(|s|)
    decreases |s|
  {
    if s != "" {
      NumeralBound(s[..|s| - 1]);
    }
  }

  /** Of all texts that stand for an integer the printed one is the shortest. */
  lemma {:induction false} PrintedIntegerIsShortest(s: string, n: int)
    requires ParseInt(s) == Some(n)
    ensures |PrintInt(n)| <= |s|
  {
    var signed := s != "" && (s[0] == '-' || s[0] == '+');
    var t := if signed then s[1..] else s;
    var m: nat := if n < 0 then -n else n;
    assert ParseNat(t) == Some(m);
    NumeralBound(t);
    DigitsWidth(m, |t|);
  }

  /** The power of ten of a decimal may be marked by a small letter. */
  lemma {:induction false} SmallExponentLetter(mantissa: string, n: nat, places: nat, power: int)
    requires Made(mantissa, {'.'}) && ParseMantissa(mantissa) == Some((n, places))
    ensures ParseMagnitude(mantissa + "e" + PrintPower(power)) == Some((n, power - places))
  {
    hide ParseMantissa, PrintPower, ParseInt, Find, Made;
    var shown := PrintPower(power);
    PowerRoundTrip(power);
    SplitsAtSmallE(mantissa, power);
    assert mantissa + "e" + shown == mantissa + ['e'] + shown;
  }

  lemma {:induction false} SplitsAtSmallE(mantissa: string, power: int)
    requires Made(mantissa, {'.'})
    ensures
      var shown := PrintPower(power);
      var s := mantissa + ['e'] + shown;
      && Find(s, 'E') == |s| && Find(s, 'e') == |mantissa| < |s|
      && s[..|mantissa|] == mantissa && s[|mantissa| + 1..] == shown
  {
    var shown := PrintPower(power);
    var s := mantissa + ['e'] + shown;
    PowerHasNoLetter(power);
    forall i | 0 <= i < |s| ensures s[i] != 'E' {
      if i < |mantissa| {
        assert IsDigit(mantissa[i]) || mantissa[i] in {'.'};
      } else if i > |mantissa| {
        assert s[i] == shown[i - |mantissa| - 1];
      }
    }
    forall i | 0 <= i < |mantissa| ensures mantissa[i] != 'e' {
      assert IsDigit(mantissa[i]) || mantissa[i] in {'.'};
    }
    hide PrintPower, Find, Made;
    FindNone(s, 'E');
    FindSkips(mantissa, 'e', shown);
  }

  lemma PowerHasNoLetter(power: int)
    ensures forall i :: 0 <= i < |PrintPower(power)| ==> PrintPower(power)[i] != 'E'
  {
  }

  /** A stored timestamp is printed in 25 characters, or in 32 if it has a fraction of a second. */
  lemma {:induction false} TimestampWidth(v: Value)
    requires v.Timestamp? && HasType(v, DatetimeType)
    ensures |Print(v)| == if v.micros == 0 then 25 else 32
  {
    assert Power10(2) == 100 && Power10(4) == 100 * Power10(2) && Power10(6) == 100 * Power10(4);
    PaddedWidth(v.date.year, 4);
    PaddedWidth(v.date.month, 2);
    PaddedWidth(v.date.day, 2);
    PaddedWidth(v.hour, 2);
    PaddedWidth(v.minute, 2);
    PaddedWidth(v.second, 2);
    PaddedWidth(v.micros, 6);
    PaddedWidth(v.offset.value.hours, 2);
    PaddedWidth(v.offset.value.minutes, 2);
    hide Padded, Power10;
  }

  // ---------- what is accepted is valid ----------

  /** What a column of the type may be given; a time without an offset, whole seconds. */
  predicate Acceptable(v: Value, t: DataType) {
    match v
    case Timestamp(d, h, mi, s, us, o) =>
      t == DatetimeType && ValidDay(d) && h < 24 && mi < 60 && s < 60 && us == 0 && o == None
    case Text(s) => (t == TextType || t == VarcharType) && Trimmed(s)
    case _ => HasType(v, t)
  }

  /** Whatever text is accepted for a column stands for a value of the column's type. */
  lemma AcceptedIsAcceptable(text: string, t: DataType)
    ensures Convert(text, t).Success? ==> Acceptable(Convert(text, t).value, t)
  {
    StripResult(text);
    var raw := Strip(text);
    StampsAreAcceptable(raw, 'T');
    StampsAreAcceptable(raw, ' ');
    OthersAreAcceptable(raw);
    hide Strip, IsSpace, ParseInt, ParseDecimal, ParseDay, ParseTimestamp, ParseUuid, Lower;
  }

  lemma StampsAreAcceptable(raw: string, separator: char)
    ensures ParseTimestamp(raw, separator).Some? ==>
      ParseTimestamp(raw, separator).value.Timestamp? && Acceptable(ParseTimestamp(raw, separator).value, DatetimeType)
  {
    var k := Find(raw, separator);
    if k < |raw| {
      TimesAreValid(raw[k + 1..]);
      DaysAreValid(raw[..k]);
    }
    hide Find, ParseDay, ParseTime;
  }

  lemma TimesAreValid(s: string)
    ensures ParseTime(s).Some? ==> ParseTime(s).value.0 < 24 && ParseTime(s).value.1 < 60 && ParseTime(s).value.2 < 60
  {
    hide Find, ParseNat;
  }

  lemma DaysAreValid(s: string)
    ensures ParseDay(s).Some? ==> ValidDay(ParseDay(s).value)
  {
    hide Find, ParseNat, ParseField, ValidDay;
  }

  /** Days and times have one or two digits in each field but the year's four. */
  lemma AcceptedDaysAreShort(s: string)
    ensures ParseDay(s).Some? ==> 8 <= |s| <= 10
    ensures ParseTime(s).Some? ==> 5 <= |s| <= 8
  {
    hide Numeral, AllDigits;
  }

  lemma OthersAreAcceptable(raw: string)
    ensures ParseDecimal(raw).Some? ==> ParseDecimal(raw).value.Dec?
    ensures ParseDay(raw).Some? ==> ValidDay(ParseDay(raw).value)
    ensures ParseUuid(raw).Some? ==> ParseUuid(raw).value.Uuid?
  {
    DaysAreValid(raw);
    hide ParseMagnitude, ParseDay, Lower, WithoutDashes;
  }
}
