/**
 The text form of row values.  An export prints a value as Python's `str` does; an import strips the
 text and converts it by the column's type.
 */
module TextCodec {
  import opened Wrappers
  import opened Schema
  import opened Numerals

  datatype Day = Day(year: nat, month: nat, day: nat)

  /** Hours and minutes east (or west) of Greenwich. */
  datatype Offset = Offset(west: bool, hours: nat, minutes: nat)

  predicate IsLowerHex(c: char) {
    '0' <= c <= '9' || 'a' <= c <= 'f'
  }

  predicate IsUuidHex(s: string) {
    |s| == 32 && forall i :: 0 <= i < |s| ==> IsLowerHex(s[i])
  }

  type Hex = s: string | IsUuidHex(s) witness seq(32, _ => '0')

  datatype Value =
    | Null
    | Int(n: int)
    | Dec(negative: bool, coefficient: nat, exponent: int)
    | NotANumber
    | Bool(b: bool)
    | Date(on: Day)
    | Timestamp(date: Day, hour: nat, minute: nat, second: nat, micros: nat, offset: Option<Offset>)
    | Uuid(hex: Hex)
    | Text(s: string)

  datatype ConversionError = NotA(dataType: DataType)

  // ---------- well-formed values ----------

  predicate IsLeap(year: nat) {
    year % 4 == 0 && (year % 100 != 0 || year % 400 == 0)
  }

  function DaysInMonth(year: nat, month: nat): nat {
    if month == 2 then (if IsLeap(year) then 29 else 28)
    else if month in {4, 6, 9, 11} then 30
    else 31
  }

  predicate ValidDay(d: Day) {
    1 <= d.year <= 9999 && 1 <= d.month <= 12 && 1 <= d.day <= DaysInMonth(d.year, d.month)
  }

  predicate ValidOffset(o: Offset) {
    o.hours < 24 && o.minutes < 60
  }

  /** The values the tenant database can hold in a column of type `t`.  A stored timestamp always
      carries an offset, because datetime columns are timestamps with time zone. */
  predicate HasType(v: Value, t: DataType) {
    match v
    case Null => true
    case Int(_) => t in {IntegerType, BigIntType}
    case Dec(_, _, _) => t == DecimalType
    case NotANumber => t == DecimalType
    case Bool(_) => t == BooleanType
    case Date(d) => t == DateType && ValidDay(d)
    case Timestamp(d, h, mi, s, us, o) =>
      && t == DatetimeType && ValidDay(d) && h < 24 && mi < 60 && s < 60 && us < 1_000_000
      && o.Some? && ValidOffset(o.value)
    case Uuid(_) => t == UuidType
    case Text(_) => t in {TextType, VarcharType}
  }

  // ---------- printing ----------

  function PrintInt(n: int): string {
    if n < 0 then "-" + Digits(-n) else Digits(n)
  }

  function Signed(negative: bool, body: string): string {
    (if negative then "-" else "") + body
  }

  /** The digits of a coefficient with the decimal point put after `point` of them. */
  function PrintMantissa(digits: string, point: int): string
    requires point <= |digits|
  {
    if point <= 0 then "0." + Zeros(-point) + digits
    else if point == |digits| then digits
    else digits[..point] + "." + digits[point..]
  }

  function PrintPower(power: int): string {
    if power < 0 then "-" + Digits(-power) else "+" + Digits(power)
  }

  /** Decimal's `str`: plain notation unless the exponent is positive or the value is below 1E-6. */
  function PrintDecimal(negative: bool, coefficient: nat, exponent: int): string {
    var digits := Digits(coefficient);
    var left := exponent + |digits|;
    if exponent <= 0 && left > -6 then Signed(negative, PrintMantissa(digits, left))
    else Signed(negative, PrintMantissa(digits, 1) + "E" + PrintPower(left - 1))
  }

  function PrintDay(d: Day): string {
    Padded(d.year, 4) + "-" + Padded(d.month, 2) + "-" + Padded(d.day, 2)
  }

  function PrintOffset(o: Option<Offset>): string {
    match o
    case None => ""
    case Some(o) => (if o.west then "-" else "+") + Padded(o.hours, 2) + ":" + Padded(o.minutes, 2)
  }

  function PrintTime(hour: nat, minute: nat, second: nat, micros: nat): string {
    Padded(hour, 2) + ":" + Padded(minute, 2) + ":" + Padded(second, 2) +
    (if micros == 0 then "" else "." + Padded(micros, 6))
  }

  function PrintUuid(hex: Hex): string {
    hex[..8] + "-" + hex[8..12] + "-" + hex[12..16] + "-" + hex[16..20] + "-" + hex[20..]
  }

  /** What iter_export_rows yields for one value. */
  function Print(v: Value): string {
    match v
    case Null => ""
    case Int(n) => PrintInt(n)
    case Dec(neg, c, e) => PrintDecimal(neg, c, e)
    case NotANumber => "NaN"
    case Bool(b) => if b then "True" else "False"
    case Date(d) => PrintDay(d)
    case Timestamp(d, h, mi, s, us, o) => PrintDay(d) + " " + PrintTime(h, mi, s, us) + PrintOffset(o)
    case Uuid(hex) => PrintUuid(hex)
    case Text(s) => s
  }

  // ---------- converting ----------

  /** The characters that Python's `strip` removes. */
  predicate IsSpace(c: char) {
    || '\U{0009}' <= c <= '\U{000D}' || '\U{001C}' <= c <= '\U{0020}'
    || c == '\U{0085}' || c == '\U{00A0}' || c == '\U{1680}'
    || '\U{2000}' <= c <= '\U{200A}' || c == '\U{2028}' || c == '\U{2029}'
    || c == '\U{202F}' || c == '\U{205F}' || c == '\U{3000}'
  }

  function StripLeft(s: string): string {
    if s != "" && IsSpace(s[0]) then StripLeft(s[1..]) else s
  }

  function StripRight(s: string): string {
    if s != "" && IsSpace(s[|s| - 1]) then StripRight(s[..|s| - 1]) else s
  }

  function Strip(s: string): string {
    StripRight(StripLeft(s))
  }

  function ParseInt(s: string): Option<int> {
    var signed := s != "" && (s[0] == '-' || s[0] == '+');
    match ParseNat(if signed then s[1..] else s)
    case None => None
    case Some(n) =>
      var value: int := if signed && s[0] == '-' then 0 - n else n;
      Some(value)
  }

  /** digits, digits "." digits, "." digits or digits "." */
  function ParseMantissa(s: string): Option<(nat, nat)> {
    var dot := Find(s, '.');
    if dot == |s| then
      match ParseNat(s) case Some(n) => Some((n, 0)) case None => None
    else
      match ParseNat(s[..dot] + s[dot + 1..])
      case Some(n) => Some((n, |s| - dot - 1))
      case None => None
  }

  /** A mantissa with an optional power of ten: coefficient and exponent. */
  function ParseMagnitude(s: string): Option<(nat, int)> {
    var e := if Find(s, 'E') < |s| then Find(s, 'E') else Find(s, 'e');
    match ParseMantissa(s[..e])
    case None => None
    case Some((n, places)) =>
      if e == |s| then Some((n, 0 - places))
      else
        match ParseInt(s[e + 1..])
        case None => None
        case Some(power) => Some((n, power - places))
  }

  function ParseDecimal(s: string): Option<Value> {
    var negative := s != "" && s[0] == '-';
    match ParseMagnitude(if s != "" && (s[0] == '-' || s[0] == '+') then s[1..] else s)
    case None => None
    case Some((n, e)) => Some(Dec(negative, n, e))
  }

  function Lower(s: string): string {
    seq(|s|, i requires 0 <= i < |s| => if 'A' <= s[i] <= 'Z' then ((s[i] as int) + 32) as char else s[i])
  }

  const TRUE_VALUES := {"true", "yes", "1"}
  const FALSE_VALUES := {"false", "no", "0"}

  /** One or two digits with a value between lo and hi. */
  function ParseField(s: string, lo: nat, hi: nat): Option<nat> {
    if |s| > 2 then None
    else
      match ParseNat(s)
      case Some(n) => if lo <= n <= hi then Some(n) else None
      case None => None
  }

  function ParseDay(s: string): Option<Day> {
    var a := Find(s, '-');
    if a != 4 || a == |s| then None
    else
      var rest := s[5..];
      var b := Find(rest, '-');
      if b == |rest| then None
      else
        match (ParseNat(s[..4]), ParseField(rest[..b], 1, 12), ParseField(rest[b + 1..], 1, 31))
        case (Some(y), Some(m), Some(d)) => if ValidDay(Day(y, m, d)) then Some(Day(y, m, d)) else None
        case (_, _, _) => None
  }

  function ParseTime(s: string): Option<(nat, nat, nat)> {
    var a := Find(s, ':');
    if a == |s| then None
    else
      var rest := s[a + 1..];
      var b := Find(rest, ':');
      if b == |rest| then None
      else
        match (ParseField(s[..a], 0, 23), ParseField(rest[..b], 0, 59), ParseField(rest[b + 1..], 0, 59))
        case (Some(h), Some(m), Some(sec)) => Some((h, m, sec))
        case (_, _, _) => None
  }

  function ParseTimestamp(s: string, separator: char): Option<Value> {
    var k := Find(s, separator);
    if k == |s| then None
    else
      match (ParseDay(s[..k]), ParseTime(s[k + 1..]))
      case (Some(d), Some((h, m, sec))) => Some(Timestamp(d, h, m, sec, 0, None))
      case (_, _) => None
  }

  function WithoutDashes(s: string): string {
    if s == "" then "" else if s[0] == '-' then WithoutDashes(s[1..]) else [s[0]] + WithoutDashes(s[1..])
  }

  function ParseUuid(s: string): Option<Value> {
    var hex := Lower(WithoutDashes(s));
    if IsUuidHex(hex) then Some(Uuid(hex)) else None
  }

  function OrError(v: Option<Value>, t: DataType): Result<Value, ConversionError> {
    match v case Some(w) => Success(w) case None => Failure(NotA(t))
  }

  function Convert(text: string, t: DataType): Result<Value, ConversionError> {
    var raw := Strip(text);
    if raw == "" then Success(Null)
    else
      match t
      case IntegerType => OrError(match ParseInt(raw) case Some(n) => Some(Int(n)) case None => None, t)
      case BigIntType => OrError(match ParseInt(raw) case Some(n) => Some(Int(n)) case None => None, t)
      case DecimalType => if Lower(raw) == "nan" then Success(NotANumber) else OrError(ParseDecimal(raw), t)
      case BooleanType =>
        if Lower(raw) in TRUE_VALUES then Success(Bool(true))
        else if Lower(raw) in FALSE_VALUES then Success(Bool(false))
        else Failure(NotA(t))
      case DateType => OrError(match ParseDay(raw) case Some(d) => Some(Date(d)) case None => None, t)
      case DatetimeType =>
        if ParseTimestamp(raw, 'T').Some? then Success(ParseTimestamp(raw, 'T').value)
        else OrError(ParseTimestamp(raw, ' '), t)
      case UuidType => OrError(ParseUuid(raw), t)
      case TextType => Success(Text(raw))
      case VarcharType => Success(Text(raw))
  }

  // ---------- which values come back ----------

  /** Every value except a timestamp, an empty text, and a text with outer whitespace. */
  predicate Exportable(v: Value) {
    match v
    case Timestamp(_, _, _, _, _, _) => false
    case Text(s) => s != "" && !IsSpace(s[0]) && !IsSpace(s[|s| - 1])
    case _ => true
  }

  lemma StripLeavesInnerText(s: string)
    ensures s == "" || (!IsSpace(s[0]) && !IsSpace(s[|s| - 1])) ==> Strip(s) == s
  {
  }

  lemma {:induction false} StripRightResult(s: string)
    ensures var r := StripRight(s); r <= s && (r != "" ==> !IsSpace(r[|r| - 1]))
  {
    if s != "" && IsSpace(s[|s| - 1]) {
      StripRightResult(s[..|s| - 1]);
    }
  }

  lemma {:induction false} StripLeftResult(s: string)
    ensures var r := StripLeft(s); |r| <= |s| && (r != "" ==> !IsSpace(r[0]))
    ensures StripLeft(s) == "" || StripLeft(s)[|StripLeft(s)| - 1] == s[|s| - 1]
  {
    if s != "" && IsSpace(s[0]) {
      StripLeftResult(s[1..]);
    }
  }

  /** What is left after stripping is empty or has no outer whitespace. */
  lemma StripResult(s: string)
    ensures var r := Strip(s); r == "" || (!IsSpace(r[0]) && !IsSpace(r[|r| - 1]))
  {
    StripLeftResult(s);
    StripRightResult(StripLeft(s));
  }

  predicate Trimmed(s: string) {
    s != "" && !IsSpace(s[0]) && !IsSpace(s[|s| - 1])
  }

  lemma IntegerRoundTrip(n: int)
    ensures ParseInt(PrintInt(n)) == Some(n) && Trimmed(PrintInt(n))
  {
    var digits := Digits(if n < 0 then -n else n);
    NumeralOfDigits(if n < 0 then -n else n);
    hide Digits, ParseNat, AllDigits;
    if n < 0 {
      assert ("-" + digits)[1..] == digits;
    }
    NumbersAreTrimmed(digits);
  }

  lemma NumbersAreTrimmed(digits: string)
    requires digits != "" && AllDigits(digits)
    ensures Trimmed(digits) && Trimmed("-" + digits) && digits[0] != '-' && digits[0] != '+'
  {
  }

  // ---------- characters of printed numbers ----------

  /** Digits and the given punctuation only. */
  predicate Made(s: string, punctuation: set<char>) {
    forall i :: 0 <= i < |s| ==> IsDigit(s[i]) || s[i] in punctuation
  }

  lemma MadeConcat(a: string, b: string, punctuation: set<char>)
    requires Made(a, punctuation) && Made(b, punctuation)
    ensures Made(a + b, punctuation)
  {
  }

  lemma {:induction false} FindNone(s: string, c: char)
    requires forall i :: 0 <= i < |s| ==> s[i] != c
    ensures Find(s, c) == |s|
  {
  }

  lemma {:induction false} FindSkips(prefix: string, c: char, rest: string)
    requires forall i :: 0 <= i < |prefix| ==> prefix[i] != c
    ensures Find(prefix + [c] + rest, c) == |prefix|
  {
    var s := prefix + [c] + rest;
    assert s[|prefix|] == c;
    assert forall i :: 0 <= i < |prefix| ==> s[i] == prefix[i];
  }

  // ---------- decimals ----------

  lemma {:induction false} MantissaWithPoint(whole: string, fraction: string, n: nat)
    requires AllDigits(whole) && AllDigits(fraction) && whole != ""
    requires Numeral(whole + fraction) == n
    ensures ParseMantissa(whole + "." + fraction) == Some((n, |fraction|))
  {
    FindSkips(whole, '.', fraction);
    var s := whole + ['.'] + fraction;
    assert s[..|whole|] == whole && s[|whole| + 1..] == fraction;
  }

  /** Wherever the point is put, the mantissa reads back as the coefficient and the number of places. */
  lemma {:induction false} MantissaRoundTrip(coefficient: nat, point: int)
    requires point <= |Digits(coefficient)|
    ensures ParseMantissa(PrintMantissa(Digits(coefficient), point))
         == Some((coefficient, |Digits(coefficient)| - point))
  {
    NumeralOfDigits(coefficient);
    MantissaOfDigits(Digits(coefficient), point);
  }

  lemma {:induction false} MantissaOfDigits(d: string, point: int)
    requires d != "" && AllDigits(d) && point <= |d|
    ensures ParseMantissa(PrintMantissa(d, point)) == Some((Numeral(d), |d| - point))
  {
    hide ParseMantissa, Numeral, AllDigits;
    if point <= 0 {
      SmallMantissa(d, Numeral(d), -point);
    } else if point == |d| {
      MantissaWithoutPoint(d);
    } else {
      PointInside(d, point);
    }
  }

  lemma {:induction false} PointInside(d: string, point: nat)
    requires AllDigits(d) && 0 < point < |d|
    ensures ParseMantissa(d[..point] + "." + d[point..]) == Some((Numeral(d), |d| - point))
  {
    hide ParseMantissa, Numeral;
    assert d[..point] + d[point..] == d;
    MantissaWithPoint(d[..point], d[point..], Numeral(d));
  }

  lemma {:induction false} MantissaWithoutPoint(d: string)
    requires d != "" && AllDigits(d)
    ensures ParseMantissa(d) == Some((Numeral(d), 0))
  {
  }

  lemma {:induction false} SmallMantissa(d: string, n: nat, zeros: nat)
    requires d != "" && AllDigits(d) && Numeral(d) == n
    ensures ParseMantissa("0." + Zeros(zeros) + d) == Some((n, zeros + |d|))
  {
    hide ParseMantissa, Numeral;
    var fraction := Zeros(zeros) + d;
    LeadingZeros(zeros + 1, d);
    assert "0" + fraction == Zeros(zeros + 1) + d;
    MantissaWithPoint("0", fraction, n);
    assert "0." + Zeros(zeros) + d == "0" + "." + fraction;
  }

  predicate DigitEnds(s: string) {
    s != "" && IsDigit(s[0]) && IsDigit(s[|s| - 1])
  }

  lemma MantissaShape(d: string, point: int)
    requires d != "" && AllDigits(d) && point <= |d|
    ensures DigitEnds(PrintMantissa(d, point)) && Made(PrintMantissa(d, point), {'.'})
  {
  }

  lemma PlainMagnitude(mantissa: string, n: nat, places: nat)
    requires Made(mantissa, {'.'}) && ParseMantissa(mantissa) == Some((n, places))
    ensures ParseMagnitude(mantissa) == Some((n, 0 - places))
  {
    FindNone(mantissa, 'E');
    FindNone(mantissa, 'e');
    assert mantissa[..|mantissa|] == mantissa;
  }

  lemma PowerRoundTrip(power: int)
    ensures ParseInt(PrintPower(power)) == Some(power)
  {
    var n := if power < 0 then -power else power;
    NumeralOfDigits(n);
    assert PrintPower(power)[1..] == Digits(n);
  }

  lemma ScientificMagnitude(mantissa: string, n: nat, places: nat, power: int)
    requires Made(mantissa, {'.'}) && ParseMantissa(mantissa) == Some((n, places))
    ensures ParseMagnitude(mantissa + "E" + PrintPower(power)) == Some((n, power - places))
  {
    hide ParseMantissa, PrintPower, ParseInt, Find;
    var shown := PrintPower(power);
    var s := mantissa + ['E'] + shown;
    FindSkips(mantissa, 'E', shown);
    assert s[..|mantissa|] == mantissa && s[|mantissa| + 1..] == shown;
    assert mantissa + "E" + shown == s;
    PowerRoundTrip(power);
  }

  lemma SignRoundTrip(negative: bool, body: string, n: nat, e: int)
    requires DigitEnds(body)
    requires ParseMagnitude(body) == Some((n, e))
    ensures ParseDecimal(Signed(negative, body)) == Some(Dec(negative, n, e))
  {
    hide ParseMagnitude;
    var s := Signed(negative, body);
    if negative {
      assert s[0] == '-' && s[1..] == body;
    } else {
      assert s == body;
    }
  }

  lemma SignedIsTrimmed(negative: bool, body: string)
    requires DigitEnds(body)
    ensures Trimmed(Signed(negative, body))
  {
  }

  /** Every decimal comes back with the same sign, coefficient and exponent. */
  lemma DecimalRoundTrip(negative: bool, coefficient: nat, exponent: int)
    ensures ParseDecimal(PrintDecimal(negative, coefficient, exponent)) == Some(Dec(negative, coefficient, exponent))
    ensures Trimmed(PrintDecimal(negative, coefficient, exponent))
  {
    hide ParseDecimal, PrintMantissa, Trimmed;
    var left := exponent + |Digits(coefficient)|;
    if exponent <= 0 && left > -6 {
      PlainDecimal(negative, coefficient, left);
    } else {
      ScientificDecimal(negative, coefficient, left - 1);
    }
  }

  lemma {:induction false} PlainDecimal(negative: bool, coefficient: nat, point: int)
    requires point <= |Digits(coefficient)|
    ensures
      var s := Signed(negative, PrintMantissa(Digits(coefficient), point));
      ParseDecimal(s) == Some(Dec(negative, coefficient, point - |Digits(coefficient)|)) && Trimmed(s)
  {
    hide ParseDecimal, ParseMagnitude, ParseMantissa, PrintMantissa, Trimmed, Made;
    var d := Digits(coefficient);
    var body := PrintMantissa(d, point);
    MantissaRoundTrip(coefficient, point);
    MantissaShape(d, point);
    PlainMagnitude(body, coefficient, |d| - point);
    SignRoundTrip(negative, body, coefficient, point - |d|);
    SignedIsTrimmed(negative, body);
  }

  lemma {:induction false} ScientificDecimal(negative: bool, coefficient: nat, power: int)
    ensures
      var s := Signed(negative, PrintMantissa(Digits(coefficient), 1) + "E" + PrintPower(power));
      ParseDecimal(s) == Some(Dec(negative, coefficient, power + 1 - |Digits(coefficient)|)) && Trimmed(s)
  {
    hide ParseDecimal, ParseMagnitude, ParseMantissa, PrintMantissa, Trimmed, Made;
    var d := Digits(coefficient);
    var mantissa := PrintMantissa(d, 1);
    MantissaRoundTrip(coefficient, 1);
    MantissaShape(d, 1);
    ScientificMagnitude(mantissa, coefficient, |d| - 1, power);
    PowerEnds(mantissa, power);
    var body := mantissa + "E" + PrintPower(power);
    SignRoundTrip(negative, body, coefficient, power - (|d| - 1));
    SignedIsTrimmed(negative, body);
  }

  lemma PowerEnds(mantissa: string, power: int)
    requires DigitEnds(mantissa)
    ensures DigitEnds(mantissa + "E" + PrintPower(power))
  {
  }

  // ---------- days, timestamps, identifiers ----------

  lemma FieldRoundTrip(n: nat, lo: nat, hi: nat)
    requires lo <= n <= hi < 100
    ensures |Padded(n, 2)| == 2 && ParseField(Padded(n, 2), lo, hi) == Some(n)
  {
    assert Power10(2) == 100;
    PaddedWidth(n, 2);
    PaddedParses(n, 2);
  }

  lemma YearRoundTrip(n: nat)
    requires n <= 9999
    ensures |Padded(n, 4)| == 4 && ParseNat(Padded(n, 4)) == Some(n)
  {
    assert Power10(2) == 100;
    assert Power10(4) == 10000;
    PaddedWidth(n, 4);
    PaddedParses(n, 4);
  }

  lemma DayRoundTrip(d: Day)
    requires ValidDay(d)
    ensures ParseDay(PrintDay(d)) == Some(d)
    ensures Trimmed(PrintDay(d)) && Made(PrintDay(d), {'-'})
  {
    YearRoundTrip(d.year);
    FieldRoundTrip(d.month, 1, 12);
    FieldRoundTrip(d.day, 1, 31);
    var y, m, dd := Padded(d.year, 4), Padded(d.month, 2), Padded(d.day, 2);
    var rest := m + ['-'] + dd;
    var s := y + ['-'] + rest;
    assert PrintDay(d) == s;
    FindSkips(y, '-', rest);
    FindSkips(m, '-', dd);
    assert s[..4] == y && s[5..] == rest;
    assert rest[..2] == m && rest[3..] == dd;
  }

  lemma TimeFieldsAreDigits(s: string)
    requires ParseTime(s).Some?
    ensures Find(s, ':') < |s| && AllDigits(s[..Find(s, ':')])
    ensures
      var rest := s[Find(s, ':') + 1..];
      Find(rest, ':') < |rest| && AllDigits(rest[..Find(rest, ':')]) && AllDigits(rest[Find(rest, ':') + 1..])
  {
    hide Find, AllDigits, Numeral;
  }

  /** An accepted time of day has no sign in it. */
  lemma TimeHasNoSign(s: string)
    requires ParseTime(s).Some?
    ensures Made(s, {':'})
  {
    var a := Find(s, ':');
    var rest := s[a + 1..];
    hide ParseTime, Find, Made, AllDigits;
    TimeFieldsAreDigits(s);
    DigitsAreMade(rest[Find(rest, ':') + 1..]);
    DigitsThenColon(rest, Find(rest, ':'));
    DigitsThenColon(s, a);
  }

  lemma DigitsAreMade(digits: string)
    requires AllDigits(digits)
    ensures Made(digits, {':'})
  {
  }

  lemma DigitsThenColon(s: string, k: nat)
    requires k < |s| && s[k] == ':' && AllDigits(s[..k]) && Made(s[k + 1..], {':'})
    ensures Made(s, {':'})
  {
    forall i | 0 <= i < |s| ensures IsDigit(s[i]) || s[i] in {':'} {
      if i < k {
        assert s[i] == s[..k][i];
      } else if i > k {
        assert s[i] == s[k + 1..][i - k - 1];
      }
    }
  }

  lemma OffsetHasSign(o: Offset)
    ensures PrintOffset(Some(o)) != "" && PrintOffset(Some(o))[0] == if o.west then '-' else '+'
  {
  }

  lemma OffsetBreaksTime(time: string, o: Offset)
    ensures ParseTime(time + PrintOffset(Some(o))) == None
  {
    hide ParseTime, PrintOffset, Made;
    var s := time + PrintOffset(Some(o));
    OffsetHasSign(o);
    assert s[|time|] == PrintOffset(Some(o))[0];
    if ParseTime(s).Some? {
      TimeHasNoSign(s);
      SignIsNotMade(s, |time|);
    }
  }

  lemma SignIsNotMade(s: string, i: nat)
    requires i < |s| && (s[i] == '-' || s[i] == '+')
    ensures !Made(s, {':'})
  {
  }

  const STAMP := {'-', '+', ':', '.', ' '}

  lemma TimestampChars(v: Value)
    requires v.Timestamp? && HasType(v, DatetimeType)
    ensures Made(Print(v), STAMP)
  {
    var day := PrintDay(v.date);
    var time := PrintTime(v.hour, v.minute, v.second, v.micros);
    var offset := PrintOffset(v.offset);
    assert Made(day, STAMP) by { DayRoundTrip(v.date); }
    TimeChars(v.hour, v.minute, v.second, v.micros);
    OffsetChars(v.offset.value);
    MadeConcat(day, " ", STAMP);
    MadeConcat(day + " ", time, STAMP);
    MadeConcat(day + " " + time, offset, STAMP);
  }

  lemma TimestampIsTrimmed(v: Value)
    requires v.Timestamp? && HasType(v, DatetimeType)
    ensures Trimmed(Print(v))
  {
    hide PrintDay, PrintTime, PrintOffset, Made;
    var day := PrintDay(v.date);
    var middle := " " + PrintTime(v.hour, v.minute, v.second, v.micros);
    var offset := PrintOffset(v.offset);
    assert Trimmed(day) by { DayRoundTrip(v.date); }
    OffsetChars(v.offset.value);
    EndsTrimmed(day, middle, offset);
    assert Print(v) == day + middle + offset;
  }

  lemma EndsTrimmed(a: string, b: string, c: string)
    requires a != "" && c != "" && !IsSpace(a[0]) && !IsSpace(c[|c| - 1])
    ensures Trimmed(a + b + c)
  {
  }

  lemma OffsetChars(o: Offset)
    ensures
      var s := PrintOffset(Some(o));
      s != "" && Made(s, STAMP) && !IsSpace(s[|s| - 1])
  {
  }

  lemma TimeChars(hour: nat, minute: nat, second: nat, micros: nat)
    ensures Made(PrintTime(hour, minute, second, micros), STAMP)
  {
    var hms := Padded(hour, 2) + ":" + Padded(minute, 2) + ":" + Padded(second, 2);
    assert Made(hms, STAMP);
    MadeConcat(hms, if micros == 0 then "" else "." + Padded(micros, 6), STAMP);
  }

  /** A stored timestamp is printed with its offset, which neither accepted format has: it can never
      be read back. */
  lemma TimestampIsRefused(v: Value)
    requires v.Timestamp? && HasType(v, DatetimeType)
    ensures Convert(Print(v), DatetimeType) == Failure(NotA(DatetimeType))
  {
    TimestampChars(v);
    TimestampIsTrimmed(v);
    TimestampHasNoFormat(v);
    hide Print, ParseTimestamp, Made, HasType, Strip, IsSpace;
    NoFormatMeansRefused(Print(v));
  }

  lemma NoFormatMeansRefused(s: string)
    requires Trimmed(s) && ParseTimestamp(s, ' ') == None && ParseTimestamp(s, 'T') == None
    ensures Convert(s, DatetimeType) == Failure(NotA(DatetimeType))
  {
    StripLeavesInnerText(s);
    hide Strip, ParseTimestamp, IsSpace;
  }

  lemma TimestampHasNoFormat(v: Value)
    requires v.Timestamp? && HasType(v, DatetimeType) && Made(Print(v), STAMP)
    ensures ParseTimestamp(Print(v), ' ') == None && ParseTimestamp(Print(v), 'T') == None
  {
    hide PrintDay, PrintTime, PrintOffset, ParseDay, ParseTime;
    var s := Print(v);
    var d := PrintDay(v.date);
    var clock := PrintTime(v.hour, v.minute, v.second, v.micros);
    var time := clock + PrintOffset(v.offset);
    assert s == d + [' '] + time;
    assert Find(s, ' ') == |d| by {
      DayRoundTrip(v.date);
      FindSkips(d, ' ', time);
    }
    assert s[|d| + 1..] == time;
    OffsetBreaksTime(clock, v.offset.value);
    FindNone(s, 'T');
  }

  lemma UuidRoundTrip(hex: Hex)
    ensures Trimmed(PrintUuid(hex)) && ParseUuid(PrintUuid(hex)) == Some(Uuid(hex))
  {
    DashesVanish(hex);
    assert Lower(hex) == hex;
    EndsTrimmed(hex[..8], PrintUuid(hex)[8..24], hex[20..]);
    assert PrintUuid(hex) == hex[..8] + PrintUuid(hex)[8..24] + hex[20..];
  }

  lemma DashesVanish(hex: Hex)
    ensures WithoutDashes(PrintUuid(hex)) == hex
  {
    var a, b, c, d, e := hex[..8], hex[8..12], hex[12..16], hex[16..20], hex[20..];
    FourDashesVanish(a, b, c, d, e);
    assert a + b + c + d + e == hex;
  }

  lemma {:induction false} FourDashesVanish(a: string, b: string, c: string, d: string, e: string)
    requires forall i :: 0 <= i < |a| ==> a[i] != '-'
    requires forall i :: 0 <= i < |b| ==> b[i] != '-'
    requires forall i :: 0 <= i < |c| ==> c[i] != '-'
    requires forall i :: 0 <= i < |d| ==> d[i] != '-'
    requires forall i :: 0 <= i < |e| ==> e[i] != '-'
    ensures WithoutDashes(a + "-" + b + "-" + c + "-" + d + "-" + e) == a + b + c + d + e
  {
    NoDashes(e);
    LastDash(a + "-" + b + "-" + c + "-" + d, e);
    LastDash(a + "-" + b + "-" + c, d);
    LastDash(a + "-" + b, c);
    LastDash(a, b);
    NoDashes(a);
  }

  lemma {:induction false} LastDash(front: string, last: string)
    requires forall i :: 0 <= i < |last| ==> last[i] != '-'
    ensures WithoutDashes(front + "-" + last) == WithoutDashes(front) + last
  {
    var s := front + "-" + last;
    if front == "" {
      assert s[1..] == last;
      NoDashes(last);
    } else {
      assert s[1..] == front[1..] + "-" + last;
      LastDash(front[1..], last);
    }
  }

  lemma {:induction false} NoDashes(s: string)
    requires forall i :: 0 <= i < |s| ==> s[i] != '-'
    ensures WithoutDashes(s) == s
  {
    if s != "" {
      NoDashes(s[1..]);
    }
  }

  // ---------- the round trip ----------

  lemma DecimalIsNoNan(s: string)
    requires ParseDecimal(s).Some?
    ensures Lower(s) != "nan"
  {
    if Lower(s) == "nan" {
      assert |s| == 3 && Lower(s)[0] == 'n' && Lower(s)[1] == 'a' && Lower(s)[2] == 'n';
      LettersAreNoMagnitude(s);
    }
  }

  lemma LettersAreNoMagnitude(s: string)
    requires |s| == 3 && (forall i :: 0 <= i < 3 ==> !IsDigit(s[i]) && s[i] !in {'-', '+', '.', 'e', 'E'})
    ensures ParseDecimal(s).None?
  {
    FindNone(s, 'E');
    FindNone(s, 'e');
    FindNone(s, '.');
    assert s[..3] == s;
    assert !IsDigit(s[0]);
  }

  lemma PlainValueRoundTrip(v: Value, t: DataType)
    requires HasType(v, t) && !v.Null? && !v.Text? && !v.Timestamp?
    ensures Convert(Print(v), t) == Success(v)
  {
    hide PrintInt, ParseInt, PrintDecimal, ParseDecimal, PrintDay, ParseDay, PrintUuid, ParseUuid;
    match v
    case Int(n) => IntegerRoundTrip(n); StripLeavesInnerText(Print(v));
    case Dec(neg, c, e) =>
      DecimalRoundTrip(neg, c, e);
      StripLeavesInnerText(Print(v));
      DecimalIsNoNan(Print(v));
    case NotANumber =>
      StripLeavesInnerText(Print(v));
      assert Lower("NaN") == "nan";
    case Bool(b) =>
      StripLeavesInnerText(Print(v));
      assert Lower("True") == "true" && Lower("False") == "false";
    case Date(d) => DayRoundTrip(d); StripLeavesInnerText(Print(v));
    case Uuid(hex) => UuidRoundTrip(hex); StripLeavesInnerText(Print(v));
  }

  /** A stored value survives export and import exactly when it is exportable. */
  lemma ValueRoundTrip(v: Value, t: DataType)
    requires HasType(v, t)
    ensures Convert(Print(v), t) == Success(v) <==> Exportable(v)
  {
    match v
    case Null =>
    case Text(s) =>
      StripResult(s);
      StripLeavesInnerText(s);
    case Timestamp(_, _, _, _, _, _) => TimestampIsRefused(v);
    case _ => PlainValueRoundTrip(v, t);
  }
}
