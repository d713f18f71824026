/** The time-travel qualifiers that `query_at_time` and `query_at_offset`
    build: the `AT (TIMESTAMP => ...)` fragment for a number of days ago, a
    date-time, or a timestamp text. */
module TimeTravelClause {
  import opened Wrappers

  /** A decimal digit character. */
  predicate IsDigit(c: char) {
    '0' <= c <= '9'
  }

  /** The character of digit `d`. */
  function DigitChar(d: nat): (c: char)
    requires d < 10
    ensures IsDigit(c) && c as int - '0' as int == d
  {
    ('0' as int + d) as char
  }

  /** The digit a digit character stands for. */
  function DigitValue(c: char): (d: nat)
    requires IsDigit(c)
    ensures d < 10 && DigitChar(d) == c
  {
    c as int - '0' as int
  }

  predicate AllDigits(s: string) {
    forall i :: 0 <= i < |s| ==> IsDigit(s[i])
  }

  /** The number a text of decimal digits denotes, most significant digit first. */
  function DecimalValue(s: string): nat
    requires AllDigits(s)
    decreases |s|
  {
    if |s| == 0 then 0 else 10 * DecimalValue(s[..|s| - 1]) + DigitValue(s[|s| - 1])
  }

  /** The decimal text Python writes for a number: digits only, and no
      leading zero unless the number is zero. */
  predicate IsCanonical(s: string) {
    |s| > 0 && AllDigits(s) && (|s| > 1 ==> s[0] != '0')
  }

  /** `str(n)` for a natural number. */
  function NatToDecimal(n: nat): (s: string)
    ensures IsCanonical(s) && DecimalValue(s) == n
    decreases n
  {
    if n < 10 then [DigitChar(n)]
    else
      var p := NatToDecimal(n / 10);
      var s := p + [DigitChar(n % 10)];
      assert s[..|s| - 1] == p;
      s
  }

  /** A digit text whose first digit is not zero denotes a positive number. */
  lemma {:induction false} LeadingDigitPositive(s: string)
    requires |s| > 0 && AllDigits(s) && s[0] != '0'
    ensures DecimalValue(s) >= 1
    decreases |s|
  {
    if |s| > 1 {
      var p := s[..|s| - 1];
      assert p[0] == s[0];
      LeadingDigitPositive(p);
    }
  }

  /** A canonical decimal text is the one NatToDecimal writes for its value. */
  lemma {:induction false} DecimalRoundTrip(s: string)
    requires IsCanonical(s)
    ensures NatToDecimal(DecimalValue(s)) == s
    decreases |s|
  {
    var p := s[..|s| - 1];
    if |s| == 1 {
      assert p == [];
      assert s == [s[0]];
    } else {
      assert p[0] == s[0];
      LeadingDigitPositive(p);
      DecimalRoundTrip(p);
      assert s == p + [s[|s| - 1]];
    }
  }

  /** Reads a canonical decimal text back into its number. */
  function ParseNat(s: string): Option<nat> {
    if IsCanonical(s) then Some(DecimalValue(s)) else None
  }

  /** ParseNat and NatToDecimal are inverse: a text reads as `n` exactly
      when it is the text written for `n`. */
  lemma ParseNatInverse(s: string, n: nat)
    ensures ParseNat(s) == Some(n) <==> NatToDecimal(n) == s
  {
    if ParseNat(s) == Some(n) {
      DecimalRoundTrip(s);
    }
  }

  /** `str(n)` for any integer: a minus sign before the digits of a negative number. */
  function IntToDecimal(n: int): string {
    if n < 0 then "-" + NatToDecimal(-n) else NatToDecimal(n)
  }

  /** Reads the text of an integer back: a canonical decimal, or a minus
      sign before the canonical decimal of a positive number. */
  function ParseInt(s: string): Option<int> {
    if |s| > 0 && s[0] == '-' then
      match ParseNat(s[1..])
      case Some(v) => if v == 0 then None else Some(-(v as int))
      case None => None
    else
      match ParseNat(s)
      case Some(v) => Some(v as int)
      case None => None
  }

  /** ParseInt and IntToDecimal are inverse: a text reads as `n` exactly
      when it is the text written for `n`. */
  lemma ParseIntInverse(s: string, n: int)
    ensures ParseInt(s) == Some(n) <==> IntToDecimal(n) == s
  {
    if |s| > 0 && s[0] == '-' {
      if n < 0 {
        ParseNatInverse(s[1..], -n);
        assert s == "-" + s[1..];
      } else {
        assert IsDigit(IntToDecimal(n)[0]);
      }
    } else if n < 0 {
      assert IntToDecimal(n)[0] == '-';
    } else {
      ParseNatInverse(s, n);
    }
  }

  function Pow10(w: nat): (p: nat)
    ensures p >= 1
  {
    if w == 0 then 1 else 10 * Pow10(w - 1)
  }

  /** `n` written with exactly `width` digits, zeros in front: what the
      `%m`, `%d`, `%H`, `%M` and `%S` directives write with width 2. */
  function ZeroPadded(n: nat, width: nat): (s: string)
    requires n < Pow10(width)
    ensures |s| == width && AllDigits(s) && DecimalValue(s) == n
    decreases width
  {
    if width == 0 then ""
    else
      var p := ZeroPadded(n / 10, width - 1);
      var s := p + [DigitChar(n % 10)];
      assert s[..|s| - 1] == p;
      s
  }

  /** A number that already has `width` digits is written without padding. */
  lemma {:induction false} PaddingOnlyAddsZeros(n: nat, width: nat)
    requires 1 <= width && n < Pow10(width)
    requires width == 1 || Pow10(width - 1) <= n
    ensures ZeroPadded(n, width) == NatToDecimal(n)
    decreases width
  {
    if width > 1 {
      assert Pow10(width - 1) == 10 * Pow10(width - 2);
      PaddingOnlyAddsZeros(n / 10, width - 1);
    }
  }

  /** Two-digit fields: a number below ten gets one leading zero, a larger
      one is its own decimal text. */
  lemma TwoDigitField(n: nat)
    requires n < 100
    ensures n < 10 ==> ZeroPadded(n, 2) == "0" + NatToDecimal(n)
    ensures n >= 10 ==> ZeroPadded(n, 2) == NatToDecimal(n)
    ensures ZeroPadded(n, 2)[0] == '0' <==> n < 10
  {
    if n >= 10 {
      PaddingOnlyAddsZeros(n, 2);
      assert ZeroPadded(n, 2)[0] == DigitChar(n / 10);
    } else {
      assert ZeroPadded(n, 2) == ZeroPadded(0, 1) + [DigitChar(n)];
      assert ZeroPadded(0, 1) == "0";
    }
  }

  /** A Python `datetime.datetime`; its time zone does not reach the text. */
  datatype DateTime = DateTime(year: nat, month: nat, day: nat,
                               hour: nat, minute: nat, second: nat, microsecond: nat)

  predicate IsLeapYear(y: nat) {
    y % 4 == 0 && (y % 100 != 0 || y % 400 == 0)
  }

  function DaysInMonth(y: nat, m: nat): nat
    requires 1 <= m <= 12
  {
    if m == 2 then (if IsLeapYear(y) then 29 else 28)
    else if m == 4 || m == 6 || m == 9 || m == 11 then 30
    else 31
  }

  /** The ranges the `datetime` constructor enforces on every value. */
  predicate ValidDateTime(dt: DateTime) {
    && 1 <= dt.year <= 9999
    && 1 <= dt.month <= 12
    && 1 <= dt.day <= DaysInMonth(dt.year, dt.month)
    && dt.hour < 24 && dt.minute < 60 && dt.second < 60
    && dt.microsecond < 1000000
  }

  /** Three fields with a separator between each two. */
  function JoinFields(a: string, b: string, c: string, sep: char): string {
    a + [sep] + b + [sep] + c
  }

  /** `strftime("%Y-%m-%d %H:%M:%S")`: the year in decimal without padding,
      every other field as two digits, and no sub-second part. */
  function FormatDateTime(dt: DateTime): string
    requires ValidDateTime(dt)
  {
    assert Pow10(2) == 100;
    assert dt.month < Pow10(2) && dt.day < Pow10(2) && dt.hour < Pow10(2) && dt.minute < Pow10(2) && dt.second < Pow10(2);
    JoinFields(NatToDecimal(dt.year), ZeroPadded(dt.month, 2), ZeroPadded(dt.day, 2), '-')
    + [' ']
    + JoinFields(ZeroPadded(dt.hour, 2), ZeroPadded(dt.minute, 2), ZeroPadded(dt.second, 2), ':')
  }

  /** Reads three digit fields of the given widths with a separator between each two. */
  function ReadFields(s: string, w1: nat, w2: nat, w3: nat, sep: char): Option<(nat, nat, nat)> {
    if |s| != w1 + w2 + w3 + 2 || s[w1] != sep || s[w1 + 1 + w2] != sep then None
    else
      var a, b, c := s[..w1], s[w1 + 1 .. w1 + 1 + w2], s[w1 + w2 + 2..];
      if AllDigits(a) && AllDigits(b) && AllDigits(c)
      then Some((DecimalValue(a), DecimalValue(b), DecimalValue(c)))
      else None
  }

  /** ReadFields takes apart what JoinFields puts together. */
  lemma ReadJoinedFields(a: string, b: string, c: string, sep: char)
    requires AllDigits(a) && AllDigits(b) && AllDigits(c)
    ensures ReadFields(JoinFields(a, b, c, sep), |a|, |b|, |c|, sep)
            == Some((DecimalValue(a), DecimalValue(b), DecimalValue(c)))
  {
    var s := JoinFields(a, b, c, sep);
    assert s[..|a|] == a;
    assert s[|a| + 1 .. |a| + 1 + |b|] == b;
    assert s[|a| + |b| + 2..] == c;
  }

  /** Reads a `YYYY-MM-DD HH:MM:SS` text back into a date-time with no microseconds. */
  function ReadTimestamp(s: string): Option<DateTime> {
    if |s| != 19 || s[10] != ' ' then None
    else
      match (ReadFields(s[..10], 4, 2, 2, '-'), ReadFields(s[11..], 2, 2, 2, ':'))
      case (Some((y, mo, d)), Some((h, mi, sec))) => Some(DateTime(y, mo, d, h, mi, sec, 0))
      case _ => None
  }

  /** A four-digit year is written with four digits. */
  lemma FourDigitYear(y: nat)
    requires 1000 <= y <= 9999
    ensures NatToDecimal(y) == ZeroPadded(y, 4)
  {
    PaddingOnlyAddsZeros(y, 4);
  }

  /** The formatted text reads back as the same date-time without its
      microseconds: the format loses the sub-second part and nothing else. */
  lemma TimestampRoundTrip(dt: DateTime)
    requires ValidDateTime(dt) && 1000 <= dt.year
    ensures ReadTimestamp(FormatDateTime(dt)) == Some(dt.(microsecond := 0))
  {
    var y := NatToDecimal(dt.year);
    FourDigitYear(dt.year);
    var date := JoinFields(y, ZeroPadded(dt.month, 2), ZeroPadded(dt.day, 2), '-');
    var time := JoinFields(ZeroPadded(dt.hour, 2), ZeroPadded(dt.minute, 2), ZeroPadded(dt.second, 2), ':');
    var s := date + [' '] + time;
    assert s[..10] == date;
    assert s[11..] == time;
    ReadJoinedFields(y, ZeroPadded(dt.month, 2), ZeroPadded(dt.day, 2), '-');
    ReadJoinedFields(ZeroPadded(dt.hour, 2), ZeroPadded(dt.minute, 2), ZeroPadded(dt.second, 2), ':');
  }

  /** Two date-times give the same text exactly when they differ at most in
      their microseconds. */
  lemma SameTextSameSecond(a: DateTime, b: DateTime)
    requires ValidDateTime(a) && 1000 <= a.year
    requires ValidDateTime(b) && 1000 <= b.year
    ensures FormatDateTime(a) == FormatDateTime(b) <==> a.(microsecond := 0) == b.(microsecond := 0)
  {
    if FormatDateTime(a) == FormatDateTime(b) {
      TimestampRoundTrip(a);
      TimestampRoundTrip(b);
    }
  }

  /** The text between a known prefix and a known suffix, if the text has them. */
  function Between(c: string, prefix: string, suffix: string): Option<string> {
    if |c| < |prefix| + |suffix| || c[..|prefix|] != prefix || c[|c| - |suffix|..] != suffix then None
    else Some(c[|prefix| .. |c| - |suffix|])
  }

  /** Between recovers whatever was put between the prefix and the suffix. */
  lemma BetweenRoundTrip(prefix: string, x: string, suffix: string)
    ensures Between(prefix + x + suffix, prefix, suffix) == Some(x)
  {
    var c := prefix + x + suffix;
    assert c[..|prefix|] == prefix;
    assert c[|c| - |suffix|..] == suffix;
    assert c[|prefix| .. |c| - |suffix|] == x;
  }

  const DaysAgoPrefix := "AT (TIMESTAMP => DATEADD(DAY, -"
  const DaysAgoSuffix := ", CURRENT_TIMESTAMP()))"

  /** The qualifier for an integer `days`: `days` days before the current
      timestamp, with `days` written as Python writes an integer. */
  function DaysAgoClause(days: int): string {
    DaysAgoPrefix + IntToDecimal(days) + DaysAgoSuffix
  }

  /** Reads the number of days back out of a days-ago qualifier. */
  function ReadDaysAgo(c: string): Option<int> {
    match Between(c, DaysAgoPrefix, DaysAgoSuffix)
    case Some(x) => ParseInt(x)
    case None => None
  }

  /** The number of days is written so that it can be read back. */
  lemma DaysAgoRoundTrip(days: int)
    ensures ReadDaysAgo(DaysAgoClause(days)) == Some(days)
  {
    BetweenRoundTrip(DaysAgoPrefix, IntToDecimal(days), DaysAgoSuffix);
    ParseIntInverse(IntToDecimal(days), days);
  }

  /** Different numbers of days give different qualifiers. */
  lemma DaysAgoInjective(a: int, b: int)
    ensures DaysAgoClause(a) == DaysAgoClause(b) <==> a == b
  {
    DaysAgoRoundTrip(a);
    DaysAgoRoundTrip(b);
  }

  /** A negative number keeps its own minus sign after the one of the
      template, so the qualifier holds `--` followed by the digits. */
  lemma NegativeDaysDoubleMinus(days: int)
    requires days < 0
    ensures DaysAgoClause(days) == DaysAgoPrefix + "-" + NatToDecimal(-days) + DaysAgoSuffix
    ensures DaysAgoClause(days)[|DaysAgoPrefix| - 1] == '-' && DaysAgoClause(days)[|DaysAgoPrefix|] == '-'
  {
    var c := DaysAgoClause(days);
    assert c[|DaysAgoPrefix| - 1] == DaysAgoPrefix[|DaysAgoPrefix| - 1];
    assert c[|DaysAgoPrefix|] == IntToDecimal(days)[0];
  }

  const QuotedPrefix := "AT (TIMESTAMP => '"
  const QuotedSuffix := "')"

  /** The qualifier for a timestamp text: the text between single quotes,
      with no escaping and no check of its form. */
  function QuotedClause(text: string): string {
    QuotedPrefix + text + QuotedSuffix
  }

  /** The text is embedded verbatim: it can be read back unchanged. */
  lemma QuotedRoundTrip(text: string)
    ensures Between(QuotedClause(text), QuotedPrefix, QuotedSuffix) == Some(text)
  {
    BetweenRoundTrip(QuotedPrefix, text, QuotedSuffix);
  }

  /** The values `query_at_time` accepts as a timestamp, in the order its
      branches test them. Python's `bool` is a subclass of `int`, so a flag
      takes the integer branch; any other object takes the last branch with
      the text of its `str()`. */
  datatype Timestamp =
    | DaysAgo(days: int)
    | Flag(b: bool)
    | Moment(dt: DateTime)
    | Text(text: string)

  /** The text Python's `str()` gives a flag. */
  function FlagText(b: bool): string {
    if b then "True" else "False"
  }

  /** The qualifier `query_at_time` builds for a timestamp. */
  function ClauseFor(ts: Timestamp): string
    requires ts.Moment? ==> ValidDateTime(ts.dt)
  {
    match ts
    case DaysAgo(n) => DaysAgoClause(n)
    case Flag(b) => DaysAgoPrefix + FlagText(b) + DaysAgoSuffix
    case Moment(dt) => QuotedClause(FormatDateTime(dt))
    case Text(t) => QuotedClause(t)
  }

  /** A flag is an `int` to `isinstance`, so it takes the days-ago branch,
      with `True` or `False` where the digits of a number go. That text
      reads as no number of days, so the qualifier differs from the one of
      every integer. */
  lemma FlagTakesDaysAgoBranch(b: bool, days: int)
    ensures Between(ClauseFor(Flag(b)), DaysAgoPrefix, DaysAgoSuffix) == Some(FlagText(b))
    ensures ReadDaysAgo(ClauseFor(Flag(b))) == None
    ensures ClauseFor(Flag(b)) != DaysAgoClause(days)
  {
    BetweenRoundTrip(DaysAgoPrefix, FlagText(b), DaysAgoSuffix);
    assert !IsDigit(FlagText(b)[0]);
    DaysAgoRoundTrip(days);
  }

  /** A date-time gives the qualifier of its formatted text. */
  lemma MomentIsQuotedText(dt: DateTime)
    requires ValidDateTime(dt)
    ensures ClauseFor(Moment(dt)) == ClauseFor(Text(FormatDateTime(dt)))
    ensures Between(ClauseFor(Moment(dt)), QuotedPrefix, QuotedSuffix) == Some(FormatDateTime(dt))
  {
    QuotedRoundTrip(FormatDateTime(dt));
  }

  /** Two date-times give the same qualifier exactly when they differ at
      most in their microseconds. */
  lemma MomentClauseIgnoresMicroseconds(a: DateTime, b: DateTime)
    requires ValidDateTime(a) && 1000 <= a.year
    requires ValidDateTime(b) && 1000 <= b.year
    ensures ClauseFor(Moment(a)) == ClauseFor(Moment(b)) <==> a.(microsecond := 0) == b.(microsecond := 0)
  {
    MomentIsQuotedText(a);
    MomentIsQuotedText(b);
    SameTextSameSecond(a, b);
  }

  /** No backslash: a digit text. */
  lemma DigitsHaveNoBackslash(s: string)
    requires AllDigits(s)
    ensures '\\' !in s
  {
  }

  /** The formatted date-time holds digits and separators only. */
  lemma FormatHasNoBackslash(dt: DateTime)
    requires ValidDateTime(dt)
    ensures '\\' !in FormatDateTime(dt)
  {
    DigitsHaveNoBackslash(NatToDecimal(dt.year));
    DigitsHaveNoBackslash(ZeroPadded(dt.month, 2));
    DigitsHaveNoBackslash(ZeroPadded(dt.day, 2));
    DigitsHaveNoBackslash(ZeroPadded(dt.hour, 2));
    DigitsHaveNoBackslash(ZeroPadded(dt.minute, 2));
    DigitsHaveNoBackslash(ZeroPadded(dt.second, 2));
  }

  /** The fixed parts of the qualifiers hold no backslash. */
  lemma TemplatesHaveNoBackslash()
    ensures '\\' !in DaysAgoPrefix && '\\' !in DaysAgoSuffix
    ensures '\\' !in QuotedPrefix && '\\' !in QuotedSuffix
    ensures '\\' !in FlagText(true) && '\\' !in FlagText(false)
  {
  }

  /** Only a timestamp text can bring a backslash into the qualifier; the
      other branches write digits and fixed text. */
  lemma BackslashOnlyFromText(ts: Timestamp)
    requires ts.Moment? ==> ValidDateTime(ts.dt)
    requires ts.Text? ==> '\\' !in ts.text
    ensures '\\' !in ClauseFor(ts)
  {
    TemplatesHaveNoBackslash();
    match ts
    case DaysAgo(n) =>
      var d := IntToDecimal(n);
      if n < 0 {
        DigitsHaveNoBackslash(NatToDecimal(-n));
        assert '\\' !in d;
      } else {
        DigitsHaveNoBackslash(NatToDecimal(n));
      }
    case Flag(b) =>
    case Moment(dt) =>
      FormatHasNoBackslash(dt);
    case Text(t) =>
  }
}
