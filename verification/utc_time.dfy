/**
 * Timestamps as `ntp_time.py` handles them: Python `datetime` values and the
 * fixed textual layout `YYYY-MM-DDTHH:MM:SS+00:00` written by `format_utc_time`
 * and read back by `parse_utc_time`.
 */
module UtcTime {
  import opened Wrappers
  import Civil

  /**
   * The `tzinfo` of a datetime. Python's `timezone.utc` compares equal to every
   * fixed-offset zone of offset zero, so UTC is `FixedOffset(0)`.
   */
  datatype Zone = Naive | FixedOffset(offsetSeconds: int) | OtherZone(key: string)

  const Utc: Zone := FixedOffset(0)

  /**
   * A datetime: its wall-clock fields counted as whole seconds since
   * 1970-01-01T00:00:00 of the same clock, the microsecond, and the zone tag.
   */
  datatype DateTime = DateTime(seconds: int, micro: int, zone: Zone)

  
  const MicrosPerSecond := 1000000

  /** Day ordinal of 1970-01-01. */
  const EpochOrdinal := 719163

  /** 0001-01-01T00:00:00 and 9999-12-31T23:59:59, the bounds of Python's datetime. */
  const MinSeconds := (1 - EpochOrdinal) * 86400
  const MaxSeconds := (Civil.MaxOrdinal - EpochOrdinal) * 86400 + 86400 - 1

  predicate Valid(t: DateTime) {
    MinSeconds <= t.seconds <= MaxSeconds && 0 <= t.micro < MicrosPerSecond
  }

  /** `datetime.utcfromtimestamp(0).replace(tzinfo=timezone.utc)`. */
  const Epoch: DateTime := DateTime(0, 0, Utc)

  /** The broken-down fields of a datetime, down to whole seconds. */
  datatype Fields = Fields(year: int, month: int, day: int, hour: int, minute: int, second: int)

  predicate ValidFields(f: Fields) {
    && Civil.ValidDate(f.year, f.month, f.day)
    && 0 <= f.hour < 24 && 0 <= f.minute < 60 && 0 <= f.second < 60
  }

  function SecondsOf(f: Fields): (s: int)
    requires ValidFields(f)
    ensures MinSeconds <= s <= MaxSeconds
  {
    Civil.OrdinalRange(f.year, f.month, f.day);
    (Civil.ToOrdinal(f.year, f.month, f.day) - EpochOrdinal) * 86400
      + f.hour * 3600 + f.minute * 60 + f.second
  }

  function FieldsOf(s: int): (f: Fields)
    requires MinSeconds <= s <= MaxSeconds
    ensures ValidFields(f)
  {
    FieldsAt(DayOf(s), TimeOfDay(s))
  }

  /** The ordinal of the day second `s` falls on. */
  function DayOf(s: int): (n: int)
    requires MinSeconds <= s <= MaxSeconds
    ensures 1 <= n <= Civil.MaxOrdinal
  {
    s / 86400 + EpochOrdinal
  }

  /** The second of its day that second `s` is. */
  function TimeOfDay(s: int): (t: int)
    ensures 0 <= t < 86400
  {
    s % 86400
  }

  /** The fields of second `t` of the day with ordinal `n`. */
  function FieldsAt(n: int, t: int): (f: Fields)
    requires 1 <= n <= Civil.MaxOrdinal && 0 <= t < 86400
    ensures ValidFields(f)
  {
    var day := Civil.FromOrdinal(n);
    Fields(day.year, day.month, day.day, t / 3600, t % 3600 / 60, t % 60)
  }

  /** Breaking a second count into fields and reassembling them is the identity. */
  lemma SecondsRoundTrip(s: int)
    requires MinSeconds <= s <= MaxSeconds
    ensures SecondsOf(FieldsOf(s)) == s
  {
    var t := s % 86400;
    assert t / 3600 * 3600 + t % 3600 / 60 * 60 + t % 60 == t;
  }

  /** Reassembling valid fields into seconds and breaking them up again gives the same fields. */
  lemma FieldsRoundTrip(f: Fields)
    requires ValidFields(f)
    ensures FieldsOf(SecondsOf(f)) == f
  {
    var n, t := DayAndTimeOf(f);
    DayAndTime(n, t, SecondsOf(f));
  }

  /** Valid fields name second `t` of day ordinal `n`, and `FieldsAt` reads them back. */
  lemma DayAndTimeOf(f: Fields) returns (n: int, t: int)
    requires ValidFields(f)
    ensures 1 <= n <= Civil.MaxOrdinal && 0 <= t < 86400
    ensures SecondsOf(f) == (n - EpochOrdinal) * 86400 + t
    ensures FieldsAt(n, t) == f
  {
    Civil.DateRoundTrip(f.year, f.month, f.day);
    n := Civil.ToOrdinal(f.year, f.month, f.day);
    t := f.hour * 3600 + f.minute * 60 + f.second;
    SplitClock(f.hour, f.minute, f.second);
  }

  /** The second `t` of day ordinal `n`, counted from the epoch, breaks back into `n` and `t`. */
  lemma DayAndTime(n: int, t: int, s: int)
    requires 1 <= n <= Civil.MaxOrdinal && 0 <= t < 86400
    requires s == (n - EpochOrdinal) * 86400 + t
    ensures MinSeconds <= s <= MaxSeconds
    ensures FieldsOf(s) == FieldsAt(n, t)
  {
    SplitDay(n - EpochOrdinal, t, s);
    SameFields(s, n, t);
  }

  /** `FieldsOf` reads the day ordinal and the second of the day off the second count. */
  lemma SameFields(s: int, n: int, t: int)
    requires MinSeconds <= s <= MaxSeconds
    requires 1 <= n <= Civil.MaxOrdinal && 0 <= t < 86400
    requires DayOf(s) == n && TimeOfDay(s) == t
    ensures FieldsOf(s) == FieldsAt(n, t)
  {
  }

  lemma SplitDay(q: int, t: int, s: int)
    requires 1 - EpochOrdinal <= q <= Civil.MaxOrdinal - EpochOrdinal && 0 <= t < 86400
    requires s == q * 86400 + t
    ensures MinSeconds <= s <= MaxSeconds
    ensures s / 86400 == q && s % 86400 == t
  {
  }

  lemma SplitClock(h: int, m: int, s: int)
    requires 0 <= h < 24 && 0 <= m < 60 && 0 <= s < 60
    ensures (h * 3600 + m * 60 + s) / 3600 == h
    ensures (h * 3600 + m * 60 + s) % 3600 / 60 == m
    ensures (h * 3600 + m * 60 + s) % 60 == s
  {
    assert (h * 3600 + m * 60 + s) % 3600 == m * 60 + s;
  }

  // ----- the textual layout -----

  predicate IsDigit(c: char) {
    '0' <= c <= '9'
  }

  function DigitChar(v: int): (c: char)
    requires 0 <= v <= 9
    ensures IsDigit(c)
  {
    ('0' as int + v) as char
  }

  function DigitValue(c: char): (v: int)
    requires IsDigit(c)
    ensures 0 <= v <= 9 && DigitChar(v) == c
  {
    c as int - '0' as int
  }

  const Suffix := "+00:00"

  /** Positions of the layout `YYYY-MM-DDTHH:MM:SS+00:00` that hold a digit. */
  predicate DigitPosition(i: int) {
    0 <= i < 19 && i != 4 && i != 7 && i != 10 && i != 13 && i != 16
  }

  /** `s` is exactly the 25-character layout, fields zero-padded. */
  predicate InLayout(s: string) {
    && |s| == 25
    && (forall i :: 0 <= i < 19 && DigitPosition(i) ==> IsDigit(s[i]))
    && s[4] == '-' && s[7] == '-' && s[10] == 'T' && s[13] == ':' && s[16] == ':'
    && s[19..] == Suffix
  }

  function Two(s: string, i: nat): int
    requires i + 1 < |s| && IsDigit(s[i]) && IsDigit(s[i + 1])
  {
    10 * DigitValue(s[i]) + DigitValue(s[i + 1])
  }

  function Four(s: string, i: nat): int
    requires i + 3 < |s| && IsDigit(s[i]) && IsDigit(s[i + 1]) && IsDigit(s[i + 2]) && IsDigit(s[i + 3])
  {
    100 * Two(s, i) + Two(s, i + 2)
  }

  /** The fields written in a string of the layout, read position by position. */
  function LayoutFields(s: string): Fields
    requires InLayout(s)
  {
    Fields(Four(s, 0), Two(s, 5), Two(s, 8), Two(s, 11), Two(s, 14), Two(s, 17))
  }

  /**
   * `format_utc_time`: the fields of a UTC-tagged datetime in the fixed layout;
   * the microsecond is not written. A datetime tagged otherwise fails the
   * function's assertion, so being UTC is the caller's obligation.
   */
  function Format(t: DateTime): (s: string)
    requires Valid(t) && t.zone == Utc
    ensures InLayout(s)
    ensures LayoutFields(s) == FieldsOf(t.seconds)
  {
    var f := FieldsOf(t.seconds);
    FieldsRendered(f);
    Render(f)
  }

  /** The 25 characters of the layout spelling out `f`, each field zero-padded. */
  function Render(f: Fields): string
    requires 0 <= f.year <= 9999 && 0 <= f.month <= 99 && 0 <= f.day <= 99
    requires 0 <= f.hour <= 99 && 0 <= f.minute <= 99 && 0 <= f.second <= 99
  {
    [ DigitChar(f.year / 100 / 10), DigitChar(f.year / 100 % 10), DigitChar(f.year % 100 / 10), DigitChar(f.year % 100 % 10),
      '-', DigitChar(f.month / 10), DigitChar(f.month % 10),
      '-', DigitChar(f.day / 10), DigitChar(f.day % 10),
      'T', DigitChar(f.hour / 10), DigitChar(f.hour % 10),
      ':', DigitChar(f.minute / 10), DigitChar(f.minute % 10),
      ':', DigitChar(f.second / 10), DigitChar(f.second % 10) ] + Suffix
  }

  lemma FieldsRendered(f: Fields)
    requires ValidFields(f)
    ensures InLayout(Render(f)) && LayoutFields(Render(f)) == f
  {
    var s := Render(f);
    YearSplit(f.year);
    RenderDateAt(f);
    RenderClockAt(f);
    RenderedTwo(s, 0, f.year / 100);
    RenderedTwo(s, 2, f.year % 100);
    RenderedTwo(s, 5, f.month);
    RenderedTwo(s, 8, f.day);
    RenderedTwo(s, 11, f.hour);
    RenderedTwo(s, 14, f.minute);
    RenderedTwo(s, 17, f.second);
  }

  /** The characters of `Render(f)` up to the `T`, position by position. */
  lemma RenderDateAt(f: Fields)
    requires 0 <= f.year <= 9999 && 0 <= f.month <= 99 && 0 <= f.day <= 99
    requires 0 <= f.hour <= 99 && 0 <= f.minute <= 99 && 0 <= f.second <= 99
    ensures var s := Render(f);
      && |s| == 25
      && s[0] == DigitChar(f.year / 100 / 10) && s[1] == DigitChar(f.year / 100 % 10)
      && s[2] == DigitChar(f.year % 100 / 10) && s[3] == DigitChar(f.year % 100 % 10) && s[4] == '-'
      && s[5] == DigitChar(f.month / 10) && s[6] == DigitChar(f.month % 10) && s[7] == '-'
      && s[8] == DigitChar(f.day / 10) && s[9] == DigitChar(f.day % 10) && s[10] == 'T'
  {
  }

  /** The characters of `Render(f)` after the `T`, position by position. */
  lemma RenderClockAt(f: Fields)
    requires 0 <= f.year <= 9999 && 0 <= f.month <= 99 && 0 <= f.day <= 99
    requires 0 <= f.hour <= 99 && 0 <= f.minute <= 99 && 0 <= f.second <= 99
    ensures var s := Render(f);
      && |s| == 25 && s[19..] == Suffix
      && s[11] == DigitChar(f.hour / 10) && s[12] == DigitChar(f.hour % 10) && s[13] == ':'
      && s[14] == DigitChar(f.minute / 10) && s[15] == DigitChar(f.minute % 10) && s[16] == ':'
      && s[17] == DigitChar(f.second / 10) && s[18] == DigitChar(f.second % 10)
  {
  }

  /** Two digits written for `v` read back as `v`. */
  lemma RenderedTwo(s: string, i: nat, v: int)
    requires i + 1 < |s| && 0 <= v <= 99
    requires s[i] == DigitChar(v / 10) && s[i + 1] == DigitChar(v % 10)
    ensures IsDigit(s[i]) && IsDigit(s[i + 1]) && Two(s, i) == v
  {
  }

  /** A year is its century followed by its last two digits. */
  lemma YearSplit(y: int)
    requires 0 <= y <= 9999
    ensures y == 100 * (y / 100) + y % 100 && 0 <= y / 100 <= 99 && 0 <= y % 100 <= 99
  {
  }

  // ----- parsing, as CPython's `_strptime` matches the format -----

  /**
   * One piece of a `strptime` format: a field conversion or a literal
   * character. `_strptime` turns each into a group of its regular expression.
   */
  datatype Directive = YearField | MonthField | DayField | HourField | MinuteField | SecondField | Literal(c: char)

  /** `%Y-%m-%dT%H:%M:%S+00:00`, directive by directive. */
  const Pattern: seq<Directive> := [
    YearField, Literal('-'), MonthField, Literal('-'), DayField, Literal('T'),
    HourField, Literal(':'), MinuteField, Literal(':'), SecondField] + Literals(Suffix)

  /** The directives up to the offset, position by position. */
  lemma PatternAt()
    ensures |Pattern| == 17
    ensures Pattern[0] == YearField && Pattern[1] == Literal('-') && Pattern[2] == MonthField
    ensures Pattern[3] == Literal('-') && Pattern[4] == DayField && Pattern[5] == Literal('T')
    ensures Pattern[6] == HourField && Pattern[7] == Literal(':') && Pattern[8] == MinuteField
    ensures Pattern[9] == Literal(':') && Pattern[10] == SecondField
  {
  }

  /** One literal directive per character of `text`. */
  function Literals(text: string): (p: seq<Directive>)
    ensures |p| == |text| && forall j :: 0 <= j < |text| ==> p[j] == Literal(text[j])
  {
    seq(|text|, j requires 0 <= j < |text| => Literal(text[j]))
  }

  /** The fields `_strptime` starts from before it stores the ones it read: 1900-01-01T00:00:00. */
  const Defaults := Fields(1900, 1, 1, 0, 0, 0)

  /** A field read from position `next - width` up to `next`. */
  datatype Read = Read(value: int, next: nat)

  /** `%Y`: exactly four digits. */
  function ReadYear(s: string, i: nat): (r: Option<Read>)
    ensures r.Some? ==> r.value.next == i + 4 <= |s|
  {
    if i + 3 < |s| && IsDigit(s[i]) && IsDigit(s[i + 1]) && IsDigit(s[i + 2]) && IsDigit(s[i + 3])
    then Some(Read(Four(s, i), i + 4))
    else None
  }

  /**
   * `%m`, `%d`, `%H`, `%M`, `%S`: two digits whose value lies in `lo..hi`, or one
   * digit whose value is at least `lo`. Every field is followed by a non-digit
   * separator, so the match takes exactly the run of digits at `i`.
   */
  function ReadNumber(s: string, i: nat, lo: int, hi: int): (r: Option<Read>)
    ensures r.Some? ==> i < r.value.next <= i + 2 && r.value.next <= |s| && lo <= r.value.value <= hi
    ensures r.Some? ==> r.value.next == |s| || !IsDigit(s[r.value.next])
  {
    if i < |s| && IsDigit(s[i]) then
      if i + 1 < |s| && IsDigit(s[i + 1]) then
        if i + 2 < |s| && IsDigit(s[i + 2]) then None
        else if lo <= Two(s, i) <= hi then Some(Read(Two(s, i), i + 2))
        else None
      else if lo <= DigitValue(s[i]) <= hi then Some(Read(DigitValue(s[i]), i + 1))
      else None
    else None
  }

  /** `%d` also admits a space followed by one digit from 1 to 9. */
  function ReadDay(s: string, i: nat): (r: Option<Read>)
    ensures r.Some? ==> i < r.value.next <= i + 2 && r.value.next <= |s| && 1 <= r.value.value <= 31
  {
    if i < |s| && s[i] == ' ' then
      if i + 1 < |s| && IsDigit(s[i + 1]) && DigitValue(s[i + 1]) >= 1
        && (i + 2 == |s| || !IsDigit(s[i + 2]))
      then Some(Read(DigitValue(s[i + 1]), i + 2))
      else None
    else ReadNumber(s, i, 1, 31)
  }

  /** The range of the two-digit group of a field other than the year. */
  function Low(d: Directive): int {
    if d == MonthField || d == DayField then 1 else 0
  }

  function High(d: Directive): int {
    match d
    case MonthField => 12
    case DayField => 31
    case HourField => 23
    case MinuteField => 59
    case _ => 61
  }

  /** The group of field directive `d` matched at position `i`. */
  function ReadField(d: Directive, s: string, i: nat): (r: Option<Read>)
    requires !d.Literal?
    ensures r.Some? ==> i < r.value.next <= i + Width(d) && r.value.next <= |s|
  {
    match d
    case YearField => ReadYear(s, i)
    case DayField => ReadDay(s, i)
    case _ => ReadNumber(s, i, Low(d), High(d))
  }

  /** The most characters directive `d` matches. */
  function Width(d: Directive): nat {
    if d == YearField then 4 else if d.Literal? then 1 else 2
  }

  /** `f` with the field of directive `d` set to `v`. */
  function Store(f: Fields, d: Directive, v: int): Fields
    requires !d.Literal?
  {
    match d
    case YearField => f.(year := v)
    case MonthField => f.(month := v)
    case DayField => f.(day := v)
    case HourField => f.(hour := v)
    case MinuteField => f.(minute := v)
    case SecondField => f.(second := v)
  }

  /** The pattern is compiled case-insensitively: the letter `T` also matches `t`. */
  predicate CharMatch(a: char, c: char) {
    a == c || (c == 'T' && a == 't')
  }

  /**
   * Matches the directives of `Pattern` from the `k`-th on against `s` from
   * position `i`, storing every field read into `f`; the match must use up `s`.
   */
  function MatchFrom(k: nat, s: string, i: nat, f: Fields): Option<Fields>
    decreases |Pattern| - k
  {
    if k >= |Pattern| then
      if i == |s| then Some(f) else None
    else if Pattern[k].Literal? then
      if i < |s| && CharMatch(s[i], Pattern[k].c) then MatchFrom(k + 1, s, i + 1, f) else None
    else
      match ReadField(Pattern[k], s, i)
      case None => None
      case Some(r) => MatchFrom(k + 1, s, r.next, Store(f, Pattern[k], r.value))
  }

  /** The fields matched by the format's regular expression, or `None` when it does not match. */
  function MatchFields(s: string): Option<Fields> {
    MatchFrom(0, s, 0, Defaults)
  }

  /**
   * Both are raised as `ValueError`: the text does not match the format, or it
   * matches but names no real instant (year 0, February 30, second 60).
   */
  datatype ParseError = NoMatch | OutOfRange

  /** `parse_utc_time`. */
  function Parse(s: string): (r: Result<DateTime, ParseError>)
    ensures r.Success? ==> Valid(r.value) && r.value.zone == Utc && r.value.micro == 0
  {
    match MatchFields(s)
    case None => Failure(NoMatch)
    case Some(f) =>
      if ValidFields(f) then Success(DateTime(SecondsOf(f), 0, Utc)) else Failure(OutOfRange)
  }

  /** Datetime `t` with its microsecond dropped. */
  function Truncate(t: DateTime): DateTime {
    DateTime(t.seconds, 0, t.zone)
  }

  // ----- round trips between the layout and datetimes -----

  /** The bounds the format's regular expression itself puts on each field. */
  predicate PatternBounds(f: Fields) {
    1 <= f.month <= 12 && 1 <= f.day <= 31 && f.hour <= 23 && f.minute <= 59 && f.second <= 61
  }

  // ----- the pattern, one directive at a time -----

  lemma YearAt(k: nat, s: string, i: nat, f: Fields)
    requires k < |Pattern| && Pattern[k] == YearField
    requires i + 3 < |s| && IsDigit(s[i]) && IsDigit(s[i + 1]) && IsDigit(s[i + 2]) && IsDigit(s[i + 3])
    ensures MatchFrom(k, s, i, f) == MatchFrom(k + 1, s, i + 4, f.(year := Four(s, i)))
  {
  }

  lemma LiteralAt(k: nat, s: string, i: nat, f: Fields)
    requires k < |Pattern| && Pattern[k].Literal? && i < |s| && CharMatch(s[i], Pattern[k].c)
    ensures MatchFrom(k, s, i, f) == MatchFrom(k + 1, s, i + 1, f)
  {
  }

  /** A field written with two digits and followed by a separator. */
  lemma PaddedAt(k: nat, s: string, i: nat, f: Fields)
    requires k < |Pattern| && !Pattern[k].Literal? && Pattern[k] != YearField
    requires i + 2 < |s| && IsDigit(s[i]) && IsDigit(s[i + 1]) && !IsDigit(s[i + 2])
    ensures MatchFrom(k, s, i, f) ==
      if Low(Pattern[k]) <= Two(s, i) <= High(Pattern[k])
      then MatchFrom(k + 1, s, i + 2, Store(f, Pattern[k], Two(s, i)))
      else None
  {
  }

  /** A field written with one digit and followed by a separator. */
  lemma UnpaddedAt(k: nat, s: string, i: nat, f: Fields)
    requires k < |Pattern| && !Pattern[k].Literal? && Pattern[k] != YearField
    requires i + 1 < |s| && IsDigit(s[i]) && !IsDigit(s[i + 1])
    ensures MatchFrom(k, s, i, f) ==
      if Low(Pattern[k]) <= DigitValue(s[i])
      then MatchFrom(k + 1, s, i + 1, Store(f, Pattern[k], DigitValue(s[i])))
      else None
  {
  }

  /** A day written as a space and one digit, followed by a separator. */
  lemma SpaceDayAt(k: nat, s: string, i: nat, f: Fields)
    requires k < |Pattern| && Pattern[k] == DayField
    requires i + 2 < |s| && s[i] == ' ' && IsDigit(s[i + 1]) && !IsDigit(s[i + 2])
    ensures MatchFrom(k, s, i, f) ==
      if DigitValue(s[i + 1]) >= 1
      then MatchFrom(k + 1, s, i + 2, Store(f, DayField, DigitValue(s[i + 1])))
      else None
  {
  }

  /** A two-digit field and the separator the pattern expects after it. */
  lemma PaddedThen(k: nat, s: string, i: nat, f: Fields)
    requires k + 1 < |Pattern| && !Pattern[k].Literal? && Pattern[k] != YearField && Pattern[k + 1].Literal?
    requires i + 2 < |s| && IsDigit(s[i]) && IsDigit(s[i + 1]) && !IsDigit(s[i + 2]) && CharMatch(s[i + 2], Pattern[k + 1].c)
    ensures MatchFrom(k, s, i, f) ==
      if Low(Pattern[k]) <= Two(s, i) <= High(Pattern[k])
      then MatchFrom(k + 2, s, i + 3, Store(f, Pattern[k], Two(s, i)))
      else None
  {
    PaddedAt(k, s, i, f);
    LiteralAt(k + 1, s, i + 2, Store(f, Pattern[k], Two(s, i)));
  }

  /** A one-digit field and the separator the pattern expects after it. */
  lemma UnpaddedThen(k: nat, s: string, i: nat, f: Fields)
    requires k + 1 < |Pattern| && !Pattern[k].Literal? && Pattern[k] != YearField && Pattern[k + 1].Literal?
    requires i + 1 < |s| && IsDigit(s[i]) && !IsDigit(s[i + 1]) && CharMatch(s[i + 1], Pattern[k + 1].c)
    ensures MatchFrom(k, s, i, f) ==
      if Low(Pattern[k]) <= DigitValue(s[i])
      then MatchFrom(k + 2, s, i + 2, Store(f, Pattern[k], DigitValue(s[i])))
      else None
  {
    UnpaddedAt(k, s, i, f);
    LiteralAt(k + 1, s, i + 1, Store(f, Pattern[k], DigitValue(s[i])));
  }

  /** The directives from the twelfth on are the offset `+00:00`: only that text, up to the end, matches them. */
  lemma {:induction false} SuffixAt(k: nat, s: string, i: nat, f: Fields)
    requires 11 <= k <= |Pattern|
    ensures MatchFrom(k, s, i, f) == if i <= |s| && s[i..] == Suffix[k - 11..] then Some(f) else None
    decreases |Pattern| - k
  {
    if k < |Pattern| {
      var c := Suffix[k - 11];
      assert Pattern[k] == Literal(c);
      SuffixAt(k + 1, s, i + 1, f);
      assert Suffix[k - 11..] == [c] + Suffix[k - 10..];
      if i < |s| {
        assert s[i..] == [s[i]] + s[i + 1..];
      }
    }
  }

  /** Every field reads the same group from two strings that agree from the reading position on. */
  lemma ReadShift(d: Directive, s: string, i: nat, t: string, j: nat)
    requires !d.Literal? && i <= |s| && j <= |t| && s[i..] == t[j..]
    ensures ReadField(d, s, i).Some? <==> ReadField(d, t, j).Some?
    ensures ReadField(d, s, i).Some? ==>
      && ReadField(d, s, i).value.value == ReadField(d, t, j).value.value
      && ReadField(d, s, i).value.next - i == ReadField(d, t, j).value.next - j
  {
    assert |s| - i == |t| - j;
    AgreeAt(s, i, t, j, 0);
    AgreeAt(s, i, t, j, 1);
    AgreeAt(s, i, t, j, 2);
    AgreeAt(s, i, t, j, 3);
  }

  lemma AgreeAt(s: string, i: nat, t: string, j: nat, m: nat)
    requires i <= |s| && j <= |t| && s[i..] == t[j..]
    ensures i + m < |s| ==> j + m < |t| && s[i + m] == t[j + m]
  {
    if i + m < |s| {
      assert s[i..][m] == t[j..][m];
    }
  }

  /** The match from a position depends only on the text from that position on. */
  lemma {:induction false} ShiftFrom(k: nat, s: string, i: nat, t: string, j: nat, f: Fields)
    requires i <= |s| && j <= |t| && s[i..] == t[j..]
    ensures MatchFrom(k, s, i, f) == MatchFrom(k, t, j, f)
    decreases |Pattern| - k
  {
    assert |s| - i == |t| - j;
    if k < |Pattern| {
      if Pattern[k].Literal? {
        if i < |s| {
          assert s[i] == s[i..][0] == t[j..][0] == t[j];
          assert s[i + 1..] == s[i..][1..] == t[j..][1..] == t[j + 1..];
          ShiftFrom(k + 1, s, i + 1, t, j + 1, f);
        }
      } else {
        ReadShift(Pattern[k], s, i, t, j);
        if ReadField(Pattern[k], s, i).Some? {
          var r := ReadField(Pattern[k], s, i).value;
          var q := ReadField(Pattern[k], t, j).value;
          assert s[r.next..] == s[i..][r.next - i..] == t[j..][q.next - j..] == t[q.next..];
          ShiftFrom(k + 1, s, r.next, t, q.next, Store(f, Pattern[k], r.value));
        }
      }
    }
  }

  /** One directive matched: where the rest of the match starts. */
  lemma Advance(k: nat, s: string, i: nat, f: Fields) returns (j: nat, g: Fields)
    requires k < |Pattern| && MatchFrom(k, s, i, f).Some?
    ensures i < j <= i + Width(Pattern[k]) && j <= |s|
    ensures Pattern[k] == YearField ==> j == i + 4
    ensures MatchFrom(k + 1, s, j, g) == MatchFrom(k, s, i, f)
  {
    if Pattern[k].Literal? {
      j, g := i + 1, f;
    } else {
      var r := ReadField(Pattern[k], s, i).value;
      j, g := r.next, Store(f, Pattern[k], r.value);
    }
  }

  /**
   * The year, a dash, the month in two digits and a dash: the pattern stores
   * the year and the month, or fails on a month outside 1-12.
   */
  lemma DatePrefix(s: string)
    requires 8 < |s| && s[4] == '-' && s[7] == '-'
    requires IsDigit(s[0]) && IsDigit(s[1]) && IsDigit(s[2]) && IsDigit(s[3]) && IsDigit(s[5]) && IsDigit(s[6])
    ensures MatchFields(s) ==
      if 1 <= Two(s, 5) <= 12 then MatchFrom(4, s, 8, Fields(Four(s, 0), Two(s, 5), 1, 0, 0, 0)) else None
  {
    var f := Defaults.(year := Four(s, 0));
    PatternAt();
    YearAt(0, s, 0, Defaults);
    LiteralAt(1, s, 4, f);
    PaddedThen(2, s, 5, f);
  }

  /** The year, a dash, the month in one digit and a dash. */
  lemma UnpaddedDatePrefix(s: string)
    requires 7 < |s| && s[4] == '-' && s[6] == '-'
    requires IsDigit(s[0]) && IsDigit(s[1]) && IsDigit(s[2]) && IsDigit(s[3]) && IsDigit(s[5])
    ensures MatchFields(s) ==
      if 1 <= DigitValue(s[5]) then MatchFrom(4, s, 7, Fields(Four(s, 0), DigitValue(s[5]), 1, 0, 0, 0)) else None
  {
    var f := Defaults.(year := Four(s, 0));
    PatternAt();
    YearAt(0, s, 0, Defaults);
    LiteralAt(1, s, 4, f);
    UnpaddedThen(2, s, 5, f);
  }

  /** The zero-padded date at positions 0-9 and a `T` of either case after it, as in the layout. */
  predicate DateLayout(s: string) {
    && 11 < |s|
    && IsDigit(s[0]) && IsDigit(s[1]) && IsDigit(s[2]) && IsDigit(s[3]) && s[4] == '-'
    && IsDigit(s[5]) && IsDigit(s[6]) && s[7] == '-' && IsDigit(s[8]) && IsDigit(s[9]) && CharMatch(s[10], 'T')
  }

  /** Up to the hour, a string of the layout stores the date, or fails on a month or day out of the pattern's range. */
  lemma LayoutDate(s: string)
    requires DateLayout(s)
    ensures MatchFields(s) ==
      if 1 <= Two(s, 5) <= 12 && 1 <= Two(s, 8) <= 31
      then MatchFrom(6, s, 11, Fields(Four(s, 0), Two(s, 5), Two(s, 8), 0, 0, 0))
      else None
  {
    DatePrefix(s);
    PaddedThen(4, s, 8, Fields(Four(s, 0), Two(s, 5), 1, 0, 0, 0));
  }

  /** The zero-padded time of day at positions 11-18 and the offset after it, as in the layout. */
  predicate ClockLayout(s: string) {
    && |s| == 25
    && IsDigit(s[11]) && IsDigit(s[12]) && IsDigit(s[14]) && IsDigit(s[15]) && IsDigit(s[17]) && IsDigit(s[18])
    && s[13] == ':' && s[16] == ':' && s[19..] == Suffix
  }

  /** From the hour on, a string of the layout stores the time of day, or fails on a field out of the pattern's range. */
  lemma LayoutClock(s: string, f: Fields)
    requires ClockLayout(s)
    ensures MatchFrom(6, s, 11, f) ==
      if Two(s, 11) <= 23 && Two(s, 14) <= 59 && Two(s, 17) <= 61
      then Some(f.(hour := Two(s, 11), minute := Two(s, 14), second := Two(s, 17)))
      else None
  {
    var f1 := f.(hour := Two(s, 11));
    PatternAt();
    PaddedThen(6, s, 11, f);
    PaddedThen(8, s, 14, f1);
    LayoutSecond(s, f1.(minute := Two(s, 14)));
  }

  lemma LayoutSecond(s: string, f: Fields)
    requires ClockLayout(s)
    ensures MatchFrom(10, s, 17, f) == if Two(s, 17) <= 61 then Some(f.(second := Two(s, 17))) else None
  {
    assert s[19] == '+';
    PaddedAt(10, s, 17, f);
    SuffixAt(11, s, 19, f.(second := Two(s, 17)));
  }

  /** On a string of the exact layout the pattern reads the fields at their fixed positions. */
  lemma LayoutMatch(s: string)
    requires InLayout(s)
    ensures MatchFields(s) == if PatternBounds(LayoutFields(s)) then Some(LayoutFields(s)) else None
  {
    assert s[19..] == Suffix;
    LayoutDate(s);
    LayoutClock(s, Fields(Four(s, 0), Two(s, 5), Two(s, 8), 0, 0, 0));
  }

  /** Formatting the fields of a layout string spells the same string. */
  lemma RenderLayout(s: string)
    requires InLayout(s)
    ensures Render(LayoutFields(s)) == s
  {
    var f := LayoutFields(s);
    var r := Render(f);
    CenturyDigits(Two(s, 0), Two(s, 2));
    TwoDigits(s, 0);
    TwoDigits(s, 2);
    TwoDigits(s, 5);
    TwoDigits(s, 8);
    TwoDigits(s, 11);
    TwoDigits(s, 14);
    TwoDigits(s, 17);
    assert r[..4] == s[..4];
    assert r[4..19] == s[4..19];
    assert r[19..] == s[19..];
    assert r == r[..4] + r[4..19] + r[19..];
    assert s == s[..4] + s[4..19] + s[19..];
  }

  /** The century and the last two digits of `100 * a + b`. */
  lemma CenturyDigits(a: int, b: int)
    requires 0 <= a <= 99 && 0 <= b <= 99
    ensures (100 * a + b) / 100 == a && (100 * a + b) % 100 == b
  {
  }

  /** Two digits read as a number are written back as the same two digits. */
  lemma TwoDigits(s: string, i: nat)
    requires i + 1 < |s| && IsDigit(s[i]) && IsDigit(s[i + 1])
    ensures DigitChar(Two(s, i) / 10) == s[i] && DigitChar(Two(s, i) % 10) == s[i + 1]
  {
  }

  /**
   * Parsing the text written by `Format` gives the datetime back, truncated to
   * whole seconds and tagged UTC.
   */
  lemma ParseFormat(t: DateTime)
    requires Valid(t) && t.zone == Utc
    ensures Parse(Format(t)) == Success(Truncate(t))
  {
    var s := Format(t);
    LayoutMatch(s);
    SecondsRoundTrip(t.seconds);
  }

  /** A string of the exact layout that parses is written back unchanged by `Format`. */
  lemma FormatParse(s: string)
    requires InLayout(s) && Parse(s).Success?
    ensures Format(Parse(s).value) == s
  {
    LayoutMatch(s);
    var f := LayoutFields(s);
    FieldsRoundTrip(f);
    FieldsRendered(f);
    RenderLayout(s);
  }

  /**
   * A string of the exact layout parses if and only if its fields name a real
   * instant: month 1-12, a day that month has, hour below 24, minute and second
   * below 60, year at least 1.
   */
  lemma ParseLayoutIff(s: string)
    requires InLayout(s)
    ensures Parse(s).Success? <==> ValidFields(LayoutFields(s))
  {
    LayoutMatch(s);
  }

  /** `strptime` also reads a month written with one digit. */
  lemma ParseUnpaddedMonth(s: string)
    requires InLayout(s) && s[5] == '0'
    ensures Parse(s[..5] + s[6..]) == Parse(s)
  {
    var t := s[..5] + s[6..];
    assert t[6..] == s[7..];
    UnpaddedMonthMatch(s, t);
  }

  lemma UnpaddedMonthMatch(s: string, t: string)
    requires InLayout(s) && s[5] == '0'
    requires |t| == |s| - 1 && t[6..] == s[7..]
    requires t[0] == s[0] && t[1] == s[1] && t[2] == s[2] && t[3] == s[3] && t[4] == s[4] && t[5] == s[6]
    ensures MatchFields(t) == MatchFields(s)
  {
    assert t[6] == s[7] && t[7..] == s[8..] by {
      assert t[6..][0] == s[7..][0];
      assert t[7..] == t[6..][1..] && s[8..] == s[7..][1..];
    }
    assert Four(t, 0) == Four(s, 0) && Two(s, 5) == DigitValue(t[5]);
    DatePrefix(s);
    UnpaddedDatePrefix(t);
    ShiftFrom(4, s, 8, t, 7, Fields(Four(s, 0), DigitValue(s[6]), 1, 0, 0, 0));
  }

  /** `strptime` compiles the format ignoring case, so a lower-case `t` separates date and time as well. */
  lemma ParseLowerT(s: string)
    requires InLayout(s)
    ensures Parse(s[..10] + "t" + s[11..]) == Parse(s)
  {
    var t := s[..10] + "t" + s[11..];
    assert t[11..] == s[11..];
    LowerTMatch(s, t);
  }

  lemma LowerTMatch(s: string, t: string)
    requires InLayout(s) && |t| == |s| && t[10] == 't' && t[11..] == s[11..]
    requires forall j :: 0 <= j < 10 ==> t[j] == s[j]
    ensures MatchFields(t) == MatchFields(s)
  {
    assert Four(t, 0) == Four(s, 0) && Two(t, 5) == Two(s, 5) && Two(t, 8) == Two(s, 8);
    LayoutDate(s);
    LayoutDate(t);
    ShiftFrom(6, s, 11, t, 11, Fields(Four(s, 0), Two(s, 5), Two(s, 8), 0, 0, 0));
  }

  /** A day written with a leading space reads as the zero-padded day. */
  lemma ParseSpacePaddedDay(s: string)
    requires InLayout(s) && s[8] == '0'
    ensures Parse(s[..8] + " " + s[9..]) == Parse(s)
  {
    var t := s[..8] + " " + s[9..];
    assert t[9..] == s[9..];
    SpaceDayMatch(s, t);
  }

  lemma SpaceDayMatch(s: string, t: string)
    requires InLayout(s) && s[8] == '0'
    requires |t| == |s| && t[8] == ' ' && t[9..] == s[9..]
    requires forall j :: 0 <= j < 8 ==> t[j] == s[j]
    ensures MatchFields(t) == MatchFields(s)
  {
    assert t[9] == s[9] && t[10] == s[10] && t[11..] == s[11..] by {
      assert t[9..][0] == s[9..][0] && t[9..][1] == s[9..][1];
      assert t[11..] == t[9..][2..] && s[11..] == s[9..][2..];
    }
    assert Four(t, 0) == Four(s, 0) && Two(t, 5) == Two(s, 5) && Two(s, 8) == DigitValue(t[9]);
    LayoutDate(s);
    SpaceDayDate(t);
    ShiftFrom(6, s, 11, t, 11, Fields(Four(s, 0), Two(s, 5), Two(s, 8), 0, 0, 0));
  }

  /** A date whose day is a space and one digit: the pattern stores the date, or fails on a month out of range or day 0. */
  lemma SpaceDayDate(t: string)
    requires 11 < |t| && t[4] == '-' && t[7] == '-' && t[8] == ' ' && t[10] == 'T'
    requires IsDigit(t[0]) && IsDigit(t[1]) && IsDigit(t[2]) && IsDigit(t[3])
    requires IsDigit(t[5]) && IsDigit(t[6]) && IsDigit(t[9])
    ensures MatchFields(t) ==
      if 1 <= Two(t, 5) <= 12 && 1 <= DigitValue(t[9])
      then MatchFrom(6, t, 11, Fields(Four(t, 0), Two(t, 5), DigitValue(t[9]), 0, 0, 0))
      else None
  {
    var f := Fields(Four(t, 0), Two(t, 5), 1, 0, 0, 0);
    DatePrefix(t);
    SpaceDayAt(4, t, 8, f);
    LiteralAt(5, t, 10, f.(day := DigitValue(t[9])));
  }

  /** Example: the pattern rejects a thirteenth month (ParseLayoutErrors states the general rule). */
  lemma ParseRejectsMonth13()
    ensures Parse("2024-13-01T00:00:00+00:00") == Failure(NoMatch)
  {
    var s := "2024-13-01T00:00:00+00:00";
    assert Two(s, 5) == 13;
    DatePrefix(s);
  }

  /** Example: a zone written as `Z` instead of `+00:00` does not match (ParseShape states the general rule). */
  lemma ParseRejectsZulu()
    ensures Parse("2024-01-01T00:00:00Z") == Failure(NoMatch)
  {
    var s := "2024-01-01T00:00:00Z";
    MatchShape(s);
    assert s[|s| - 1] != Suffix[5];
  }

  /** Example: a two-digit year does not match `%Y` (ParseShape states the general rule). */
  lemma ParseRejectsShortYear()
    ensures Parse("24-01-01T00:00:00+00:00") == Failure(NoMatch)
  {
    var s := "24-01-01T00:00:00+00:00";
    assert !IsDigit(s[2]);
    assert ReadYear(s, 0) == None;
  }

  /**
   * On the exact layout, fields outside the pattern's digit ranges do not match,
   * and fields inside them that name no instant (February 30, second 60) are
   * out of range.
   */
  lemma ParseLayoutErrors(s: string)
    requires InLayout(s)
    ensures !PatternBounds(LayoutFields(s)) ==> Parse(s) == Failure(NoMatch)
    ensures PatternBounds(LayoutFields(s)) && !ValidFields(LayoutFields(s)) ==> Parse(s) == Failure(OutOfRange)
  {
    LayoutMatch(s);
  }

  /**
   * Whatever `Parse` accepts is 20 to 25 characters long, starts with the
   * four-digit year and a dash, and ends with the `+00:00` offset.
   */
  lemma ParseShape(s: string)
    requires Parse(s).Success?
    ensures 20 <= |s| <= 25
    ensures IsDigit(s[0]) && IsDigit(s[1]) && IsDigit(s[2]) && IsDigit(s[3]) && s[4] == '-'
    ensures s[|s| - 6..] == Suffix
  {
    MatchShape(s);
  }

  /** What any string the pattern matches looks like. */
  lemma MatchShape(s: string)
    ensures MatchFields(s).Some? ==>
      && 20 <= |s| <= 25
      && IsDigit(s[0]) && IsDigit(s[1]) && IsDigit(s[2]) && IsDigit(s[3]) && s[4] == '-'
      && s[|s| - 6..] == Suffix
  {
    if MatchFields(s).Some? {
      MatchLength(s);
      YearDash(0, s, 0, Defaults);
    }
  }

  /** A match is as long as the directives admit and ends with the offset. */
  lemma MatchLength(s: string)
    requires MatchFields(s).Some?
    ensures 20 <= |s| <= 25 && s[|s| - 6..] == Suffix
  {
    var j, g := ReachOffset(0, s, 0, Defaults);
    OffsetWidths();
    SuffixAt(11, s, j, g);
    assert s[|s| - 6..] == s[j..];
  }

  /** A match of the year and the dash after it starts with four digits and a dash. */
  lemma YearDash(k: nat, s: string, i: nat, f: Fields)
    requires k + 1 < |Pattern| && Pattern[k] == YearField && Pattern[k + 1] == Literal('-')
    requires MatchFrom(k, s, i, f).Some?
    ensures i + 4 < |s|
    ensures IsDigit(s[i]) && IsDigit(s[i + 1]) && IsDigit(s[i + 2]) && IsDigit(s[i + 3]) && s[i + 4] == '-'
    ensures MatchFrom(k + 2, s, i + 5, f.(year := Four(s, i))).Some?
  {
    assert ReadYear(s, i).Some?;
  }

  lemma OffsetWidths()
    ensures ShortestFrom(0) == 14 && LongestFrom(0) == 19
  {
  }

  /** The fewest characters the directives from the `k`-th up to the offset match. */
  function ShortestFrom(k: nat): nat
    decreases 11 - k
  {
    if k >= 11 then 0 else (if Pattern[k] == YearField then 4 else 1) + ShortestFrom(k + 1)
  }

  /** The most characters the directives from the `k`-th up to the offset match. */
  function LongestFrom(k: nat): nat
    decreases 11 - k
  {
    if k >= 11 then 0 else Width(Pattern[k]) + LongestFrom(k + 1)
  }

  /** A match reaches the offset after as many characters as the directives before it admit. */
  lemma {:induction false} ReachOffset(k: nat, s: string, i: nat, f: Fields) returns (j: nat, g: Fields)
    requires k <= 11 && MatchFrom(k, s, i, f).Some?
    ensures i + ShortestFrom(k) <= j <= i + LongestFrom(k)
    ensures MatchFrom(11, s, j, g).Some?
    decreases 11 - k
  {
    if k == 11 {
      j, g := i, f;
    } else {
      var i1, f1 := Advance(k, s, i, f);
      j, g := ReachOffset(k + 1, s, i1, f1);
    }
  }
}
