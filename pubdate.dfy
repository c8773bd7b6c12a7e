/** The publication-date conversion of `getPostData`:
    `datetime.strptime(text, '%a, %d %b %Y %H:%M:%S +0900')` followed by
    `strftime('%Y-%m-%d %H:%M:%S')`, in the English (C) locale.

    `strptime` turns the format into a case-insensitive regular expression:
    every run of whitespace in the format becomes `\s+`, `%a` and `%b` are the
    abbreviated day and month names, `%d` is `3[01]|[12]\d|0[1-9]|[1-9]| [1-9]`,
    `%Y` is `\d\d\d\d`, `%H` is `2[0-3]|[0-1]\d|\d`, `%M` is `[0-5]\d|\d`,
    `%S` is `6[0-1]|[0-5]\d|\d`, and the whole text must be matched. The
    alternative ` [1-9]` of `%d` is left out: in this format `%d` follows
    `\s+`, which already takes that space, so the texts matched are the same.
    Digits are the ASCII digits `0` to `9` only, although `\d` and `int` in
    Python also accept other Unicode decimal digits. The matched fields then
    have to form a real `datetime`, so year 0, 31 September or second 60 are
    rejected after a successful match. The day name is parsed but never
    compared with the date. */
module PubDate {
  import opened Wrappers
  import opened Text

  datatype DateTime = DateTime(year: nat, month: nat, day: nat, hour: nat, minute: nat, second: nat)

  /** Both kinds raise `ValueError` in the source: the text does not match the
      format, or it matches but names no existing date and time. */
  datatype DateError = Mismatch | OutOfRange

  /** A three-letter day or month abbreviation. */
  type Abbreviation = s: string | |s| == 3 witness "Mon"

  const WeekdayNames: seq<Abbreviation> := ["Mon", "Tue", "Wed", "Thu", "Fri", "Sat", "Sun"]
  const MonthNames: seq<Abbreviation> := ["Jan", "Feb", "Mar", "Apr", "May", "Jun",
                                    "Jul", "Aug", "Sep", "Oct", "Nov", "Dec"]

  predicate IsLeapYear(y: nat) {
    y % 4 == 0 && (y % 100 != 0 || y % 400 == 0)
  }

  function DaysInMonth(y: nat, m: nat): nat
    requires 1 <= m <= 12
  {
    if m == 2 then (if IsLeapYear(y) then 29 else 28)
    else if m == 4 || m == 6 || m == 9 || m == 11 then 30
    else 31
  }

  /** What `datetime` accepts. */
  predicate Valid(dt: DateTime) {
    && 1 <= dt.year <= 9999
    && 1 <= dt.month <= 12
    && 1 <= dt.day <= DaysInMonth(dt.year, dt.month)
    && dt.hour < 24 && dt.minute < 60 && dt.second < 60
  }

  /** What the format's regular expression can capture, before `datetime`
      checks the calendar. */
  predicate Matchable(dt: DateTime) {
    && dt.year <= 9999
    && 1 <= dt.month <= 12
    && 1 <= dt.day <= 31
    && dt.hour <= 23 && dt.minute <= 59 && dt.second <= 61
  }

  // ---------------------------------------------------------------------------
  // Scanning
  // ---------------------------------------------------------------------------

  /** A field read from the text and the position just after it. */
  datatype Token = Token(value: nat, next: nat)

  function Lower(c: char): char {
    if 'A' <= c <= 'Z' then (c as int + 32) as char else c
  }

  /** Two names that spell the same word, ignoring case. */
  predicate SameIgnoringCase(a: Abbreviation, b: Abbreviation) {
    Lower(a[0]) == Lower(b[0]) && Lower(a[1]) == Lower(b[1]) && Lower(a[2]) == Lower(b[2])
  }

  /** `name` spelled at position `i` of `s`, ignoring case. */
  predicate SpelledAt(name: Abbreviation, s: string, i: nat) {
    && i + 3 <= |s|
    && Lower(name[0]) == Lower(s[i]) && Lower(name[1]) == Lower(s[i + 1]) && Lower(name[2]) == Lower(s[i + 2])
  }

  /** The index of the first name spelled at position `i`, ignoring case. */
  function NameIndex(names: seq<Abbreviation>, s: string, i: nat): (r: Option<nat>)
    ensures r.Some? ==> r.value < |names|
  {
    if names == [] then None
    else if SpelledAt(names[0], s, i) then Some(0)
    else match NameIndex(names[1..], s, i)
      case Some(k) => Some(k + 1)
      case None => None
  }

  /** `NameIndex` finds a name exactly when one is spelled there, and then
      the first such name. */
  lemma {:induction false} NameIndexSpec(names: seq<Abbreviation>, s: string, i: nat)
    ensures var r := NameIndex(names, s, i);
      && (r.Some? ==> SpelledAt(names[r.value], s, i) && forall k :: 0 <= k < r.value ==> !SpelledAt(names[k], s, i))
      && (r.None? ==> forall k :: 0 <= k < |names| ==> !SpelledAt(names[k], s, i))
  {
    if names != [] && !SpelledAt(names[0], s, i) {
      NameIndexSpec(names[1..], s, i);
      assert forall k :: 0 < k < |names| ==> names[k] == names[1..][k - 1];
    }
  }

  /** A three-letter name at position `i` (`%a`, `%b`). */
  function Name(s: string, i: nat, names: seq<Abbreviation>): (r: Option<Token>)
    ensures r.Some? ==> r.value.value < |names| && r.value.next == i + 3 <= |s|
  {
    match NameIndex(names, s, i)
    case Some(k) => assert SpelledAt(names[k], s, i) by { NameIndexSpec(names, s, i); } Some(Token(k, i + 3))
    case None => None
  }

  /** The literal `lit` at position `i`, compared character by character. */
  function Literal(s: string, i: nat, lit: string): (r: Option<nat>)
    ensures r.Some? ==> r.value == i + |lit| <= |s|
    decreases |lit|
  {
    if lit == [] then (if i <= |s| then Some(i) else None)
    else if i < |s| && s[i] == lit[0] then Literal(s, i + 1, lit[1..])
    else None
  }

  /** `Literal` succeeds exactly when the text holds `lit` at position `i`. */
  lemma {:induction false} LiteralSpec(s: string, i: nat, lit: string)
    ensures Literal(s, i, lit).Some? <==> i + |lit| <= |s| && s[i..i + |lit|] == lit
    decreases |lit|
  {
    if lit != [] {
      if i < |s| && s[i] == lit[0] {
        LiteralSpec(s, i + 1, lit[1..]);
        if i + |lit| <= |s| {
          assert s[i..i + |lit|] == [s[i]] + s[i + 1..i + |lit|];
          assert lit == [lit[0]] + lit[1..];
        }
      } else if i + |lit| <= |s| {
        assert s[i..i + |lit|][0] == s[i];
      }
    }
  }

  /** The end of the whitespace run that starts at `i`. */
  function SpaceRunEnd(s: string, i: nat): (j: nat)
    requires i <= |s|
    ensures i <= j <= |s|
    decreases |s| - i
  {
    if i < |s| && IsSpace(s[i]) then SpaceRunEnd(s, i + 1) else i
  }

  /** The run is all whitespace and cannot be extended. */
  lemma {:induction false} SpaceRunEndSpec(s: string, i: nat)
    requires i <= |s|
    ensures var j := SpaceRunEnd(s, i); AllSpace(s[i..j]) && (j == |s| || !IsSpace(s[j]))
    decreases |s| - i
  {
    if i < |s| && IsSpace(s[i]) {
      SpaceRunEndSpec(s, i + 1);
      var j := SpaceRunEnd(s, i);
      assert s[i..j] == [s[i]] + s[i + 1..j];
    }
  }

  /** `\s+` at position `i`. The regular expression backtracks, but every
      token that follows starts with a character that is not whitespace, so
      only the longest run can lead to a match. */
  function Spaces(s: string, i: nat): (r: Option<nat>)
    ensures r.Some? ==> i < r.value <= |s|
  {
    if i <= |s| && SpaceRunEnd(s, i) > i then Some(SpaceRunEnd(s, i)) else None
  }

  /** One or two digits at position `i` (`%d`, `%H`, `%M`, `%S`). Every token
      that follows starts with a character that is not a digit, so taking the
      second digit whenever there is one is what the backtracking regular
      expression ends up doing. */
  function UpToTwoDigits(s: string, i: nat): (r: Option<Token>)
    ensures r.Some? ==> i < r.value.next <= i + 2 && r.value.next <= |s|
  {
    if i + 2 <= |s| && IsDigit(s[i]) && IsDigit(s[i + 1]) then
      Some(Token(10 * DigitValue(s[i]) + DigitValue(s[i + 1]), i + 2))
    else if i < |s| && IsDigit(s[i]) then Some(Token(DigitValue(s[i]), i + 1))
    else None
  }

  /** Exactly four digits at position `i` (`%Y`). */
  function FourDigits(s: string, i: nat): (r: Option<Token>)
    ensures r.Some? ==> r.value.next == i + 4 <= |s| && r.value.value <= 9999
  {
    if i + 4 <= |s| && IsDigit(s[i]) && IsDigit(s[i + 1]) && IsDigit(s[i + 2]) && IsDigit(s[i + 3]) then
      Some(Token(1000 * DigitValue(s[i]) + 100 * DigitValue(s[i + 1]) + 10 * DigitValue(s[i + 2]) + DigitValue(s[i + 3]), i + 4))
    else None
  }

  /** `%Y` reads four digits and gives `int` of them. */
  lemma FourDigitsSpec(s: string, i: nat)
    ensures FourDigits(s, i).Some? <==> i + 4 <= |s| && AllDigits(s[i..i + 4])
    ensures FourDigits(s, i).Some? ==> FourDigits(s, i).value.value == DigitsValue(s[i..i + 4])
  {
    if i + 4 <= |s| {
      var w := s[i..i + 4];
      assert w[0] == s[i] && w[1] == s[i + 1] && w[2] == s[i + 2] && w[3] == s[i + 3];
      if AllDigits(w) {
        assert DigitsValue(w[..1]) == DigitValue(w[0]) by { assert w[..1][..0] == []; }
        assert DigitsValue(w[..2]) == 10 * DigitValue(w[0]) + DigitValue(w[1]) by { assert w[..2][..1] == w[..1]; }
        assert DigitsValue(w[..3]) == 10 * DigitsValue(w[..2]) + DigitValue(w[2]) by { assert w[..3][..2] == w[..2]; }
        assert DigitsValue(w) == 10 * DigitsValue(w[..3]) + DigitValue(w[3]);
      }
    }
  }

  /** A bounded numeric field: the regular expression's alternatives admit
      exactly the values `lo..hi`. */
  function Bounded(t: Option<Token>, lo: nat, hi: nat): (r: Option<Token>)
    ensures r.Some? ==> r == t && lo <= r.value.value <= hi
  {
    match t
    case Some(tok) => if lo <= tok.value <= hi then t else None
    case None => None
  }

  /** The fields the regular expression captures; the month is 1-based. */
  datatype Fields = Fields(weekday: nat, day: nat, month: nat, year: nat, hour: nat, minute: nat, second: nat)

  /** What `_strptime` assumes for a field the format leaves out. */
  const DefaultFields: Fields := Fields(0, 1, 1, 1900, 0, 0, 0)

  /** The ranges the directives admit. */
  predicate InRange(f: Fields) {
    && f.weekday < 7 && 1 <= f.day <= 31 && 1 <= f.month <= 12 && f.year <= 9999
    && f.hour <= 23 && f.minute <= 59 && f.second <= 61
  }

  /** One element of a `strptime` format. */
  datatype Directive =
    | WeekdayName       // %a
    | DayOfMonth        // %d
    | MonthName         // %b
    | Year              // %Y
    | Hour              // %H
    | Minute            // %M
    | Second            // %S
    | Whitespace        // a run of whitespace in the format: \s+
    | Text(lit: string) // any other text, matched as it is

  /** `'%a, %d %b %Y %H:%M:%S +0900'`. Its literal text has no letters, so
      the case-insensitive match of the literal parts is the exact one. */
  const PubDateFormat: seq<Directive> :=
    [WeekdayName, Text(","), Whitespace, DayOfMonth, Whitespace, MonthName, Whitespace, Year,
     Whitespace, Hour, Text(":"), Minute, Text(":"), Second, Whitespace, Text("+0900")]

  /** The position reached and the fields captured so far. */
  datatype Progress = Progress(next: nat, fields: Fields)

  /** The part of the regular expression one directive stands for, matched at
      position `i`. */
  function Step(s: string, i: nat, d: Directive, f: Fields): (r: Option<Progress>)
    ensures r.Some? ==> i <= r.value.next <= |s|
    ensures r.Some? && InRange(f) ==> InRange(r.value.fields)
  {
    match d
    case WeekdayName =>
      var t :- Name(s, i, WeekdayNames);
      Some(Progress(t.next, f.(weekday := t.value)))
    case DayOfMonth =>
      var t :- Bounded(UpToTwoDigits(s, i), 1, 31);
      Some(Progress(t.next, f.(day := t.value)))
    case MonthName =>
      var t :- Name(s, i, MonthNames);
      Some(Progress(t.next, f.(month := t.value + 1)))
    case Year =>
      var t :- FourDigits(s, i);
      Some(Progress(t.next, f.(year := t.value)))
    case Hour =>
      var t :- Bounded(UpToTwoDigits(s, i), 0, 23);
      Some(Progress(t.next, f.(hour := t.value)))
    case Minute =>
      var t :- Bounded(UpToTwoDigits(s, i), 0, 59);
      Some(Progress(t.next, f.(minute := t.value)))
    case Second =>
      var t :- Bounded(UpToTwoDigits(s, i), 0, 61);
      Some(Progress(t.next, f.(second := t.value)))
    case Whitespace =>
      var j :- Spaces(s, i);
      Some(Progress(j, f))
    case Text(lit) =>
      var j :- Literal(s, i, lit);
      Some(Progress(j, f))
  }

  /** The directives of `fmt` matched one after the other from position `i`. */
  function MatchDirectives(s: string, i: nat, fmt: seq<Directive>, f: Fields): (r: Option<Progress>)
    ensures r.Some? && InRange(f) ==> InRange(r.value.fields)
    decreases |fmt|, 1, |s| - i
  {
    if fmt == [] then Some(Progress(i, f)) else MatchFrom(s, i, fmt[0], fmt[1..], f)
  }

  /** Directive `d` matched at position `i`, followed by the directives of
      `rest`. */
  function MatchFrom(s: string, i: nat, d: Directive, rest: seq<Directive>, f: Fields): (r: Option<Progress>)
    ensures r.Some? && InRange(f) ==> InRange(r.value.fields)
    decreases |rest| + 1, 0, |s| - i
  {
    var p :- Step(s, i, d, f);
    MatchDirectives(s, p.next, rest, p.fields)
  }

  /** The regular-expression stage of `strptime` with
      `'%a, %d %b %Y %H:%M:%S +0900'`: the whole text must be matched. */
  function MatchFormat(s: string): (r: Option<Fields>)
    ensures r.Some? ==> InRange(r.value)
  {
    var p :- MatchDirectives(s, 0, PubDateFormat, DefaultFields);
    if p.next == |s| then Some(p.fields) else None
  }

  /** When the format ends with literal text, whatever it matches ends with
      that text. */
  lemma {:induction false} MatchDirectivesEnd(s: string, i: nat, fmt: seq<Directive>, f: Fields)
    requires fmt != [] && fmt[|fmt| - 1].Text?
    ensures var r := MatchDirectives(s, i, fmt, f); var lit := fmt[|fmt| - 1].lit;
      r.Some? ==> |lit| <= r.value.next <= |s| && s[r.value.next - |lit|..r.value.next] == lit
    decreases |fmt|
  {
    assert MatchDirectives(s, i, fmt, f) == MatchFrom(s, i, fmt[0], fmt[1..], f);
    match Step(s, i, fmt[0], f)
    case None =>
    case Some(p) =>
      assert MatchFrom(s, i, fmt[0], fmt[1..], f) == MatchDirectives(s, p.next, fmt[1..], p.fields);
      if |fmt| == 1 {
        LiteralSpec(s, i, fmt[0].lit);
        assert MatchDirectives(s, p.next, [], p.fields) == Some(p);
      } else {
        MatchDirectivesEnd(s, p.next, fmt[1..], p.fields);
      }
  }

  /** `datetime.strptime(s, '%a, %d %b %Y %H:%M:%S +0900')`. */
  function ParsePubDate(s: string): (r: Result<DateTime, DateError>)
    ensures r.Ok? ==> Valid(r.value)
  {
    match MatchFormat(s)
    case None => Err(Mismatch)
    case Some(f) =>
      var dt := DateTime(f.year, f.month, f.day, f.hour, f.minute, f.second);
      if Valid(dt) then Ok(dt) else Err(OutOfRange)
  }

  /** Every text the regular expression matches ends with the literal
      offset `+0900`. */
  lemma MatchedEndsWithOffset(s: string)
    ensures MatchFormat(s).Some? ==> |s| >= 5 && s[|s| - 5..] == "+0900"
  {
    MatchDirectivesEnd(s, 0, PubDateFormat, DefaultFields);
  }

  /** `strftime('%Y-%m-%d %H:%M:%S')`, with the year padded to four digits as
      CPython 3.13 and later write it (earlier versions on glibc write a year
      below 1000 without leading zeros). */
  function IsoFormat(dt: DateTime): (r: string)
    requires Valid(dt)
    ensures |r| == 19
  {
    ZeroPad(dt.year, 4) + "-" + ZeroPad(dt.month, 2) + "-" + ZeroPad(dt.day, 2) + " "
      + ZeroPad(dt.hour, 2) + ":" + ZeroPad(dt.minute, 2) + ":" + ZeroPad(dt.second, 2)
  }

  /** The whole conversion done by `getPostData` on `post['pubDate']`. */
  function ReformatDate(s: string): (r: Result<string, DateError>)
    ensures r.Ok? <==> ParsePubDate(s).Ok?
  {
    match ParsePubDate(s)
    case Ok(dt) => Ok(IsoFormat(dt))
    case Err(e) => Err(e)
  }

  // ---------------------------------------------------------------------------
  // Dates in the layout the search API writes, and what the conversion does to them
  // ---------------------------------------------------------------------------

  /** A date as the search API writes `pubDate`, e.g. `Tue, 10 Sep 2024 14:30:00 +0900`:
      `%a, %d %b %Y %H:%M:%S +0900` with every numeric field zero-padded. */
  function FormatPubDate(dt: DateTime, weekday: nat): (r: string)
    requires Matchable(dt) && weekday < 7
    ensures |r| == 31
  {
    var wn, mn, yr := WeekdayNames[weekday], MonthNames[dt.month - 1], Year4(dt.year);
    [wn[0], wn[1], wn[2], ',', ' ', DigitChar(dt.day / 10), DigitChar(dt.day % 10), ' ',
     mn[0], mn[1], mn[2], ' ', yr[0], yr[1], yr[2], yr[3], ' ',
     DigitChar(dt.hour / 10), DigitChar(dt.hour % 10), ':',
     DigitChar(dt.minute / 10), DigitChar(dt.minute % 10), ':',
     DigitChar(dt.second / 10), DigitChar(dt.second % 10), ' ', '+', '0', '9', '0', '0']
  }

  /** `%04d` of a year. */
  function Year4(y: nat): (r: string)
    requires y < 10000
    ensures |r| == 4 && AllDigits(r) && DigitsValue(r) == y
  {
    assert Pow10(2) == 100 && Pow10(3) == 1000 && Pow10(4) == 10000;
    ZeroPadValue(y, 4);
    ZeroPad(y, 4)
  }

  lemma TwoDigitsOf(n: nat)
    requires n < 100
    ensures Pow10(2) == 100
    ensures ZeroPad(n, 2) == [DigitChar(n / 10), DigitChar(n % 10)]
  {
    assert Pow10(1) == 10;
    var t := n / 10;
    assert t < 10 && t % 10 == t && t / 10 == 0;
    assert ZeroPad(t, 1) == [DigitChar(t)];
    assert ZeroPad(n, 2) == ZeroPad(t, 1) + [DigitChar(n % 10)];
  }

  /** No two names of a list spell the same word, ignoring case. */
  predicate DistinctNames(names: seq<Abbreviation>) {
    forall a, b :: 0 <= a < b < |names| ==> !SameIgnoringCase(names[a], names[b])
  }

  lemma WeekdayNamesDistinct()
    ensures DistinctNames(WeekdayNames)
  {
    forall a, b | 0 <= a < b < |WeekdayNames|
      ensures !SameIgnoringCase(WeekdayNames[a], WeekdayNames[b])
    {
      var x, y := WeekdayNames[a], WeekdayNames[b];
      assert Lower(x[0]) != Lower(y[0]) || Lower(x[1]) != Lower(y[1]);
    }
  }

  lemma MonthNamesDistinct()
    ensures DistinctNames(MonthNames)
  {
    forall a, b | 0 <= a < b < |MonthNames|
      ensures !SameIgnoringCase(MonthNames[a], MonthNames[b])
    {
      var x, y := MonthNames[a], MonthNames[b];
      assert Lower(x[0]) != Lower(y[0]) || Lower(x[1]) != Lower(y[1]) || Lower(x[2]) != Lower(y[2]);
    }
  }

  lemma SpaceAt(s: string, i: nat)
    requires i + 1 < |s| && s[i] == ' ' && !IsSpace(s[i + 1])
    ensures Spaces(s, i) == Some(i + 1)
  {
    assert SpaceRunEnd(s, i + 1) == i + 1;
  }

  lemma CharAt(s: string, i: nat, c: char)
    requires i < |s| && s[i] == c
    ensures Literal(s, i, [c]) == Some(i + 1)
  {
    assert [c][1..] == [];
  }

  lemma TwoDigitsAt(s: string, i: nat, n: nat)
    requires n < 100 && i + 2 <= |s|
    requires s[i] == DigitChar(n / 10) && s[i + 1] == DigitChar(n % 10)
    ensures UpToTwoDigits(s, i) == Some(Token(n, i + 2))
  {
  }

  lemma NameAt(s: string, i: nat, names: seq<Abbreviation>, k: nat)
    requires DistinctNames(names) && k < |names|
    requires i + 3 <= |s| && s[i] == names[k][0] && s[i + 1] == names[k][1] && s[i + 2] == names[k][2]
    ensures Name(s, i, names) == Some(Token(k, i + 3))
  {
    NameIndexSpec(names, s, i);
    assert SpelledAt(names[k], s, i);
  }

  lemma YearAt(s: string, i: nat, y: nat)
    requires y < 10000 && i + 4 <= |s|
    requires var yr := Year4(y); s[i] == yr[0] && s[i + 1] == yr[1] && s[i + 2] == yr[2] && s[i + 3] == yr[3]
    ensures FourDigits(s, i) == Some(Token(y, i + 4))
  {
    assert s[i..i + 4] == Year4(y);
    FourDigitsSpec(s, i);
  }

  lemma OffsetAt(s: string)
    requires |s| == 31 && s[26] == '+' && s[27] == '0' && s[28] == '9' && s[29] == '0' && s[30] == '0'
    ensures Literal(s, 26, "+0900") == Some(31)
  {
    assert s[26..31] == "+0900";
    LiteralSpec(s, 26, "+0900");
  }

  lemma ScanDayPart(dt: DateTime, weekday: nat)
    requires Matchable(dt) && weekday < 7
    ensures var s := FormatPubDate(dt, weekday);
      && Name(s, 0, WeekdayNames) == Some(Token(weekday, 3))
      && Literal(s, 3, ",") == Some(4)
      && Spaces(s, 4) == Some(5)
      && UpToTwoDigits(s, 5) == Some(Token(dt.day, 7))
  {
    ScanWeekday(dt, weekday);
    ScanDay(dt, weekday);
  }

  lemma ScanWeekday(dt: DateTime, weekday: nat)
    requires Matchable(dt) && weekday < 7
    ensures var s := FormatPubDate(dt, weekday);
      && Name(s, 0, WeekdayNames) == Some(Token(weekday, 3))
      && Literal(s, 3, ",") == Some(4)
  {
    var s := FormatPubDate(dt, weekday);
    WeekdayNamesDistinct();
    NameAt(s, 0, WeekdayNames, weekday);
    CharAt(s, 3, ',');
  }

  lemma ScanDay(dt: DateTime, weekday: nat)
    requires Matchable(dt) && weekday < 7
    ensures var s := FormatPubDate(dt, weekday);
      && Spaces(s, 4) == Some(5)
      && UpToTwoDigits(s, 5) == Some(Token(dt.day, 7))
  {
    var s := FormatPubDate(dt, weekday);
    SpaceAt(s, 4);
    TwoDigitsAt(s, 5, dt.day);
  }

  lemma MonthNamesAreLetters()
    ensures forall k :: 0 <= k < |MonthNames| ==> 'A' <= MonthNames[k][0] <= 'Z'
  {
  }

  lemma ScanMonthYear(dt: DateTime, weekday: nat)
    requires Matchable(dt) && weekday < 7
    ensures var s := FormatPubDate(dt, weekday);
      && Spaces(s, 7) == Some(8)
      && Name(s, 8, MonthNames) == Some(Token(dt.month - 1, 11))
      && Spaces(s, 11) == Some(12)
      && FourDigits(s, 12) == Some(Token(dt.year, 16))
  {
    ScanMonth(dt, weekday);
    ScanYear(dt, weekday);
  }

  lemma ScanMonth(dt: DateTime, weekday: nat)
    requires Matchable(dt) && weekday < 7
    ensures var s := FormatPubDate(dt, weekday);
      && Spaces(s, 7) == Some(8)
      && Name(s, 8, MonthNames) == Some(Token(dt.month - 1, 11))
  {
    var s := FormatPubDate(dt, weekday);
    MonthNamesDistinct();
    MonthNamesAreLetters();
    SpaceAt(s, 7);
    NameAt(s, 8, MonthNames, dt.month - 1);
  }

  lemma ScanYear(dt: DateTime, weekday: nat)
    requires Matchable(dt) && weekday < 7
    ensures var s := FormatPubDate(dt, weekday);
      && Spaces(s, 11) == Some(12)
      && FourDigits(s, 12) == Some(Token(dt.year, 16))
  {
    var s := FormatPubDate(dt, weekday);
    SpaceAt(s, 11);
    YearAt(s, 12, dt.year);
  }

  lemma ScanHourMinute(dt: DateTime, weekday: nat)
    requires Matchable(dt) && weekday < 7
    ensures var s := FormatPubDate(dt, weekday);
      && Spaces(s, 16) == Some(17)
      && UpToTwoDigits(s, 17) == Some(Token(dt.hour, 19))
      && Literal(s, 19, ":") == Some(20)
      && UpToTwoDigits(s, 20) == Some(Token(dt.minute, 22))
  {
    var s := FormatPubDate(dt, weekday);
    SpaceAt(s, 16);
    TwoDigitsAt(s, 17, dt.hour);
    CharAt(s, 19, ':');
    TwoDigitsAt(s, 20, dt.minute);
  }

  lemma ScanSecondOffset(dt: DateTime, weekday: nat)
    requires Matchable(dt) && weekday < 7
    ensures var s := FormatPubDate(dt, weekday);
      && Literal(s, 22, ":") == Some(23)
      && UpToTwoDigits(s, 23) == Some(Token(dt.second, 25))
      && Spaces(s, 25) == Some(26)
      && Literal(s, 26, "+0900") == Some(31)
      && |s| == 31
  {
    var s := FormatPubDate(dt, weekday);
    CharAt(s, 22, ':');
    TwoDigitsAt(s, 23, dt.second);
    SpaceAt(s, 25);
    OffsetAt(s);
  }

  /** Matching directive `k` of the format advances by one directive. */
  lemma Advance(s: string, i: nat, k: nat, f: Fields, j: nat, g: Fields)
    requires k < |PubDateFormat| && Step(s, i, PubDateFormat[k], f) == Some(Progress(j, g))
    ensures MatchDirectives(s, i, PubDateFormat[k..], f) == MatchDirectives(s, j, PubDateFormat[k + 1..], g)
  {
    assert PubDateFormat[k..][0] == PubDateFormat[k];
    assert PubDateFormat[k..][1..] == PubDateFormat[k + 1..];
  }

  lemma ChainDayPart(s: string, weekday: nat, day: nat)
    requires 1 <= day <= 31
    requires Name(s, 0, WeekdayNames) == Some(Token(weekday, 3))
    requires Literal(s, 3, ",") == Some(4) && Spaces(s, 4) == Some(5)
    requires UpToTwoDigits(s, 5) == Some(Token(day, 7))
    ensures MatchDirectives(s, 0, PubDateFormat[0..], DefaultFields)
         == MatchDirectives(s, 7, PubDateFormat[4..], Fields(weekday, day, 1, 1900, 0, 0, 0))
  {
    var f1 := Fields(weekday, 1, 1, 1900, 0, 0, 0);
    assert PubDateFormat[0] == WeekdayName;
    Advance(s, 0, 0, DefaultFields, 3, f1);
    Advance(s, 3, 1, f1, 4, f1);
    ChainDay(s, f1, day);
  }

  lemma ChainDay(s: string, f1: Fields, day: nat)
    requires 1 <= day <= 31
    requires Spaces(s, 4) == Some(5) && UpToTwoDigits(s, 5) == Some(Token(day, 7))
    ensures MatchDirectives(s, 4, PubDateFormat[2..], f1) == MatchDirectives(s, 7, PubDateFormat[4..], f1.(day := day))
  {
    Advance(s, 4, 2, f1, 5, f1);
    Advance(s, 5, 3, f1, 7, f1.(day := day));
  }

  lemma ChainMonthYear(s: string, weekday: nat, day: nat, month: nat, year: nat)
    requires 1 <= month <= 12
    requires Spaces(s, 7) == Some(8) && Name(s, 8, MonthNames) == Some(Token(month - 1, 11))
    requires Spaces(s, 11) == Some(12) && FourDigits(s, 12) == Some(Token(year, 16))
    ensures MatchDirectives(s, 7, PubDateFormat[4..], Fields(weekday, day, 1, 1900, 0, 0, 0))
         == MatchDirectives(s, 16, PubDateFormat[8..], Fields(weekday, day, month, year, 0, 0, 0))
  {
    var f0 := Fields(weekday, day, 1, 1900, 0, 0, 0);
    ChainMonth(s, f0, month);
    ChainYear(s, f0.(month := month), year);
  }

  lemma ChainMonth(s: string, f0: Fields, month: nat)
    requires 1 <= month <= 12
    requires Spaces(s, 7) == Some(8) && Name(s, 8, MonthNames) == Some(Token(month - 1, 11))
    ensures MatchDirectives(s, 7, PubDateFormat[4..], f0) == MatchDirectives(s, 11, PubDateFormat[6..], f0.(month := month))
  {
    Advance(s, 7, 4, f0, 8, f0);
    assert PubDateFormat[5] == MonthName;
    Advance(s, 8, 5, f0, 11, f0.(month := month));
  }

  lemma ChainYear(s: string, f1: Fields, year: nat)
    requires Spaces(s, 11) == Some(12) && FourDigits(s, 12) == Some(Token(year, 16))
    ensures MatchDirectives(s, 11, PubDateFormat[6..], f1) == MatchDirectives(s, 16, PubDateFormat[8..], f1.(year := year))
  {
    Advance(s, 11, 6, f1, 12, f1);
    Advance(s, 12, 7, f1, 16, f1.(year := year));
  }

  lemma ChainHourMinute(s: string, weekday: nat, day: nat, month: nat, year: nat, hour: nat, minute: nat)
    requires hour <= 23 && minute <= 59
    requires Spaces(s, 16) == Some(17) && UpToTwoDigits(s, 17) == Some(Token(hour, 19))
    requires Literal(s, 19, ":") == Some(20) && UpToTwoDigits(s, 20) == Some(Token(minute, 22))
    ensures MatchDirectives(s, 16, PubDateFormat[8..], Fields(weekday, day, month, year, 0, 0, 0))
         == MatchDirectives(s, 22, PubDateFormat[12..], Fields(weekday, day, month, year, hour, minute, 0))
  {
    var f0 := Fields(weekday, day, month, year, 0, 0, 0);
    var f1 := Fields(weekday, day, month, year, hour, 0, 0);
    Advance(s, 16, 8, f0, 17, f0);
    Advance(s, 17, 9, f0, 19, f1);
    ChainMinute(s, f1, minute);
  }

  lemma ChainMinute(s: string, f1: Fields, minute: nat)
    requires minute <= 59
    requires Literal(s, 19, ":") == Some(20) && UpToTwoDigits(s, 20) == Some(Token(minute, 22))
    ensures MatchDirectives(s, 19, PubDateFormat[10..], f1) == MatchDirectives(s, 22, PubDateFormat[12..], f1.(minute := minute))
  {
    Advance(s, 19, 10, f1, 20, f1);
    Advance(s, 20, 11, f1, 22, f1.(minute := minute));
  }

  lemma ChainSecondOffset(s: string, f0: Fields, second: nat)
    requires second <= 61
    requires Literal(s, 22, ":") == Some(23) && UpToTwoDigits(s, 23) == Some(Token(second, 25))
    requires Spaces(s, 25) == Some(26) && Literal(s, 26, "+0900") == Some(31)
    ensures MatchDirectives(s, 22, PubDateFormat[12..], f0) == Some(Progress(31, f0.(second := second)))
  {
    var f := f0.(second := second);
    Advance(s, 22, 12, f0, 23, f0);
    Advance(s, 23, 13, f0, 25, f);
    Advance(s, 25, 14, f, 26, f);
    Advance(s, 26, 15, f, 31, f);
    assert PubDateFormat[16..] == [];
  }

  /** Every date written the way the search API writes it is read back
      unchanged when it exists in the calendar and rejected when it does not,
      whatever day name it carries. */
  lemma ParseFormatted(dt: DateTime, weekday: nat)
    requires Matchable(dt) && weekday < 7
    ensures ParsePubDate(FormatPubDate(dt, weekday)) == if Valid(dt) then Ok(dt) else Err(OutOfRange)
  {
    var s := FormatPubDate(dt, weekday);
    assert PubDateFormat[0..] == PubDateFormat;
    ScanDayPart(dt, weekday);
    ChainDayPart(s, weekday, dt.day);
    ScanMonthYear(dt, weekday);
    ChainMonthYear(s, weekday, dt.day, dt.month, dt.year);
    ScanHourMinute(dt, weekday);
    ChainHourMinute(s, weekday, dt.day, dt.month, dt.year, dt.hour, dt.minute);
    ScanSecondOffset(dt, weekday);
    ChainSecondOffset(s, Fields(weekday, dt.day, dt.month, dt.year, dt.hour, dt.minute, 0), dt.second);
  }

  /** The conversion of a date written the way the search API writes it. */
  lemma ReformatFormatted(dt: DateTime, weekday: nat)
    requires Valid(dt) && weekday < 7
    ensures ReformatDate(FormatPubDate(dt, weekday)) == Ok(IsoFormat(dt))
  {
    ParseFormatted(dt, weekday);
  }

  /** The ISO-style text written by `strftime` gives back every field. */
  lemma IsoFormatFields(dt: DateTime)
    requires Valid(dt)
    ensures var r := IsoFormat(dt);
      && r[4] == '-' && r[7] == '-' && r[10] == ' ' && r[13] == ':' && r[16] == ':'
      && AllDigits(r[0..4]) && DigitsValue(r[0..4]) == dt.year
      && AllDigits(r[5..7]) && DigitsValue(r[5..7]) == dt.month
      && AllDigits(r[8..10]) && DigitsValue(r[8..10]) == dt.day
      && AllDigits(r[11..13]) && DigitsValue(r[11..13]) == dt.hour
      && AllDigits(r[14..16]) && DigitsValue(r[14..16]) == dt.minute
      && AllDigits(r[17..19]) && DigitsValue(r[17..19]) == dt.second
  {
    assert Pow10(2) == 100 && Pow10(3) == 1000 && Pow10(4) == 10000;
    IsoDateFields(dt);
    IsoTimeFields(dt);
  }

  /** The date half of `IsoFormat`. */
  lemma IsoDateFields(dt: DateTime)
    requires Valid(dt)
    ensures var r := IsoFormat(dt);
      && r[4] == '-' && r[7] == '-' && r[10] == ' '
      && r[0..4] == ZeroPad(dt.year, 4) && r[5..7] == ZeroPad(dt.month, 2) && r[8..10] == ZeroPad(dt.day, 2)
      && DigitsValue(r[0..4]) == dt.year && DigitsValue(r[5..7]) == dt.month && DigitsValue(r[8..10]) == dt.day
  {
    var r := IsoFormat(dt);
    assert Pow10(2) == 100 && Pow10(3) == 1000 && Pow10(4) == 10000;
    assert r[0..4] == ZeroPad(dt.year, 4);
    assert r[5..7] == ZeroPad(dt.month, 2);
    assert r[8..10] == ZeroPad(dt.day, 2);
    ZeroPadValue(dt.year, 4);
    ZeroPadValue(dt.month, 2);
    ZeroPadValue(dt.day, 2);
  }

  /** The time half of `IsoFormat`. */
  lemma IsoTimeFields(dt: DateTime)
    requires Valid(dt)
    ensures var r := IsoFormat(dt);
      && r[13] == ':' && r[16] == ':'
      && r[11..13] == ZeroPad(dt.hour, 2) && r[14..16] == ZeroPad(dt.minute, 2) && r[17..19] == ZeroPad(dt.second, 2)
      && DigitsValue(r[11..13]) == dt.hour && DigitsValue(r[14..16]) == dt.minute && DigitsValue(r[17..19]) == dt.second
  {
    var r := IsoFormat(dt);
    assert Pow10(2) == 100;
    assert r[11..13] == ZeroPad(dt.hour, 2);
    assert r[14..16] == ZeroPad(dt.minute, 2);
    assert r[17..19] == ZeroPad(dt.second, 2);
    ZeroPadValue(dt.hour, 2);
    ZeroPadValue(dt.minute, 2);
    ZeroPadValue(dt.second, 2);
  }

  lemma Year2024()
    ensures Year4(2024) == "2024"
  {
    assert Pow10(4) == 10000 by { assert Pow10(2) == 100; }
    assert ZeroPad(2, 1) == "2";
    assert ZeroPad(20, 2) == "20";
    assert ZeroPad(202, 3) == "202";
  }

  lemma ExampleText()
    ensures FormatPubDate(DateTime(2024, 9, 10, 14, 30, 0), 1) == "Tue, 10 Sep 2024 14:30:00 +0900"
  {
    Year2024();
  }

  lemma ExampleIso()
    ensures IsoFormat(DateTime(2024, 9, 10, 14, 30, 0)) == "2024-09-10 14:30:00"
  {
    Year2024();
    TwoDigitsOf(9);
    TwoDigitsOf(10);
    TwoDigitsOf(14);
    TwoDigitsOf(30);
    TwoDigitsOf(0);
  }

  /** The date of the example in the search API's documentation. */
  lemma ReformatExample()
    ensures ReformatDate("Tue, 10 Sep 2024 14:30:00 +0900") == Ok("2024-09-10 14:30:00")
  {
    ExampleText();
    ExampleIso();
    ReformatFormatted(DateTime(2024, 9, 10, 14, 30, 0), 1);
  }

  /** For a date written in the API's layout, the day name is read but never
      checked against the date. */
  lemma DayNameIgnored(dt: DateTime, w1: nat, w2: nat)
    requires Matchable(dt) && w1 < 7 && w2 < 7
    ensures ReformatDate(FormatPubDate(dt, w1)) == ReformatDate(FormatPubDate(dt, w2))
  {
    ParseFormatted(dt, w1);
    ParseFormatted(dt, w2);
  }

  /** Texts that match the format but name no existing moment raise: 31
      September, 29 February of a common year, second 60, year 0. */
  lemma RejectsThirtyFirstSeptember()
    ensures ReformatDate(FormatPubDate(DateTime(2024, 9, 31, 14, 30, 0), 1)) == Err(OutOfRange)
  {
    ParseFormatted(DateTime(2024, 9, 31, 14, 30, 0), 1);
  }

  lemma RejectsLeapDayOfCommonYear()
    ensures ReformatDate(FormatPubDate(DateTime(2023, 2, 29, 9, 0, 0), 2)) == Err(OutOfRange)
  {
    ParseFormatted(DateTime(2023, 2, 29, 9, 0, 0), 2);
  }

  lemma AcceptsLeapDayOfLeapYear()
    ensures ParsePubDate(FormatPubDate(DateTime(2024, 2, 29, 9, 0, 0), 3)) == Ok(DateTime(2024, 2, 29, 9, 0, 0))
  {
    assert IsLeapYear(2024);
    assert Valid(DateTime(2024, 2, 29, 9, 0, 0));
    ParseFormatted(DateTime(2024, 2, 29, 9, 0, 0), 3);
  }

  lemma RejectsSecondSixty()
    ensures ReformatDate(FormatPubDate(DateTime(2024, 9, 10, 14, 30, 60), 1)) == Err(OutOfRange)
  {
    ParseFormatted(DateTime(2024, 9, 10, 14, 30, 60), 1);
  }

  lemma RejectsYearZero()
    ensures ReformatDate(FormatPubDate(DateTime(0, 1, 1, 0, 0, 0), 0)) == Err(OutOfRange)
  {
    ParseFormatted(DateTime(0, 1, 1, 0, 0, 0), 0);
  }

  /** Any offset other than the literal `+0900` is a mismatch. */
  lemma RejectsOtherOffsets(s: string)
    requires !(|s| >= 5 && s[|s| - 5..] == "+0900")
    ensures ReformatDate(s) == Err(Mismatch)
  {
    MatchedEndsWithOffset(s);
  }

  lemma RejectsUtcExample()
    ensures ReformatDate("Tue, 10 Sep 2024 14:30:00 +0000") == Err(Mismatch)
  {
    var s := "Tue, 10 Sep 2024 14:30:00 +0000";
    assert s[|s| - 5..] == "+0000";
    RejectsOtherOffsets(s);
  }
}
