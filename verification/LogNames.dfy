/** Dates as text: how the logger prints and parses them, names rotated archives with them and
    decides from a name which archive has expired. */
module LogNames {
  import opened Bytes
  import opened Sorting
  import opened Calendar

  // ---------------------------------------------------------------- decimal numbers

  /** Plain decimal notation. */
  function Decimal(n: nat): (s: string)
    ensures s != "" && AllDigits(s)
  {
    if n < 10 then [Digit(n)] else Decimal(n / 10) + [Digit(n % 10)]
  }

  lemma {:induction false} DecimalRoundTrip(n: nat)
    ensures Number(Decimal(n)) == n
  {
    if n < 10 {
      assert Decimal(n)[..0] == "";
    } else {
      DecimalRoundTrip(n / 10);
      assert Decimal(n)[..|Decimal(n)| - 1] == Decimal(n / 10);
    }
  }

  function Pow10(w: nat): nat {
    if w == 0 then 1 else 10 * Pow10(w - 1)
  }

  /** The last `w` decimal digits. */
  function Digits(n: nat, w: nat): (s: string)
    ensures |s| == w && AllDigits(s)
    decreases w
  {
    if w == 0 then "" else Digits(n / 10, w - 1) + [Digit(n % 10)]
  }

  /** `{:0w}`: zero-padded to `w` digits, longer numbers in full. */
  function Padded(n: nat, w: nat): (s: string)
    ensures AllDigits(s)
  {
    if n < Pow10(w) then Digits(n, w) else Decimal(n)
  }

  lemma {:induction false} DigitsRoundTrip(n: nat, w: nat)
    requires n < Pow10(w)
    ensures Number(Digits(n, w)) == n
    decreases w
  {
    if w > 0 {
      DigitsRoundTrip(n / 10, w - 1);
      assert Digits(n, w)[..w - 1] == Digits(n / 10, w - 1);
    }
  }

  lemma {:induction false} DecimalLength(n: nat, w: nat)
    requires n >= Pow10(w)
    ensures |Decimal(n)| > w
    decreases w
  {
    if w > 0 {
      DecimalLength(n / 10, w - 1);
    }
  }

  /** Digits of one width are in the order of their numbers. */
  lemma {:induction false} DigitsIncrease(a: nat, b: nat, w: nat)
    requires a < b < Pow10(w)
    ensures StringLess(Digits(a, w), Digits(b, w))
    decreases w
  {
    var front, front' := Digits(a / 10, w - 1), Digits(b / 10, w - 1);
    var last, last' := [Digit(a % 10)], [Digit(b % 10)];
    hide StringLess;
    if a / 10 == b / 10 {
      DigitLess(a % 10, b % 10);
      StringLessWithin(front, last, last', "", "");
      assert front + last + "" == Digits(a, w) && front' + last' + "" == Digits(b, w);
    } else {
      DigitsIncrease(a / 10, b / 10, w - 1);
      StringLessWithin("", front, front', last, last');
      assert "" + front + last == Digits(a, w) && "" + front' + last' == Digits(b, w);
    }
  }

  lemma DigitLess(a: nat, b: nat)
    requires a < b < 10
    ensures StringLess([Digit(a)], [Digit(b)])
  {
  }

  // ---------------------------------------------------------------- dates as text

  /** `format_timestamp` */
  function FormatTimestamp(secs: nat): (s: string)
    ensures |s| >= 10
  {
    var date := DateOfDay(secs / 86400);
    DateIsPrintable(secs / 86400);
    DateText(date) + "T" + Padded(secs / 3600 % 24, 2) + ":" + Padded(secs / 60 % 60, 2) + ":" + Padded(secs % 60, 2) + "Z"
  }

  function DateText(date: Date): string
    requires date.year >= 0 && date.month >= 0 && date.day >= 0
  {
    Padded(date.year, 4) + "-" + Padded(date.month, 2) + "-" + Padded(date.day, 2)
  }

  lemma DateIsPrintable(n: nat)
    ensures var date := DateOfDay(n);
            && date.year >= 1970 && 1 <= date.month <= 12 && 1 <= date.day <= 31
            && |DateText(date)| >= 10
            && (n <= LAST_DAY ==> |DateText(date)| == 10)
            && (n > LAST_DAY ==> IsDigit(DateText(date)[4]))
  {
    hide DateOfDay;
    FourDigitYears(n);
    DatesFollowTheCalendar(n);
    var date := DateOfDay(n);
    assert Pow10(4) == 10000 && Pow10(2) == 100 by { SmallPowers(); }
    if date.year >= 10000 {
      DecimalLength(date.year, 4);
    }
  }

  lemma SmallPowers()
    ensures Pow10(4) == 10000 && Pow10(2) == 100
  {
    assert Pow10(3) == 1000;
  }

  /** The time of day behind the date, to the second. */
  lemma TimeIsPrinted(secs: nat)
    requires secs / 86400 <= LAST_DAY
    ensures var s := FormatTimestamp(secs);
            && |s| == 20 && s[10] == 'T' && s[13] == ':' && s[16] == ':' && s[19] == 'Z'
            && AllDigits(s[11..13]) && AllDigits(s[14..16]) && AllDigits(s[17..19])
            && Number(s[11..13]) * 3600 + Number(s[14..16]) * 60 + Number(s[17..19]) == secs % 86400
            && Number(s[11..13]) < 24 && Number(s[14..16]) < 60 && Number(s[17..19]) < 60
  {
    hide DateOfDay, Digits, Number;
    SmallPowers();
    DateIsPrintable(secs / 86400);
    var h, m, c := secs / 3600 % 24, secs / 60 % 60, secs % 60;
    DigitsRoundTrip(h, 2);
    DigitsRoundTrip(m, 2);
    DigitsRoundTrip(c, 2);
    Clock(secs);
    var date, s := DateText(DateOfDay(secs / 86400)), FormatTimestamp(secs);
    assert s == date + "T" + Digits(h, 2) + ":" + Digits(m, 2) + ":" + Digits(c, 2) + "Z";
    assert s[11..13] == Digits(h, 2) && s[14..16] == Digits(m, 2) && s[17..19] == Digits(c, 2);
  }

  lemma Clock(secs: nat)
    ensures secs / 3600 % 24 * 3600 + secs / 60 % 60 * 60 + secs % 60 == secs % 86400
  {
    var minutes, hours := secs / 60, secs / 3600;
    assert secs == 60 * minutes + secs % 60 && minutes / 60 == hours && minutes == 60 * hours + minutes % 60;
    assert hours == 24 * (hours / 24) + hours % 24 && hours / 24 == secs / 86400;
  }

  /** `format_date`: ten characters, a date only below year 10000. */
  function FormatDate(secs: nat): (s: string)
    ensures |s| == 10
  {
    FormatTimestamp(secs)[..10]
  }

  lemma FormatDateIsDateText(secs: nat)
    ensures secs / 86400 <= LAST_DAY ==> FormatDate(secs) == DateText(DateOfDay(secs / 86400))
    ensures secs / 86400 > LAST_DAY ==> IsDigit(FormatDate(secs)[4])
  {
    hide DateOfDay, DateText, Padded;
    DateIsPrintable(secs / 86400);
  }

  /** `str::parse::<i64>` on a text too short to overflow: an optional sign and digits. */
  function ParseInt(s: string): Option<int> {
    var signed := s != "" && (s[0] == '+' || s[0] == '-');
    var digits := if signed then s[1..] else s;
    if digits == "" || !AllDigits(digits) then None
    else Some(if signed && s[0] == '-' then -(Number(digits) as int) else Number(digits))
  }

  /** `parse_date_to_epoch_days`. Days past the end of a month are accepted up to 31. */
  function ParseDate(s: string): (r: Option<nat>) {
    if |s| != 10 || s[4] != '-' || s[7] != '-' then None
    else
      var y, m, d := ParseInt(s[..4]), ParseInt(s[5..7]), ParseInt(s[8..10]);
      if y.None? || m.None? || d.None? then None
      else if !(1 <= m.value <= 12) || !(1 <= d.value <= 31) || y.value < 1970 then None
      else
        var days := DayOfDate(Date(y.value, m.value, d.value));
        if days >= 0 then Some(days) else None
  }

  lemma ParseDateText(date: Date)
    requires 1970 <= date.year < 10000 && 1 <= date.month <= 12 && 1 <= date.day <= 31
    ensures |DateText(date)| == 10
    ensures ParseDate(DateText(date)) == if DayOfDate(date) >= 0 then Some(DayOfDate(date) as nat) else None
  {
    hide DayOfDate, Digits, Number, Pow10;
    SmallPowers();
    var s := DateText(date);
    DigitsRoundTrip(date.year, 4);
    DigitsRoundTrip(date.month, 2);
    DigitsRoundTrip(date.day, 2);
    assert s[..4] == Digits(date.year, 4);
    assert s[5..7] == Digits(date.month, 2);
    assert s[8..10] == Digits(date.day, 2);
  }

  /** Printing and parsing a date are inverse exactly below year 10000; later dates do not parse. */
  lemma ParseInvertsFormat(secs: nat)
    ensures ParseDate(FormatDate(secs)) == if secs / 86400 <= LAST_DAY then Some(secs / 86400) else None
  {
    hide DateOfDay, DayOfDate, DateText, ParseInt, FormatDate;
    FormatDateIsDateText(secs);
    var n := secs / 86400;
    if n <= LAST_DAY {
      FourDigitYears(n);
      DateIsPrintable(n);
      ParseDateText(DateOfDay(n));
      DayOfDateOfDay(n);
    }
  }

  /** The first second of year 10000. */
  lemma YearTenThousandIsLost()
    ensures DateOfDay(LAST_DAY + 1) == Date(10000, 1, 1) && ParseDate(FormatDate((LAST_DAY + 1) * 86400)) == None
  {
    hide DateOfDay, ParseDate, FormatDate;
    DayAfterTheLast();
    ParseInvertsFormat((LAST_DAY + 1) * 86400);
  }

  /** Below year 10000 date texts sort like the days they name. */
  lemma DateTextsSortByDay(a: nat, b: nat)
    requires a / 86400 < b / 86400 <= LAST_DAY
    ensures StringLess(FormatDate(a), FormatDate(b))
  {
    hide DateOfDay, FormatDate, StringLess, Digits;
    FormatDateIsDateText(a);
    FormatDateIsDateText(b);
    FourDigitYears(a / 86400);
    FourDigitYears(b / 86400);
    DateIsPrintable(a / 86400);
    DateIsPrintable(b / 86400);
    DatesIncrease(a / 86400, b / 86400);
    DateTextsIncrease(DateOfDay(a / 86400), DateOfDay(b / 86400));
  }

  lemma DateTextsIncrease(p: Date, q: Date)
    requires Earlier(p, q) && 0 <= p.year < 10000 && 0 <= q.year < 10000
    requires 1 <= p.month <= 12 && 1 <= p.day <= 31 && 1 <= q.month <= 12 && 1 <= q.day <= 31
    ensures StringLess(DateText(p), DateText(q))
  {
    hide StringLess, Digits, Pow10;
    SmallPowers();
    var y, m, d := Digits(p.year, 4), Digits(p.month, 2), Digits(p.day, 2);
    var y', m', d' := Digits(q.year, 4), Digits(q.month, 2), Digits(q.day, 2);
    if p.year < q.year {
      DigitsIncrease(p.year, q.year, 4);
      StringLessWithin("", y, y', "-" + m + "-" + d, "-" + m' + "-" + d');
      assert "" + y + ("-" + m + "-" + d) == DateText(p);
      assert "" + y' + ("-" + m' + "-" + d') == DateText(q);
    } else if p.month < q.month {
      DigitsIncrease(p.month, q.month, 2);
      StringLessWithin(y + "-", m, m', "-" + d, "-" + d');
      assert (y + "-") + m + ("-" + d) == DateText(p);
      assert (y + "-") + m' + ("-" + d') == DateText(q);
    } else {
      DigitsIncrease(p.day, q.day, 2);
      StringLessWithin(y + "-" + m + "-", d, d', "", "");
      assert (y + "-" + m + "-") + d + "" == DateText(p);
      assert (y + "-" + m + "-") + d' + "" == DateText(q);
    }
  }

  /** The parts of a date may have a sign; days a month does not have are taken as well, by
      `ParseDateText`. */
  lemma SignsAreRead(digits: string)
    requires digits != "" && AllDigits(digits)
    ensures ParseInt(digits) == Some(Number(digits)) && ParseInt("+" + digits) == Some(Number(digits))
    ensures ParseInt("-" + digits) == Some(-(Number(digits) as int))
  {
    assert ("+" + digits)[1..] == digits && ("-" + digits)[1..] == digits;
    hide Number;
  }

  // ---------------------------------------------------------------- dates in file names

  /** Ten characters of the form dddd-dd-dd at `i`. */
  predicate IsDateAt(s: string, i: nat) {
    && i + 10 <= |s| && s[i + 4] == '-' && s[i + 7] == '-'
    && IsDigit(s[i]) && IsDigit(s[i + 1]) && IsDigit(s[i + 2]) && IsDigit(s[i + 3])
    && IsDigit(s[i + 5]) && IsDigit(s[i + 6]) && IsDigit(s[i + 8]) && IsDigit(s[i + 9])
  }

  function FindDate(s: string, from: nat): (r: Option<nat>)
    ensures r.Some? ==> from <= r.value && IsDateAt(s, r.value)
    ensures r.Some? ==> forall j :: from <= j < r.value ==> !IsDateAt(s, j)
    ensures r.None? ==> forall j :: from <= j ==> !IsDateAt(s, j)
    decreases |s| - from
  {
    if from + 10 > |s| then None else if IsDateAt(s, from) then Some(from) else FindDate(s, from + 1)
  }

  /** `extract_date_from_filename` */
  function ExtractDate(name: string): Option<string> {
    match FindDate(name, 0)
    case None => None
    case Some(i) => Some(name[i..i + 10])
  }

  function Stem(filename: string): string {
    StripSuffix(filename, ".log").GetOr(filename)
  }

  /** What `resolve_archive_path` puts in front of the counter. */
  function BaseStem(filename: string, date: string): string {
    var stem := Stem(filename);
    if ExtractDate(stem).Some? then stem else stem + "-" + date
  }

  function ArchiveName(filename: string, date: string, idx: nat, zip: bool): string {
    BaseStem(filename, date) + "-" + Decimal(idx) + "." + (if zip then "zip" else "log")
  }

  /** The stem ends like the year and month of a date. */
  predicate EndsInYearMonth(stem: string) {
    && |stem| >= 7
    && var t := stem[|stem| - 7..];
    IsDigit(t[0]) && IsDigit(t[1]) && IsDigit(t[2]) && IsDigit(t[3]) && t[4] == '-' && IsDigit(t[5]) && IsDigit(t[6])
  }

  lemma FindDateIs(s: string, k: nat)
    requires IsDateAt(s, k) && forall j :: 0 <= j < k ==> !IsDateAt(s, j)
    ensures FindDate(s, 0) == Some(k)
  {
  }

  /** A date the stem already has is the date of the archive's name. */
  lemma KeptDateIsFound(filename: string, date: string, idx: nat, zip: bool)
    requires ExtractDate(Stem(filename)).Some?
    ensures ExtractDate(ArchiveName(filename, date, idx, zip)) == ExtractDate(Stem(filename))
  {
    hide FindDate;
    var stem, name := Stem(filename), ArchiveName(filename, date, idx, zip);
    var k := FindDate(stem, 0).value;
    assert stem <= name;
    assert name[k..k + 10] == stem[k..k + 10];
    assert forall j: nat :: j + 10 <= |stem| ==> (IsDateAt(name, j) <==> IsDateAt(stem, j));
    assert forall j :: 0 <= j < k ==> !IsDateAt(stem, j);
    FindDateIs(name, k);
  }

  /** A date put behind a stem without one is what is found in the archive's name exactly when the
      stem does not end like a year and a month. When it does, the end of the stem is read as part
      of a date whose day is the century of the real one. */
  lemma AddedDateIsFound(filename: string, date: string, idx: nat, zip: bool)
    requires ExtractDate(Stem(filename)).None? && |date| == 10 && IsDateAt(date, 0)
    ensures var stem, name := Stem(filename), ArchiveName(filename, date, idx, zip);
            && (FindDate(name, 0) == Some(|stem| + 1) <==> !EndsInYearMonth(stem))
            && ExtractDate(name) == Some(if EndsInYearMonth(stem) then stem[|stem| - 7..] + "-" + date[..2] else date)
  {
    hide FindDate;
    var stem, name := Stem(filename), ArchiveName(filename, date, idx, zip);
    assert stem + "-" + date <= name;
    AddedDatePosition(stem, date, name);
    if EndsInYearMonth(stem) {
      FindDateIs(name, |stem| - 7);
      assert name[|stem| - 7..|stem| + 3] == stem[|stem| - 7..] + "-" + date[..2];
    } else {
      FindDateIs(name, |stem| + 1);
      assert name[|stem| + 1..|stem| + 11] == date;
    }
  }

  lemma AddedDatePosition(stem: string, date: string, name: string)
    requires (forall j :: 0 <= j ==> !IsDateAt(stem, j)) && |date| == 10 && IsDateAt(date, 0)
    requires stem + "-" + date <= name
    ensures IsDateAt(name, |stem| + 1)
    ensures forall j :: 0 <= j <= |stem| ==> (IsDateAt(name, j) <==> EndsInYearMonth(stem) && j == |stem| - 7)
  {
    var front := stem + "-" + date;
    assert forall i :: 0 <= i < |stem| + 11 ==> name[i] == front[i];
    forall j: nat | j <= |stem|
      ensures IsDateAt(name, j) <==> EndsInYearMonth(stem) && j == |stem| - 7
    {
      assert !IsDateAt(stem, j);
      if j + 10 > |stem| {
        assert name[|stem|] == '-' && IsDigit(name[|stem| + 1]) && IsDigit(name[|stem| + 2]);
        if j == |stem| - 7 {
          assert stem[|stem| - 7..] == name[j..j + 7];
        }
      }
    }
  }

  lemma StemWithYearMonth()
    ensures Stem("log2024-01.log") == "log2024-01" && EndsInYearMonth("log2024-01")
  {
  }

  lemma NoDateYet()
    ensures ExtractDate("log2024-01") == None
  {
    assert FindDate("log2024-01", 0) == None;
  }

  /** A stem that is read wrongly: its archive of 2024-05-06 carries the date 2024-01-20. */
  lemma WrongDateIsFound()
    ensures ExtractDate(ArchiveName("log2024-01.log", "2024-05-06", 1, true)) == Some("2024-01-20")
  {
    StemWithYearMonth();
    NoDateYet();
    assert IsDateAt("2024-05-06", 0);
    hide ArchiveName, FindDate, Stem, ExtractDate, EndsInYearMonth, IsDateAt;
    WrongDateText();
    AddedDateIsFound("log2024-01.log", "2024-05-06", 1, true);
  }

  lemma WrongDateText()
    ensures "log2024-01"[|"log2024-01"| - 7..] + "-" + "2024-05-06"[..2] == "2024-01-20"
  {
  }

  // ---------------------------------------------------------------- rotation and retention

  lemma ArchiveNamesDiffer(filename: string, date: string, zip: bool, i: nat, j: nat)
    requires ArchiveName(filename, date, i, zip) == ArchiveName(filename, date, j, zip)
    ensures i == j
  {
    hide BaseStem, Decimal, Number;
    var base := BaseStem(filename, date);
    var x, y := ArchiveName(filename, date, i, zip), ArchiveName(filename, date, j, zip);
    assert x[|base| + 1..|x| - 4] == Decimal(i);
    assert y[|base| + 1..|y| - 4] == Decimal(j);
    DecimalRoundTrip(i);
    DecimalRoundTrip(j);
  }

  /** `resolve_archive_path`: the first numbered name that is not in the directory yet. */
  method ResolveArchivePath(filename: string, secs: nat, zip: bool, existing: set<string>) returns (name: string, idx: nat)
    ensures idx >= 1 && name == ArchiveName(filename, FormatDate(secs), idx, zip) && name !in existing
    ensures forall j :: 1 <= j < idx ==> ArchiveName(filename, FormatDate(secs), j, zip) in existing
  {
    hide FormatDate, ArchiveName;
    var date := FormatDate(secs);
    idx := 1;
    ghost var taken: set<string> := {};
    while true
      invariant idx >= 1 && taken <= existing && |taken| == idx - 1
      invariant forall j :: 1 <= j < idx ==> ArchiveName(filename, date, j, zip) in taken
      invariant forall n :: n in taken ==> exists j :: 1 <= j < idx && n == ArchiveName(filename, date, j, zip)
      decreases |existing - taken|
    {
      name := ArchiveName(filename, date, idx, zip);
      if name !in existing {
        return;
      }
      forall j | 1 <= j < idx
        ensures name != ArchiveName(filename, date, j, zip)
      {
        if name == ArchiveName(filename, date, j, zip) {
          ArchiveNamesDiffer(filename, date, zip, idx, j);
        }
      }
      assert existing - (taken + {name}) == existing - taken - {name};
      taken := taken + {name};
      idx := idx + 1;
    }
  }

  /** The part of `cleanup_expired_logs` that goes by the name of a file. */
  predicate ExpiredByDate(name: string, nowDays: nat, retentionDays: nat) {
    && retentionDays != 0
    && (HasSuffix(name, ".log") || HasSuffix(name, ".zip"))
    && name != "gateway.log" && name != "error.log" && name != "access.log"
    && match ExtractDate(name)
       case None => false
       case Some(date) =>
         match ParseDate(date)
         case None => false
         case Some(d) => nowDays > d && nowDays - d >= retentionDays
  }

  lemma FormattedDateHasShape(secs: nat)
    requires secs / 86400 <= LAST_DAY
    ensures IsDateAt(FormatDate(secs), 0)
  {
    hide DateOfDay, FormatDate, Pow10;
    FormatDateIsDateText(secs);
    DateIsPrintable(secs / 86400);
    FourDigitYears(secs / 86400);
    SmallPowers();
  }

  /** Retention, end to end: an archive rotated on a day below year 10000, from a log whose stem has
      no date and does not end like one, expires by date exactly from that day plus the retention
      period on. */
  lemma ArchiveExpiresOnTime(filename: string, secs: nat, idx: nat, zip: bool, nowDays: nat, retentionDays: nat)
    requires secs / 86400 <= LAST_DAY && retentionDays > 0
    requires ExtractDate(Stem(filename)).None? && !EndsInYearMonth(Stem(filename))
    ensures ExpiredByDate(ArchiveName(filename, FormatDate(secs), idx, zip), nowDays, retentionDays)
            <==> nowDays >= secs / 86400 + retentionDays
  {
    hide FormatDate, ParseDate, FindDate, Stem;
    var name := ArchiveName(filename, FormatDate(secs), idx, zip);
    FormattedDateHasShape(secs);
    AddedDateIsFound(filename, FormatDate(secs), idx, zip);
    ParseInvertsFormat(secs);
    var ext := if zip then ".zip" else ".log";
    var body := BaseStem(filename, FormatDate(secs)) + "-" + Decimal(idx);
    assert name == body + ext;
    assert name[|name| - 4..] == ext;
    assert |name| > 15;
  }

  /** Without a retention nothing expires, and nothing but logs and archives does. */
  lemma OnlyArchivesExpire(name: string, nowDays: nat, retentionDays: nat)
    requires ExpiredByDate(name, nowDays, retentionDays)
    ensures retentionDays > 0 && (exists front :: name == front + ".log" || name == front + ".zip")
    ensures ExtractDate(name).Some? && ParseDate(ExtractDate(name).value).Some?
  {
    hide ExtractDate, ParseDate;
    assert name == name[..|name| - 4] + name[|name| - 4..];
  }

  /** And one rotated from a log whose stem has a date expires by that date, if it is one at all. */
  lemma DatedArchiveExpiresByItsDate(filename: string, date: string, idx: nat, zip: bool, nowDays: nat, retentionDays: nat)
    requires retentionDays > 0 && ExtractDate(Stem(filename)).Some?
    ensures var day := ParseDate(ExtractDate(Stem(filename)).value);
            ExpiredByDate(ArchiveName(filename, date, idx, zip), nowDays, retentionDays)
            <==> day.Some? && nowDays >= day.value + retentionDays
  {
    hide ParseDate, FindDate, Stem;
    var name := ArchiveName(filename, date, idx, zip);
    KeptDateIsFound(filename, date, idx, zip);
    var ext := if zip then ".zip" else ".log";
    assert name == BaseStem(filename, date) + "-" + Decimal(idx) + ext;
    assert name[|name| - 4..] == ext;
    assert |name| > 14;
  }
}
