/**
 * tir/utils.py: Persian and Arabic-Indic numerals to ASCII digits, Farsi
 * weekday and month names to their Latin transliterations (by the code points
 * of their first one or two letters), and the splitting of the two date strings
 * the page shows.
 */
module Utils {
  import opened Markup
  import opened Failures
  import opened Text
  import Seasons

  // ------------------------------------------------------------------ numbers

  /** The glyph table of `transform_number`; the Arabic zero is written as a full stop. */
  const NumeralTable: map<char, char> := map[
    '\U{06F0}' := '0', '\U{06F1}' := '1', '\U{06F2}' := '2', '\U{06F3}' := '3', '\U{06F4}' := '4',
    '\U{06F5}' := '5', '\U{06F6}' := '6', '\U{06F7}' := '7', '\U{06F8}' := '8', '\U{06F9}' := '9',
    '.' := '0', '\U{0661}' := '1', '\U{0662}' := '2', '\U{0663}' := '3', '\U{0664}' := '4',
    '\U{0665}' := '5', '\U{0666}' := '6', '\U{0667}' := '7', '\U{0668}' := '8', '\U{0669}' := '9'
  ]

  /** The glyphs `transform_number` accepts: Persian digits, Arabic-Indic one to nine, and '.'. */
  predicate IsNumeralGlyph(c: char) {
    '\U{06F0}' <= c <= '\U{06F9}' || '\U{0661}' <= c <= '\U{0669}' || c == '.'
  }

  /** The ASCII digit of an accepted glyph: its offset within its block. */
  function GlyphDigit(c: char): (d: char)
    requires IsNumeralGlyph(c)
    ensures IsAsciiDigit(d)
  {
    if c == '.' then '0'
    else if c <= '\U{0669}' then (c as int - 0x0660 + '0' as int) as char
    else (c as int - 0x06F0 + '0' as int) as char
  }

  /**
   * The table is exactly the two digit blocks and '.': ASCII digits in
   * particular are not keys, and each glyph maps to the digit of its value.
   */
  lemma NumeralTableIsDigitBlocks(c: char)
    ensures c in NumeralTable <==> IsNumeralGlyph(c)
    ensures c in NumeralTable ==> NumeralTable[c] == GlyphDigit(c)
  {
  }

  /** A Persian and an Arabic-Indic glyph for the same digit give the same ASCII digit, its value. */
  lemma PersianAndArabicAgree(d: int)
    requires 0 <= d <= 9
    ensures NumeralTable[(0x06F0 + d) as char] == ('0' as int + d) as char
    ensures d > 0 ==> NumeralTable[(0x0660 + d) as char] == NumeralTable[(0x06F0 + d) as char]
    ensures d == 0 ==> NumeralTable['.'] == NumeralTable['\U{06F0}']
  {
    NumeralTableIsDigitBlocks((0x06F0 + d) as char);
    NumeralTableIsDigitBlocks((0x0660 + d) as char);
  }

  /** No accepted glyph is whitespace or a date separator. */
  lemma GlyphIsNotSeparator(c: char)
    requires IsNumeralGlyph(c)
    ensures !IsSpace(c) && c != '/' && c != '-'
  {
  }

  /** The glyph-by-glyph translation, failing at the first glyph outside the table. */
  function MapGlyphs(s: string): (r: Result<string>)
    ensures r.Ok? ==> |r.value| == |s| && forall i :: 0 <= i < |s| ==> IsNumeralGlyph(s[i]) && r.value[i] == GlyphDigit(s[i])
    ensures r.Err? ==> exists k :: (0 <= k < |s| && !IsNumeralGlyph(s[k]) && r.error == UnknownNumeral(s[k])
                                    && forall j :: 0 <= j < k ==> IsNumeralGlyph(s[j]))
  {
    if |s| == 0 then Ok("")
    else
      var prefix :- MapGlyphs(s[..|s| - 1]);
      var c := s[|s| - 1];
      if IsNumeralGlyph(c) then Ok(prefix + [GlyphDigit(c)]) else Err(UnknownNumeral(c))
  }

  /** Once a prefix fails, the whole string fails the same way. */
  lemma {:induction false} MapGlyphsPrefixFails(s: string, i: nat)
    requires i <= |s| && MapGlyphs(s[..i]).Err?
    ensures MapGlyphs(s) == MapGlyphs(s[..i])
    decreases |s| - i
  {
    if i < |s| {
      assert s[..i + 1][..i] == s[..i];
      MapGlyphsPrefixFails(s, i + 1);
    } else {
      assert s[..i] == s;
    }
  }

  /** `str.zfill(width)` for a string without sign: left-padded with '0' up to `width`. */
  function ZeroFill(s: string, width: nat): (r: string)
    ensures |r| == if |s| < width then width else |s|
    ensures forall i :: 0 <= i < |r| ==> r[i] == if i < |r| - |s| then '0' else s[i - (|r| - |s|)]
  {
    if |s| >= width then s else seq(width - |s|, _ => '0') + s
  }

  /**
   * `transform_number` as a function of its input: every glyph translated and
   * the result padded to two digits; the first glyph outside the table is
   * reported.
   */
  function Numeral(s: string): (r: Result<string>)
    ensures r.Ok? <==> forall i :: 0 <= i < |s| ==> IsNumeralGlyph(s[i])
    ensures r.Err? ==> exists k :: (0 <= k < |s| && !IsNumeralGlyph(s[k]) && r.error == UnknownNumeral(s[k])
                                    && forall j :: 0 <= j < k ==> IsNumeralGlyph(s[j]))
    ensures r.Ok? ==> && |r.value| == (if |s| < 2 then 2 else |s|)
                      && AllAsciiDigits(r.value)
                      && (forall i :: 0 <= i < |r.value| - |s| ==> r.value[i] == '0')
                      && (forall j :: |r.value| - |s| <= j < |r.value| ==> r.value[j] == GlyphDigit(s[j - (|r.value| - |s|)]))
  {
    var digits :- MapGlyphs(s);
    PaddedDigits(s, digits);
    Ok(ZeroFill(digits, 2))
  }

  lemma PaddedDigits(s: string, digits: string)
    requires MapGlyphs(s) == Ok(digits)
    ensures var r := ZeroFill(digits, 2);
            && AllAsciiDigits(r)
            && (forall i :: 0 <= i < |r| - |s| ==> r[i] == '0')
            && (forall j :: |r| - |s| <= j < |r| ==> r[j] == GlyphDigit(s[j - (|r| - |s|)]))
  {
    var r := ZeroFill(digits, 2);
    var pad := |r| - |s|;
    assert |digits| == |s|;
    forall i | 0 <= i < |r| ensures IsAsciiDigit(r[i]) {
      if i >= pad {
        assert r[i] == digits[i - pad] == GlyphDigit(s[i - pad]);
      }
    }
  }

  /** `transform_number`: the loop that appends one translated glyph at a time. */
  method TransformNumber(numbers: string) returns (r: Result<string>)
    ensures r == Numeral(numbers)
  {
    var newFormat := "";
    var i := 0;
    while i < |numbers|
      invariant 0 <= i <= |numbers|
      invariant MapGlyphs(numbers[..i]) == Ok(newFormat)
    {
      var number := numbers[i];
      assert numbers[..i + 1][..i] == numbers[..i];
      NumeralTableIsDigitBlocks(number);
      if number !in NumeralTable {
        MapGlyphsPrefixFails(numbers, i + 1);
        return Err(UnknownNumeral(number));
      }
      newFormat := newFormat + [NumeralTable[number]];
      i := i + 1;
    }
    assert numbers[..i] == numbers;
    return Ok(ZeroFill(newFormat, 2));
  }

  /** The Persian glyph of a digit. */
  function PersianDigit(d: nat): char
    requires d <= 9
  {
    (0x06F0 + d) as char
  }

  /** A number below 100 as the page writes it: Persian digits, no leading zero. */
  function PersianNumber(n: nat): string
    requires n < 100
  {
    if n < 10 then [PersianDigit(n)] else [PersianDigit(n / 10), PersianDigit(n % 10)]
  }

  /**
   * Round trip for day and month numbers: a number below 100 written in
   * Persian digits comes back as two ASCII digits whose value is that number.
   */
  lemma TwoDigitRoundTrip(n: nat)
    requires n < 100
    ensures Numeral(PersianNumber(n)).Ok?
    ensures |Numeral(PersianNumber(n)).value| == 2
    ensures DecimalValue(Numeral(PersianNumber(n)).value) == n
  {
    var s := PersianNumber(n);
    var v := Numeral(s).value;
    if n < 10 {
      assert v[0] == '0' && v[1] == ('0' as int + n) as char;
    } else {
      assert v[0] == ('0' as int + n / 10) as char && v[1] == ('0' as int + n % 10) as char;
    }
    assert v[..1][..0] == [];
    assert v[..|v| - 1] == v[..1];
    assert DecimalValue(v[..1]) == v[0] as int - '0' as int;
  }

  // ------------------------------------------------------------------ weekdays

  /** `farsi_weekdays_table`: each name with the code point of the first letter it is written with. */
  const WeekdayTable: seq<(string, int)> := [
    ("Shanbeh", 1588),
    ("1-Shanbeh", 1740),
    ("2-Shanbeh", 1583),
    ("3-Shanbeh", 1587),
    ("4-Shanbeh", 1670),
    ("5-Shanbeh", 1662),
    ("Jom'eh", 1580)
  ]

  /** The scan of the weekday table: the first entry with this code point. */
  function FindWeekday(table: seq<(string, int)>, code: int): (r: Option<string>)
    ensures r.None? <==> forall i :: 0 <= i < |table| ==> table[i].1 != code
    ensures r.Some? ==> exists i :: 0 <= i < |table| && table[i].1 == code && r.value == table[i].0
  {
    if |table| == 0 then None
    else if table[0].1 == code then Some(table[0].0)
    else
      var r := FindWeekday(table[1..], code);
      assert r.Some? ==> exists i :: 1 <= i < |table| && table[i].1 == code && r.value == table[i].0 by {
        if r.Some? {
          var i :| 0 <= i < |table[1..]| && table[1..][i].1 == code && r.value == table[1..][i].0;
          assert table[i + 1] == table[1..][i];
        }
      }
      r
  }

  /** `transform_weekday` */
  function TransformWeekday(weekday: string): (r: Result<string>)
    ensures r.Err? ==> r.error == UnknownWeekday(weekday)
    ensures r.Ok? <==> |weekday| >= 4 && exists i :: 0 <= i < |WeekdayTable| && WeekdayTable[i].1 == weekday[0] as int
  {
    if |weekday| < 4 then Err(UnknownWeekday(weekday))
    else
      match FindWeekday(WeekdayTable, weekday[0] as int)
      case Some(name) => Ok(name)
      case None => Err(UnknownWeekday(weekday))
  }

  /** The seven code points are pairwise distinct, and so are the seven names. */
  lemma WeekdayTableDistinct()
    ensures forall i, j :: 0 <= i < j < |WeekdayTable| ==> WeekdayTable[i].1 != WeekdayTable[j].1
    ensures forall i, j :: 0 <= i < j < |WeekdayTable| ==> WeekdayTable[i].0 != WeekdayTable[j].0
  {
  }

  /**
   * A token of four or more letters resolves to the entry of its first
   * letter's code point; the rest of the token plays no part.
   */
  lemma WeekdayByFirstLetter(weekday: string, i: int)
    requires |weekday| >= 4 && 0 <= i < |WeekdayTable| && WeekdayTable[i].1 == weekday[0] as int
    ensures TransformWeekday(weekday) == Ok(WeekdayTable[i].0)
  {
    WeekdayTableDistinct();
    var r := FindWeekday(WeekdayTable, weekday[0] as int);
    var j :| 0 <= j < |WeekdayTable| && WeekdayTable[j].1 == weekday[0] as int && r.value == WeekdayTable[j].0;
    assert i == j;
  }

  /** The seven Farsi weekday names, in table order. */
  lemma FarsiWeekdays()
    ensures TransformWeekday("شنبه") == Ok("Shanbeh")
    ensures TransformWeekday("یکشنبه") == Ok("1-Shanbeh")
    ensures TransformWeekday("دوشنبه") == Ok("2-Shanbeh")
    ensures TransformWeekday("سه‌شنبه") == Ok("3-Shanbeh")
    ensures TransformWeekday("چهارشنبه") == Ok("4-Shanbeh")
    ensures TransformWeekday("پنجشنبه") == Ok("5-Shanbeh")
    ensures TransformWeekday("جمعه") == Ok("Jom'eh")
  {
    WeekdayByFirstLetter("شنبه", 0);
    WeekdayByFirstLetter("یکشنبه", 1);
    WeekdayByFirstLetter("دوشنبه", 2);
    WeekdayByFirstLetter("سه‌شنبه", 3);
    WeekdayByFirstLetter("چهارشنبه", 4);
    WeekdayByFirstLetter("پنجشنبه", 5);
    WeekdayByFirstLetter("جمعه", 6);
  }

  // ------------------------------------------------------------------ months

  /** A row of `farsi_month_table`: the name, the first code point and, where needed, the second. */
  datatype MonthEntry = MonthEntry(name: string, first: int, second: Option<int>)

  const MonthTable: seq<MonthEntry> := [
    MonthEntry("Farvardin", 1601, None),
    MonthEntry("Ordibehesht", 1575, Some(1585)),
    MonthEntry("Khordad", 1582, None),
    MonthEntry("Tir", 1578, None),
    MonthEntry("Mordad", 1605, Some(1585)),
    MonthEntry("Shahrivar", 1588, None),
    MonthEntry("Mehr", 1605, Some(1607)),
    MonthEntry("Aban", 1575, Some(1576)),
    MonthEntry("Azar", 1575, Some(1584)),
    MonthEntry("Dey", 1583, None),
    MonthEntry("Bahman", 1576, None),
    MonthEntry("Esfand", 1575, Some(1587))
  ]

  /** An entry accepts a code-point pair when the first code agrees and the second does too, if it has one. */
  predicate EntryMatches(e: MonthEntry, c1: int, c2: int) {
    e.first == c1 && (e.second.None? || e.second.value == c2)
  }

  /** The scan of the month table: the first entry that accepts the pair. */
  function FindMonth(table: seq<MonthEntry>, c1: int, c2: int): (r: Option<string>)
    ensures r.None? <==> forall i :: 0 <= i < |table| ==> !EntryMatches(table[i], c1, c2)
    ensures r.Some? ==> exists i :: 0 <= i < |table| && EntryMatches(table[i], c1, c2) && r.value == table[i].name
  {
    if |table| == 0 then None
    else if EntryMatches(table[0], c1, c2) then Some(table[0].name)
    else
      var r := FindMonth(table[1..], c1, c2);
      assert r.Some? ==> exists i :: 1 <= i < |table| && EntryMatches(table[i], c1, c2) && r.value == table[i].name by {
        if r.Some? {
          var i :| 0 <= i < |table[1..]| && EntryMatches(table[1..][i], c1, c2) && r.value == table[1..][i].name;
          assert table[i + 1] == table[1..][i];
        }
      }
      r
  }

  /** The code points looked up: the first letter with 'آ' (U+0622) read as 'ا' (U+0627), and the second. */
  function MonthCodes(month: string): (int, int)
    requires |month| >= 2
  {
    (if month[0] as int == 1570 then 1575 else month[0] as int, month[1] as int)
  }

  /**
   * `transform_month` exactly as written: tokens shorter than three
   * characters are refused, which refuses "دی" (Dey) too.
   */
  function TransformMonthAsWritten(month: string): (r: Result<string>)
    ensures |month| < 3 ==> r == Err(UnknownMonth(month))
    ensures |month| >= 3 ==> r == TransformMonth(month)
  {
    if |month| < 3 then Err(UnknownMonth(month))
    else
      var (c1, c2) := MonthCodes(month);
      match FindMonth(MonthTable, c1, c2)
      case Some(name) => Ok(name)
      case None => Err(UnknownMonth(month))
  }

  /**
   * `transform_month` with the length guard it evidently intends: two
   * characters are all the lookup reads, and the month Dey is written with two.
   */
  function TransformMonth(month: string): (r: Result<string>)
    ensures r.Err? ==> r.error == UnknownMonth(month)
    ensures r.Ok? <==> |month| >= 2 && exists i :: (0 <= i < |MonthTable|
                                                     && EntryMatches(MonthTable[i], MonthCodes(month).0, MonthCodes(month).1))
  {
    if |month| < 2 then Err(UnknownMonth(month))
    else
      var (c1, c2) := MonthCodes(month);
      match FindMonth(MonthTable, c1, c2)
      case Some(name) => Ok(name)
      case None => Err(UnknownMonth(month))
  }

  /**
   * The two guards part only on two-character tokens that a table row
   * accepts: "دی", but also "تی", "اب", "خر" and the like.
   */
  lemma GuardsDisagreeOnlyOnTwoChars(month: string)
    ensures TransformMonthAsWritten(month) != TransformMonth(month) <==> |month| == 2 && TransformMonth(month).Ok?
  {
  }

  /** Two-character tokens other than "دی" that the corrected guard lets through and the code refuses. */
  lemma TwoCharMonthsAsWritten()
    ensures TransformMonth("تی") == Ok("Tir") && TransformMonthAsWritten("تی") == Err(UnknownMonth("تی"))
    ensures TransformMonth("اب") == Ok("Aban") && TransformMonthAsWritten("اب") == Err(UnknownMonth("اب"))
  {
    MonthByEntry("تی", 3);
    MonthByEntry("اب", 7);
  }

  /** No code-point pair is accepted by two entries, so the order of the scan does not matter. */
  lemma MonthEntriesDisjoint(c1: int, c2: int)
    ensures forall i, j :: 0 <= i < j < |MonthTable| ==> !(EntryMatches(MonthTable[i], c1, c2) && EntryMatches(MonthTable[j], c1, c2))
  {
  }

  /** The twelve names are pairwise distinct. */
  lemma MonthNamesDistinct()
    ensures forall i, j :: 0 <= i < j < |MonthTable| ==> MonthTable[i].name != MonthTable[j].name
  {
  }

  /** A token resolves to the one entry that accepts its code points. */
  lemma MonthByEntry(month: string, i: int)
    requires |month| >= 2 && 0 <= i < |MonthTable|
    requires EntryMatches(MonthTable[i], MonthCodes(month).0, MonthCodes(month).1)
    ensures TransformMonth(month) == Ok(MonthTable[i].name)
  {
    var (c1, c2) := MonthCodes(month);
    MonthEntriesDisjoint(c1, c2);
    var r := FindMonth(MonthTable, c1, c2);
    var j :| 0 <= j < |MonthTable| && EntryMatches(MonthTable[j], c1, c2) && r.value == MonthTable[j].name;
    assert i == j;
  }

  /** 'آ' and 'ا' are interchangeable as the first letter. */
  lemma MonthHatNormalised(rest: string)
    requires |rest| >= 1
    ensures TransformMonth(['\U{0622}'] + rest).Ok? == TransformMonth(['\U{0627}'] + rest).Ok?
    ensures TransformMonth(['\U{0622}'] + rest).Ok? ==> TransformMonth(['\U{0622}'] + rest).value == TransformMonth(['\U{0627}'] + rest).value
  {
    assert MonthCodes(['\U{0622}'] + rest) == MonthCodes(['\U{0627}'] + rest);
  }

  /** The twelve solar month names as the page writes them. */
  const FarsiMonths: seq<string> := [
    "فروردین", "اردیبهشت", "خرداد", "تیر", "مرداد", "شهریور",
    "مهر", "آبان", "آذر", "دی", "بهمن", "اسفند"
  ]

  /** Every solar month name resolves to its own row of the table, in calendar order. */
  lemma FarsiMonthsResolve(k: int)
    requires 0 <= k < 12
    ensures TransformMonth(FarsiMonths[k]) == Ok(MonthTable[k].name)
  {
    MonthByEntry(FarsiMonths[k], k);
  }

  /** The guard as written turns away the tenth month, which the corrected guard resolves. */
  lemma DeyRejectedAsWritten()
    ensures TransformMonthAsWritten(FarsiMonths[9]) == Err(UnknownMonth("دی"))
    ensures TransformMonth(FarsiMonths[9]) == Ok("Dey")
  {
    FarsiMonthsResolve(9);
  }

  // ------------------------------------------------------------------ dates

  /**
   * `transform_date_with_string_month` on the words of "day month year":
   * a Latin third word means the date is already readable and the words come
   * back as (first, third, second); otherwise day and year are numerals and the
   * month a Farsi name.
   */
  function TransformDateWithStringMonth(date: string, isLetter: char -> bool): (r: Result<(string, string, string)>)
    ensures r.Ok? <==> && |Words(date)| >= 3
                       && (|| IsAlpha(Words(date)[2], isLetter)
                           || (Numeral(Words(date)[0]).Ok? && TransformMonth(Words(date)[1]).Ok? && Numeral(Words(date)[2]).Ok?))
    ensures r.Ok? && IsAlpha(Words(date)[2], isLetter) ==> r.value == (Words(date)[0], Words(date)[2], Words(date)[1])
    ensures r.Ok? && !IsAlpha(Words(date)[2], isLetter) ==>
              && Numeral(Words(date)[2]) == Ok(r.value.0) && AllAsciiDigits(r.value.0)
              && TransformMonth(Words(date)[1]) == Ok(r.value.1)
              && Numeral(Words(date)[0]) == Ok(r.value.2) && AllAsciiDigits(r.value.2)
    ensures |Words(date)| < 3 ==> r == Err(MissingField)
    ensures r.Err? && |Words(date)| >= 3 ==>
              r.error == if Numeral(Words(date)[0]).Err? then Numeral(Words(date)[0]).error
                         else if TransformMonth(Words(date)[1]).Err? then UnknownMonth(Words(date)[1])
                         else Numeral(Words(date)[2]).error
  {
    var words := Words(date);
    if |words| < 3 then Err(MissingField)
    else if IsAlpha(words[2], isLetter) then Ok((words[0], words[2], words[1]))
    else
      var day :- Numeral(words[0]);
      var month :- TransformMonth(words[1]);
      var year :- Numeral(words[2]);
      Ok((year, month, day))
  }

  /**
   * "day month year" written with Persian digits and a Farsi month name:
   * day and year translated, the month resolved, in the order (year, month, day).
   * Digits are not letters to `isalpha`, so the year word is never taken for a Latin month.
   */
  lemma FarsiDateWords(d: string, m: string, y: string, isLetter: char -> bool)
    requires |d| > 0 && |y| > 0 && AllGlyphs(d) && AllGlyphs(y)
    requires m != "" && forall x :: x in m ==> !IsSpace(x)
    requires TransformMonth(m).Ok?
    requires forall c :: IsNumeralGlyph(c) ==> !isLetter(c)
    ensures TransformDateWithStringMonth(d + " " + m + " " + y, isLetter)
         == Ok((Numeral(y).value, TransformMonth(m).value, Numeral(d).value))
  {
    GlyphsAreNotSpaces(d);
    GlyphsAreNotSpaces(y);
    ThreeWords(d, m, y);
    assert !isLetter(y[0]);
  }

  /**
   * `transform_date` on "weekday - day month year": the weekday is the
   * stripped first '-' piece, kept as it is when alphabetic and otherwise
   * resolved as a Farsi name; the date part comes from the second piece only.
   * The weekday is looked at before the second piece is, so its failure comes first.
   */
  function TransformDate(data: string, isLetter: char -> bool): (r: Result<(string, (string, string, string))>)
    ensures var weekday := Strip(Split(data, '-')[0]);
            r.Ok? <==> && (IsAlpha(weekday, isLetter) || TransformWeekday(weekday).Ok?)
                       && |Split(data, '-')| >= 2
                       && TransformDateWithStringMonth(Strip(Split(data, '-')[1]), isLetter).Ok?
    ensures r.Ok? ==> TransformDateWithStringMonth(Strip(Split(data, '-')[1]), isLetter) == Ok(r.value.1)
    ensures r.Ok? ==> var weekday := Strip(Split(data, '-')[0]);
                      if IsAlpha(weekday, isLetter) then r.value.0 == weekday
                      else TransformWeekday(weekday) == Ok(r.value.0)
    ensures r.Err? ==> var weekday := Strip(Split(data, '-')[0]);
                       r.error == if !IsAlpha(weekday, isLetter) && TransformWeekday(weekday).Err? then UnknownWeekday(weekday)
                                  else if |Split(data, '-')| < 2 then MissingField
                                  else TransformDateWithStringMonth(Strip(Split(data, '-')[1]), isLetter).error
  {
    var parts := Split(data, '-');
    var weekday := Strip(parts[0]);
    var resolved :- if IsAlpha(weekday, isLetter) then Ok(weekday) else TransformWeekday(weekday);
    if |parts| < 2 then Err(MissingField)
    else
      var date :- TransformDateWithStringMonth(Strip(parts[1]), isLetter);
      Ok((resolved, date))
  }

  /**
   * A well-formed "weekday - day month year" as the page writes it: the
   * weekday kept or resolved, and the date part read from its three words.
   */
  lemma HumanDate(w: string, d: string, m: string, y: string, isLetter: char -> bool)
    requires w != "" && !IsSpace(w[0]) && !IsSpace(w[|w| - 1]) && '-' !in w
    requires IsAlpha(w, isLetter) || TransformWeekday(w).Ok?
    requires |d| > 0 && |y| > 0 && AllGlyphs(d) && AllGlyphs(y)
    requires m != "" && '-' !in m && forall x :: x in m ==> !IsSpace(x)
    requires TransformMonth(m).Ok?
    requires forall c :: IsNumeralGlyph(c) ==> !isLetter(c)
    ensures var date := d + " " + m + " " + y;
            TransformDate(w + " - " + date, isLetter)
              == Ok((if IsAlpha(w, isLetter) then w else TransformWeekday(w).value,
                     (Numeral(y).value, TransformMonth(m).value, Numeral(d).value)))
  {
    var date := d + " " + m + " " + y;
    DateHasNoDash(d, m, y);
    GlyphsAreNotSeparators(d);
    GlyphsAreNotSeparators(y);
    assert date[0] == d[0] && date[|date| - 1] == y[|y| - 1];
    FarsiDateWords(d, m, y, isLetter);
    WeekdayDashDate(w, date, isLetter);
  }

  /** "weekday - date": the weekday kept or resolved, and the date part translated on its own. */
  lemma WeekdayDashDate(w: string, date: string, isLetter: char -> bool)
    requires w != "" && !IsSpace(w[0]) && !IsSpace(w[|w| - 1]) && '-' !in w
    requires date != "" && !IsSpace(date[0]) && !IsSpace(date[|date| - 1]) && '-' !in date
    requires IsAlpha(w, isLetter) || TransformWeekday(w).Ok?
    requires TransformDateWithStringMonth(date, isLetter).Ok?
    ensures TransformDate(w + " - " + date, isLetter)
         == Ok((if IsAlpha(w, isLetter) then w else TransformWeekday(w).value,
                TransformDateWithStringMonth(date, isLetter).value))
  {
    DashFirstStripped(w, date);
    DashSecondStripped(w, date);
    TransformDateOfPieces(w + " - " + date, w, date, isLetter);
  }

  /** `transform_date` once its two stripped pieces are known. */
  lemma TransformDateOfPieces(data: string, weekday: string, date: string, isLetter: char -> bool)
    requires |Split(data, '-')| == 2
    requires Strip(Split(data, '-')[0]) == weekday && Strip(Split(data, '-')[1]) == date
    requires IsAlpha(weekday, isLetter) || TransformWeekday(weekday).Ok?
    requires TransformDateWithStringMonth(date, isLetter).Ok?
    ensures TransformDate(data, isLetter)
         == Ok((if IsAlpha(weekday, isLetter) then weekday else TransformWeekday(weekday).value,
                TransformDateWithStringMonth(date, isLetter).value))
  {
  }

  lemma DateHasNoDash(d: string, m: string, y: string)
    requires AllGlyphs(d) && AllGlyphs(y) && '-' !in m
    ensures '-' !in d + " " + m + " " + y
  {
    GlyphsAreNotSeparators(d);
    GlyphsAreNotSeparators(y);
  }

  /** Pieces after the second are never read. */
  lemma TransformDateIgnoresLaterPieces(weekday: string, date: string, rest: string, isLetter: char -> bool)
    requires '-' !in weekday && '-' !in date
    ensures TransformDate(weekday + "-" + date + "-" + rest, isLetter) == TransformDate(weekday + "-" + date, isLetter)
  {
    SplitAfterFirst(weekday, '-', date + "-" + rest);
    assert weekday + "-" + date + "-" + rest == weekday + ['-'] + (date + "-" + rest);
    SplitAfterFirst(date, '-', rest);
    assert date + "-" + rest == date + ['-'] + rest;
    SplitAfterFirst(weekday, '-', date);
    assert weekday + "-" + date == weekday + ['-'] + date;
    SplitWithoutSeparator(date, '-');
  }

  /** The calendar a numeral date belongs to: solar when it is written with '/'. */
  function Kind(data: string): string {
    if Find(data, "/") != -1 then "solar" else "gregorian"
  }

  /**
   * `transform_numerical_date`: year, month and day are the first three
   * fields between '/' or '-', each translated by `transform_number`, and the
   * season follows from the month's value under the calendar of the separator.
   */
  function TransformNumericalDate(data: string): (r: Result<(string, (string, string), string, string)>)
    ensures r.Ok? ==> && AllAsciiDigits(r.value.0) && AllAsciiDigits(r.value.2) && AllAsciiDigits(r.value.3)
                      && |r.value.2| >= 2 && |r.value.3| >= 2
                      && r.value.1 == Seasons.FindSeason(DecimalValue(r.value.2), Kind(data))
    ensures var f := Split(Replace(Strip(data), '/', '-'), '-');
            r.Ok? <==> |f| >= 3 && Numeral(f[0]).Ok? && Numeral(f[1]).Ok? && Numeral(f[2]).Ok?
    ensures var f := Split(Replace(Strip(data), '/', '-'), '-');
            r.Ok? ==> r.value == (Numeral(f[0]).value, Seasons.FindSeason(DecimalValue(Numeral(f[1]).value), Kind(data)),
                                  Numeral(f[1]).value, Numeral(f[2]).value)
    ensures var f := Split(Replace(Strip(data), '/', '-'), '-');
            r.Err? ==> r.error == if Numeral(f[0]).Err? then Numeral(f[0]).error
                                  else if |f| < 2 then MissingField
                                  else if Numeral(f[1]).Err? then Numeral(f[1]).error
                                  else if |f| < 3 then MissingField
                                  else Numeral(f[2]).error
  {
    var kind := Kind(data);
    var fields := Split(Replace(Strip(data), '/', '-'), '-');
    var year :- Numeral(fields[0]);
    if |fields| < 2 then Err(MissingField)
    else
      var month :- Numeral(fields[1]);
      if |fields| < 3 then Err(MissingField)
      else
        var day :- Numeral(fields[2]);
        Ok((year, Seasons.FindSeason(DecimalValue(month), kind), month, day))
  }

  /** Every character of `s` is a numeral glyph. */
  predicate AllGlyphs(s: string) {
    forall i :: 0 <= i < |s| ==> IsNumeralGlyph(s[i])
  }

  lemma GlyphsAreNotSpaces(s: string)
    requires AllGlyphs(s)
    ensures forall x :: x in s ==> !IsSpace(x)
  {
    forall x | x in s ensures !IsSpace(x) {
      var i :| 0 <= i < |s| && s[i] == x;
      GlyphIsNotSeparator(s[i]);
    }
  }

  lemma GlyphsAreNotSeparators(s: string)
    requires AllGlyphs(s)
    ensures '/' !in s && '-' !in s
    ensures |s| > 0 ==> !IsSpace(s[0]) && !IsSpace(s[|s| - 1])
  {
    forall i | 0 <= i < |s| ensures s[i] != '/' && s[i] != '-' && !IsSpace(s[i]) {
      GlyphIsNotSeparator(s[i]);
    }
  }

  lemma SlashesBecomeDashes(y: string, sep: char, m: string, d: string)
    requires sep == '/' || sep == '-'
    requires '/' !in y && '/' !in m && '/' !in d
    ensures Replace(y + [sep] + m + [sep] + d, '/', '-') == y + ['-'] + m + ['-'] + d
  {
    var a := y + [sep] + m + [sep] + d;
    var b := y + ['-'] + m + ['-'] + d;
    var r := Replace(a, '/', '-');
    forall i | 0 <= i < |a| ensures r[i] == b[i] {
      if i < |y| {
        assert a[i] == y[i] && b[i] == y[i];
      } else if i == |y| {
      } else if i < |y| + 1 + |m| {
        assert a[i] == m[i - |y| - 1] && b[i] == m[i - |y| - 1];
      } else if i == |y| + 1 + |m| {
      } else {
        assert a[i] == d[i - |y| - |m| - 2] && b[i] == d[i - |y| - |m| - 2];
      }
    }
  }

  /** The three fields of "y/m/d" or "y-m-d", once '/' has become '-'. */
  lemma ThreeFields(y: string, sep: char, m: string, d: string)
    requires sep == '/' || sep == '-'
    requires '/' !in y && '/' !in m && '/' !in d && '-' !in y && '-' !in m && '-' !in d
    ensures Split(Replace(y + [sep] + m + [sep] + d, '/', '-'), '-') == [y, m, d]
  {
    var tail := m + ['-'] + d;
    var dashed := y + ['-'] + tail;
    assert dashed == y + ['-'] + m + ['-'] + d;
    SlashesBecomeDashes(y, sep, m, d);
    SplitAfterFirst(m, '-', d);
    SplitWithoutSeparator(d, '-');
    assert Split(tail, '-') == [m, d];
    SplitAfterFirst(y, '-', tail);
  }

  /** The separator decides the calendar. */
  lemma KindOfSeparator(y: string, sep: char, m: string, d: string)
    requires sep == '/' || sep == '-'
    requires '/' !in y && '/' !in m && '/' !in d
    ensures Kind(y + [sep] + m + [sep] + d) == if sep == '/' then "solar" else "gregorian"
  {
    var data := y + [sep] + m + [sep] + d;
    if sep == '/' {
      assert data[|y|..|y| + 1] == "/";
      assert OccursAt(data, "/", |y|);
    } else {
      forall j | 0 <= j < |data| ensures data[j] != '/' {
        if j < |y| {
          assert data[j] == y[j];
        } else if j == |y| {
        } else if j < |y| + 1 + |m| {
          assert data[j] == m[j - |y| - 1];
        } else if j == |y| + 1 + |m| {
        } else {
          assert data[j] == d[j - |y| - |m| - 2];
        }
      }
      forall j | 0 <= j ensures !OccursAt(data, "/", j) {
        if j < |data| {
          assert data[j..j + 1][0] == data[j];
        }
      }
    }
  }

  /** `transform_numerical_date` once the three fields are known. */
  lemma NumericalDateOfFields(data: string, a: string, b: string, c: string)
    requires Split(Replace(Strip(data), '/', '-'), '-') == [a, b, c]
    requires Numeral(a).Ok? && Numeral(b).Ok? && Numeral(c).Ok?
    ensures TransformNumericalDate(data)
         == Ok((Numeral(a).value, Seasons.FindSeason(DecimalValue(Numeral(b).value), Kind(data)),
                Numeral(b).value, Numeral(c).value))
  {
  }

  /** A well-formed numeral date "y/m/d" (or "y-m-d"): its three fields, translated, and the season of the month. */
  lemma NumericalDateFields(y: string, sep: char, m: string, d: string)
    requires sep == '/' || sep == '-'
    requires |y| > 0 && |d| > 0
    requires AllGlyphs(y) && AllGlyphs(m) && AllGlyphs(d)
    ensures TransformNumericalDate(y + [sep] + m + [sep] + d)
         == Ok((Numeral(y).value,
                Seasons.FindSeason(DecimalValue(Numeral(m).value), if sep == '/' then "solar" else "gregorian"),
                Numeral(m).value,
                Numeral(d).value))
  {
    var data := y + [sep] + m + [sep] + d;
    GlyphsAreNotSeparators(y);
    GlyphsAreNotSeparators(m);
    GlyphsAreNotSeparators(d);
    assert data[0] == y[0] && data[|data| - 1] == d[|d| - 1];
    StripUntouched(data);
    ThreeFields(y, sep, m, d);
    KindOfSeparator(y, sep, m, d);
    assert Numeral(y).Ok? && Numeral(m).Ok? && Numeral(d).Ok?;
    NumericalDateOfFields(data, y, m, d);
  }
}
