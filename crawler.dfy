/**
 * The extractors of bin/crawler.py: today's dates, the month grid and the
 * quote, each read from the parsed page with `search` and the translators of
 * tir/utils.py.
 */
module Crawler {
  import opened Markup
  import opened Failures
  import opened Text
  import opened Search
  import opened Utils
  import opened Records
  import Seasons

  /** The attribute side of every `search` call on a `class` attribute. */
  const ClassAttr: Option<Matcher> := Some(Exact("class"))

  /** `element.text` where a string is needed: `None` fails (`NoneType` has no `split`). */
  function TextOf(n: Node): (r: Result<string>)
    ensures r.Ok? <==> n.text.Some?
    ensures r.Ok? ==> r.value == n.text.value
    ensures r.Err? ==> r.error == MissingText
  {
    match n.text
    case Some(t) => Ok(t)
    case None => Err(MissingText)
  }

  // ---------------------------------------------------------------- dates

  /** The fields of a `Date` are what the two translators can produce. */
  predicate ValidDate(d: Date) {
    && AllAsciiDigits(d.year) && AllAsciiDigits(d.month) && AllAsciiDigits(d.day)
    && |d.month| >= 2 && |d.day| >= 2
    && (|| (d.seasonName, d.season) == Seasons.FindSeason(DecimalValue(d.month), "solar")
        || (d.seasonName, d.season) == Seasons.FindSeason(DecimalValue(d.month), "gregorian"))
  }

  /**
   * The combination at the end of `find_date`: weekday and month name from
   * the human date, year, season, month and day from the numeral date. The
   * human text is translated first, so its failures come first.
   */
  function DateFromTexts(human: Node, numeral: Node, isLetter: char -> bool): (r: Result<Date>)
    ensures r.Ok? <==> && human.text.Some? && TransformDate(human.text.value, isLetter).Ok?
                       && numeral.text.Some? && TransformNumericalDate(numeral.text.value).Ok?
    ensures r.Ok? ==> var named := TransformDate(human.text.value, isLetter).value;
                      r.value.weekday == named.0 && r.value.monthName == named.1.1
    ensures r.Ok? ==> TransformNumericalDate(numeral.text.value)
                      == Ok((r.value.year, (r.value.seasonName, r.value.season), r.value.month, r.value.day))
    ensures r.Ok? ==> ValidDate(r.value)
    ensures human.text.None? ==> r == Err(MissingText)
    ensures r.Err? ==> r.error == if human.text.None? then MissingText
                                  else if TransformDate(human.text.value, isLetter).Err? then TransformDate(human.text.value, isLetter).error
                                  else if numeral.text.None? then MissingText
                                  else TransformNumericalDate(numeral.text.value).error
  {
    var humanText :- TextOf(human);
    var named :- TransformDate(humanText, isLetter);
    var numeralText :- TextOf(numeral);
    var numbered :- TransformNumericalDate(numeralText);
    var date := Date(numbered.0, numbered.1.1, numbered.1.0, numbered.2, named.1.1, numbered.3, named.0);
    assert numbered.1 == Seasons.FindSeason(DecimalValue(numbered.2), Kind(numeralText));
    Ok(date)
  }

  /**
   * `find_date`: inside the row whose class contains "today-" + kind, the
   * "show date" span gives the human date and the "show numeral" span the
   * numeral date. Each missing element raises its own `TagNotFound`, in the
   * order the searches run; once all three are found the date is that of the
   * two spans' texts.
   */
  function FindDate(rows: Node, kind: string, isLetter: char -> bool): (r: Result<Date>)
    ensures r.Ok? ==> ValidDate(r.value)
    ensures match SearchNode(rows, "div", ClassAttr, Contains("today-" + kind))
            case Err(_) => r == Err(TagNotFound("div", ClassAttr, Contains("today-" + kind)))
            case Ok(row) =>
              match (SearchNode(row, "span", ClassAttr, Exact("show date")), SearchNode(row, "span", ClassAttr, Exact("show numeral")))
              case (Err(_), _) => r == Err(TagNotFound("span", ClassAttr, Exact("show date")))
              case (Ok(_), Err(_)) => r == Err(TagNotFound("span", ClassAttr, Exact("show numeral")))
              case (Ok(human), Ok(numeral)) => r == DateFromTexts(human, numeral, isLetter)
  {
    var row :- SearchNode(rows, "div", ClassAttr, Contains("today-" + kind));
    var human :- SearchNode(row, "span", ClassAttr, Exact("show date"));
    var numeral :- SearchNode(row, "span", ClassAttr, Exact("show numeral"));
    DateFromTexts(human, numeral, isLetter)
  }

  /**
   * Only the weekday and the month name of the human date are kept: with the
   * same numeral date, two dates that agree on those two fields are the same
   * `Date`, whatever day and year their human texts gave.
   */
  lemma HumanDayDiscarded(human1: Node, human2: Node, numeral: Node, isLetter: char -> bool)
    ensures var r1 := DateFromTexts(human1, numeral, isLetter);
            var r2 := DateFromTexts(human2, numeral, isLetter);
            r1.Ok? && r2.Ok? && r1.value.weekday == r2.value.weekday && r1.value.monthName == r2.value.monthName
            ==> r1 == r2
  {
  }

  /**
   * `find_dates`: down through topWrapper, todayDate and row, then the solar
   * ("shamsi") and the gregorian date of today from the same rows, in that
   * order; the first failure is the result.
   */
  function FindDates(body: Node, isLetter: char -> bool): (r: Result<TodayDates>)
    ensures r.Ok? ==> ValidDate(r.value.solar) && ValidDate(r.value.gregorian)
    ensures match SearchNode(body, "div", ClassAttr, Exact("topWrapper"))
            case Err(_) => r == Err(TagNotFound("div", ClassAttr, Exact("topWrapper")))
            case Ok(top) =>
              match SearchNode(top, "div", ClassAttr, Contains("todayDate"))
              case Err(_) => r == Err(TagNotFound("div", ClassAttr, Contains("todayDate")))
              case Ok(date) =>
                match SearchNode(date, "div", ClassAttr, Exact("row"))
                case Err(_) => r == Err(TagNotFound("div", ClassAttr, Exact("row")))
                case Ok(rows) =>
                  match (FindDate(rows, "shamsi", isLetter), FindDate(rows, "gregorian", isLetter))
                  case (Err(e), _) => r == Err(e)
                  case (Ok(_), Err(e)) => r == Err(e)
                  case (Ok(solar), Ok(gregorian)) => r == Ok(TodayDates(solar, gregorian))
  {
    var top :- SearchNode(body, "div", ClassAttr, Exact("topWrapper"));
    var date :- SearchNode(top, "div", ClassAttr, Contains("todayDate"));
    var rows :- SearchNode(date, "div", ClassAttr, Exact("row"));
    var solar :- FindDate(rows, "shamsi", isLetter);
    var gregorian :- FindDate(rows, "gregorian", isLetter);
    Ok(TodayDates(solar, gregorian))
  }

  // ---------------------------------------------------------------- calendar

  /** Some `class` attribute contains "today" and not "disabled" (the `elif` of the flag loop). */
  function TodayClass(attrs: seq<(string, string)>): (b: bool)
    ensures b <==> exists i :: (0 <= i < |attrs| && attrs[i].0 == "class"
                                && !Text.Contains(attrs[i].1, "disabled") && Text.Contains(attrs[i].1, "today"))
  {
    if |attrs| == 0 then false
    else
      var last := attrs[|attrs| - 1];
      var b := TodayClass(attrs[..|attrs| - 1])
               || (last.0 == "class" && !Text.Contains(last.1, "disabled") && Text.Contains(last.1, "today"));
      assert forall i :: 0 <= i < |attrs| - 1 ==> attrs[..|attrs| - 1][i] == attrs[i];
      b
  }

  /** A day number: the text of the found element through `transform_number`. */
  function NumberOf(found: Result<Node>): (r: Result<string>)
    ensures r.Ok? <==> found.Ok? && found.value.text.Some? && Numeral(found.value.text.value).Ok?
    ensures r.Ok? ==> Numeral(found.value.text.value) == Ok(r.value) && AllAsciiDigits(r.value) && |r.value| >= 2
    ensures r.Err? ==> r.error == if found.Err? then found.error
                                  else if found.value.text.None? then MissingText
                                  else Numeral(found.value.text.value).error
  {
    var n :- found;
    var t :- TextOf(n);
    Numeral(t)
  }

  /** The number of a cell: under the info element, the first div whose class contains `needle`. */
  function CellNumber(info: Node, needle: string): (r: Result<string>)
    ensures r.Ok? ==> AllAsciiDigits(r.value) && |r.value| >= 2
  {
    NumberOf(SearchNode(info, "div", ClassAttr, Contains(needle)))
  }

  /**
   * `parse_day` on a grid cell that is not a `br`: its own class decides
   * "disabled" and "today", its first child's class decides "holiday", and
   * the first child holds the three day numbers.
   */
  function CellDay(cell: Node): (r: Result<Day>)
    ensures |cell.children| == 0 ==> r == Err(MissingField)
    ensures r.Ok? <==> && |cell.children| > 0
                       && CellNumber(cell.children[0], "jalali").Ok?
                       && CellNumber(cell.children[0], "miladi").Ok?
                       && CellNumber(cell.children[0], "qamari").Ok?
    ensures r.Err? && |cell.children| > 0 ==>
              r.error == if CellNumber(cell.children[0], "jalali").Err? then CellNumber(cell.children[0], "jalali").error
                         else if CellNumber(cell.children[0], "miladi").Err? then CellNumber(cell.children[0], "miladi").error
                         else CellNumber(cell.children[0], "qamari").error
    ensures r.Ok? ==> && (r.value.isDisabled <==> HasAttr(cell.attrs, Exact("class"), Contains("disabled")))
                      && (r.value.isToday <==> TodayClass(cell.attrs))
                      && (r.value.isHoliday <==> HasAttr(cell.children[0].attrs, Exact("class"), Contains("holiday")))
    ensures r.Ok? ==> && CellNumber(cell.children[0], "jalali") == Ok(r.value.solar)
                      && CellNumber(cell.children[0], "miladi") == Ok(r.value.gregorian)
                      && CellNumber(cell.children[0], "qamari") == Ok(r.value.qamari)
  {
    if |cell.children| == 0 then Err(MissingField)
    else
      var info := cell.children[0];
      var solar :- CellNumber(info, "jalali");
      var gregorian :- CellNumber(info, "miladi");
      var qamari :- CellNumber(info, "qamari");
      Ok(Day(HasAttr(cell.attrs, Exact("class"), Contains("disabled")),
             TodayClass(cell.attrs),
             HasAttr(info.attrs, Exact("class"), Contains("holiday")),
             solar, gregorian, qamari))
  }

  /** `parse_day`: `None` for a line break, otherwise the cell's `Day`. */
  function DayOfCell(cell: Node): (r: Result<Option<Day>>)
    ensures cell.tag == "br" <==> r == Ok(None)
    ensures cell.tag != "br" ==> match CellDay(cell)
                                  case Ok(d) => r == Ok(Some(d))
                                  case Err(e) => r == Err(e)
  {
    if cell.tag == "br" then Ok(None)
    else
      var d :- CellDay(cell);
      Ok(Some(d))
  }

  /** The holiday loop of `parse_day`: does some `class` attribute contain `needle`? */
  method ScanClass(attrs: seq<(string, string)>, needle: string) returns (found: bool)
    ensures found == HasAttr(attrs, Exact("class"), Contains(needle))
  {
    found := false;
    var i := 0;
    while i < |attrs|
      invariant 0 <= i <= |attrs|
      invariant found <==> exists k :: 0 <= k < i && attrs[k].0 == "class" && Text.Contains(attrs[k].1, needle)
    {
      var (attr, value) := attrs[i];
      if attr == "class" && Text.Contains(value, needle) {
        found := true;
      }
      i := i + 1;
    }
  }

  /** The day number under `info`, with `transform_number` run as its loop. */
  method ReadNumber(info: Node, needle: string) returns (r: Result<string>)
    ensures r == CellNumber(info, needle)
  {
    var found := SearchNode(info, "div", ClassAttr, Contains(needle));
    if found.Err? {
      return Err(found.error);
    }
    if found.value.text.None? {
      return Err(MissingText);
    }
    r := TransformNumber(found.value.text.value);
  }

  /** `parse_day` step by step: the two flag loops, then the three numbers in order. */
  method ParseDay(cell: Node) returns (r: Result<Option<Day>>)
    ensures r == DayOfCell(cell)
  {
    if cell.tag == "br" {
      return Ok(None);
    }
    var isDisabled := false;
    var isToday := false;
    var i := 0;
    while i < |cell.attrs|
      invariant 0 <= i <= |cell.attrs|
      invariant isDisabled <==> exists k :: 0 <= k < i && cell.attrs[k].0 == "class" && Text.Contains(cell.attrs[k].1, "disabled")
      invariant isToday == TodayClass(cell.attrs[..i])
    {
      var (attr, value) := cell.attrs[i];
      assert cell.attrs[..i + 1][..i] == cell.attrs[..i];
      if attr == "class" {
        if Text.Contains(value, "disabled") {
          isDisabled := true;
        } else if Text.Contains(value, "today") {
          isToday := true;
        }
      }
      i := i + 1;
    }
    assert cell.attrs[..i] == cell.attrs;
    if |cell.children| == 0 {
      return Err(MissingField);
    }
    var info := cell.children[0];
    var isHoliday := ScanClass(info.attrs, "holiday");
    var solar := ReadNumber(info, "jalali");
    if solar.Err? {
      return Err(solar.error);
    }
    var gregorian := ReadNumber(info, "miladi");
    if gregorian.Err? {
      return Err(gregorian.error);
    }
    var qamari := ReadNumber(info, "qamari");
    if qamari.Err? {
      return Err(qamari.error);
    }
    assert isDisabled == HasAttr(cell.attrs, Exact("class"), Contains("disabled"));
    var day := Day(isDisabled, isToday, isHoliday, solar.value, gregorian.value, qamari.value);
    assert CellDay(cell) == Ok(day);
    return Ok(Some(day));
  }

  /**
   * With one `class` attribute, as an attribute dictionary has, a day is
   * never both disabled and today.
   */
  lemma DayFlagsExclusive(cell: Node)
    requires forall i, j :: 0 <= i < j < |cell.attrs| ==> cell.attrs[i].0 != cell.attrs[j].0
    ensures CellDay(cell).Ok? ==> !(CellDay(cell).value.isDisabled && CellDay(cell).value.isToday)
  {
    DisabledIsNotToday(cell.attrs);
  }

  /** With attribute names distinct, a class that contains "disabled" rules out the "today" flag. */
  lemma DisabledIsNotToday(attrs: seq<(string, string)>)
    requires forall i, j :: 0 <= i < j < |attrs| ==> attrs[i].0 != attrs[j].0
    ensures HasAttr(attrs, Exact("class"), Contains("disabled")) ==> !TodayClass(attrs)
  {
    if HasAttr(attrs, Exact("class"), Contains("disabled")) {
      var i :| 0 <= i < |attrs| && Matches(Exact("class"), attrs[i].0) && Matches(Contains("disabled"), attrs[i].1);
      forall j | 0 <= j < |attrs| && attrs[j].0 == "class" ensures Text.Contains(attrs[j].1, "disabled") {
        assert j == i;
      }
    }
  }

  /** The grid cells that are not line breaks, in order. */
  function NonBreaks(cells: seq<Node>): (r: seq<Node>)
    ensures |r| <= |cells|
    ensures forall k :: 0 <= k < |r| ==> r[k].tag != "br"
  {
    if |cells| == 0 then []
    else if cells[0].tag == "br" then NonBreaks(cells[1..])
    else [cells[0]] + NonBreaks(cells[1..])
  }

  /**
   * The comprehension of `find_calendar`, for any per-cell parser: the
   * parser's result for every cell that is not a line break, in order,
   * stopping at the first failure.
   */
  function ParseCells(cells: seq<Node>, parse: Node -> Result<Day>): (r: Result<seq<Day>>)
    ensures r.Ok? ==> |r.value| <= |cells|
  {
    if |cells| == 0 then Ok([])
    else if cells[0].tag == "br" then ParseCells(cells[1..], parse)
    else
      var first :- parse(cells[0]);
      var rest :- ParseCells(cells[1..], parse);
      Ok([first] + rest)
  }

  /** A cell is kept exactly when it is one of the children and not a line break. */
  lemma {:induction false} NonBreaksKeeps(cells: seq<Node>)
    ensures forall c :: c in NonBreaks(cells) <==> c in cells && c.tag != "br"
  {
    if |cells| > 0 {
      NonBreaksKeeps(cells[1..]);
      assert cells == [cells[0]] + cells[1..];
    }
  }

  /** A single cell is kept exactly when it is not a line break. */
  lemma NonBreaksOne(c: Node)
    ensures NonBreaks([c]) == if c.tag == "br" then [] else [c]
  {
    assert [c][1..] == [];
  }

  /**
   * The filter distributes over concatenation; with `NonBreaksOne` this
   * fixes it: every cell that is not a line break is kept, in order.
   */
  lemma {:induction false} NonBreaksAppend(a: seq<Node>, b: seq<Node>)
    ensures NonBreaks(a + b) == NonBreaks(a) + NonBreaks(b)
    decreases |a|
  {
    if |a| == 0 {
      assert a + b == b;
    } else {
      assert (a + b)[0] == a[0] && (a + b)[1..] == a[1..] + b;
      NonBreaksAppend(a[1..], b);
    }
  }

  lemma NonBreaksCons(cells: seq<Node>)
    requires |cells| > 0
    ensures cells[0].tag == "br" ==> NonBreaks(cells) == NonBreaks(cells[1..])
    ensures cells[0].tag != "br" ==> && NonBreaks(cells) == [cells[0]] + NonBreaks(cells[1..])
                                     && forall k :: 0 <= k < |NonBreaks(cells[1..])| ==> NonBreaks(cells)[k + 1] == NonBreaks(cells[1..])[k]
  {
  }

  /** The comprehension yields a list exactly when every cell that is not a line break parses. */
  lemma {:induction false} ParseCellsSucceeds(cells: seq<Node>, parse: Node -> Result<Day>)
    ensures ParseCells(cells, parse).Ok? <==> forall k :: 0 <= k < |NonBreaks(cells)| ==> parse(NonBreaks(cells)[k]).Ok?
  {
    if |cells| > 0 {
      ParseCellsSucceeds(cells[1..], parse);
      NonBreaksCons(cells);
      if cells[0].tag != "br" {
        var all := NonBreaks(cells);
        var later := NonBreaks(cells[1..]);
        if ParseCells(cells, parse).Ok? {
          forall k | 0 <= k < |all| ensures parse(all[k]).Ok? {
            if k > 0 {
              assert all[k] == later[k - 1];
            }
          }
        } else if parse(cells[0]).Ok? {
          assert ParseCells(cells[1..], parse).Err?;
          var k :| 0 <= k < |later| && !parse(later[k]).Ok?;
          assert all[k + 1] == later[k];
          assert !parse(all[k + 1]).Ok?;
        } else {
          assert !parse(all[0]).Ok?;
        }
      }
    }
  }

  /** One result per cell that is not a line break, in document order. */
  lemma {:induction false} ParseCellsOnePerCell(cells: seq<Node>, parse: Node -> Result<Day>)
    requires ParseCells(cells, parse).Ok?
    ensures |ParseCells(cells, parse).value| == |NonBreaks(cells)|
    ensures forall k :: 0 <= k < |NonBreaks(cells)| ==> parse(NonBreaks(cells)[k]) == Ok(ParseCells(cells, parse).value[k])
  {
    if |cells| > 0 {
      ParseCellsOnePerCell(cells[1..], parse);
      NonBreaksCons(cells);
    }
  }

  /** When some cell fails, the error is that of the first failing cell. */
  lemma {:induction false} ParseCellsFirstError(cells: seq<Node>, parse: Node -> Result<Day>)
    requires ParseCells(cells, parse).Err?
    ensures exists k :: (0 <= k < |NonBreaks(cells)| && parse(NonBreaks(cells)[k]) == Err(ParseCells(cells, parse).error)
                         && forall j :: 0 <= j < k ==> parse(NonBreaks(cells)[j]).Ok?)
  {
    NonBreaksCons(cells);
    var all := NonBreaks(cells);
    var e := ParseCells(cells, parse).error;
    if cells[0].tag == "br" {
      assert ParseCells(cells, parse) == ParseCells(cells[1..], parse);
      ParseCellsFirstError(cells[1..], parse);
    } else if parse(cells[0]).Err? {
      assert parse(all[0]) == Err(e);
    } else {
      assert ParseCells(cells[1..], parse) == Err(e);
      ParseCellsFirstError(cells[1..], parse);
      var later := NonBreaks(cells[1..]);
      var k :| 0 <= k < |later| && parse(later[k]) == Err(e) && forall j :: 0 <= j < k ==> parse(later[j]).Ok?;
      FirstErrorShift(cells, parse, e, k);
    }
  }

  /** A first failure among the later cells stays the first once an ordinary first cell that parses is put before them. */
  lemma FirstErrorShift(cells: seq<Node>, parse: Node -> Result<Day>, e: Error, k: nat)
    requires |cells| > 0 && cells[0].tag != "br" && parse(cells[0]).Ok?
    requires k < |NonBreaks(cells[1..])| && parse(NonBreaks(cells[1..])[k]) == Err(e)
    requires forall j :: 0 <= j < k ==> parse(NonBreaks(cells[1..])[j]).Ok?
    ensures k + 1 < |NonBreaks(cells)| && parse(NonBreaks(cells)[k + 1]) == Err(e)
    ensures forall j :: 0 <= j < k + 1 ==> parse(NonBreaks(cells)[j]).Ok?
  {
    NonBreaksCons(cells);
    var all := NonBreaks(cells);
    var later := NonBreaks(cells[1..]);
    forall j | 0 <= j < k + 1 ensures parse(all[j]).Ok? {
      if j > 0 {
        assert all[j] == later[j - 1];
      }
    }
  }

  /**
   * `find_calendar`: down through six nested elements to the dayList, each
   * missing one raising its own `TagNotFound`, then one `Day` per cell that
   * is not a line break, as `ParseCells` with `CellDay` gives them.
   */
  function FindCalendar(body: Node): (r: Result<seq<Day>>)
    ensures match SearchNode(body, "div", ClassAttr, Exact("topWrapper"))
            case Err(_) => r == Err(TagNotFound("div", ClassAttr, Exact("topWrapper")))
            case Ok(top) =>
              match SearchNode(top, "div", ClassAttr, Contains("calendarWrapper"))
              case Err(_) => r == Err(TagNotFound("div", ClassAttr, Contains("calendarWrapper")))
              case Ok(wrapper) =>
                match SearchNode(wrapper, "div", Some(Exact("id")), Contains("CalendarContainer"))
                case Err(_) => r == Err(TagNotFound("div", Some(Exact("id")), Contains("CalendarContainer")))
                case Ok(container) =>
                  match SearchNode(container, "div", ClassAttr, Exact("eventCalendar"))
                  case Err(_) => r == Err(TagNotFound("div", ClassAttr, Exact("eventCalendar")))
                  case Ok(events) =>
                    match SearchNode(events, "div", ClassAttr, Exact("mainCalendar"))
                    case Err(_) => r == Err(TagNotFound("div", ClassAttr, Exact("mainCalendar")))
                    case Ok(main) =>
                      match SearchNode(main, "div", ClassAttr, Exact("dayList"))
                      case Err(_) => r == Err(TagNotFound("div", ClassAttr, Exact("dayList")))
                      case Ok(dayList) => r == ParseCells(dayList.children, CellDay)
    ensures r.Ok? ==> forall k :: 0 <= k < |r.value| ==>
              && AllAsciiDigits(r.value[k].solar) && |r.value[k].solar| >= 2
              && AllAsciiDigits(r.value[k].gregorian) && |r.value[k].gregorian| >= 2
              && AllAsciiDigits(r.value[k].qamari) && |r.value[k].qamari| >= 2
  {
    var top :- SearchNode(body, "div", ClassAttr, Exact("topWrapper"));
    var wrapper :- SearchNode(top, "div", ClassAttr, Contains("calendarWrapper"));
    var container :- SearchNode(wrapper, "div", Some(Exact("id")), Contains("CalendarContainer"));
    var events :- SearchNode(container, "div", ClassAttr, Exact("eventCalendar"));
    var main :- SearchNode(events, "div", ClassAttr, Exact("mainCalendar"));
    var dayList :- SearchNode(main, "div", ClassAttr, Exact("dayList"));
    var days := ParseCells(dayList.children, CellDay);
    if days.Ok? then
      ParseCellsOnePerCell(dayList.children, CellDay);
      days
    else days
  }

  // ---------------------------------------------------------------- quote

  /**
   * `find_quote`: inside the randomQuote block, the text of the first `a`
   * whose class contains "quoteAuthor" and of the first `span` whose class
   * contains "quoteText"; a missing text stays `None`.
   */
  function FindQuote(body: Node): (r: Result<Quote>)
    ensures r.Err? ==> r.error.TagNotFound?
    ensures match SearchNode(body, "div", ClassAttr, Exact("topWrapper"))
            case Err(_) => r == Err(TagNotFound("div", ClassAttr, Exact("topWrapper")))
            case Ok(top) =>
              match SearchNode(top, "div", ClassAttr, Exact("randomQuote"))
              case Err(_) => r == Err(TagNotFound("div", ClassAttr, Exact("randomQuote")))
              case Ok(block) =>
                match (SearchNode(block, "a", ClassAttr, Contains("quoteAuthor")), SearchNode(block, "span", ClassAttr, Contains("quoteText")))
                case (Err(_), _) => r == Err(TagNotFound("a", ClassAttr, Contains("quoteAuthor")))
                case (Ok(_), Err(_)) => r == Err(TagNotFound("span", ClassAttr, Contains("quoteText")))
                case (Ok(author), Ok(text)) => r == Ok(Quote(author.text, text.text))
  {
    var top :- SearchNode(body, "div", ClassAttr, Exact("topWrapper"));
    var block :- SearchNode(top, "div", ClassAttr, Exact("randomQuote"));
    var author :- SearchNode(block, "a", ClassAttr, Contains("quoteAuthor"));
    var text :- SearchNode(block, "span", ClassAttr, Contains("quoteText"));
    Ok(Quote(author.text, text.text))
  }
}
