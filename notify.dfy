/**
 * The desktop notifications of bin/crawler.py: the reading-time estimate of
 * a quote, the guard that drops a notification with a missing argument, and
 * the choice of the holiday message from the two days after today.
 */
module Notify {
  import opened Markup
  import opened Text
  import opened Records

  // ---------------------------------------------------------------- reading time

  /** The time one word adds: 50 per character, plus 200, 300 or 500 by length. */
  function WordTime(word: string): (t: int)
    ensures t >= 200 + 50 * |word|
    ensures t == 200 <==> word == ""
  {
    var bonus := if 3 < |word| < 8 then 300 else if |word| > 7 then 500 else 200;
    50 * |word| + bonus
  }

  /** The time of a run of words. */
  function WordsTime(words: seq<string>): int {
    if |words| == 0 then 0 else WordsTime(words[..|words| - 1]) + WordTime(words[|words| - 1])
  }

  /** The time of one '.'-sentence: its ' '-words and 50 for the sentence itself. */
  function SentenceTime(sentence: string): int {
    WordsTime(Split(sentence, ' ')) + 50
  }

  /** The time of a run of sentences. */
  function SentencesTime(sentences: seq<string>): int {
    if |sentences| == 0 then 0 else SentencesTime(sentences[..|sentences| - 1]) + SentenceTime(sentences[|sentences| - 1])
  }

  /** The estimate `_detect_time` computes for a text, in milliseconds. */
  function ReadingTime(text: string): int {
    SentencesTime(Split(text, '.'))
  }

  /** `_detect_time`: `None` for no text, otherwise the nested loops over sentences, words and characters. */
  method DetectTime(text: Option<string>) returns (t: Option<int>)
    ensures text.None? ==> t.None?
    ensures text.Some? ==> t == Some(ReadingTime(text.value))
  {
    if text.None? {
      return None;
    }
    var time := 0;
    var sentences := Split(text.value, '.');
    var i := 0;
    while i < |sentences|
      invariant 0 <= i <= |sentences|
      invariant time == SentencesTime(sentences[..i])
    {
      var words := Split(sentences[i], ' ');
      var j := 0;
      while j < |words|
        invariant 0 <= j <= |words|
        invariant time == SentencesTime(sentences[..i]) + WordsTime(words[..j])
      {
        var word := words[j];
        var c := 0;
        while c < |word|
          invariant 0 <= c <= |word|
          invariant time == SentencesTime(sentences[..i]) + WordsTime(words[..j]) + 50 * c
        {
          time := time + 50;
          c := c + 1;
        }
        var len := |word|;
        if 3 < len < 8 {
          time := time + 300;
        } else if len > 7 {
          time := time + 500;
        } else {
          time := time + 200;
        }
        assert words[..j + 1][..j] == words[..j];
        j := j + 1;
      }
      time := time + 50;
      assert words[..j] == words;
      assert sentences[..i + 1][..i] == sentences[..i];
      i := i + 1;
    }
    assert sentences[..i] == sentences;
    return Some(time);
  }

  lemma {:induction false} WordsTimeAtLeast(words: seq<string>)
    ensures WordsTime(words) >= 200 * |words|
    decreases |words|
  {
    if |words| > 0 {
      WordsTimeAtLeast(words[..|words| - 1]);
    }
  }

  lemma {:induction false} SentencesTimeAtLeast(sentences: seq<string>)
    ensures SentencesTime(sentences) >= 250 * |sentences|
    decreases |sentences|
  {
    if |sentences| > 0 {
      SentencesTimeAtLeast(sentences[..|sentences| - 1]);
      WordsTimeAtLeast(Split(sentences[|sentences| - 1], ' '));
    }
  }

  /** Every text takes at least 250, and only the empty text takes exactly 250. */
  lemma ReadingTimeBounds(text: string)
    ensures ReadingTime(text) >= 250
    ensures ReadingTime(text) == 250 <==> text == ""
  {
    var sentences := Split(text, '.');
    SentencesTimeAtLeast(sentences);
    if |sentences| == 1 {
      SplitSingle(text, '.');
      assert sentences[..0] == [];
      var words := Split(text, ' ');
      WordsTimeAtLeast(words);
      if |words| == 1 {
        SplitSingle(text, ' ');
        assert words[..0] == [];
      } else {
        assert text != "";
      }
    } else {
      assert text != "";
    }
  }

  // ---------------------------------------------------------------- the None guard

  /** The argument values when none of them is `None`. */
  function Present(arguments: seq<Option<string>>): (r: Option<seq<string>>)
    ensures r.None? <==> exists i :: 0 <= i < |arguments| && arguments[i].None?
    ensures r.Some? ==> |r.value| == |arguments| && forall i :: 0 <= i < |arguments| ==> arguments[i] == Some(r.value[i])
  {
    if |arguments| == 0 then Some([])
    else if arguments[0].None? then None
    else
      match Present(arguments[1..])
      case None => None
      case Some(rest) => Some([arguments[0].value] + rest)
  }

  /**
   * `Notify.notify`: the command line it would run, or `None` when some
   * argument is `None` and nothing is run.
   */
  function NotifyCommand(command: string, arguments: seq<Option<string>>): (r: Option<seq<string>>)
    ensures r.None? <==> exists i :: 0 <= i < |arguments| && arguments[i].None?
    ensures r.Some? ==> && |r.value| == |arguments| + 1 && r.value[0] == command
                        && forall i :: 0 <= i < |arguments| ==> arguments[i] == Some(r.value[i + 1])
  {
    match Present(arguments)
    case None => None
    case Some(values) => Some([command] + values)
  }

  // ---------------------------------------------------------------- the two next days

  /** The index of the first day marked today, or the length when there is none. */
  function FirstToday(days: seq<Day>): (i: nat)
    ensures i <= |days|
    ensures i < |days| ==> days[i].isToday
    ensures forall j :: 0 <= j < i ==> !days[j].isToday
  {
    if |days| == 0 then 0
    else if days[0].isToday then 0
    else 1 + FirstToday(days[1..])
  }

  /** The days not marked today, in order. */
  function NotToday(days: seq<Day>): (r: seq<Day>)
    ensures forall k :: 0 <= k < |r| ==> !r[k].isToday
    ensures |r| <= |days|
  {
    if |days| == 0 then []
    else NotToday(days[..|days| - 1]) + (if days[|days| - 1].isToday then [] else [days[|days| - 1]])
  }

  /** A day is kept exactly when it is one of the days and not marked today. */
  lemma {:induction false} NotTodayKeeps(days: seq<Day>)
    ensures forall d :: d in NotToday(days) <==> d in days && !d.isToday
  {
    if |days| > 0 {
      var init := days[..|days| - 1];
      NotTodayKeeps(init);
      assert days == init + [days[|days| - 1]];
    }
  }

  /** A single day is kept exactly when it is not today. */
  lemma NotTodayOne(d: Day)
    ensures NotToday([d]) == if d.isToday then [] else [d]
  {
    assert [d][..0] == [];
  }

  /**
   * The filter distributes over concatenation; with `NotTodayOne` this fixes
   * it: every day not marked today is kept, in order.
   */
  lemma {:induction false} NotTodayAppend(a: seq<Day>, b: seq<Day>)
    ensures NotToday(a + b) == NotToday(a) + NotToday(b)
    decreases |b|
  {
    if |b| > 0 {
      assert (a + b)[..|a + b| - 1] == a + b[..|b| - 1];
      NotTodayAppend(a, b[..|b| - 1]);
    } else {
      assert a + b == a;
    }
  }

  /**
   * The two days after today: the first two days past the first day marked
   * today that are not themselves marked today.
   */
  function NextTwoDays(days: seq<Day>): (Option<Day>, Option<Day>) {
    var t := FirstToday(days);
    if t == |days| then (None, None)
    else
      var after := NotToday(days[t + 1..]);
      (if |after| > 0 then Some(after[0]) else None, if |after| > 1 then Some(after[1]) else None)
  }

  /** Extending a stretch of days by one day extends its non-today days by at most that day. */
  lemma NotTodayStep(days: seq<Day>, from: nat, i: nat)
    requires from <= i < |days|
    ensures NotToday(days[from..i + 1]) == NotToday(days[from..i]) + (if days[i].isToday then [] else [days[i]])
  {
    assert days[from..i + 1][..i - from] == days[from..i];
  }

  /**
   * What the loop of `_find_two_next_days` knows after the first `i` days,
   * today being at `t`: at most one later day seen, and `day1` is that day.
   */
  predicate Tracks(days: seq<Day>, t: nat, i: nat, day1: Option<Day>) {
    t < i <= |days|
    && var seen := NotToday(days[t + 1..i]);
       |seen| <= 1 && day1 == (if |seen| == 1 then Some(seen[0]) else None)
  }

  lemma TracksStart(days: seq<Day>, t: nat)
    requires t < |days|
    ensures Tracks(days, t, t + 1, None)
  {
    assert days[t + 1..t + 1] == [];
  }

  lemma TracksSkip(days: seq<Day>, t: nat, i: nat, day1: Option<Day>)
    requires Tracks(days, t, i, day1) && i < |days| && days[i].isToday
    ensures Tracks(days, t, i + 1, day1)
  {
    NotTodayStep(days, t + 1, i);
  }

  lemma TracksTake(days: seq<Day>, t: nat, i: nat)
    requires Tracks(days, t, i, None) && i < |days| && !days[i].isToday
    ensures Tracks(days, t, i + 1, Some(days[i]))
  {
    NotTodayStep(days, t + 1, i);
  }

  lemma NotTodaySplit(days: seq<Day>, from: nat, i: nat)
    requires from <= i <= |days|
    ensures NotToday(days[from..]) == NotToday(days[from..i]) + NotToday(days[i..])
  {
    assert days[from..] == days[from..i] + days[i..];
    NotTodayAppend(days[from..i], days[i..]);
  }

  lemma TracksSecond(days: seq<Day>, t: nat, i: nat, day: Day)
    requires Tracks(days, t, i, Some(day)) && i < |days| && !days[i].isToday
    ensures var after := NotToday(days[t + 1..]); |after| >= 2 && after[0] == day && after[1] == days[i]
  {
    NotTodayStep(days, t + 1, i);
    NotTodaySplit(days, t + 1, i + 1);
  }

  lemma TracksEnd(days: seq<Day>, t: nat, day1: Option<Day>)
    requires Tracks(days, t, |days|, day1)
    ensures var after := NotToday(days[t + 1..]); |after| <= 1 && day1 == (if |after| == 1 then Some(after[0]) else None)
  {
    assert days[t + 1..|days|] == days[t + 1..];
  }

  /** `_find_two_next_days`: one pass that skips today, then takes two days and stops. */
  method FindTwoNextDays(days: seq<Day>) returns (day1: Option<Day>, day2: Option<Day>)
    ensures (day1, day2) == NextTwoDays(days)
  {
    day1 := None;
    day2 := None;
    var foundToday := false;
    ghost var t := FirstToday(days);
    var i := 0;
    while i < |days|
      invariant 0 <= i <= |days|
      invariant foundToday <==> t < i
      invariant !foundToday ==> day1.None? && day2.None?
      invariant foundToday ==> day2.None? && Tracks(days, t, i, day1)
    {
      var day := days[i];
      if day.isToday {
        if foundToday {
          TracksSkip(days, t, i, day1);
        } else {
          TracksStart(days, t);
        }
        foundToday := true;
        i := i + 1;
        continue;
      }
      if foundToday {
        if day1.Some? {
          day2 := Some(day);
          TracksSecond(days, t, i, day1.value);
          break;
        }
        TracksTake(days, t, i);
        day1 := Some(day);
      }
      i := i + 1;
    }
    if i == |days| && foundToday {
      TracksEnd(days, t, day1);
    }
  }

  /** With no day marked today there is no next day. */
  lemma NoTodayNoNextDays(days: seq<Day>)
    requires forall k :: 0 <= k < |days| ==> !days[k].isToday
    ensures NextTwoDays(days) == (None, None)
  {
  }

  /**
   * When the two cells after the first "today" are ordinary days, they are
   * tomorrow and the day after.
   */
  lemma NextTwoDaysFollowToday(days: seq<Day>, t: nat)
    requires t + 2 < |days| && days[t].isToday && forall j :: 0 <= j < t ==> !days[j].isToday
    requires !days[t + 1].isToday && !days[t + 2].isToday
    ensures NextTwoDays(days) == (Some(days[t + 1]), Some(days[t + 2]))
  {
    assert FirstToday(days) == t;
    var rest := days[t + 1..];
    assert rest == [days[t + 1], days[t + 2]] + days[t + 3..];
    NotTodayAppend([days[t + 1], days[t + 2]], days[t + 3..]);
    var pair := [days[t + 1], days[t + 2]];
    assert pair == [days[t + 1]] + [days[t + 2]];
    NotTodayAppend([days[t + 1]], [days[t + 2]]);
    NotTodayOne(days[t + 1]);
    NotTodayOne(days[t + 2]);
  }

  // ---------------------------------------------------------------- holiday message

  const BothHolidays: string := "فردا و پس فردا تعطیل هستند"
  const TomorrowHoliday: string := "فردا تعطیل است"
  const DayAfterHoliday: string := "پس فردا تعطیل است"

  predicate IsHoliday(day: Option<Day>) {
    day.Some? && day.value.isHoliday
  }

  /** The message of `NotifyHolidays`: which of the next two days is a holiday, if any. */
  function HolidayText(day1: Option<Day>, day2: Option<Day>): (r: Option<string>)
    ensures r == Some(BothHolidays) <==> IsHoliday(day1) && IsHoliday(day2)
    ensures r == Some(TomorrowHoliday) <==> IsHoliday(day1) && !IsHoliday(day2)
    ensures r == Some(DayAfterHoliday) <==> !IsHoliday(day1) && IsHoliday(day2)
    ensures r.None? <==> !IsHoliday(day1) && !IsHoliday(day2)
  {
    if IsHoliday(day1) && IsHoliday(day2) then Some(BothHolidays)
    else if IsHoliday(day1) then Some(TomorrowHoliday)
    else if IsHoliday(day2) then Some(DayAfterHoliday)
    else None
  }

  /** The arguments `NotifyHolidays` hands to `notify-send`. */
  function HolidayArguments(days: seq<Day>): (r: seq<Option<string>>)
    ensures |r| == 4 && r[0] == Some("-t") && r[1] == Some("5000") && r[2] == Some("time.ir")
    ensures r[3].Some? <==> IsHoliday(NextTwoDays(days).0) || IsHoliday(NextTwoDays(days).1)
  {
    var (day1, day2) := NextTwoDays(days);
    [Some("-t"), Some("5000"), Some("time.ir"), HolidayText(day1, day2)]
  }

  /**
   * The holiday notification is sent exactly when one of the two days after
   * today is a holiday, and then as `notify-send -t 5000 time.ir <message>`.
   */
  lemma HolidayNotifySkipped(days: seq<Day>)
    ensures var (day1, day2) := NextTwoDays(days);
            var command := NotifyCommand("notify-send", HolidayArguments(days));
            && (command.None? <==> !IsHoliday(day1) && !IsHoliday(day2))
            && (command.Some? ==> command.value == ["notify-send", "-t", "5000", "time.ir", HolidayText(day1, day2).value])
  {
    var (day1, day2) := NextTwoDays(days);
    var arguments := HolidayArguments(days);
    var command := NotifyCommand("notify-send", arguments);
    if command.Some? {
      assert arguments[3] == Some(command.value[4]);
    } else {
      var i :| 0 <= i < |arguments| && arguments[i].None?;
    }
  }
}
