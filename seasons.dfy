/**
 * `find_season` of tir/tir.py: the season of a month number, with solar
 * seasons starting at months 1, 4, 7 and 10 and gregorian (meteorological)
 * ones at 3, 6, 9 and 12.
 */
module Seasons {

  /** The season names, solar name first, gregorian name second. */
  const SeasonTable: seq<(string, string)> := [
    ("Bahar", "Spring"),
    ("Tabestan", "Summer"),
    ("Pa'eez", "Autumn"),
    ("Zemestan", "Winter")
  ]

  /** The if/elif chain: the two-digit season number of `month`. */
  function SeasonNumber(month: int, kind: string): (r: string)
    ensures r == ['0', "1234"[SeasonIndex(month, kind) - 1]]
  {
    if kind == "solar" then
      if 0 < month < 4 then "01"
      else if 3 < month < 7 then "02"
      else if 6 < month < 10 then "03"
      else "04"
    else
      if 2 < month < 6 then "01"
      else if 5 < month < 9 then "02"
      else if 8 < month < 12 then "03"
      else "04"
  }

  /**
   * An arithmetic statement of the same boundaries: the months of a year fall
   * into consecutive quarters counted from the first month of spring (1 for the
   * solar calendar, 3 for the gregorian one, wrapping round the year end);
   * anything that is not a month number lands in the last season.
   */
  function SeasonIndex(month: int, kind: string): (k: int)
    ensures 1 <= k <= 4
  {
    if 1 <= month <= 12 then
      if kind == "solar" then (month - 1) / 3 + 1 else ((month + 9) % 12) / 3 + 1
    else 4
  }

  /** `find_season`: the (season_name, season_number) pair. */
  function FindSeason(month: int, kind: string): (r: (string, string))
    ensures r.1 == ['0', "1234"[SeasonIndex(month, kind) - 1]]
    ensures r.0 == if kind == "solar" then SeasonTable[SeasonIndex(month, kind) - 1].0
                   else SeasonTable[SeasonIndex(month, kind) - 1].1
  {
    var number := SeasonNumber(month, kind);
    var offset := if kind == "solar" then 0 else 1;
    var row := SeasonTable[(number[1] as int - '0' as int) - 1];
    (if offset == 0 then row.0 else row.1, number)
  }

  /** Every season number is one of "01" to "04". */
  lemma SeasonNumberRange(month: int, kind: string)
    ensures FindSeason(month, kind).1 in ["01", "02", "03", "04"]
  {
  }

  /** Spring starts the solar year; winter wraps round the gregorian year end. */
  lemma SeasonExamples()
    ensures FindSeason(1, "solar") == ("Bahar", "01")
    ensures FindSeason(12, "solar") == ("Zemestan", "04")
    ensures FindSeason(3, "gregorian") == ("Spring", "01")
    ensures FindSeason(12, "gregorian") == ("Winter", "04")
    ensures FindSeason(2, "gregorian") == ("Winter", "04")
  {
  }
}
