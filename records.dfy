/**
 * The records the extractors build: the namedtuples of tir/tir.py, with the
 * `season_name` field that the date extractor passes added to `Date`.
 */
module Records {
  import opened Markup

  /** A date as shown on the page: every field a string of ASCII digits or a name. */
  datatype Date = Date(
    year: string,
    season: string,
    seasonName: string,
    month: string,
    monthName: string,
    day: string,
    weekday: string)

  /** One cell of the month grid. */
  datatype Day = Day(
    isDisabled: bool,
    isToday: bool,
    isHoliday: bool,
    solar: string,
    gregorian: string,
    qamari: string)

  /** The quote of the day; lxml gives `None` for a missing text. */
  datatype Quote = Quote(author: Option<string>, text: Option<string>)

  /** The dictionary `find_dates` returns, keyed 'solar' and 'gregorian'. */
  datatype TodayDates = TodayDates(solar: Date, gregorian: Date)
}
