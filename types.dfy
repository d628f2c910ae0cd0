/** The records of types.ts. */
module Types {
  import opened Wrappers
  import opened JsDate

  /** One cell of a month grid. */
  datatype DayData = DayData(
    date: Date,
    isCurrentMonth: bool,
    isToday: bool,
    dayOfMonth: int,
    hijriDate: string,
    javaneseDate: string,
    chineseDate: string,
    holiday: Option<string>,
    isWeekend: bool)

  datatype FontFamily = Sans | Serif | Mono
  datatype Layout = Classic | Elegant | Poster | Planner | Wall | Side | Minimal | FullYear
  datatype Orientation = Portrait | Landscape
  datatype OverlayColor = Black | White
  datatype ImagePosition = Top | Center | Bottom
  datatype ImageFit = Cover | Contain

  /** A key of `bgImages`: the string form of a month index, or 'default'. */
  datatype BgKey = MonthKey(index: int) | DefaultKey

  /** The style and content settings of the poster. `None` in `bgImages`
      stands for a `null` entry. */
  datatype CalendarConfig = CalendarConfig(
    bgColor: string,
    bgImages: map<BgKey, Option<string>>,
    textColor: string,
    titleColor: string,
    fontFamily: FontFamily,
    layout: Layout,
    orientation: Orientation,
    overlayOpacity: real,
    overlayColor: OverlayColor,
    showHijri: bool,
    showJavanese: bool,
    showChinese: bool,
    showHolidays: bool,
    titleText: string,
    imagePosition: ImagePosition,
    imageFit: ImageFit,
    borderRadius: real,
    gridGap: real,
    shadowIntensity: real,
    fontScale: real)
}
