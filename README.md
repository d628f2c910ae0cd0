# Kalender generator — a Dafny model of its calendar engine and app state

This is a Dafny model of the web app that designs Indonesian wall calendars and
exports them as PDF. Each calendar is a 42-cell month grid (Masehi dates) in
which every cell also carries:

- the Javanese market day (Pasaran),
- the fixed national holidays,
- the Hijri and Chinese dates from the host.

Around the grid sits the application state:

- the selected month and year,
- the poster settings, with one background picture per month,
- the bulk "one picture per month" fetch,
- the two-step full-year PDF export. First the twelve months' data are
  prepared; then every rendered card is captured onto a page of its own.

The project is organised as modules:

- `JsDate` (`js_date.dfy`) is the part of JavaScript's `Date` the app relies
  on:
  - a date is the triple its getters report;
  - day numbers follow ECMAScript's `DayFromYear`/`MakeDay`, so 1970-01-01 is
    day 0;
  - `MakeDate` carries months and days over;
  - `NewDate` is `new Date(y, m, d)`, including its rule that the years 0..99
    mean 1900..1999;
  - `DateUtc` is `Date.UTC`, and `WeekDay` is `getDay()`.
- `CalendarUtils` (`calendar_utils.dfy`) covers `services/calendarUtils.ts`:
  - the Pasaran cycle and the holiday table, as functions;
  - `generateCalendarGrid` as a method with its three loops;
  - `Grid`, a specification function, with the grid's properties as lemmas.
- `Types`, `Wrappers` hold the records of `types.ts` and an `Option` type.
- `AppRules` (`app_rules.dfy`) holds the pure rules of `App.tsx`:
  - the default year and month navigation;
  - `toString`, `match(/20\d\d/)`, `indexOf` and `replace`, written out, and
    the title rewrite built on them;
  - the updates of the background map;
  - the document the capture loop builds.
- `AppState` (`app.dfy`) holds the stateful parts:
  - the class `App`, with a field for each piece of React state that the
    modelled handlers and effects read or write, and a method for each of
    those handlers and effects;
  - the class `Pdf`, the jsPDF document (its pages and the name it is saved
    under).
- `View` (`view.dfy`) holds the two rules of the view that the state feeds: the
  background lookup and the page size.

Parameters stand in for the host:

- "today" is a `Date` parameter.
- The host's `Intl` calendar conversions form the `Intl` parameter. `None`
  stands for a conversion that threw.
- The image and quote services are functions to `Option<string>`. `None`
  stands for a call that threw.
- A capture of a card is an `Option<string>` inside `Wrapper`.

## Model

| member | source | states |
|---|---|---|
| JsDate.NewDate | services/calendarUtils.ts:66-67 | `new Date(y, m, d)` is a valid date whose day number is MakeDay of (y, m, d), with a year in 0..99 read as 1900 + y |
| JsDate.MakeDate | App.tsx:138-139 | `setMonth`/`setFullYear` give a valid date whose day number is MakeDay of the fields, carrying months and days over |
| JsDate.TwoDigitYears | services/calendarUtils.ts:11-12 | `new Date(y, m, d)` and `Date.UTC(y, m, d)` with y in 0..99 give the same date and time value as with y + 1900; outside 0..99 `new Date` is plain MakeDate |
| JsDate.DateUtc | services/calendarUtils.ts:11-12 | `Date.UTC(y, m, d)` is the time value of `new Date(y, m, d)` at midnight |
| JsDate.SetMonth | App.tsx:139 | `setMonth(m)` gives a valid date on day number MakeDay(year, m, day); a day 1..28 is kept and the month index is carried into the year |
| JsDate.SetFullYear | App.tsx:147 | `setFullYear(y)` gives a valid date on day number MakeDay(y, month, day), with days past the month's end carried over; a day 1..28 keeps month and day in year y, and 29 February in a year that is not leap becomes 1 March |
| JsDate.Epoch | services/calendarUtils.ts:14 | `DayFromYear(1970)` is 0, so 1 January 1970 is day 0, a Thursday |
| JsDate.YearStep | services/calendarUtils.ts:14 | `DayFromYear(y + 1)` is `DayFromYear(y)` plus the length of year y, for every year, before 1970 too |
| JsDate.WeekDay | services/calendarUtils.ts:69 | `getDay()` is in 0..6 |
| JsDate.DaysInMonth | services/calendarUtils.ts:67 | the length of a month is 28..31, and it is 29 exactly for February of a leap year |
| JsDate.DayNumberInjective | services/calendarUtils.ts:14-15 | two valid dates with the same time value are the same date |
| JsDate.AddDaysIsMakeDate | services/calendarUtils.ts:76 | moving a valid date k days on is `new Date(y, m, d + k)` with rollover |
| CalendarUtils.JsRem | services/calendarUtils.ts:18 | JavaScript `%`: the remainder is smaller than the divisor in magnitude, has the dividend's sign, and is congruent to the dividend modulo the divisor |
| CalendarUtils.AddMultiple | services/calendarUtils.ts:18-19 | adding a multiple of the divisor does not change the residue, which is what makes `index += 5` the residue of `1 + diffDays` |
| CalendarUtils.PasaranIndex | services/calendarUtils.ts:18-19 | the index is in 0..4, and adding 5 to a negative remainder gives the mathematical residue of `1 + diffDays` |
| CalendarUtils.PasaranNamesDistinct | services/calendarUtils.ts:4 | the five Pasaran names are pairwise distinct |
| CalendarUtils.WholeDays | services/calendarUtils.ts:14-15 | `Math.floor` of a difference of two midnight time values, divided by 86400000, is the difference of their day numbers |
| CalendarUtils.JavanesePasaranAsWritten | services/calendarUtils.ts:9-22 | the label as the code computes it, rebuilding both dates through `Date.UTC`, is one of the five names |
| CalendarUtils.JavanesePasaran | services/calendarUtils.ts:9-22 | the label taken from the date's own day difference to 2024-01-01 is one of the five names |
| CalendarUtils.PasaranIndexOfDate | services/calendarUtils.ts:5-22 | the reference date is day 19723, and a date's label sits at position (1 + its day number − 19723) mod 5 |
| CalendarUtils.PasaranAtReference | services/calendarUtils.ts:5-7 | 1 January 2024 is Pahing |
| CalendarUtils.PasaranPeriod | services/calendarUtils.ts:14-21 | two dates have the same label if and only if they lie a multiple of five days apart, before the reference date too |
| CalendarUtils.PasaranRepeatsEveryFiveDays | services/calendarUtils.ts:14-21 | any multiple of five days away, earlier or later, the label repeats |
| CalendarUtils.PasaranAsWrittenOutsideTwoDigitYears | services/calendarUtils.ts:11-12 | outside the years 0..99, the code as written and the corrected label agree |
| CalendarUtils.PasaranAsWrittenExactlyOutsideEarlyYearZero | services/calendarUtils.ts:9-22 | for every valid date, the code as written gives the corrected label if and only if the date is not in January or February of year 0 |
| CalendarUtils.PasaranAsWrittenInTwoDigitYears | services/calendarUtils.ts:11-19 | in the years 0..99, `Date.UTC` moves a date 693961 days on before March of year 0 and 693960 days elsewhere, so only those first two months get another label |
| JsDate.TwoDigitYearShift | services/calendarUtils.ts:11-12 | `Date.UTC` of the fields of a date in the years 0..99 is its own day number plus 693961 (January and February of year 0) or 693960 (every other day) |
| JsDate.CenturyShift | services/calendarUtils.ts:11-12 | 1900 years from year y hold 460 leap days, or 461 from year 0; years 1..99 are leap exactly when the year 1900 later is |
| CalendarUtils.AsWrittenFebruaryOfYearZero | services/calendarUtils.ts:11-19 | as written, 27 February of year 0 is labelled Wage (the label of 27 February 1900) |
| CalendarUtils.AsWrittenMarchOfYearZero | services/calendarUtils.ts:11-19 | as written, 3 March of year 0 is labelled Pon (the label of 3 March 1900) |
| CalendarUtils.PasaranOfYearZeroDays | services/calendarUtils.ts:14-19 | by their real day difference, 27 February and 3 March of year 0 are both Pon |
| CalendarUtils.PasaranAsWrittenBreaksInYearZero | services/calendarUtils.ts:11-12 | 27 February and 3 March of year 0 are five days apart, yet the code as written labels them Wage and Pon; the corrected labels are both Pon |
| CalendarUtils.PasaranAsWrittenBreaksAtYearZero | services/calendarUtils.ts:9-22 | 27 December of year -1 and 1 January of year 0 are five days apart and both Legi, but as written the second is labelled Pahing |
| CalendarUtils.YearZeroInDecemberGrid | services/calendarUtils.ts:90-121 | in the grid of December of year -1, cell 29 is the 27th and cell 34 is 1 January of year 0, so the mislabel shows on that screen |
| CalendarUtils.GetHoliday | services/calendarUtils.ts:47-63 | a holiday is returned if and only if (month, day) is one of (0,1), (4,1), (5,1), (7,17), (11,25), and each of these gets its own name: Tahun Baru Masehi, Hari Buruh, Hari Lahir Pancasila, HUT RI, Hari Natal |
| CalendarUtils.HolidayIgnoresYear | services/calendarUtils.ts:47-63 | the holiday of a date does not depend on its year |
| CalendarUtils.GetHijriDate | services/calendarUtils.ts:24-33 | the host's Hijri date, or "" when the host throws |
| CalendarUtils.GetChineseDate | services/calendarUtils.ts:35-44 | the host's Chinese date, or "" when the host throws |
| CalendarUtils.LeadingDays | services/calendarUtils.ts:69 | the number of padding days is the weekday of the 1st, in 0..6 |
| CalendarUtils.MonthLength | services/calendarUtils.ts:67 | the number of days in the month is 28..31 |
| CalendarUtils.Grid | services/calendarUtils.ts:107-108 | the grid has exactly 42 cells |
| CalendarUtils.FirstOfMonthIs | services/calendarUtils.ts:66 | `new Date(year, month, 1)` is the 1st of the month the index names, rolled over into the next or previous year |
| CalendarUtils.MonthEnd | services/calendarUtils.ts:67 | `new Date(year, month + 1, 0)` is the last day of the month, so its day is the month's length |
| CalendarUtils.PrevMonthEnd | services/calendarUtils.ts:74 | `new Date(year, month, 0)` is the last day of the previous month |
| CalendarUtils.LeadingCellDate | services/calendarUtils.ts:75-76 | the day built for padding index i is the date of grid cell lead − 1 − i |
| CalendarUtils.MonthCellDate | services/calendarUtils.ts:92-93 | `new Date(year, month, i)` is day i of the month, the date of grid cell lead + i − 1 |
| CalendarUtils.TrailingCellDate | services/calendarUtils.ts:109-110 | `new Date(year, month + 1, i)` is the date of grid cell lead + dim + i − 1, and its day is i |
| CalendarUtils.LeadingRecord | services/calendarUtils.ts:75-87 | the record pushed for padding index i is grid cell lead − 1 − i |
| CalendarUtils.MonthRecord | services/calendarUtils.ts:92-104 | the record pushed for day i, with today's flag set by comparing the three fields, is grid cell lead + i − 1 |
| CalendarUtils.TrailingRecord | services/calendarUtils.ts:109-121 | the record pushed for day i of the next month is grid cell lead + dim + i − 1 |
| CalendarUtils.PushPreviousMonthDays | services/calendarUtils.ts:74-88 | the backward loop pushes the first `startDayOfWeek` cells of the grid, oldest first |
| CalendarUtils.PushMonthDays | services/calendarUtils.ts:91-105 | the second loop extends the leading cells by the month's days, giving the next `daysInMonth` cells of the grid |
| CalendarUtils.PushNextMonthDays | services/calendarUtils.ts:107-122 | the third loop completes the grid to exactly its 42 cells |
| CalendarUtils.GenerateCalendarGrid | services/calendarUtils.ts:65-125 | the list returned is the grid: 42 consecutive days starting on the Sunday on or before the 1st |
| CalendarUtils.GridColumns | services/calendarUtils.ts:69-86 | cell k falls on weekday k mod 7 (cell 0 is a Sunday), and a cell is a weekend exactly in the first and last column |
| CalendarUtils.GridConsecutive | services/calendarUtils.ts:74-122 | consecutive cells hold consecutive days, across month and year boundaries |
| CalendarUtils.GridCurrentMonth | services/calendarUtils.ts:90-98 | a cell is a current-month cell if and only if it is at position lead .. lead + dim − 1, if and only if its date lies in the month; cell lead + i − 1 holds day i; `dayOfMonth` is the cell's day |
| CalendarUtils.GridToday | services/calendarUtils.ts:78-97 | a cell is marked today if and only if it is a current-month cell whose date is today, so no padding cell is marked |
| CalendarUtils.GridTodayUnique | services/calendarUtils.ts:91-97 | at most one cell is marked today |
| CalendarUtils.GridTodayPresent | services/calendarUtils.ts:91-97 | some cell is marked today if and only if today is a valid day of the month shown |
| CalendarUtils.GridLabels | services/calendarUtils.ts:81-85 | each cell's Pasaran, holiday, Hijri and Chinese labels are those of its date alone; cells five apart have the same Pasaran |
| CalendarUtils.GridLeadingPadding | services/calendarUtils.ts:74-81 | the padding cells are the last `lead` days of the previous month, and none is a current-month cell |
| CalendarUtils.GridTrailingPadding | services/calendarUtils.ts:107-115 | the remaining count is 5..14 (never negative); the trailing cells are the 1st, 2nd, … of the next month, with that `dayOfMonth`, and none is a current-month cell |
| AppRules.DefaultYearIsYearThreeMonthsAhead | App.tsx:16-18 | the default year is the current year plus one exactly from October on: it is the year of the month three months ahead |
| AppRules.DefaultYear | App.tsx:17-18 | the default year is the current year or the next one, and the next one exactly when the month index is 9 or more |
| AppRules.DefaultConfig | App.tsx:23-46 | the initial settings hold only the default picture, and the title "Kalender <default year>" |
| AppRules.MonthChanged | App.tsx:138-140 | the new date is valid; from a day 1..28 the day is kept and the month count moves by delta |
| AppRules.YearChanged | App.tsx:146-148 | the new date is valid; from a day 1..28 of a month 0..11 it lies in the new year on the same month and day |
| AppRules.MonthChangeMoves | App.tsx:136-142 | from the 1st of a month, moving by delta months stays on a valid 1st, with the month count moved by delta and the year carried over |
| AppRules.MonthChangesCompose | App.tsx:136-142 | moving by a months and then b months is moving by a + b months |
| AppRules.YearChangeKeepsMonth | App.tsx:144-150 | on the 1st, changing the year keeps the month and the day |
| AppRules.NatToString | App.tsx:122 | the decimal form of a number is a non-empty string of digits |
| AppRules.NatToStringRoundTrip | App.tsx:122 | reading the digits back gives the number |
| AppRules.IntToString | App.tsx:122 | `toString()` of a number n ≥ 0 is digits reading back as n; of a negative number, "-" followed by digits reading back as −n |
| AppRules.YearOfCenturyString | App.tsx:121-122 | a year 2000..2099 prints as "20" followed by its last two digits, so it matches `/20\d\d/` |
| AppRules.FindYearFrom | App.tsx:121 | the result is the leftmost match of `/20\d\d/` at or after the start, and `None` only when there is none |
| AppRules.YearMatch | App.tsx:121 | `match(/20\d\d/)` returns a position holding a `20dd` token, and no token starts before it (none at all when it returns `None`) |
| AppRules.IndexOfFrom | App.tsx:125 | `indexOf` is the first occurrence at or after the start, and `None` only when there is none |
| AppRules.ReplaceFirst | App.tsx:125 | `replace` with a string pattern and a replacement without `$`: unchanged when the pattern is absent; otherwise the first occurrence is cut out and the replacement put in its place, with the text before and after kept |
| AppRules.RewriteTitle | App.tsx:119-134 | a first `20dd` that differs from the year is replaced by the year in place; with no `20dd` but with "Kalender" the title becomes "Kalender <year>"; otherwise it is unchanged |
| AppRules.RewriteTitleShowsYear | App.tsx:119-134 | for a year 2000..2099, a title with a `20dd` or with "Kalender" has the year as its first `20dd` after the rewrite |
| AppRules.KalenderTitleMatch | App.tsx:127-132 | the first `20dd` in "Kalender <year>" is the year, at position 9 |
| AppRules.RewriteTitleIdempotent | App.tsx:119-134 | for a year 2000..2099, running the rewrite again changes nothing |
| AppRules.TitleAfter2099LosesText | App.tsx:119-134 | for 2150, "Kalender Kita 2026" becomes "Kalender Kita 2150" and then "Kalender 2150": past 2099 the rewrite is not idempotent |
| AppRules.TitleBefore2000ReplacesNextYear | App.tsx:119-134 | for 1950, "2026 2027" becomes "1950 2027" and then "1950 1950": before 2000 the rewrite is not idempotent |
| AppRules.DefaultTitleIsStable | App.tsx:39 | the initial title is left alone by the rewrite for the default year |
| AppRules.WithImage | App.tsx:152-170 | the month's key gets the picture and every other key is kept; the overlay colour becomes black; opacity 0.4 and colours #ffffff on overlay layouts; opacity 0.2 and colours #1f2937 on wall, side and minimal; no other field changes |
| AppRules.WithoutImage | App.tsx:234-240 | only the month's key is removed; 'default' and the other months stay, and no other field changes |
| AppRules.RemoveAfterSet | App.tsx:234-240 | removing a picture just set leaves the map without that month, as before apart from that key |
| AppRules.WallDefaults | App.tsx:200-207 | the look switched to before fetching is the wall layout in portrait, with both colours #1f2937 and opacity 0.2 (a non-overlay layout); no other setting changes |
| AppRules.WithImageKeepsWallLook | App.tsx:152-170 | on the wall look, setting a picture changes only the map and the overlay colour |
| AppRules.FillMonths | App.tsx:209-224 | storing the pictures month by month puts picture i under month i, keeps every other key, adds no other key, and changes nothing but the map |
| AppRules.Arrived | App.tsx:209-227 | at most n pictures arrive from n requests |
| AppRules.ArrivedAreAnswers | App.tsx:209-227 | the stored pictures are the service's answers for the first months in order, and the month after them is the one whose request threw |
| AppRules.ArrivedStopsAtFailure | App.tsx:209-227 | once a month's request fails, no later month's picture is stored: no rollback and no further requests |
| AppRules.ImageShownAfterSet | App.tsx:152-170 | after a non-empty picture is set for a month, that month shows it |
| AppRules.OtherMonthsUnchangedBySet | App.tsx:159-162 | setting one month's picture does not change what any other month shows |
| AppRules.DefaultShownAfterRemove | App.tsx:234-240 | after its picture is removed, a month shows the default picture, or none |
| AppRules.Captures | App.tsx:284-305 | the loop over the wrappers yields no more images than there are wrappers; CapturesClosedForm states what it yields |
| AppRules.CapturesClosedForm | App.tsx:284-305 | the captures fail exactly when some card's capture throws; otherwise there is one image per card, the card at position i gives image number "cards before i", so wrappers without a card are skipped and the cards keep their order |
| AppRules.Place | App.tsx:315 | `addImage` draws on the last page and leaves the earlier pages alone |
| AppRules.PagesAsWritten | App.tsx:284-316 | the document the loop as written builds has at least one page |
| AppRules.OnePerPage | App.tsx:312-315 | the meant document has one page per image, page k holding image k, or one blank page if there is no image |
| AppRules.Pages | App.tsx:284-316 | the document fails exactly when a capture throws; otherwise page k holds the k-th captured image alone, or there is one blank page when nothing was captured |
| AppRules.CapturesOfAllCards | App.tsx:284-305 | when every wrapper has a card whose capture succeeds, the captures are exactly those images, one per wrapper, in order |
| AppRules.TwelveCardsTwelvePages | App.tsx:284-316 | twelve captured cards give a twelve-page document, with card k alone on page k |
| AppRules.LeadingWrapperWithoutCardLeavesBlankPage | App.tsx:312-313 | with a first wrapper that has no card, the loop as written leaves page 1 blank, while the meant document is a single page |
| AppRules.AsWrittenAgreesAfterFirstCard | App.tsx:284-316 | when the first wrapper holds a card, the loop as written builds the meant document |
| AppRules.CapturesFailurePersists | App.tsx:284-323 | a capture that throws fails the whole document |
| View.BackgroundFor | components/CalendarView.tsx:161 | the poster shows nothing or a non-empty picture, and that picture is the month's own entry or the default one |
| View.BackgroundPrefersOwnPicture | components/CalendarView.tsx:161 | a picture is shown exactly when the month or the default has a non-empty one; the month's own non-empty picture wins over the default |
| View.CurrentBackground | components/ControlPanel.tsx:95 | the control panel previews a picture exactly when the poster shows one, and the same one |
| View.PageSize | components/CalendarView.tsx:331-332 | the card's two sides are 794 and 1123 pixels, turned by the orientation: taller than wide exactly in portrait |
| View.LandscapeIsPortraitTurned | components/CalendarView.tsx:27-28 | landscape is portrait with width and height swapped |
| AppState.YearData | App.tsx:248-255 | exactly 12 entries in order: entry i has month i, the grid of month i, and month i's quote |
| AppState.FullYearFileName | App.tsx:319 | the saved name is "Kalender_Lengkap_", the year's `toString()`, then ".pdf"; for a year ≥ 0 the middle part is digits reading back as the year |
| AppState.DrawPages | App.tsx:284-316 | the capture loop succeeds exactly when no capture throws, and then the document holds one card image per page, in wrapper order; the saved name is untouched |
| AppState.Pdf.constructor | App.tsx:273-277 | a new document has one blank page and is not yet saved |
| AppState.Pdf.AddPage | App.tsx:313 | a blank page is appended |
| AppState.Pdf.AddImage | App.tsx:315 | the image is drawn on the last page |
| AppState.Pdf.Save | App.tsx:319 | the document is recorded as saved under the name, and its pages are kept |
| AppState.App.constructor | App.tsx:64-79 | the app starts on 1 January of the default year, with the default settings, no grid, nothing busy and no full-year data |
| AppState.App.HandleMonthChange | App.tsx:136-142 | the selected date stays a valid 1st, moved by delta months; nothing else changes |
| AppState.App.HandleYearChange | App.tsx:144-150 | the selected date becomes the 1st of the same month in the new year; nothing else changes |
| AppState.App.RegenerateGrid | App.tsx:103-106 | the grid on screen becomes the grid of the selected month |
| AppState.App.SyncTitle | App.tsx:119-134 | the title becomes the rewrite for the selected year, and no other setting changes |
| AppState.App.ChangeMonth | App.tsx:103-142 | a month change moves the month count by delta; the grid is regenerated when the date changed; the title is rewritten when the year changed; no other setting changes, and the busy flags, the progress and the full-year data are kept |
| AppState.App.ChangeYear | App.tsx:103-150 | a year change keeps the month; when the year differs, the grid and the title follow it; otherwise nothing changes; the busy flags, the progress and the full-year data are kept |
| AppState.App.UpdateConfigWithImage | App.tsx:152-170 | the settings become WithImage for the selected month; nothing else changes |
| AppState.App.HandleGenerateAIBackground | App.tsx:172-183 | an empty prompt changes nothing; otherwise the answer is stored for the selected month, and a failed request keeps the settings; the busy flag is cleared |
| AppState.App.HandleGenerateYear | App.tsx:195-232 | the wall look, then the pictures that arrived before the first failure, stored under months 0, 1, … in order; the busy flag and the progress are cleared |
| AppState.App.FetchMonthImages | App.tsx:209-227 | the loop stores each arriving picture under its month and stops at the first failure |
| AppState.App.StoreMonthImage | App.tsx:217-223 | one month's key is set and nothing else changes |
| AppState.App.HandleRemoveImage | App.tsx:234-240 | the settings become WithoutImage for the selected month; nothing else changes |
| AppState.App.HandleDownloadFull | App.tsx:244-265 | when every quote arrives, the full-year data are the 12 months of the selected year and the busy flag stays set; otherwise the flag is cleared and the old data are kept |
| AppState.App.CaptureFullYear | App.tsx:268-334 | capture runs only for a list of 12; the document is saved as `Kalender_Lengkap_<year>.pdf`, one card per page, only when the container exists and no capture fails; the busy flag and the data are always reset |

## Left out

- `getHijriDate` / `getChineseDate` internals: the host's `Intl` calendar conversions are a parameter (`Intl`). Only their "fall back to the empty string" rule is modelled.
- services/geminiService.ts is not part of this model. Its answers depend on randomness, clocks and the network. The image and quote services are function parameters, with `None` standing for a thrown error.
- services/pdfService.ts is not part of this model: it is DOM and library glue that none of the modelled code imports.
- `html2canvas` rasterisation and the jsPDF drawing calls are abstracted. A capture is an `Option<string>`, and the document is the list of images on each page. The image height at App.tsx:308-310 is floating point and is left out.
- Time of day and time zones: every date the app builds from fields is at local midnight. The two clock reads, "now" (App.tsx:17) and "today" (services/calendarUtils.ts:91), are `Date` parameters without a time of day: only their year, month and day are read. One `today` serves every grid.
- The range limit of JavaScript time values (±8.64e15 ms) is not modelled. Years are unbounded integers.
- The rendering of CalendarView.tsx and ControlPanel.tsx is left out: layout, Tailwind classes and the fit-to-screen scale. Only the background lookup and the card size are modelled.
- Three pieces of state have no field. `quote` (App.tsx:69) is written only by the quote fetch left out below and is only displayed. `isDesktopSidebarOpen` and `isMobileMenuOpen` (App.tsx:74-75) are read only by the layout.
- The document-title and meta-tag updates (App.tsx:84-100) are left out. So are the quote fetch of the grid effect (App.tsx:108-114), the `FileReader` upload (App.tsx:185-193, which ends in the modelled `updateConfigWithImage`), the `alert`s and `console` logging, and the `setTimeout(capture, 1500)` delay.
- Interleaving of `await`s is not modelled. Each handler runs to completion as one method. The capture effect's re-run when `config` changes is not modelled. The guard against starting the bulk fetch or the download twice is only the UI's disabled buttons (components/ControlPanel.tsx:172,189,268), and it is not modelled.
- AppState.App.FetchMonthImages: does not record the progress values `i + 1` of 12 shown during the loop. Only the final state (progress cleared) is stated, by HandleGenerateYear.
- AppRules.ReplaceFirst: does not expand the `$&`, `$$`, `` $` `` and `$'` patterns that `replace` reads in a replacement string. The app's only replacement is a printed year (App.tsx:125), which holds no `$`.
- JsDate.AddDays and CalendarUtils.GridDate are specified by the day number they reach, not built step by step. AddDaysIsMakeDate shows that `new Date(y, m, d + k)` gives the same date.
- CalendarUtils.JavanesePasaran: the grid labels its cells with the corrected label. The code as written is JavanesePasaranAsWritten, which differs exactly on 1 January to 29 February of year 0 (see Findings).
- AppState.App.CaptureFullYear, AppState.DrawPages: draw the pages with the corrected page rule (see Findings). The loop as written is AppRules.PagesAsWritten.

## Findings

| source | as written | input that shows it | evidently intended | confidence | as-written member | corrected member |
|---|---|---|---|---|---|---|
| services/calendarUtils.ts:11-12 | both dates are rebuilt with `Date.UTC(getFullYear(), getMonth(), getDate())`, and `Date.UTC` reads a year in 0..99 as 1900 + y | 27 February and 3 March of year 0 are five days apart (year 0 is a leap year), but are labelled Wage and Pon, the labels of 27 February and 3 March 1900 (four days apart) | the label follows the real day difference to 2024-01-01, so any two dates five days apart share it | not executed; it only affects 1 January to 29 February of year 0, which shows up in the grid of December of year -1 | CalendarUtils.JavanesePasaranAsWritten, CalendarUtils.PasaranAsWrittenBreaksInYearZero, CalendarUtils.PasaranAsWrittenExactlyOutsideEarlyYearZero | CalendarUtils.JavanesePasaran, CalendarUtils.PasaranPeriod |
| App.tsx:312-313 | `if (i > 0) pdf.addPage()` tests the wrapper index, not whether an image has already been drawn | wrappers `[no card, card a]`: page 1 stays blank and `a` goes on page 2 | one card image per page, with no blank page: a page is added only after an image has been drawn | not executed; the container built at App.tsx:472-486 gives every wrapper a card | AppRules.PagesAsWritten, AppRules.LeadingWrapperWithoutCardLeavesBlankPage | AppRules.Pages, AppRules.AsWrittenAgreesAfterFirstCard, AppState.DrawPages |
