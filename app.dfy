/** The state App.tsx keeps and the handlers and effects that change it:
    the selected month, the settings, the grid on screen, the background
    fetches and the two-step full-year PDF download. */
module AppState {
  import opened Wrappers
  import opened JsDate
  import opened Types
  import opened CalendarUtils
  import opened AppRules

  /** One month of the full-year document. */
  datatype MonthData = MonthData(month: int, days: seq<DayData>, quote: string)

  /** `generationProgress`: (current, total), pictures requested of all. */
  type Progress = (int, int)

  /** A document handed to `pdf.save`. */
  datatype SavedPdf = SavedPdf(fileName: string, orientation: Orientation, pages: seq<seq<string>>)

  /** The name the full-year document is saved under; the year can be read
      back from it. */
  function FullYearFileName(year: int): (name: string)
    ensures |name| > 21 && name[..17] == "Kalender_Lengkap_" && name[|name| - 4..] == ".pdf"
    ensures name[17..|name| - 4] == IntToString(year)
    ensures year >= 0 ==> AllDigits(name[17..|name| - 4]) && DigitsValue(name[17..|name| - 4]) == year
  {
    "Kalender_Lengkap_" + IntToString(year) + ".pdf"
  }

  /** The quote service answers for every month (`None`: it throws). */
  predicate AllQuotes(quoteFor: string -> Option<string>) {
    forall j :: 0 <= j < 12 ==> quoteFor(MonthNames[j]).Some?
  }

  /** The twelve months `handleDownloadFull` prepares for the selected year. */
  ghost function YearData(year: int, today: Date, intl: Intl, quoteFor: string -> Option<string>): (data: seq<MonthData>)
    requires AllQuotes(quoteFor)
    ensures |data| == 12
    ensures forall j :: 0 <= j < 12 ==>
              data[j].month == j && data[j].days == Grid(year, j, today, intl) &&
              Some(data[j].quote) == quoteFor(MonthNames[j])
  {
    seq(12, j requires 0 <= j < 12 => MonthData(j, Grid(year, j, today, intl), quoteFor(MonthNames[j]).value))
  }

  /** The hidden view is rendered and captured only for a full year. */
  predicate ReadyToCapture(data: Option<seq<MonthData>>) {
    data.Some? && |data.value| == 12
  }

  /** The capture loop: every card is captured in order and drawn on a page
      of its own; a failed capture stops the loop. */
  method DrawPages(pdf: Pdf, wrappers: seq<Wrapper>) returns (ok: bool)
    requires pdf.pages == [[]]
    modifies pdf
    ensures ok == Captures(wrappers).Some?
    ensures ok ==> pdf.pages == Pages(wrappers).value
    ensures pdf.savedAs == old(pdf.savedAs)
  {
    var i := 0;
    var placed := 0;
    ghost var imgs: seq<string> := [];
    assert wrappers[..0] == [];
    while i < |wrappers|
      invariant 0 <= i <= |wrappers|
      invariant Captures(wrappers[..i]) == Some(imgs)
      invariant placed == |imgs| && pdf.pages == OnePerPage(imgs)
      invariant pdf.savedAs == old(pdf.savedAs)
    {
      CapturesStep(wrappers, i);
      match wrappers[i] {
        case NoCard =>
        case Card(None) =>
          CapturesFailurePersists(wrappers, i + 1);
          return false;
        case Card(Some(imgData)) =>
          if placed > 0 {
            pdf.AddPage();
            OnePerPageAppend(imgs, imgData);
            PlaceOnFreshPage(pdf.pages[..|pdf.pages| - 1], imgData);
            assert pdf.pages[..|pdf.pages| - 1] + [[]] == pdf.pages;
          } else {
            PlaceOnBlankPage(imgData);
            assert OnePerPage([imgData]) == [[imgData]];
            assert imgs + [imgData] == [imgData];
          }
          pdf.AddImage(imgData);
          placed := placed + 1;
          imgs := imgs + [imgData];
      }
      i := i + 1;
    }
    assert wrappers[..i] == wrappers;
    return true;
  }

  /** A jsPDF document: the images drawn on each page and the name it was
      saved under. */
  class Pdf {
    const orientation: Orientation
    var pages: seq<seq<string>>
    var savedAs: Option<string>

    /** `new jsPDF(...)` starts with one blank page. */
    constructor(orientation: Orientation)
      ensures this.orientation == orientation && pages == [[]] && savedAs == None
    {
      this.orientation := orientation;
      pages := [[]];
      savedAs := None;
    }

    method AddPage()
      modifies this
      ensures pages == old(pages) + [[]] && savedAs == old(savedAs)
    {
      pages := pages + [[]];
    }

    /** `addImage` draws on the current, last page. */
    method AddImage(img: string)
      requires |pages| > 0
      modifies this
      ensures pages == Place(old(pages), img) && savedAs == old(savedAs)
    {
      pages := Place(pages, img);
    }

    method Save(fileName: string)
      modifies this
      ensures savedAs == Some(fileName) && pages == old(pages)
    {
      savedAs := Some(fileName);
    }
  }

  class App {
    var currentDate: Date
    var config: CalendarConfig
    var days: seq<DayData>
    var isGeneratingAI: bool
    var generationProgress: Option<Progress>
    var isDownloadingFull: bool
    var fullYearData: Option<seq<MonthData>>

    /** The selected date is always the 1st of a month: it starts there and
        the handlers keep it there. */
    predicate Valid()
      reads this
    {
      currentDate.Valid() && currentDate.day == 1
    }

    function Year(): int
      reads this
    {
      currentDate.year
    }

    function Month(): int
      reads this
    {
      currentDate.month
    }

    /** The initial state: 1 January of the default year and the default
        settings. */
    constructor(now: Date)
      ensures Valid()
      ensures currentDate == Date(JsYear(DefaultYear(now)), 0, 1)
      ensures config == DefaultConfig(DefaultYear(now))
      ensures days == [] && !isGeneratingAI && generationProgress == None
      ensures !isDownloadingFull && fullYearData == None
    {
      FirstOfMonthIs(DefaultYear(now), 0);
      currentDate := NewDate(DefaultYear(now), 0, 1);
      config := DefaultConfig(DefaultYear(now));
      days := [];
      isGeneratingAI := false;
      generationProgress := None;
      isDownloadingFull := false;
      fullYearData := None;
    }

    /** `handleMonthChange`. */
    method HandleMonthChange(delta: int)
      requires Valid()
      modifies this
      ensures Valid()
      ensures currentDate == MonthChanged(old(currentDate), delta)
      ensures MonthIndex(currentDate) == MonthIndex(old(currentDate)) + delta
      ensures config == old(config) && days == old(days) && isGeneratingAI == old(isGeneratingAI)
      ensures generationProgress == old(generationProgress)
      ensures isDownloadingFull == old(isDownloadingFull) && fullYearData == old(fullYearData)
    {
      MonthChangeMoves(currentDate, delta);
      currentDate := MonthChanged(currentDate, delta);
    }

    /** `handleYearChange`. */
    method HandleYearChange(newYear: int)
      requires Valid()
      modifies this
      ensures Valid()
      ensures currentDate == Date(newYear, old(currentDate).month, 1)
      ensures config == old(config) && days == old(days) && isGeneratingAI == old(isGeneratingAI)
      ensures generationProgress == old(generationProgress)
      ensures isDownloadingFull == old(isDownloadingFull) && fullYearData == old(fullYearData)
    {
      YearChangeKeepsMonth(currentDate, newYear);
      currentDate := YearChanged(currentDate, newYear);
    }

    /** The effect on `[year, month]`: the grid of the selected month. */
    method RegenerateGrid(today: Date, intl: Intl)
      modifies this
      ensures days == Grid(Year(), Month(), today, intl)
      ensures currentDate == old(currentDate) && config == old(config) && isGeneratingAI == old(isGeneratingAI)
      ensures generationProgress == old(generationProgress)
      ensures isDownloadingFull == old(isDownloadingFull) && fullYearData == old(fullYearData)
    {
      days := GenerateCalendarGrid(currentDate.year, currentDate.month, today, intl);
    }

    /** The effect on `[year]`: the year in the title follows the selected
        year. */
    method SyncTitle()
      modifies this
      ensures config == old(config).(titleText := RewriteTitle(old(config).titleText, Year()))
      ensures currentDate == old(currentDate) && days == old(days) && isGeneratingAI == old(isGeneratingAI)
      ensures generationProgress == old(generationProgress)
      ensures isDownloadingFull == old(isDownloadingFull) && fullYearData == old(fullYearData)
    {
      config := config.(titleText := RewriteTitle(config.titleText, currentDate.year));
    }

    /** A month change followed by the effects it triggers. */
    method ChangeMonth(delta: int, today: Date, intl: Intl)
      requires Valid()
      modifies this
      ensures Valid()
      ensures MonthIndex(currentDate) == MonthIndex(old(currentDate)) + delta
      ensures delta != 0 ==> days == Grid(Year(), Month(), today, intl)
      ensures delta == 0 ==> days == old(days)
      ensures config.titleText == if Year() != old(currentDate).year
                                  then RewriteTitle(old(config).titleText, Year()) else old(config).titleText
      ensures config == old(config).(titleText := config.titleText)
      ensures isGeneratingAI == old(isGeneratingAI) && generationProgress == old(generationProgress)
      ensures isDownloadingFull == old(isDownloadingFull) && fullYearData == old(fullYearData)
    {
      var before := currentDate;
      HandleMonthChange(delta);
      if currentDate != before {
        RegenerateGrid(today, intl);
      }
      if currentDate.year != before.year {
        SyncTitle();
      }
    }

    /** A year change followed by the effects it triggers. */
    method ChangeYear(newYear: int, today: Date, intl: Intl)
      requires Valid()
      modifies this
      ensures Valid()
      ensures currentDate == Date(newYear, old(currentDate).month, 1)
      ensures newYear != old(currentDate).year ==>
                days == Grid(newYear, Month(), today, intl) &&
                config == old(config).(titleText := RewriteTitle(old(config).titleText, newYear))
      ensures newYear == old(currentDate).year ==> days == old(days) && config == old(config)
      ensures isGeneratingAI == old(isGeneratingAI) && generationProgress == old(generationProgress)
      ensures isDownloadingFull == old(isDownloadingFull) && fullYearData == old(fullYearData)
    {
      var before := currentDate;
      HandleYearChange(newYear);
      if currentDate != before {
        RegenerateGrid(today, intl);
        SyncTitle();
      }
    }

    /** `updateConfigWithImage` for the selected month. */
    method UpdateConfigWithImage(imageData: string)
      modifies this
      ensures config == WithImage(old(config), Month(), imageData)
      ensures currentDate == old(currentDate) && days == old(days) && isGeneratingAI == old(isGeneratingAI)
      ensures generationProgress == old(generationProgress)
      ensures isDownloadingFull == old(isDownloadingFull) && fullYearData == old(fullYearData)
    {
      config := WithImage(config, currentDate.month, imageData);
    }

    /** `handleGenerateAIBackground`: `generate` is the image service,
        `None` where it throws. */
    method HandleGenerateAIBackground(prompt: string, generate: string -> Option<string>)
      modifies this
      ensures prompt == "" ==> config == old(config) && isGeneratingAI == old(isGeneratingAI)
      ensures prompt != "" ==> !isGeneratingAI
      ensures prompt != "" && generate(prompt).Some? ==>
                config == WithImage(old(config), Month(), generate(prompt).value)
      ensures prompt != "" && generate(prompt).None? ==> config == old(config)
      ensures currentDate == old(currentDate) && days == old(days)
      ensures generationProgress == old(generationProgress)
      ensures isDownloadingFull == old(isDownloadingFull) && fullYearData == old(fullYearData)
    {
      if prompt == "" {
        return;
      }
      isGeneratingAI := true;
      var result := generate(prompt);
      if result.Some? {
        UpdateConfigWithImage(result.value);
      }
      isGeneratingAI := false;
    }

    /** `handleGenerateYear`: the wall look, then one picture per month in
        order until the first failure; pictures already stored stay. */
    method HandleGenerateYear(generate: string -> Option<string>)
      modifies this
      ensures config == FillMonths(WallDefaults(old(config)), Arrived(generate, 12))
      ensures !isGeneratingAI && generationProgress == None
      ensures currentDate == old(currentDate) && days == old(days)
      ensures isDownloadingFull == old(isDownloadingFull) && fullYearData == old(fullYearData)
    {
      isGeneratingAI := true;
      generationProgress := Some((0, 12));
      config := WallDefaults(config);
      FetchMonthImages(generate);
      isGeneratingAI := false;
      generationProgress := None;
    }

    /** The loop of `handleGenerateYear`: month i's picture is requested
        with progress i + 1 of 12 and stored as soon as it arrives. */
    method FetchMonthImages(generate: string -> Option<string>)
      modifies this
      ensures config == FillMonths(old(config), Arrived(generate, 12))
      ensures currentDate == old(currentDate) && days == old(days) && isGeneratingAI == old(isGeneratingAI)
      ensures isDownloadingFull == old(isDownloadingFull) && fullYearData == old(fullYearData)
    {
      var start := config;
      var i := 0;
      while i < 12
        invariant 0 <= i <= 12
        invariant |Arrived(generate, i)| == i
        invariant config == FillMonths(start, Arrived(generate, i))
        invariant currentDate == old(currentDate) && days == old(days) && isGeneratingAI == old(isGeneratingAI)
        invariant isDownloadingFull == old(isDownloadingFull) && fullYearData == old(fullYearData)
      {
        generationProgress := Some((i + 1, 12));
        var base64Image := generate(MonthlyThemes[i]);
        if base64Image.None? {
          ArrivedStopsAtFailure(generate, i, 12);
          break;
        }
        ArrivedStep(generate, i);
        FillMonthsStep(start, Arrived(generate, i), base64Image.value);
        StoreMonthImage(i, base64Image.value);
        i := i + 1;
      }
    }

    /** One step of `handleGenerateYear`: `bgImages[month]` is set. */
    method StoreMonthImage(month: int, image: string)
      modifies this
      ensures config == old(config).(bgImages := old(config).bgImages[MonthKey(month) := Some(image)])
      ensures currentDate == old(currentDate) && days == old(days) && isGeneratingAI == old(isGeneratingAI)
      ensures generationProgress == old(generationProgress)
      ensures isDownloadingFull == old(isDownloadingFull) && fullYearData == old(fullYearData)
    {
      config := config.(bgImages := config.bgImages[MonthKey(month) := Some(image)]);
    }

    /** `handleRemoveImage` for the selected month. */
    method HandleRemoveImage()
      modifies this
      ensures config == WithoutImage(old(config), Month())
      ensures currentDate == old(currentDate) && days == old(days) && isGeneratingAI == old(isGeneratingAI)
      ensures generationProgress == old(generationProgress)
      ensures isDownloadingFull == old(isDownloadingFull) && fullYearData == old(fullYearData)
    {
      config := WithoutImage(config, currentDate.month);
    }
 

    /** `handleDownloadFull`: the twelve grids of the selected year with a
        quote each; a failure clears the busy flag and keeps the old data. */
    method HandleDownloadFull(today: Date, intl: Intl, quoteFor: string -> Option<string>)
      modifies this
      ensures AllQuotes(quoteFor) ==>
                isDownloadingFull && fullYearData == Some(YearData(Year(), today, intl, quoteFor))
      ensures !AllQuotes(quoteFor) ==> !isDownloadingFull && fullYearData == old(fullYearData)
      ensures currentDate == old(currentDate) && config == old(config) && days == old(days)
      ensures isGeneratingAI == old(isGeneratingAI) && generationProgress == old(generationProgress)
    {
      isDownloadingFull := true;
      var allMonthsData: seq<MonthData> := [];
      var i := 0;
      while i < 12
        invariant 0 <= i <= 12 && |allMonthsData| == i
        invariant forall j :: 0 <= j < i ==>
                    quoteFor(MonthNames[j]).Some? &&
                    allMonthsData[j] == MonthData(j, Grid(Year(), j, today, intl), quoteFor(MonthNames[j]).value)
        invariant isDownloadingFull && fullYearData == old(fullYearData)
        invariant currentDate == old(currentDate) && config == old(config) && days == old(days)
        invariant isGeneratingAI == old(isGeneratingAI) && generationProgress == old(generationProgress)
      {
        var grid := GenerateCalendarGrid(currentDate.year, i, today, intl);
        var quoteText := quoteFor(MonthNames[i]);
        if quoteText.None? {
          isDownloadingFull := false;
          return;
        }
        allMonthsData := allMonthsData + [MonthData(i, grid, quoteText.value)];
        i := i + 1;
      }
      assert allMonthsData == YearData(Year(), today, intl, quoteFor);
      fullYearData := Some(allMonthsData);
    }

    /** The effect on `fullYearData`: once twelve months are ready, every
        card of the hidden container is drawn on a page of its own and the
        document is saved; whatever happens, the busy flag and the data are
        cleared. A missing container or a failed capture saves nothing. */
    method CaptureFullYear(containerFound: bool, wrappers: seq<Wrapper>) returns (saved: Option<SavedPdf>)
      modifies this
      ensures ReadyToCapture(old(fullYearData)) ==> !isDownloadingFull && fullYearData == None
      ensures !ReadyToCapture(old(fullYearData)) ==>
                isDownloadingFull == old(isDownloadingFull) && fullYearData == old(fullYearData)
      ensures saved ==
                if ReadyToCapture(old(fullYearData)) && containerFound && Pages(wrappers).Some?
                then Some(SavedPdf(FullYearFileName(Year()), config.orientation, Pages(wrappers).value))
                else None
      ensures currentDate == old(currentDate) && config == old(config) && days == old(days)
      ensures isGeneratingAI == old(isGeneratingAI) && generationProgress == old(generationProgress)
    {
      saved := None;
      if !ReadyToCapture(fullYearData) {
        return;
      }
      var pdf := new Pdf(config.orientation);
      if containerFound {
        var ok := DrawPages(pdf, wrappers);
        if ok {
          pdf.Save(FullYearFileName(currentDate.year));
          saved := Some(SavedPdf(pdf.savedAs.value, pdf.orientation, pdf.pages));
        }
      }
      isDownloadingFull := false;
      fullYearData := None;
    }
  }
}
