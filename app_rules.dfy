/** The pure rules of App.tsx: the default year, month navigation, the
    title rewrite and the updates of the per-month background map. */
module AppRules {
  import opened Wrappers
  import opened JsDate
  import opened Types
  import opened View

  const MonthNames: seq<string> := [
    "Januari", "Februari", "Maret", "April", "Mei", "Juni",
    "Juli", "Agustus", "September", "Oktober", "November", "Desember"]

  /** The image search prompt of each month. */
  const MonthlyThemes: seq<string> := [
    "Winter aesthetic snow mountain minimalist wallpaper",
    "Soft pink flowers valentine aesthetic wallpaper",
    "Fresh green nature spring aesthetic wallpaper",
    "Cherry blossom japanese aesthetic wallpaper",
    "Dark green forest nature aesthetic wallpaper",
    "Blue ocean beach summer aesthetic wallpaper",
    "Golden hour sunset hills aesthetic wallpaper",
    "Tropical monstera leaves minimalist wallpaper",
    "Autumn vibes orange leaves aesthetic wallpaper",
    "Moody dark forest fog halloween aesthetic wallpaper",
    "Cozy rain window autumn aesthetic wallpaper",
    "Christmas lights festive red gold aesthetic wallpaper"]

  const DefaultBgUrl: string := "https://i.ytimg.com/vi/1Sa6t_Gz9Dg/maxresdefault.jpg"

  // ---------------------------------------------------------------------
  // Default year and month navigation
  // ---------------------------------------------------------------------

  /** From October on, the calendar opens on the next year. */
  function DefaultYear(now: Date): (y: int)
    ensures now.year <= y <= now.year + 1
    ensures y == now.year + 1 <==> now.month >= 9
  {
    if now.month >= 9 then now.year + 1 else now.year
  }

  /** `new Date(y, m, 1)` without the two-digit-year rule: the 1st of month m
      brought into range. */
  lemma MakeDateFirst(y: int, m: int)
    ensures MakeDate(y, m, 1) == Date(NormalYear(y, m), NormalMonth(m), 1)
  {
  }

  /** The default year is the year of the month three months ahead. */
  lemma DefaultYearIsYearThreeMonthsAhead(now: Date)
    requires now.Valid()
    ensures DefaultYear(now) == MakeDate(now.year, now.month + 3, 1).year
  {
    MakeDateFirst(now.year, now.month + 3);
  }

  /** The settings the app starts with. */
  function DefaultConfig(defaultYear: int): (c: CalendarConfig)
    ensures c.bgImages == map[DefaultKey := Some(DefaultBgUrl)]
    ensures c.titleText == "Kalender " + IntToString(defaultYear)
  {
    CalendarConfig(
      "#ffffff", map[DefaultKey := Some(DefaultBgUrl)], "#000000", "#000000",
      Sans, FullYear, Portrait, 0.0, White, true, true, true, true,
      "Kalender " + IntToString(defaultYear), Center, Cover, 0.0, 0.0, 0.0, 0.85)
  }

  /** `handleMonthChange`: `setMonth(getMonth() + delta)` on a copy. */
  function MonthChanged(current: Date, delta: int): (r: Date)
    ensures r.Valid()
    ensures 1 <= current.day <= 28 ==> r.day == current.day && MonthIndex(r) == MonthIndex(current) + delta
  {
    SetMonth(current, current.month + delta)
  }

  /** `handleYearChange`: `setFullYear(newYear)` on a copy. */
  function YearChanged(current: Date, newYear: int): (r: Date)
    ensures r.Valid()
    ensures 0 <= current.month < 12 && 1 <= current.day <= 28 ==>
              r.year == newYear && r.month == current.month && r.day == current.day
  {
    SetFullYear(current, newYear)
  }

  /** Months counted from January of year 0. */
  function MonthIndex(d: Date): int {
    12 * d.year + d.month
  }

  /** From the 1st of a month, moving by delta months lands on the 1st of
      the month delta months later, the year carrying over. */
  lemma MonthChangeMoves(current: Date, delta: int)
    requires current.Valid() && current.day == 1
    ensures var r := MonthChanged(current, delta);
            r.Valid() && r.day == 1 && MonthIndex(r) == MonthIndex(current) + delta
  {
    MakeDateFirst(current.year, current.month + delta);
  }

  /** Two valid dates on the 1st with the same month index are equal. */
  lemma MonthIndexInjective(a: Date, b: Date)
    requires a.Valid() && b.Valid() && a.day == 1 && b.day == 1
    requires MonthIndex(a) == MonthIndex(b)
    ensures a == b
  {
    assert a.year == MonthIndex(a) / 12 && b.year == MonthIndex(b) / 12;
  }

  /** Moving by a and then by b is moving by a + b. */
  lemma MonthChangesCompose(current: Date, a: int, b: int)
    requires current.Valid() && current.day == 1
    ensures MonthChanged(MonthChanged(current, a), b) == MonthChanged(current, a + b)
  {
    MonthChangeMoves(current, a);
    MonthChangeMoves(MonthChanged(current, a), b);
    MonthChangeMoves(current, a + b);
    MonthIndexInjective(MonthChanged(MonthChanged(current, a), b), MonthChanged(current, a + b));
  }

  /** On the 1st, changing the year keeps the month and the day. */
  lemma YearChangeKeepsMonth(current: Date, newYear: int)
    requires current.Valid() && current.day == 1
    ensures YearChanged(current, newYear) == Date(newYear, current.month, 1)
  {
    MakeDateFirst(newYear, current.month);
  }

  // ---------------------------------------------------------------------
  // Number formatting
  // ---------------------------------------------------------------------

  predicate IsDigit(c: char) {
    '0' <= c <= '9'
  }

  predicate AllDigits(s: string) {
    forall i :: 0 <= i < |s| ==> IsDigit(s[i])
  }

  function DigitChar(d: int): (c: char)
    requires 0 <= d < 10
    ensures IsDigit(c) && c as int - '0' as int == d
  {
    (d + '0' as int) as char
  }

  /** Decimal digits of a natural number, most significant first. */
  function NatToString(n: nat): (s: string)
    ensures 1 <= |s| && AllDigits(s)
  {
    if n < 10 then [DigitChar(n)] else NatToString(n / 10) + [DigitChar(n % 10)]
  }

  /** `Number.prototype.toString()` of an integer. */
  function IntToString(n: int): (s: string)
    ensures n >= 0 ==> AllDigits(s) && DigitsValue(s) == n
    ensures n < 0 ==> 2 <= |s| && s[0] == '-' && AllDigits(s[1..]) && DigitsValue(s[1..]) == -n
  {
    if n < 0 then
      NatToStringRoundTrip(-n);
      assert ("-" + NatToString(-n))[1..] == NatToString(-n);
      "-" + NatToString(-n)
    else
      NatToStringRoundTrip(n);
      NatToString(n)
  }

  /** The number a string of decimal digits denotes. */
  function DigitsValue(s: string): nat
    requires AllDigits(s)
  {
    if s == [] then 0
    else DigitsValue(s[..|s| - 1]) * 10 + (s[|s| - 1] as int - '0' as int)
  }

  /** Reading the digits back gives the number. */
  lemma {:induction false} NatToStringRoundTrip(n: nat)
    ensures DigitsValue(NatToString(n)) == n
  {
    if n >= 10 {
      NatToStringRoundTrip(n / 10);
      var s := NatToString(n);
      assert s[..|s| - 1] == NatToString(n / 10);
    }
  }

  /** A year of the 2000s prints as "20" followed by its last two digits. */
  lemma YearOfCenturyString(year: int)
    requires 2000 <= year <= 2099
    ensures IntToString(year) == ['2', '0', DigitChar(year / 10 % 10), DigitChar(year % 10)]
  {
    assert NatToString(year / 1000) == ['2'];
    assert NatToString(year / 100) == ['2', '0'];
    assert NatToString(year / 10) == ['2', '0', DigitChar(year / 10 % 10)];
  }

  // ---------------------------------------------------------------------
  // The title rewrite
  // ---------------------------------------------------------------------

  /** A match of `/20\d\d/` starts at position i. */
  predicate IsYearToken(s: string, i: int) {
    0 <= i && i + 4 <= |s| && s[i] == '2' && s[i + 1] == '0' && IsDigit(s[i + 2]) && IsDigit(s[i + 3])
  }

  /** The leftmost match of `/20\d\d/` at or after `from`. */
  function FindYearFrom(s: string, from: nat): (r: Option<nat>)
    ensures r.Some? ==> from <= r.value && IsYearToken(s, r.value)
    ensures forall j :: from <= j && (r.None? || j < r.value) ==> !IsYearToken(s, j)
    decreases |s| - from
  {
    if |s| < from + 4 then None
    else if IsYearToken(s, from) then Some(from)
    else FindYearFrom(s, from + 1)
  }

  /** `s.match(/20\d\d/)`: the position of the first match. */
  function YearMatch(s: string): (r: Option<nat>)
    ensures r.Some? ==> IsYearToken(s, r.value)
    ensures forall j :: 0 <= j && (r.None? || j < r.value) ==> !IsYearToken(s, j)
  {
    FindYearFrom(s, 0)
  }

  /** p occurs in s at position j. */
  predicate OccursAt(s: string, p: string, j: int) {
    0 <= j && j + |p| <= |s| && s[j..j + |p|] == p
  }

  /** `s.indexOf(p, from)` for `from <= |s|`. */
  function IndexOfFrom(s: string, p: string, from: nat): (r: Option<nat>)
    requires from <= |s|
    ensures r.Some? ==> from <= r.value && OccursAt(s, p, r.value)
    ensures forall j :: from <= j && (r.None? || j < r.value) ==> !OccursAt(s, p, j)
    decreases |s| - from
  {
    if |s| < from + |p| then None
    else if s[from..from + |p|] == p then Some(from)
    else IndexOfFrom(s, p, from + 1)
  }

  function IndexOf(s: string, p: string): Option<nat> {
    IndexOfFrom(s, p, 0)
  }

  /** `s.includes(p)`. */
  predicate Includes(s: string, p: string) {
    IndexOf(s, p).Some?
  }

  /** `s.replace(p, r)` with a string pattern: only the first occurrence.
      The replacement is inserted as it is, which is what `replace` does for
      a replacement without `$` (the app's is a printed year). */
  function ReplaceFirst(s: string, p: string, r: string): (t: string)
    ensures !Includes(s, p) ==> t == s
    ensures Includes(s, p) ==>
              var i := IndexOf(s, p).value;
              && |t| == |s| - |p| + |r|
              && t[..i] == s[..i] && t[i..i + |r|] == r && t[i + |r|..] == s[i + |p|..]
              && (forall j :: 0 <= j < i ==> !OccursAt(s, p, j))
  {
    match IndexOf(s, p)
    case None => s
    case Some(i) => s[..i] + r + s[i + |p|..]
  }

  /** The title after the effect that runs when the year changes: a first
      year token that differs from the year is overwritten in place; with no
      token, a title that mentions "Kalender" becomes "Kalender <year>";
      otherwise the title is kept. */
  function RewriteTitle(title: string, year: int): (r: string)
    ensures var ys, m := IntToString(year), YearMatch(title);
            && (m.Some? && title[m.value..m.value + 4] != ys ==> r == title[..m.value] + ys + title[m.value + 4..])
            && (m.Some? && title[m.value..m.value + 4] == ys ==> r == title)
            && (m.None? && Includes(title, "Kalender") ==> r == "Kalender " + ys)
            && (m.None? && !Includes(title, "Kalender") ==> r == title)
  {
    var ys := IntToString(year);
    match YearMatch(title)
    case Some(i) =>
      if title[i..i + 4] != ys then
        ReplaceYearToken(title, i, ys);
        ReplaceFirst(title, title[i..i + 4], ys)
      else title
    case None =>
      if Includes(title, "Kalender") then "Kalender " + ys else title
  }

  /** Replacing the text of the first year token replaces that token. */
  lemma ReplaceYearToken(title: string, i: nat, ys: string)
    requires YearMatch(title) == Some(i)
    ensures ReplaceFirst(title, title[i..i + 4], ys) == title[..i] + ys + title[i + 4..]
  {
    FirstYearIsFirstOccurrence(title, i);
  }

  /** Where the text of a year token occurs, a year token starts. */
  lemma OccurrenceOfToken(s: string, i: int, j: int)
    requires IsYearToken(s, i)
    ensures OccursAt(s, s[i..i + 4], j) ==> IsYearToken(s, j)
  {
    if OccursAt(s, s[i..i + 4], j) {
      assert s[j..j + 4][2] == s[i..i + 4][2] && s[j..j + 4][3] == s[i..i + 4][3];
    }
  }

  /** The first occurrence of the first year token's text is that token. */
  lemma FirstYearIsFirstOccurrence(title: string, i: nat)
    requires YearMatch(title) == Some(i)
    ensures IndexOf(title, title[i..i + 4]) == Some(i)
  {
    var p := title[i..i + 4];
    assert OccursAt(title, p, i);
    forall j | 0 <= j < i
      ensures !OccursAt(title, p, j)
    {
      OccurrenceOfToken(title, i, j);
    }
  }

  /** Writing a year of the 2000s over the first year token leaves it the
      first year token. */
  lemma ReplacedTokenStaysFirst(title: string, i: nat, ys: string)
    requires YearMatch(title) == Some(i)
    requires |ys| == 4 && ys[0] == '2' && ys[1] == '0' && IsDigit(ys[2]) && IsDigit(ys[3])
    ensures var t := title[..i] + ys + title[i + 4..];
            YearMatch(t) == Some(i) && t[i..i + 4] == ys
  {
    var t := title[..i] + ys + title[i + 4..];
    assert |t| == |title|;
    assert forall j :: 0 <= j < i ==> t[j] == title[j];
    assert forall j :: 0 <= j < 4 ==> t[i + j] == ys[j];
    assert forall j :: i + 4 <= j < |t| ==> t[j] == title[j];
    forall j | 0 <= j < i
      ensures IsYearToken(t, j) ==> IsYearToken(title, j)
    {
      if i <= j + 3 && j != i - 1 {
        assert t[j] == title[j] && t[j + 1] == title[j + 1];
        assert IsDigit(t[j + 2]) == IsDigit(title[j + 2]);
        assert IsDigit(t[j + 3]) == IsDigit(title[j + 3]);
      }
    }
    assert IsYearToken(t, i);
    NoEarlierToken(t, i);
    assert t[i..i + 4] == ys;
  }

  /** A token at i with none before it is the first match. */
  lemma NoEarlierToken(s: string, i: nat)
    requires IsYearToken(s, i)
    requires forall j :: 0 <= j < i ==> !IsYearToken(s, j)
    ensures YearMatch(s) == Some(i)
  {
    var r := YearMatch(s);
    assert r.Some?;
  }

  /** For a year of the 2000s, a title with a year token or with "Kalender"
      shows the year as its first year token after the rewrite. */
  lemma RewriteTitleShowsYear(title: string, year: int)
    requires 2000 <= year <= 2099
    requires YearMatch(title).Some? || Includes(title, "Kalender")
    ensures var r := RewriteTitle(title, year);
            YearMatch(r).Some? && r[YearMatch(r).value..YearMatch(r).value + 4] == IntToString(year)
  {
    var ys := IntToString(year);
    YearOfCenturyString(year);
    var r := RewriteTitle(title, year);
    match YearMatch(title)
    case Some(i) =>
      if title[i..i + 4] != ys {
        ReplacedTokenStaysFirst(title, i, ys);
      }
    case None =>
      KalenderTitleMatch(year);
  }

  /** "Kalender " followed by a year of the 2000s has that year as its first
      year token, at position 9. */
  lemma KalenderTitleMatch(year: int)
    requires 2000 <= year <= 2099
    ensures var t := "Kalender " + IntToString(year);
            YearMatch(t) == Some(9) && t[9..13] == IntToString(year)
  {
    var t := "Kalender " + IntToString(year);
    YearOfCenturyString(year);
    assert forall j :: 0 <= j < 9 ==> t[j] != '2';
    assert IsYearToken(t, 9);
    NoEarlierToken(t, 9);
    assert t[9..13] == IntToString(year);
  }

  /** The title the app starts with is left alone by the rewrite for its
      own year. */
  lemma DefaultTitleIsStable(defaultYear: int)
    requires 2000 <= defaultYear <= 2099
    ensures RewriteTitle(DefaultConfig(defaultYear).titleText, defaultYear) == DefaultConfig(defaultYear).titleText
  {
    KalenderTitleMatch(defaultYear);
  }

  /** For a year of the 2000s the rewrite is idempotent: running the effect
      again changes nothing. */
  lemma RewriteTitleIdempotent(title: string, year: int)
    requires 2000 <= year <= 2099
    ensures RewriteTitle(RewriteTitle(title, year), year) == RewriteTitle(title, year)
  {
    if YearMatch(title).Some? || Includes(title, "Kalender") {
      RewriteTitleShowsYear(title, year);
    }
  }

  /** After 2099 the year printed into the title no longer matches
      `/20\d\d/`, so the next rewrite for that same year falls back to
      "Kalender <year>" and drops the rest of the title: the rewrite is not
      idempotent there. */
  lemma TitleAfter2099LosesText()
    ensures RewriteTitle("Kalender Kita 2026", 2150) == "Kalender Kita 2150"
    ensures RewriteTitle("Kalender Kita 2150", 2150) == "Kalender 2150"
  {
    TitleOverwrittenWith2150();
    TitleWith2150Reset();
  }

  lemma Prints2150()
    ensures IntToString(2150) == "2150"
  {
    assert NatToString(2) == "2" && NatToString(21) == "21" && NatToString(215) == "215";
  }

  lemma TitleOverwrittenWith2150()
    ensures RewriteTitle("Kalender Kita 2026", 2150) == "Kalender Kita 2150"
  {
    var t := "Kalender Kita 2026";
    Prints2150();
    assert forall j :: 0 <= j < 14 ==> t[j] != '2';
    assert IsYearToken(t, 14);
    NoEarlierToken(t, 14);
    assert t[14..18] == "2026";
    assert t[..14] + "2150" + t[18..] == "Kalender Kita 2150";
  }

  lemma TitleWith2150Reset()
    ensures RewriteTitle("Kalender Kita 2150", 2150) == "Kalender 2150"
  {
    var u := "Kalender Kita 2150";
    Prints2150();
    assert forall j :: 0 <= j < |u| && j != 14 ==> u[j] != '2';
    assert !IsYearToken(u, 14);
    assert YearMatch(u).None?;
    assert u[0..8] == "Kalender";
    assert IndexOf(u, "Kalender") == Some(0);
  }

  /** Before 2000 the printed year is no `/20\d\d/` token either, so a
      second year in the title is the next one replaced: the rewrite is not
      idempotent there. */
  lemma TitleBefore2000ReplacesNextYear()
    ensures RewriteTitle("2026 2027", 1950) == "1950 2027"
    ensures RewriteTitle("1950 2027", 1950) == "1950 1950"
  {
    Prints1950();
    var t, u := "2026 2027", "1950 2027";
    assert IsYearToken(t, 0);
    NoEarlierToken(t, 0);
    assert t[..0] + "1950" + t[4..] == u;
    assert forall j :: 0 <= j < 5 ==> !IsYearToken(u, j);
    assert IsYearToken(u, 5);
    NoEarlierToken(u, 5);
    assert u[5..9] == "2027";
    assert u[..5] + "1950" + u[9..] == "1950 1950";
  }

  lemma Prints1950()
    ensures IntToString(1950) == "1950"
  {
    assert NatToString(1) == "1" && NatToString(19) == "19" && NatToString(195) == "195";
  }

  // ---------------------------------------------------------------------
  // Background-image map updates
  // ---------------------------------------------------------------------

  /** Layouts whose text sits on top of the picture. */
  predicate IsOverlayLayout(layout: Layout) {
    layout != Wall && layout != Side && layout != Minimal
  }

  /** `updateConfigWithImage`: the month's picture is set and the overlay
      and text colours follow the layout. */
  function WithImage(cfg: CalendarConfig, month: int, image: string): (r: CalendarConfig)
    ensures r.bgImages.Keys == cfg.bgImages.Keys + {MonthKey(month)}
    ensures r.bgImages[MonthKey(month)] == Some(image)
    ensures forall k :: k in cfg.bgImages && k != MonthKey(month) ==> r.bgImages[k] == cfg.bgImages[k]
    ensures IsOverlayLayout(cfg.layout) ==>
              r.overlayOpacity == 0.4 && r.textColor == "#ffffff" && r.titleColor == "#ffffff"
    ensures !IsOverlayLayout(cfg.layout) ==>
              r.overlayOpacity == 0.2 && r.textColor == "#1f2937" && r.titleColor == "#1f2937"
    ensures r == cfg.(bgImages := r.bgImages, overlayOpacity := r.overlayOpacity, overlayColor := Black,
                      textColor := r.textColor, titleColor := r.titleColor)
  {
    var overlay := IsOverlayLayout(cfg.layout);
    cfg.(bgImages := cfg.bgImages[MonthKey(month) := Some(image)],
         overlayOpacity := if overlay then 0.4 else 0.2,
         overlayColor := Black,
         textColor := if overlay then "#ffffff" else "#1f2937",
         titleColor := if overlay then "#ffffff" else "#1f2937")
  }

  /** `handleRemoveImage`: only the month's own key goes. */
  function WithoutImage(cfg: CalendarConfig, month: int): (r: CalendarConfig)
    ensures r.bgImages.Keys == cfg.bgImages.Keys - {MonthKey(month)}
    ensures forall k :: k in r.bgImages ==> r.bgImages[k] == cfg.bgImages[k]
    ensures r == cfg.(bgImages := r.bgImages)
  {
    cfg.(bgImages := cfg.bgImages - {MonthKey(month)})
  }

  /** Removing a picture just set restores the map without that month. */
  lemma RemoveAfterSet(cfg: CalendarConfig, month: int, image: string)
    ensures WithoutImage(WithImage(cfg, month, image), month).bgImages == cfg.bgImages - {MonthKey(month)}
  {
  }

  /** The look `handleGenerateYear` switches to before fetching. */
  function WallDefaults(cfg: CalendarConfig): (r: CalendarConfig)
    ensures r.layout == Wall && r.orientation == Portrait && r.overlayOpacity == 0.2
    ensures r.textColor == "#1f2937" && r.titleColor == "#1f2937"
    ensures !IsOverlayLayout(r.layout)
    ensures r == cfg.(layout := r.layout, orientation := r.orientation, textColor := r.textColor,
                      titleColor := r.titleColor, overlayOpacity := r.overlayOpacity)
  {
    cfg.(layout := Wall, orientation := Portrait, textColor := "#1f2937", titleColor := "#1f2937",
         overlayOpacity := 0.2)
  }

  /** On the wall look, setting a picture changes the map and the overlay
      colour only. */
  lemma WithImageKeepsWallLook(cfg: CalendarConfig, month: int, image: string)
    ensures var w := WallDefaults(cfg);
            WithImage(w, month, image) == w.(bgImages := w.bgImages[MonthKey(month) := Some(image)],
                                              overlayColor := Black)
  {
  }

  /** The settings after `images[i]` has been stored for the months
      0 .. |images|-1, in order: each picture sits under its month, every
      other entry is kept, and nothing but the map changes. */
  function FillMonths(cfg: CalendarConfig, images: seq<string>): (r: CalendarConfig)
    ensures r == cfg.(bgImages := r.bgImages)
    ensures forall i :: 0 <= i < |images| ==> MonthKey(i) in r.bgImages && r.bgImages[MonthKey(i)] == Some(images[i])
    ensures forall k :: k in cfg.bgImages && !(k.MonthKey? && 0 <= k.index < |images|) ==>
              k in r.bgImages && r.bgImages[k] == cfg.bgImages[k]
    ensures forall k :: k in r.bgImages ==> k in cfg.bgImages || (k.MonthKey? && 0 <= k.index < |images|)
  {
    if images == [] then cfg
    else
      var prefix := images[..|images| - 1];
      assert forall i :: 0 <= i < |prefix| ==> prefix[i] == images[i];
      var prev := FillMonths(cfg, prefix);
      prev.(bgImages := prev.bgImages[MonthKey(|images| - 1) := Some(images[|images| - 1])])
  }

  /** The months 0 .. n-1 whose pictures arrived before the first failure:
      `generate` is `None` where the image service throws. */
  function Arrived(generate: string -> Option<string>, n: nat): (images: seq<string>)
    requires n <= 12
    ensures |images| <= n
  {
    if n == 0 then []
    else
      var prev := Arrived(generate, n - 1);
      if |prev| == n - 1 && generate(MonthlyThemes[n - 1]).Some? then prev + [generate(MonthlyThemes[n - 1]).value]
      else prev
  }

  /** The stored pictures are the service's answers for the first months,
      and the month after them, if any, is the one whose request failed. */
  lemma {:induction false} ArrivedAreAnswers(generate: string -> Option<string>, n: nat)
    requires n <= 12
    ensures var images := Arrived(generate, n);
            && (forall i :: 0 <= i < |images| ==> generate(MonthlyThemes[i]) == Some(images[i]))
            && (|images| < n ==> generate(MonthlyThemes[|images|]).None?)
  {
    if n > 0 {
      ArrivedAreAnswers(generate, n - 1);
    }
  }

  /** After a picture is set for a month, that month shows it, when it is
      not empty. */
  lemma ImageShownAfterSet(cfg: CalendarConfig, month: int, image: string)
    requires image != ""
    ensures BackgroundFor(WithImage(cfg, month, image), month) == Some(image)
  {
  }

  /** Setting one month's picture does not change what the other months
      show. */
  lemma OtherMonthsUnchangedBySet(cfg: CalendarConfig, month: int, other: int, image: string)
    requires other != month
    ensures BackgroundFor(WithImage(cfg, month, image), other) == BackgroundFor(cfg, other)
  {
    assert Entry(WithImage(cfg, month, image).bgImages, MonthKey(other)) == Entry(cfg.bgImages, MonthKey(other));
  }

  /** After its picture is removed, a month shows the default picture. */
  lemma DefaultShownAfterRemove(cfg: CalendarConfig, month: int)
    ensures var r := WithoutImage(cfg, month);
            BackgroundFor(r, month) == (if Truthy(Entry(cfg.bgImages, DefaultKey)) then Entry(cfg.bgImages, DefaultKey) else None)
  {
  }

  // ---------------------------------------------------------------------
  // The pages of the full-year PDF
  // ---------------------------------------------------------------------

  /** A child of the hidden container: one without a `.calendar-card`, or
      one whose card is captured to an image (`None`: the capture fails). */
  datatype Wrapper = NoCard | Card(capture: Option<string>)

  /** The images the cards give, in order; `None` as soon as a capture fails. */
  function Captures(ws: seq<Wrapper>): (r: Option<seq<string>>)
    ensures r.Some? ==> |r.value| <= |ws|
  {
    if ws == [] then Some([])
    else
      match Captures(ws[..|ws| - 1])
      case None => None
      case Some(imgs) =>
        match ws[|ws| - 1]
        case NoCard => Some(imgs)
        case Card(None) => None
        case Card(Some(img)) => Some(imgs + [img])
  }

  /** `pdf.addImage` draws on the last page. */
  function Place(pages: seq<seq<string>>, img: string): (r: seq<seq<string>>)
    requires |pages| > 0
    ensures |r| == |pages| && r[|r| - 1] == pages[|pages| - 1] + [img]
    ensures forall k :: 0 <= k < |pages| - 1 ==> r[k] == pages[k]
  {
    pages[..|pages| - 1] + [pages[|pages| - 1] + [img]]
  }

  /** The document the capture loop builds, from a document of one empty
      page, as written: a new page for every card after the first wrapper. */
  function PagesAsWritten(ws: seq<Wrapper>): (r: Option<seq<seq<string>>>)
    ensures r.Some? ==> |r.value| > 0
  {
    if ws == [] then Some([[]])
    else
      match PagesAsWritten(ws[..|ws| - 1])
      case None => None
      case Some(pages) =>
        match ws[|ws| - 1]
        case NoCard => Some(pages)
        case Card(None) => None
        case Card(Some(img)) => Some(Place(if |ws| - 1 > 0 then pages + [[]] else pages, img))
  }

  /** One image per page, in order; a document without images keeps its one
      blank page. */
  function OnePerPage(imgs: seq<string>): (pages: seq<seq<string>>)
    ensures |pages| == if imgs == [] then 1 else |imgs|
    ensures imgs == [] ==> pages == [[]]
    ensures forall k :: 0 <= k < |imgs| ==> pages[k] == [imgs[k]]
  {
    if imgs == [] then [[]] else seq(|imgs|, k requires 0 <= k < |imgs| => [imgs[k]])
  }

  /** The document the loop is meant to build: the card images in wrapper
      order, one per page. */
  function Pages(ws: seq<Wrapper>): (r: Option<seq<seq<string>>>)
    ensures r.None? <==> Captures(ws).None?
    ensures r.Some? ==> var imgs := Captures(ws).value;
            && |r.value| == (if imgs == [] then 1 else |imgs|)
            && (forall k :: 0 <= k < |imgs| ==> r.value[k] == [imgs[k]])
            && (imgs == [] ==> r.value == [[]])
  {
    match Captures(ws)
    case None => None
    case Some(imgs) => Some(OnePerPage(imgs))
  }

  /** The number of wrappers holding a card among the first i. */
  function CardsBefore(ws: seq<Wrapper>, i: nat): (n: nat)
    requires i <= |ws|
    ensures n <= i
  {
    if i == 0 then 0 else CardsBefore(ws, i - 1) + (if ws[i - 1].Card? then 1 else 0)
  }

  /** Counting in a prefix is counting in the whole list. */
  lemma {:induction false} CardsBeforePrefix(ws: seq<Wrapper>, n: nat, i: nat)
    requires i <= n <= |ws|
    ensures CardsBefore(ws[..n], i) == CardsBefore(ws, i)
  {
    if i > 0 {
      CardsBeforePrefix(ws, n, i - 1);
    }
  }

  /** A card after position i counts after i. */
  lemma {:induction false} CardsBeforeGrows(ws: seq<Wrapper>, i: nat, j: nat)
    requires i < j <= |ws| && ws[i].Card?
    ensures CardsBefore(ws, i) < CardsBefore(ws, j)
  {
    if j > i + 1 {
      CardsBeforeGrows(ws, i, j - 1);
    }
  }

  /** The loop over the wrappers, stated without its recursion: it fails
      exactly when some card's capture throws; otherwise it holds one image
      per card, and the card at position i gives image number
      `CardsBefore(ws, i)`, so wrappers without a card are skipped and the
      cards keep their order. */
  lemma {:induction false} CapturesClosedForm(ws: seq<Wrapper>)
    ensures Captures(ws).None? <==> exists i :: 0 <= i < |ws| && ws[i] == Card(None)
    ensures Captures(ws).Some? ==>
              && |Captures(ws).value| == CardsBefore(ws, |ws|)
              && forall i :: 0 <= i < |ws| && ws[i].Card? ==>
                   CardsBefore(ws, i) < |Captures(ws).value| && Captures(ws).value[CardsBefore(ws, i)] == ws[i].capture.value
  {
    if ws != [] {
      var n := |ws| - 1;
      var init := ws[..n];
      CapturesClosedForm(init);
      assert forall i :: 0 <= i < n ==> init[i] == ws[i];
      forall i | 0 <= i <= n
        ensures CardsBefore(init, i) == CardsBefore(ws, i)
      {
        CardsBeforePrefix(ws, n, i);
      }
      match Captures(init)
      case None =>
      case Some(imgs) =>
        forall i | 0 <= i < n && ws[i].Card?
          ensures CardsBefore(ws, i) < |imgs|
        {
          CardsBeforeGrows(ws, i, n);
        }
    }
  }

  /** When every wrapper holds a card whose capture succeeds, the captures
      are those images, in wrapper order. */
  predicate AllCaptured(ws: seq<Wrapper>) {
    forall i :: 0 <= i < |ws| ==> ws[i].Card? && ws[i].capture.Some?
  }

  lemma {:induction false} CapturesOfAllCards(ws: seq<Wrapper>)
    requires AllCaptured(ws)
    ensures Captures(ws).Some?
    ensures |Captures(ws).value| == |ws|
    ensures forall i :: 0 <= i < |ws| ==> Captures(ws).value[i] == ws[i].capture.value
  {
    if ws != [] {
      var init := ws[..|ws| - 1];
      assert forall i :: 0 <= i < |init| ==> init[i] == ws[i];
      CapturesOfAllCards(init);
    }
  }

  /** The twelve rendered cards, all captured, give a twelve-page document
      with month k's card alone on page k. */
  lemma TwelveCardsTwelvePages(ws: seq<Wrapper>)
    requires |ws| == 12 && AllCaptured(ws)
    ensures Pages(ws).Some? && |Pages(ws).value| == 12
    ensures forall k :: 0 <= k < 12 ==> Pages(ws).value[k] == [ws[k].capture.value]
  {
    CapturesOfAllCards(ws);
  }

  /** A wrapper without a card in front leaves the first page blank. */
  lemma LeadingWrapperWithoutCardLeavesBlankPage()
    ensures PagesAsWritten([NoCard, Card(Some("a"))]) == Some([[], ["a"]])
    ensures Pages([NoCard, Card(Some("a"))]) == Some([["a"]])
  {
    var ws := [NoCard, Card(Some("a"))];
    var none: seq<string> := [];
    assert ws[..1] == [NoCard] && [NoCard][..0] == [];
    assert none + ["a"] == ["a"];
    assert OnePerPage(["a"]) == [["a"]];
    PlaceOnFreshPage([[]], "a");
    assert PagesAsWritten([NoCard]) == Some([[]]);
    assert Captures([NoCard]) == Some([]);
    assert Captures(ws) == Some(["a"]);
    assert PagesAsWritten(ws) == Some(Place([[]] + [[]], "a"));
    var blank: seq<string> := [];
    assert [blank] + [["a"]] == [[], ["a"]];
  }

  /** Drawing on a page just added fills that page only. */
  lemma PlaceOnFreshPage(pages: seq<seq<string>>, img: string)
    ensures Place(pages + [[]], img) == pages + [[img]]
  {
    var none: seq<string> := [];
    assert (pages + [[]])[..|pages|] == pages;
    assert none + [img] == [img];
  }

  lemma PlaceOnBlankPage(img: string)
    ensures Place([[]], img) == [[img]]
  {
    var none: seq<string> := [];
    assert none + [img] == [img];
  }

  /** Appending an image appends a page holding it. */
  lemma OnePerPageAppend(imgs: seq<string>, img: string)
    requires imgs != []
    ensures OnePerPage(imgs + [img]) == OnePerPage(imgs) + [[img]]
  {
    var l, r := OnePerPage(imgs + [img]), OnePerPage(imgs) + [[img]];
    assert |l| == |r|;
    forall k | 0 <= k < |l|
      ensures l[k] == r[k]
    {
      if k < |imgs| {
        assert (imgs + [img])[k] == imgs[k];
      }
    }
  }

  /** Once the first wrapper holds a card, the loop as written builds the
      document it is meant to. */
  lemma {:induction false} AsWrittenAgreesAfterFirstCard(ws: seq<Wrapper>)
    requires |ws| > 0 && ws[0].Card?
    ensures PagesAsWritten(ws) == Pages(ws)
    ensures Captures(ws).Some? ==> |Captures(ws).value| > 0
    decreases |ws|
  {
    var prefix := ws[..|ws| - 1];
    var last := ws[|ws| - 1];
    if |ws| == 1 {
      assert prefix == [];
      assert PagesAsWritten(prefix) == Some([[]]) && Captures(prefix) == Some([]);
      match last
      case NoCard =>
      case Card(None) =>
      case Card(Some(img)) =>
        var none: seq<string> := [];
        assert none + [img] == [img];
        assert Captures(ws) == Some([img]);
        assert OnePerPage([img]) == [[img]];
        assert PagesAsWritten(ws) == Some(Place([[]], img));
        PlaceOnBlankPage(img);
    } else {
      assert prefix[0] == ws[0];
      AsWrittenAgreesAfterFirstCard(prefix);
      match Captures(prefix)
      case None =>
      case Some(imgs) =>
        var pages := OnePerPage(imgs);
        assert PagesAsWritten(prefix) == Some(pages);
        match last
        case NoCard =>
        case Card(None) =>
        case Card(Some(img)) =>
          assert Captures(ws) == Some(imgs + [img]);
          assert PagesAsWritten(ws) == Some(Place(pages + [[]], img));
          OnePerPageAppend(imgs, img);
          PlaceOnFreshPage(pages, img);
    }
  }

  /** Once a month's picture fails, no later month's picture is stored. */
  lemma {:induction false} ArrivedStopsAtFailure(generate: string -> Option<string>, i: nat, n: nat)
    requires i < n <= 12
    requires |Arrived(generate, i)| == i && generate(MonthlyThemes[i]).None?
    ensures Arrived(generate, n) == Arrived(generate, i)
    decreases n
  {
    if n > i + 1 {
      ArrivedStopsAtFailure(generate, i, n - 1);
    }
  }

  /** Cards are captured left to right: the captures of one more wrapper. */
  lemma CapturesStep(ws: seq<Wrapper>, i: nat)
    requires i < |ws|
    ensures Captures(ws[..i + 1]) ==
              match Captures(ws[..i])
              case None => None
              case Some(imgs) =>
                match ws[i]
                case NoCard => Some(imgs)
                case Card(None) => None
                case Card(Some(img)) => Some(imgs + [img])
  {
    assert ws[..i + 1][..i] == ws[..i];
  }

  /** A failed capture fails the whole document. */
  lemma {:induction false} CapturesFailurePersists(ws: seq<Wrapper>, i: nat)
    requires i <= |ws| && Captures(ws[..i]).None?
    ensures Captures(ws).None?
    decreases |ws| - i
  {
    if i < |ws| {
      CapturesStep(ws, i);
      CapturesFailurePersists(ws, i + 1);
    } else {
      assert ws[..i] == ws;
    }
  }

  /** A picture that arrives after i unbroken successes is the next one
      stored. */
  lemma ArrivedStep(generate: string -> Option<string>, i: nat)
    requires i < 12 && |Arrived(generate, i)| == i && generate(MonthlyThemes[i]).Some?
    ensures Arrived(generate, i + 1) == Arrived(generate, i) + [generate(MonthlyThemes[i]).value]
  {
  }

  /** Storing one more picture stores it under the next month. */
  lemma FillMonthsStep(cfg: CalendarConfig, images: seq<string>, img: string)
    ensures FillMonths(cfg, images + [img])
         == var prev := FillMonths(cfg, images);
            prev.(bgImages := prev.bgImages[MonthKey(|images|) := Some(img)])
  {
    assert (images + [img])[..|images|] == images;
  }
}
