/** The two rules of components/CalendarView.tsx and ControlPanel.tsx that
    the app state feeds: which background a month shows and the size of a
    page. */
module View {
  import opened Wrappers
  import opened Types

  /** The A4 page in CSS pixels (210 mm by 297 mm). */
  const A4WidthPx: int := 794
  const A4HeightPx: int := 1123

  /** `bgImages[key]`: a missing key and a `null` entry both read as `None`. */
  function Entry(images: map<BgKey, Option<string>>, key: BgKey): Option<string> {
    if key in images then images[key] else None
  }

  /** JavaScript truthiness of an entry: present, not null, not empty. */
  predicate Truthy(v: Option<string>) {
    v.Some? && v.value != ""
  }

  /** The poster's background: the month's own picture, else the default
      one, else `null`. */
  function BackgroundFor(cfg: CalendarConfig, month: int): (r: Option<string>)
    ensures r.None? || Truthy(r)
    ensures r.Some? ==> r == Entry(cfg.bgImages, MonthKey(month)) || r == Entry(cfg.bgImages, DefaultKey)
  {
    var own := Entry(cfg.bgImages, MonthKey(month));
    var fallback := Entry(cfg.bgImages, DefaultKey);
    if Truthy(own) then own else if Truthy(fallback) then fallback else None
  }

  /** The poster shows a picture exactly when the month or the default has
      a non-empty one, and the month's own picture wins. */
  lemma BackgroundPrefersOwnPicture(cfg: CalendarConfig, month: int)
    ensures var own, fallback := Entry(cfg.bgImages, MonthKey(month)), Entry(cfg.bgImages, DefaultKey);
            && (BackgroundFor(cfg, month).Some? <==> Truthy(own) || Truthy(fallback))
            && (Truthy(own) ==> BackgroundFor(cfg, month) == own)
            && (!Truthy(own) && Truthy(fallback) ==> BackgroundFor(cfg, month) == fallback)
  {
  }

  /** The preview in the control panel: `bgImages[month] || bgImages['default']`,
      without the final `|| null`. It shows a picture exactly when the poster
      does, and the same one. */
  function CurrentBackground(cfg: CalendarConfig, month: int): (r: Option<string>)
    ensures Truthy(r) <==> BackgroundFor(cfg, month).Some?
    ensures Truthy(r) ==> r == BackgroundFor(cfg, month)
  {
    var own := Entry(cfg.bgImages, MonthKey(month));
    if Truthy(own) then own else Entry(cfg.bgImages, DefaultKey)
  }

  /** Width and height of the calendar card, in pixels. */
  function PageSize(orientation: Orientation): (size: (int, int))
    ensures {size.0, size.1} == {A4WidthPx, A4HeightPx}
    ensures size.0 * size.1 == A4WidthPx * A4HeightPx
    ensures orientation == Portrait <==> size.0 < size.1
  {
    if orientation == Portrait then (A4WidthPx, A4HeightPx) else (A4HeightPx, A4WidthPx)
  }

  /** Landscape is portrait turned on its side. */
  lemma LandscapeIsPortraitTurned()
    ensures PageSize(Landscape) == (PageSize(Portrait).1, PageSize(Portrait).0)
  {
  }
}
