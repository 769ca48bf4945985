/**
 * The routing and widget callbacks of `main.py`: page and sub-page selection
 * from the URL path, the active navigation link, the collapse and modal
 * toggles, and which control panel is displayed.
 */
module DashboardRouting {
  import opened Wrappers
  import opened Text

  // ---------------------------------------------------------------------------
  // pages

  /** The layouts a content callback can return. */
  datatype Layout =
    | HomeLayout | PrecipitationLayout | DroughtAnalysisLayout
    | SeasonalLayout | TemporalLayout | IndicesLayout | SpiLayout

  const Root: string := "/"
  const PrecipitationPrefix: string := "/precipitation"
  const DroughtPrefix: string := "/drought"

  /** `render_page_content`: the top-level page for a path. */
  function RenderPageContent(path: string): (l: Layout)
    ensures l in {HomeLayout, PrecipitationLayout, DroughtAnalysisLayout}
    ensures l == PrecipitationLayout <==> path != Root && StartsWith(path, PrecipitationPrefix)
    ensures l == DroughtAnalysisLayout <==>
      path != Root && !StartsWith(path, PrecipitationPrefix) && StartsWith(path, DroughtPrefix)
  {
    if path == Root then HomeLayout
    else if StartsWith(path, PrecipitationPrefix) then PrecipitationLayout
    else if StartsWith(path, DroughtPrefix) then DroughtAnalysisLayout
    else HomeLayout
  }

  /** `render_precipitation_content`: the tab inside the precipitation page; seasonal by default. */
  function RenderPrecipitationContent(path: string): (l: Layout)
    ensures l in {SeasonalLayout, TemporalLayout, IndicesLayout}
    ensures l == TemporalLayout <==> path == "/precipitation/temporal"
    ensures l == IndicesLayout <==> path == "/precipitation/extremes"
  {
    if path == "/precipitation" || path == "/precipitation/seasonal" then SeasonalLayout
    else if path == "/precipitation/temporal" then TemporalLayout
    else if path == "/precipitation/extremes" then IndicesLayout
    else SeasonalLayout
  }

  /** `render_drought_content`: the SPI view for its two paths, the home layout otherwise. */
  function RenderDroughtContent(path: string): (l: Layout)
    ensures l in {SpiLayout, HomeLayout}
    ensures l == SpiLayout <==> path == "/drought" || path == "/drought/spi"
  {
    if path == "/drought" || path == "/drought/spi" then SpiLayout else HomeLayout
  }

  /** Which of the three side-bar links carries the active style. */
  datatype NavActive = NavActive(home: bool, precipitation: bool, drought: bool)

  /** `update_nav_links`. */
  function UpdateNavLinks(path: string): (a: NavActive)
    ensures a.home <==> path == Root
    ensures a.precipitation <==> path != Root && StartsWith(path, PrecipitationPrefix)
    ensures a.drought <==> path == "/drought"
  {
    if path == Root then NavActive(true, false, false)
    else if StartsWith(path, PrecipitationPrefix) then NavActive(false, true, false)
    else if path == "/drought" then NavActive(false, false, true)
    else NavActive(false, false, false)
  }

  /** At most one link is highlighted. */
  lemma AtMostOneNavLinkActive(path: string)
    ensures var a := UpdateNavLinks(path);
      !(a.home && a.precipitation) && !(a.home && a.drought) && !(a.precipitation && a.drought)
  {
  }

  /**
   * A highlighted link always names the page that is shown; the drought link
   * lights up only on `/drought` itself, so the drought page at a deeper path
   * such as `/drought/spi` shows with no link highlighted.
   */
  lemma NavLinkMatchesPage(path: string)
    ensures UpdateNavLinks(path).home ==> RenderPageContent(path) == HomeLayout
    ensures UpdateNavLinks(path).precipitation ==> RenderPageContent(path) == PrecipitationLayout
    ensures UpdateNavLinks(path).drought ==> RenderPageContent(path) == DroughtAnalysisLayout
    ensures RenderPageContent("/drought/spi") == DroughtAnalysisLayout && UpdateNavLinks("/drought/spi") == NavActive(false, false, false)
  {
    if path == "/drought" {
      assert StartsWith(path, DroughtPrefix);
      assert !StartsWith(path, PrecipitationPrefix);
    }
    var deep := "/drought/spi";
    assert deep[..|DroughtPrefix|] == DroughtPrefix;
    assert deep[1] != PrecipitationPrefix[1];
    assert !StartsWith(deep, PrecipitationPrefix);
  }

  /** Every path that lands on the drought page and is `/drought` or `/drought/spi` gets the SPI view. */
  lemma DroughtPathsShowSpi(path: string)
    requires path == "/drought" || path == "/drought/spi"
    ensures RenderPageContent(path) == DroughtAnalysisLayout && RenderDroughtContent(path) == SpiLayout
  {
    assert path[..|DroughtPrefix|] == DroughtPrefix;
    assert path[1] != PrecipitationPrefix[1];
  }

  // ---------------------------------------------------------------------------
  // toggles

  /** Python truthiness of an optional integer such as `n_clicks`: `None` and `0` are false. */
  predicate Truthy(n: Option<int>) { n.Some? && n.value != 0 }

  const ArrowDown: string := "fas fa-chevron-down ms-auto"
  const ArrowUp: string := "fas fa-chevron-up ms-auto"

  datatype Collapse = Collapse(isOpen: bool, arrow: string)

  /** `toggle_precipitation_collapse` and `toggle_drought_collapse`, which are the same rule. */
  function ToggleCollapse(n: Option<int>, isOpen: bool): (c: Collapse)
    ensures Truthy(n) ==> c.isOpen == !isOpen
    ensures !Truthy(n) ==> c.isOpen == isOpen && c.arrow == ArrowDown
    ensures c.arrow == ArrowUp <==> Truthy(n) && c.isOpen
    ensures c.arrow == ArrowUp || c.arrow == ArrowDown
  {
    if Truthy(n) then
      if isOpen then Collapse(false, ArrowDown) else Collapse(true, ArrowUp)
    else Collapse(isOpen, ArrowDown)
  }

  /** Two clicks bring a section back to where it was. */
  lemma ToggleCollapseTwice(n: Option<int>, m: Option<int>, isOpen: bool)
    requires Truthy(n) && Truthy(m)
    ensures ToggleCollapse(m, ToggleCollapse(n, isOpen).isOpen).isOpen == isOpen
  {
  }

  /** `toggle_ppt_modal` and `toggle_drought_modal`: either button flips the modal. */
  function ToggleModal(n1: Option<int>, n2: Option<int>, isOpen: bool): (open: bool)
    ensures open != isOpen <==> Truthy(n1) || Truthy(n2)
  {
    if Truthy(n1) || Truthy(n2) then !isOpen else isOpen
  }

  /** Opening with one button and closing with the other returns to the start. */
  lemma ModalOpenThenClose(open: Option<int>, close: Option<int>, isOpen: bool)
    requires Truthy(open) && Truthy(close)
    ensures ToggleModal(None, close, ToggleModal(open, None, isOpen)) == isOpen
  {
  }

  // ---------------------------------------------------------------------------
  // control visibility

  /** `{'display': 'block'}` or `{'display': 'none'}`. */
  datatype Display = Block | Hidden

  datatype FrequencyControls = FrequencyControls(daily: Display, monthly: Display, yearly: Display)

  function ShowIf(b: bool): (d: Display)
    ensures d == Block <==> b
  {
    if b then Block else Hidden
  }

  /** `update_control_visibility`. */
  function UpdateControlVisibility(freq: string): (c: FrequencyControls)
    ensures c.daily == Block <==> freq == "Daily"
    ensures c.monthly == Block <==> freq == "Monthly"
    ensures c.yearly == Block <==> freq == "Yearly"
  {
    FrequencyControls(ShowIf(freq == "Daily"), ShowIf(freq == "Monthly"), ShowIf(freq == "Yearly"))
  }

  function Shown(c: FrequencyControls): nat {
    (if c.daily == Block then 1 else 0) + (if c.monthly == Block then 1 else 0) + (if c.yearly == Block then 1 else 0)
  }

  /** One panel is shown for each of the three frequencies, none for any other value. */
  lemma OneFrequencyPanel(freq: string)
    ensures Shown(UpdateControlVisibility(freq)) == if freq in {"Daily", "Monthly", "Yearly"} then 1 else 0
  {
  }

  datatype IndicesControls = IndicesControls(threshold: Display, quantile: Display)

  /** `update_indices_controls_visibility`. */
  function UpdateIndicesControlsVisibility(kind: string): (c: IndicesControls)
    ensures c.threshold == Block <==> kind == "threshold"
    ensures c.quantile == Block <==> kind == "quantile"
  {
    IndicesControls(ShowIf(kind == "threshold"), ShowIf(kind == "quantile"))
  }

  /** The two extremes panels are never shown together. */
  lemma IndicesPanelsExclusive(kind: string)
    ensures !(UpdateIndicesControlsVisibility(kind).threshold == Block && UpdateIndicesControlsVisibility(kind).quantile == Block)
  {
  }
}
