/**
 * The small decision rules of the page: how the header looks while the page scrolls,
 * which colour the message character counter takes, and which colour theme is shown.
 */
module PageEffects {
  import opened Options

  // ---------------------------------------------------------------------------------------
  // Header on scroll
  // ---------------------------------------------------------------------------------------

  /** Past this many pixels the header gets its denser background. */
  const SolidAfter: real := 100.0
  /** Past this many pixels, scrolling down hides the header. */
  const HideAfter: real := 200.0

  /** The two things the scroll handler decides: the denser background, and hiding the header. */
  datatype HeaderLook = HeaderLook(solid: bool, hidden: bool)

  /** The header rule for a scroll position, given the position seen by the previous update. */
  function HeaderRule(lastScrollY: real, scrollY: real): (look: HeaderLook)
    ensures look.solid <==> scrollY > SolidAfter
    ensures look.hidden <==> scrollY > lastScrollY && scrollY > HideAfter
    ensures look.hidden ==> look.solid
  {
    HeaderLook(scrollY > SolidAfter, scrollY > lastScrollY && scrollY > HideAfter)
  }

  /** Scrolling up, or staying put, always shows the header. */
  lemma ScrollingUpShowsHeader(lastScrollY: real, scrollY: real)
    requires scrollY <= lastScrollY
    ensures !HeaderRule(lastScrollY, scrollY).hidden
  {
  }

  /**
   * The state the scroll handler keeps between events: the last position it acted on, and
   * whether an update is already waiting for the next animation frame.
   */
  class HeaderEffects {
    var lastScrollY: real
    var ticking: bool

    constructor (scrollY: real)
      ensures lastScrollY == scrollY && !ticking
    {
      lastScrollY := scrollY;
      ticking := false;
    }

    /** A scroll event: an update is scheduled only if none is already pending. */
    method OnScroll() returns (schedule: bool)
      modifies this
      ensures schedule == !old(ticking)
      ensures ticking && lastScrollY == old(lastScrollY)
    {
      schedule := !ticking;
      if !ticking {
        ticking := true;
      }
    }

    /** The scheduled update: decide the look from the remembered position, then remember this one. */
    method UpdateHeader(scrollY: real) returns (look: HeaderLook)
      modifies this
      ensures look == HeaderRule(old(lastScrollY), scrollY)
      ensures lastScrollY == scrollY && !ticking
    {
      look := HeaderRule(lastScrollY, scrollY);
      lastScrollY := scrollY;
      ticking := false;
    }
  }

  // ---------------------------------------------------------------------------------------
  // Character counter
  // ---------------------------------------------------------------------------------------

  /** The limit used when the text area has no `maxlength` attribute. */
  const DefaultMaxLength: int := 5000

  /** The counter's colour: red near the limit, amber on the way there, the default otherwise. */
  datatype CounterColour = Danger | Warning | Default

  /** The CSS colour written to the counter for each colour; the three are distinct. */
  function ColourCode(c: CounterColour): (code: string)
    ensures code == "#ef4444" <==> c == Danger
    ensures code == "#f59e0b" <==> c == Warning
    ensures code == "" <==> c == Default
  {
    match c
    case Danger => "#ef4444"
    case Warning => "#f59e0b"
    case Default => ""
  }

  function Severity(c: CounterColour): nat {
    match c
    case Danger => 2
    case Warning => 1
    case Default => 0
  }

  /** The limit in force: the `maxlength` attribute when present, else the default. */
  function MaxLength(attribute: Option<int>): (m: int)
    ensures attribute.None? ==> m == DefaultMaxLength
  {
    match attribute
    case None => DefaultMaxLength
    case Some(n) => n
  }

  /**
   * The colour rule: above 90% of the limit is Danger, above 70% is Warning. Stated in
   * whole numbers, the thresholds are 10 * count > 9 * limit and 10 * count > 7 * limit.
   */
  function CounterColourFor(count: nat, maxLength: int): (c: CounterColour)
    ensures c == Danger <==> 10 * count > 9 * maxLength
    ensures c == Warning <==> 10 * count <= 9 * maxLength && 10 * count > 7 * maxLength
    ensures c == Default <==> 10 * count <= 9 * maxLength && 10 * count <= 7 * maxLength
  {
    if count as real > maxLength as real * 0.9 then Danger
    else if count as real > maxLength as real * 0.7 then Warning
    else Default
  }

  /** The colour actually written to the counter, against the counter rule's thresholds (90% and 70% of the limit). */
  lemma CounterStyle(count: nat, maxLength: int)
    ensures ColourCode(CounterColourFor(count, maxLength)) == "#ef4444" <==> 10 * count > 9 * maxLength
    ensures ColourCode(CounterColourFor(count, maxLength)) == "#f59e0b" <==>
      10 * count <= 9 * maxLength && 10 * count > 7 * maxLength
    ensures ColourCode(CounterColourFor(count, maxLength)) == "" <==> 10 * count <= 7 * maxLength
  {
    var c := CounterColourFor(count, maxLength);
    assert ColourCode(c) == "#ef4444" <==> c == Danger;
  }

  /** Typing more never makes the counter less alarming, whatever the limit. */
  lemma CounterColourMonotone(count1: nat, count2: nat, maxLength: int)
    requires count1 <= count2
    ensures Severity(CounterColourFor(count1, maxLength)) <= Severity(CounterColourFor(count2, maxLength))
  {
  }

  /** With the default limit the counter turns amber after 3500 characters and red after 4500. */
  lemma DefaultCounterThresholds(count: nat)
    ensures CounterColourFor(count, MaxLength(None)) == Danger <==> count > 4500
    ensures CounterColourFor(count, MaxLength(None)) == Warning <==> 3500 < count <= 4500
  {
  }

  // ---------------------------------------------------------------------------------------
  // Colour theme
  // ---------------------------------------------------------------------------------------

  const Dark: string := "dark"
  const Light: string := "light"

  /** `setTheme`: the dark class is applied exactly for the theme named "dark". */
  predicate AppliesDark(theme: string) {
    theme == Dark
  }

  /** A stored preference counts only when it is present and not the empty string. */
  predicate HasSavedTheme(saved: Option<string>) {
    saved.Some? && saved.value != ""
  }

  /** The theme at start-up: the stored preference if any, else the system preference. */
  function InitialTheme(saved: Option<string>, systemPrefersDark: bool): (theme: string)
    ensures HasSavedTheme(saved) ==> theme == saved.value
    ensures !HasSavedTheme(saved) ==> (AppliesDark(theme) <==> systemPrefersDark)
    ensures !HasSavedTheme(saved) ==> theme in {Dark, Light}
  {
    if HasSavedTheme(saved) then saved.value
    else if systemPrefersDark then Dark else Light
  }

  /** A click on a toggle: the theme opposite to the one currently shown. */
  function ToggledTheme(isDark: bool): (theme: string)
    ensures AppliesDark(theme) <==> !isDark
    ensures theme in {Dark, Light}
  {
    if isDark then Light else Dark
  }

  /**
   * A change of the system preference: the new dark state, or None when a stored
   * preference takes precedence and nothing changes.
   */
  function OnSystemChange(saved: Option<string>, matchesDark: bool): (dark: Option<bool>)
    ensures dark.None? <==> HasSavedTheme(saved)
    ensures dark.Some? ==> dark.value == matchesDark
  {
    if HasSavedTheme(saved) then None
    else Some(AppliesDark(if matchesDark then Dark else Light))
  }

  /** Two clicks bring back the theme shown before them. */
  lemma ToggleTwiceRestores(isDark: bool)
    ensures AppliesDark(ToggledTheme(AppliesDark(ToggledTheme(isDark)))) == isDark
  {
  }

  /** A click stores its theme, so every later change of the system preference is ignored. */
  lemma ClickPinsTheme(isDark: bool, matchesDark: bool)
    ensures OnSystemChange(Some(ToggledTheme(isDark)), matchesDark).None?
  {
  }
}
