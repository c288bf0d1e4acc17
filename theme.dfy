/**
 * The light/dark theme: the value the toggle control switches to, the class
 * set of the theme icon, and what a run of toggles produces.
 */
module Theme {
  import opened Optional

  const Dark := "dark"
  const Light := "light"
  const Sun := "fa-sun"
  const Moon := "fa-moon"

  /**
   * The theme the toggle control switches to from the current `data-theme`
   * attribute (`None` when the attribute is unset): only `dark` leads to
   * `light`; an unset attribute or any other value leads to `dark`.
   */
  function Flip(current: Option<string>): (next: string)
    ensures next == Dark || next == Light
    ensures next == Light <==> current == Some(Dark)
  {
    if current == Some(Dark) then Light else Dark
  }

  /**
   * The icon's classes after it is set for `theme`: the sun for `dark`, the
   * moon for everything else, and every other class kept as it was.
   */
  function IconClasses(classes: set<string>, theme: string): (r: set<string>)
    ensures theme == Dark ==> Sun in r && Moon !in r
    ensures theme != Dark ==> Moon in r && Sun !in r
    ensures forall c :: c != Sun && c != Moon ==> (c in r <==> c in classes)
  {
    if theme == Dark then classes - {Moon} + {Sun} else classes - {Sun} + {Moon}
  }

  /** The icon element after it is set for `theme`; a missing icon stays missing. */
  function IconAfter(icon: Option<set<string>>, theme: string): (r: Option<set<string>>)
    ensures r.Some? <==> icon.Some?
    ensures r.Some? ==> (Sun in r.value <==> theme == Dark) && (Moon in r.value <==> theme != Dark)
    ensures r.Some? ==> forall c :: c != Sun && c != Moon ==> (c in r.value <==> c in icon.value)
  {
    match icon
    case None => None
    case Some(classes) => Some(IconClasses(classes, theme))
  }

  /** Setting the icon for the same theme a second time changes nothing. */
  lemma IconAfterIdempotent(icon: Option<set<string>>, theme: string)
    ensures IconAfter(IconAfter(icon, theme), theme) == IconAfter(icon, theme)
  {
    if icon.Some? {
      var once := IconClasses(icon.value, theme);
      assert IconClasses(once, theme) == once;
    }
  }

  /** The `data-theme` attribute after `n` presses of the toggle control. */
  function AfterToggles(start: Option<string>, n: nat): Option<string>
    decreases n
  {
    if n == 0 then start else AfterToggles(Some(Flip(start)), n - 1)
  }

  /**
   * From `dark` or `light`, the theme alternates: after an even number of
   * presses it is back where it started, after an odd number it is the other.
   */
  lemma {:induction false} TogglesAlternate(start: string, n: nat)
    requires start == Dark || start == Light
    ensures AfterToggles(Some(start), n) == Some(if n % 2 == 0 then start else Flip(Some(start)))
    decreases n
  {
    if n > 0 {
      var other := Flip(Some(start));
      assert Flip(Some(other)) == start;
      TogglesAlternate(other, n - 1);
    }
  }

  /**
   * From any starting attribute, even unset or unexpected, the first press
   * lands on `dark` or `light` and the value alternates from then on.
   */
  lemma {:induction false} TogglesAlternateFromAny(start: Option<string>, n: nat)
    requires n >= 1
    ensures AfterToggles(start, n) == Some(if n % 2 == 1 then Flip(start) else Flip(Some(Flip(start))))
  {
    var first := Flip(start);
    TogglesAlternate(first, n - 1);
  }
}
