/**
  Visibility of the "add colour" panel. The component toggles the panel by
  rewriting its inline `style.display`, which starts out empty; the
  stylesheet hides `.modal` by default, so only an inline `flex` shows it.
 */
module Modal {

  /** Inline `style.display` of the panel: '' (never set), 'none' or 'flex'. */
  datatype Display = Unset | DisplayNone | DisplayFlex

  /** Whether the panel is on screen: the stylesheet's `display: none` applies unless overridden by 'flex'. */
  predicate Visible(d: Display) {
    d == DisplayFlex
  }

  /** `_toggleModal` on a rendered panel: 'none' becomes 'flex', anything else becomes 'none'. */
  function Toggle(d: Display): (r: Display)
    ensures r != Unset
    ensures Visible(r) <==> d == DisplayNone
  {
    if d == DisplayNone then DisplayFlex else DisplayNone
  }

  /** The display after `k` toggles starting from `d`. */
  function Toggles(d: Display, k: nat): Display
    decreases k
  {
    if k == 0 then d else Toggles(Toggle(d), k - 1)
  }

  /** Toggling twice restores the display exactly when it had been set. */
  lemma ToggleTwice(d: Display)
    ensures Toggle(Toggle(d)) == d <==> d != Unset
  {
  }

  /** From a set display, `k` toggles land on `d` for even `k` and on the other state for odd `k`. */
  lemma {:induction false} TogglesFromSet(d: Display, k: nat)
    requires d != Unset
    ensures Toggles(d, k) == if k % 2 == 0 then d else Toggle(d)
    decreases k
  {
    if k > 0 {
      TogglesFromSet(Toggle(d), k - 1);
      ToggleTwice(d);
    }
  }

  /**
    From the initial empty display the first toggle only writes 'none', so
    the panel first appears on the second toggle and is shown after `k`
    toggles exactly when `k` is even and positive.
   */
  lemma {:induction false} TogglesFromUnset(k: nat)
    ensures Toggles(Unset, k) == if k == 0 then Unset else if k % 2 == 1 then DisplayNone else DisplayFlex
    ensures Visible(Toggles(Unset, k)) <==> k > 0 && k % 2 == 0
  {
    if k > 0 {
      TogglesFromSet(DisplayNone, k - 1);
    }
  }
}
