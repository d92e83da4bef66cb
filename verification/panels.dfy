/** Which sidebar panel is visible: at most one, with toggle semantics on each button. */
module Panels {
  import opened Types

  /** Pressing the button of `p`: closes the sidebar if `p` is showing, shows `p` otherwise. */
  function Toggle(current: SidebarPanel, p: SidebarPanel): (r: SidebarPanel)
    ensures r == NONE <==> current == p || p == NONE
    ensures r != NONE ==> r == p
  {
    if current == p then NONE else p
  }

  /** Pressing the same button twice from a hidden sidebar hides it again. */
  lemma ToggleTwiceHides(p: SidebarPanel)
    ensures Toggle(Toggle(NONE, p), p) == NONE
  {
  }

  /** Pressing X then a different Y always shows Y, with no hidden state in between when X was not showing. */
  lemma ToggleSwitchesDirectly(current: SidebarPanel, x: SidebarPanel, y: SidebarPanel)
    requires x != y
    ensures Toggle(Toggle(current, x), y) == y
    ensures current != x && x != NONE ==> Toggle(current, x) == x
  {
  }
}
