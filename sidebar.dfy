/**
 * The two side panels (static/js/main.js:12-15, 29-45): `sidebarState` holds
 * one visibility flag per panel, each toggle button flips its own flag, and
 * the main content's margins are recomputed from the flags.
 */
module Sidebar {

  const ShownMargin: string := "320px"
  const HiddenMargin: string := "20px"

  /** The margin `updateMainContentMargin` gives the side of a panel. */
  function Margin(visible: bool): string {
    if visible then ShownMargin else HiddenMargin
  }

  /** The margin of a side tells whether its panel is visible: the four flag pairs give four layouts. */
  lemma MarginShowsVisibility(a: bool, b: bool)
    ensures Margin(a) == Margin(b) <==> a == b
    ensures Margin(a) == "320px" <==> a
    ensures Margin(a) == "20px" <==> !a
  {
    assert ShownMargin[0] == '3' != '2' == HiddenMargin[0];
  }

  class SidebarState {
    var left: bool   // the vocabulary panel is shown
    var right: bool  // the translation panel is shown

    /** Both panels start out shown. */
    constructor ()
      ensures left && right
      ensures MarginLeft() == "320px" && MarginRight() == "320px"
    {
      left, right := true, true;
    }

    /** `mainContent.style.marginLeft` */
    function MarginLeft(): string
      reads this
    {
      Margin(left)
    }

    /** `mainContent.style.marginRight` */
    function MarginRight(): string
      reads this
    {
      Margin(right)
    }

    /** The `leftToggle` click handler: flips the left flag only. */
    method ToggleLeft()
      modifies this
      ensures left == !old(left) && right == old(right)
      ensures MarginLeft() == Margin(!old(left)) && MarginRight() == old(MarginRight())
    {
      left := !left;
    }

    /** The `rightToggle` click handler: flips the right flag only. */
    method ToggleRight()
      modifies this
      ensures right == !old(right) && left == old(left)
      ensures MarginRight() == Margin(!old(right)) && MarginLeft() == old(MarginLeft())
    {
      right := !right;
    }
  }

  /** Two clicks on the same toggle restore the flags and the layout. */
  method ToggleLeftTwice(s: SidebarState)
    modifies s
    ensures s.left == old(s.left) && s.right == old(s.right)
    ensures s.MarginLeft() == old(s.MarginLeft()) && s.MarginRight() == old(s.MarginRight())
  {
    s.ToggleLeft();
    s.ToggleLeft();
  }

  method ToggleRightTwice(s: SidebarState)
    modifies s
    ensures s.left == old(s.left) && s.right == old(s.right)
    ensures s.MarginLeft() == old(s.MarginLeft()) && s.MarginRight() == old(s.MarginRight())
  {
    s.ToggleRight();
    s.ToggleRight();
  }
}
