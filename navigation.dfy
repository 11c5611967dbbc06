/**
 * The collapsible mobile navigation: the menu's open state, the toggle button's
 * `aria-expanded` attribute, and an `active` flag per `.has-submenu` item and
 * per `.submenu` panel inside it.
 *
 * `main.js` flips four classes together (`active` on the nav list, the toggle
 * and the overlay, `menu-open` on the body); they always carry the same value,
 * so they are one flag here, `menuOpen`. Window width is an input of the events
 * that read it.
 */
module Navigation {
  import opened Flags

  /** Widest viewport, in CSS pixels, on which the mobile submenu behaviour applies. */
  const MobileBreakpoint: int := 992

  predicate Narrow(width: int) {
    width <= MobileBreakpoint
  }

  /** The string `setAttribute` stores for a boolean. */
  function BoolText(b: bool): (r: string)
    ensures r == "true" <==> b
    ensures r == "false" <==> !b
  {
    if b then "true" else "false"
  }

  class MobileNav {
    /** False when `.nav-toggle` or `.nav-list` is missing: then no handler is attached. */
    const mounted: bool
    /** Whether each `.has-submenu` item contains a `.submenu` panel. */
    const hasPanel: seq<bool>
    var menuOpen: bool
    var ariaExpanded: string
    /** `active` flag of each `.has-submenu` item. */
    var itemActive: array<bool>
    /** `active` flag of each item's `.submenu` panel (false where there is none). */
    var panelActive: array<bool>

    /**
     * Object invariant: at most one submenu item is active, and a panel is
     * active exactly when it exists and its item is.
     */
    ghost predicate Valid()
      reads this, itemActive, panelActive
    {
      && itemActive != panelActive
      && itemActive.Length == |hasPanel| && panelActive.Length == |hasPanel|
      && AtMostOneActive(itemActive[..])
      && PanelsFollowItems(itemActive[..], panelActive[..])
    }

    ghost predicate PanelsFollowItems(items: seq<bool>, panels: seq<bool>)
      requires |items| == |panels| == |hasPanel|
    {
      forall k :: 0 <= k < |items| ==> (panels[k] <==> hasPanel[k] && items[k])
    }

    /** Counted, the invariant says at most one submenu item and at most one panel are active. */
    lemma ValidCountsActive()
      requires Valid()
      ensures CountActive(itemActive[..]) <= 1 && CountActive(panelActive[..]) <= 1
    {
      AtMostOneActiveIffCount(itemActive[..]);
      assert AtMostOneActive(panelActive[..]) by {
        forall i, j | 0 <= i < panelActive.Length && 0 <= j < panelActive.Length && panelActive[i] && panelActive[j]
          ensures i == j
        {
          assert itemActive[..][i] && itemActive[..][j];
        }
      }
      AtMostOneActiveIffCount(panelActive[..]);
    }

    /**
     * The page's navigation as loaded: the toggle and list present or not, the
     * submenu items with or without a panel, nothing active, `aria-expanded` as
     * written in the markup.
     */
    constructor (togglePresent: bool, listPresent: bool, panels: seq<bool>, aria: string)
      ensures Valid() && fresh(itemActive) && fresh(panelActive)
      ensures mounted <==> togglePresent && listPresent
      ensures hasPanel == panels && !menuOpen && ariaExpanded == aria
      ensures NoneActive(itemActive[..]) && NoneActive(panelActive[..])
    {
      mounted := togglePresent && listPresent;
      hasPanel := panels;
      menuOpen := false;
      ariaExpanded := aria;
      itemActive := new bool[|panels|](k => false);
      panelActive := new bool[|panels|](k => false);
    }

    /** Flips the menu open or closed and writes the new state to `aria-expanded`. */
    method ToggleMenu()
      requires Valid() && mounted
      modifies this`menuOpen, this`ariaExpanded
      ensures Valid()
      ensures menuOpen == !old(menuOpen)
      ensures ariaExpanded == BoolText(menuOpen)
    {
      menuOpen := !menuOpen;
      ariaExpanded := BoolText(menuOpen);
    }

    /** Clears the `active` flag of every submenu item and panel. */
    method CloseSubmenus()
      requires Valid()
      modifies itemActive, panelActive
      ensures Valid()
      ensures NoneActive(itemActive[..]) && NoneActive(panelActive[..])
    {
      var k := 0;
      while k < itemActive.Length
        invariant 0 <= k <= itemActive.Length
        invariant forall j :: 0 <= j < k ==> !itemActive[j] && !panelActive[j]
        invariant forall j :: k <= j < itemActive.Length ==> itemActive[j] == old(itemActive[j]) && panelActive[j] == old(panelActive[j])
      {
        itemActive[k] := false;
        if hasPanel[k] {
          panelActive[k] := false;
        }
        k := k + 1;
      }
    }

    /** Closes the menu, sets `aria-expanded` to "false" and closes every submenu. */
    method CloseMenu()
      requires Valid() && mounted
      modifies this`menuOpen, this`ariaExpanded, itemActive, panelActive
      ensures Valid()
      ensures !menuOpen && ariaExpanded == "false"
      ensures NoneActive(itemActive[..]) && NoneActive(panelActive[..])
    {
      menuOpen := false;
      ariaExpanded := "false";
      CloseSubmenus();
    }

    /**
     * Narrow-screen click on the main link of submenu item `i`: every other item
     * is closed, then item `i` is toggled.
     */
    method ToggleSubmenu(i: nat)
      requires Valid() && mounted
      requires i < |hasPanel|
      modifies itemActive, panelActive
      ensures Valid()
      ensures old(itemActive[i]) ==> NoneActive(itemActive[..])
      ensures !old(itemActive[i]) ==> ActiveExactlyAt(itemActive[..], i)
    {
      var wasActive := itemActive[i];
      var k := 0;
      while k < itemActive.Length
        invariant 0 <= k <= itemActive.Length
        invariant forall j :: 0 <= j < k && j != i ==> !itemActive[j] && !panelActive[j]
        invariant forall j :: (k <= j < itemActive.Length || j == i) && 0 <= j < itemActive.Length ==>
                    itemActive[j] == old(itemActive[j]) && panelActive[j] == old(panelActive[j])
      {
        if k != i {
          itemActive[k] := false;
          if hasPanel[k] {
            panelActive[k] := false;
          }
        }
        k := k + 1;
      }
      if wasActive {
        itemActive[i] := false;
        if hasPanel[i] {
          panelActive[i] := false;
        }
      } else {
        itemActive[i] := true;
        if hasPanel[i] {
          panelActive[i] := true;
        }
      }
    }

    /** Click on the toggle button; it stops propagation, so the document handler does not run. */
    method ToggleClick()
      requires Valid() && mounted
      modifies this`menuOpen, this`ariaExpanded
      ensures Valid()
      ensures menuOpen == !old(menuOpen) && ariaExpanded == BoolText(menuOpen)
    {
      ToggleMenu();
    }

    /**
     * Click on any link in the nav list: the menu closes unless the link's list
     * item is a submenu item and the screen is narrow.
     */
    method LinkClick(parentHasSubmenu: bool, width: int)
      requires Valid() && mounted
      modifies this`menuOpen, this`ariaExpanded, itemActive, panelActive
      ensures Valid()
      ensures !parentHasSubmenu || !Narrow(width) ==>
                !menuOpen && ariaExpanded == "false" && NoneActive(itemActive[..])
      ensures parentHasSubmenu && Narrow(width) ==>
                menuOpen == old(menuOpen) && ariaExpanded == old(ariaExpanded) &&
                itemActive[..] == old(itemActive[..]) && panelActive[..] == old(panelActive[..])
    {
      if !parentHasSubmenu || width > MobileBreakpoint {
        CloseMenu();
      }
    }

    /**
     * Click on the main link of submenu item `i`: the generic link handler runs
     * first (it closes the menu on a wide screen), then the submenu handler
     * (it toggles item `i` on a narrow screen).
     */
    method MainLinkClick(i: nat, width: int)
      requires Valid() && mounted
      requires i < |hasPanel|
      modifies this`menuOpen, this`ariaExpanded, itemActive, panelActive
      ensures Valid()
      ensures Narrow(width) ==> menuOpen == old(menuOpen) && ariaExpanded == old(ariaExpanded)
      ensures Narrow(width) && old(itemActive[i]) ==> NoneActive(itemActive[..])
      ensures Narrow(width) && !old(itemActive[i]) ==> ActiveExactlyAt(itemActive[..], i)
      ensures !Narrow(width) ==> !menuOpen && ariaExpanded == "false" && NoneActive(itemActive[..])
    {
      LinkClick(true, width);
      if width <= MobileBreakpoint {
        ToggleSubmenu(i);
      }
    }

    /** Click on a link inside a submenu panel: the generic link handler, then a close. */
    method SubmenuLinkClick(parentHasSubmenu: bool, width: int)
      requires Valid() && mounted
      modifies this`menuOpen, this`ariaExpanded, itemActive, panelActive
      ensures Valid()
      ensures !menuOpen && ariaExpanded == "false"
      ensures NoneActive(itemActive[..]) && NoneActive(panelActive[..])
    {
      LinkClick(parentHasSubmenu, width);
      CloseMenu();
    }

    /** Click on the overlay. */
    method OverlayClick()
      requires Valid() && mounted
      modifies this`menuOpen, this`ariaExpanded, itemActive, panelActive
      ensures Valid()
      ensures !menuOpen && ariaExpanded == "false"
      ensures NoneActive(itemActive[..]) && NoneActive(panelActive[..])
    {
      CloseMenu();
    }

    /** A click that reaches the document: closes an open menu when it landed outside the list and the toggle. */
    method DocumentClick(insideList: bool, onToggle: bool)
      requires Valid() && mounted
      modifies this`menuOpen, this`ariaExpanded, itemActive, panelActive
      ensures Valid()
      ensures !insideList && !onToggle && old(menuOpen) ==>
                !menuOpen && ariaExpanded == "false" && NoneActive(itemActive[..])
      ensures insideList || onToggle || !old(menuOpen) ==>
                menuOpen == old(menuOpen) && ariaExpanded == old(ariaExpanded) &&
                itemActive[..] == old(itemActive[..]) && panelActive[..] == old(panelActive[..])
    {
      if !insideList && !onToggle && menuOpen {
        CloseMenu();
      }
    }

    /** A key press anywhere: Escape closes an open menu. */
    method KeyDown(key: string)
      requires Valid() && mounted
      modifies this`menuOpen, this`ariaExpanded, itemActive, panelActive
      ensures Valid()
      ensures key == "Escape" && old(menuOpen) ==>
                !menuOpen && ariaExpanded == "false" && NoneActive(itemActive[..])
      ensures key != "Escape" || !old(menuOpen) ==>
                menuOpen == old(menuOpen) && ariaExpanded == old(ariaExpanded) &&
                itemActive[..] == old(itemActive[..]) && panelActive[..] == old(panelActive[..])
    {
      if key == "Escape" && menuOpen {
        CloseMenu();
      }
    }

    /** The debounced resize handler: on a wide screen, closes the menu and every submenu. */
    method Resize(width: int)
      requires Valid() && mounted
      modifies this`menuOpen, this`ariaExpanded, itemActive, panelActive
      ensures Valid()
      ensures !Narrow(width) ==>
                !menuOpen && ariaExpanded == "false" &&
                NoneActive(itemActive[..]) && NoneActive(panelActive[..])
      ensures Narrow(width) ==>
                menuOpen == old(menuOpen) && ariaExpanded == old(ariaExpanded) &&
                itemActive[..] == old(itemActive[..]) && panelActive[..] == old(panelActive[..])
    {
      if width > MobileBreakpoint {
        CloseMenu();
        CloseSubmenus();
      }
    }
  }
}
