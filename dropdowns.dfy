/**
 * The desktop dropdown discipline and the mobile menu shared by the header
 * fragments (ybs-header/index.js, jm-header/index.js and jm-header/main.js
 * carry the same code under different class-name prefixes).
 *
 * Desktop menus are numbered 0 .. count-1.  The state of menu `m` is three
 * DOM facts: the menu has class `show`, its trigger has
 * `aria-expanded="true"`, and the trigger's parent item has class `active`.
 * Each is modelled as the set of menu ids for which it holds.
 */
module HoverDropdowns {

  /** Keys a focused dropdown trigger distinguishes. */
  datatype Key = Enter | Space | Escape | OtherKey

  datatype KeyAction = ToggleMenu | HideMenu | Ignore

  /** The trigger's keydown handler: Enter and Space toggle, Escape hides,
      anything else is ignored. */
  function KeyActionOf(k: Key): (a: KeyAction)
    ensures a == ToggleMenu <==> (k == Enter || k == Space)
    ensures a == HideMenu <==> k == Escape
    ensures a == Ignore <==> k == OtherKey
  {
    match k
    case Enter => ToggleMenu
    case Space => ToggleMenu
    case Escape => HideMenu
    case OtherKey => Ignore
  }

  /** Where a click on the document landed, as the outside-click handler sees it. */
  datatype ClickTarget = OutsideFragment | InsideFragment(onDropdownItem: bool)

  class Menus {
    /** Number of desktop items that have a dropdown. */
    const count: nat
    /** Menus carrying class `show`. */
    var shown: set<nat>
    /** Triggers with `aria-expanded="true"`. */
    var expanded: set<nat>
    /** Parent items carrying class `active`. */
    var active: set<nat>

    /** The three facts agree for every menu, and at most one menu is shown. */
    ghost predicate Valid()
      reads this
    {
      shown == expanded == active && |shown| <= 1 && forall m | m in shown :: m < count
    }

    /** Right after rendering every trigger has `aria-expanded="false"` and no menu is shown. */
    constructor (count: nat)
      ensures Valid() && this.count == count
      ensures shown == {} && expanded == {} && active == {}
    {
      this.count := count;
      shown, expanded, active := {}, {}, {};
    }

    /** `hideDropdown`: clears all three facts for `m` and for no other menu. */
    method Hide(m: nat)
      requires Valid() && m < count
      modifies this
      ensures Valid()
      ensures shown == old(shown) - {m}
      ensures expanded == old(expanded) - {m} && active == old(active) - {m}
    {
      shown := shown - {m};
      expanded := expanded - {m};
      active := active - {m};
    }

    /** `showDropdown`: hides each other shown menu, then shows `m`; afterwards
        `m` is the only menu shown. */
    method Show(m: nat)
      requires Valid() && m < count
      modifies this
      ensures Valid()
      ensures shown == {m} && expanded == {m} && active == {m}
    {
      var others: set<nat> := shown;
      while others != {}
        invariant Valid()
        invariant shown <= others + {m}
        invariant forall o | o in others :: o < count
        decreases |others|
      {
        var o: nat :| o in others;
        if o != m {
          Hide(o);
        }
        others := others - {o};
      }
      shown := shown + {m};
      expanded := expanded + {m};
      active := active + {m};
    }

    /** `toggleDropdown`: hides `m` when it is shown, shows it otherwise. Toggling
        the open menu leaves none open; toggling a closed one leaves only it open. */
    method Toggle(m: nat)
      requires Valid() && m < count
      modifies this
      ensures Valid()
      ensures m in old(shown) ==> shown == {}
      ensures m !in old(shown) ==> shown == {m}
    {
      if m in shown {
        OnlyMember(shown, m);
        Hide(m);
      } else {
        Show(m);
      }
    }

    /** A click on trigger `m` as the page is wired on the fallback path: the
        triggers are rendered before the first `initializeDropdowns`, and the
        delayed second call binds a second click listener to the same
        triggers, so one click toggles twice. The click then never changes
        whether `m` is shown, and closes every other menu. The keydown
        listener is bound twice as well; see KeyDownAsWritten. */
    method ClickAsWritten(m: nat)
      requires Valid() && m < count
      modifies this
      ensures Valid()
      ensures shown == if m in old(shown) then {m} else {}
      ensures m in shown <==> m in old(shown)
    {
      Toggle(m);
      Toggle(m);
    }

    /** A key on trigger `m` with the keydown listener bound twice, as on the
        fallback path: Enter and Space toggle twice and so never change
        whether `m` is shown, Escape hides `m`, other keys change nothing. */
    method KeyDownAsWritten(m: nat, k: Key)
      requires Valid() && m < count
      modifies this
      ensures Valid()
      ensures KeyActionOf(k) == ToggleMenu ==> (shown == if m in old(shown) then {m} else {})
      ensures KeyActionOf(k) == HideMenu ==> shown == old(shown) - {m}
      ensures KeyActionOf(k) == Ignore ==> shown == old(shown)
    {
      KeyDown(m, k);
      KeyDown(m, k);
    }

    /** Hides every shown menu, one after the other. */
    method HideAll()
      requires Valid()
      modifies this
      ensures Valid() && shown == {}
    {
      var open: set<nat> := shown;
      while open != {}
        invariant Valid()
        invariant shown <= open
        invariant forall o | o in open :: o < count
        decreases |open|
      {
        var o: nat :| o in open;
        Hide(o);
        open := open - {o};
      }
    }

    /** The document click handler: only a click inside the header fragment but
        not on an item with a dropdown closes the shown menus. A click outside
        the fragment returns early and changes nothing. */
    method ClickDocument(target: ClickTarget)
      requires Valid()
      modifies this
      ensures Valid()
      ensures target == InsideFragment(false) ==> shown == {}
      ensures target != InsideFragment(false) ==> shown == old(shown)
    {
      if target == InsideFragment(false) {
        HideAll();
      }
    }

    /** A key pressed on the trigger of menu `m`. */
    method KeyDown(m: nat, k: Key)
      requires Valid() && m < count
      modifies this
      ensures Valid()
      ensures KeyActionOf(k) == ToggleMenu ==> (shown == if m in old(shown) then {} else {m})
      ensures KeyActionOf(k) == HideMenu ==> shown == old(shown) - {m}
      ensures KeyActionOf(k) == Ignore ==> shown == old(shown)
    {
      match KeyActionOf(k)
      case ToggleMenu => Toggle(m);
      case HideMenu => Hide(m);
      case Ignore =>
    }
  }

  /** A set with at most one element that holds `m` is `{m}`. */
  lemma OnlyMember(s: set<nat>, m: nat)
    requires |s| <= 1 && m in s
    ensures s - {m} == {}
  {
    var t := s - {m};
    assert s == t + {m};
    assert |s| == |t| + 1;
  }

  /** Display of a mobile sub-dropdown: untouched (stylesheet default), `block` or `none`. */
  datatype Display = Unset | Block | NoDisplay

  /** The mobile navigation: the panel's `show` class, the toggle's
      `aria-expanded`, and whether the body's overflow is `hidden`, plus the
      per-item `active` class and inline display of the mobile sub-dropdowns. */
  class MobileMenu {
    var open: bool
    var ariaExpanded: bool
    var overflowHidden: bool
    var itemActive: seq<bool>
    var subDisplay: seq<Display>

    /** The panel, the toggle's aria state and the body overflow agree, and a
        sub-dropdown that was ever given a display shows `block` iff its item is active. */
    ghost predicate Valid()
      reads this
    {
      open == ariaExpanded == overflowHidden
      && |itemActive| == |subDisplay|
      && forall i | 0 <= i < |subDisplay| :: subDisplay[i] != Unset ==> (subDisplay[i] == Block <==> itemActive[i])
    }

    constructor (items: nat)
      ensures Valid() && !open
      ensures itemActive == seq(items, _ => false) && subDisplay == seq(items, _ => Unset)
    {
      open, ariaExpanded, overflowHidden := false, false, false;
      itemActive := seq(items, _ => false);
      subDisplay := seq(items, _ => Unset);
    }

    /** Closes the panel and restores the body overflow. */
    method Close()
      requires Valid()
      modifies this`open, this`ariaExpanded, this`overflowHidden
      ensures Valid() && !open && !ariaExpanded && !overflowHidden
    {
      open, ariaExpanded, overflowHidden := false, false, false;
    }

    /** The toggle button flips the panel together with aria-expanded and the body overflow. */
    method ClickToggle()
      requires Valid()
      modifies this`open, this`ariaExpanded, this`overflowHidden
      ensures Valid() && open == !old(open)
      ensures ariaExpanded == open && overflowHidden == open
    {
      if open {
        Close();
      } else {
        open, ariaExpanded, overflowHidden := true, true, true;
      }
    }

    /** A click on the toggle once the header has been initialised `runs`
        times (jm-header): each run of `initializeMobileMenu` binds one more
        click listener to the same static toggle, so the click flips the panel
        `runs` times and opens or closes it only when `runs` is odd. */
    method ClickToggleAsWritten(runs: nat)
      requires Valid()
      modifies this`open, this`ariaExpanded, this`overflowHidden
      ensures Valid() && ariaExpanded == open && overflowHidden == open
      ensures open == (old(open) != (runs % 2 == 1))
    {
      for i := 0 to runs
        invariant Valid()
        invariant open == (old(open) != (i % 2 == 1))
      {
        ClickToggle();
      }
    }

    /** A document click outside the fragment closes an open panel; any other click leaves it. */
    method ClickDocument(insideFragment: bool)
      requires Valid()
      modifies this`open, this`ariaExpanded, this`overflowHidden
      ensures Valid()
      ensures open == (old(open) && insideFragment)
    {
      if !insideFragment && open {
        Close();
      }
    }

    /** Widening the window past the 768px breakpoint closes an open panel (ybs-header only). */
    method Resize(width: int)
      requires Valid()
      modifies this`open, this`ariaExpanded, this`overflowHidden
      ensures Valid()
      ensures open == (old(open) && width <= 768)
    {
      if width > 768 && open {
        Close();
      }
    }

    /** A click on mobile item `i` that has a sub-dropdown (jm-header): flips the
        item's `active` class and sets the display to `block` iff it is now active. */
    method ClickSubItem(i: nat)
      requires Valid() && i < |itemActive|
      modifies this`itemActive, this`subDisplay
      ensures Valid()
      ensures itemActive == old(itemActive)[i := !old(itemActive)[i]]
      ensures subDisplay == old(subDisplay)[i := if itemActive[i] then Block else NoDisplay]
    {
      itemActive := itemActive[i := !itemActive[i]];
      subDisplay := subDisplay[i := if itemActive[i] then Block else NoDisplay];
    }
  }
}
