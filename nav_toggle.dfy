/**
 * The mobile navigation toggle: one collapsed flag, kept as the panel's
 * `data-collapsed` attribute, mirrored by the toggle button's `aria-expanded`.
 */
module NavToggle {
  /** Where a click lands, as the handlers see it through event bubbling. */
  datatype ClickTarget =
    | ToggleButton  // the `.nav-toggle` button or anything inside it
    | PanelLink     // an `<a>` inside `#nav-links`
    | PanelOther    // anything else inside `#nav-links`
    | Outside       // anything outside both the panel and the button

  /** The attribute string for a flag, as `collapsed ? "true" : "false"` writes it. */
  function FlagText(b: bool): (t: string)
    ensures t == "true" <==> b
  {
    if b then "true" else "false"
  }

  /** `navLinks.contains(e.target) || toggleBtn.contains(e.target)` */
  predicate IsInside(target: ClickTarget)
  {
    !target.Outside?
  }

  /** The panel and the button, with the attributes the script writes. */
  class NavMenu {
    /** `navLinks.dataset.collapsed` */
    var collapsedAttr: string
    /** `toggleBtn.getAttribute("aria-expanded")` */
    var ariaExpanded: string

    /** The panel reads as collapsed when its attribute is the string "true". */
    predicate IsCollapsed()
      reads this
    {
      collapsedAttr == "true"
    }

    /** `aria-expanded` is the exact inverse of the collapsed attribute, both written as booleans. */
    ghost predicate Valid()
      reads this
    {
      && (collapsedAttr == "true" || collapsedAttr == "false")
      && ariaExpanded == FlagText(!IsCollapsed())
    }

    /** Start-up: whatever the markup says, the menu starts collapsed. */
    constructor (markupCollapsed: string, markupExpanded: string)
      ensures Valid() && IsCollapsed()
    {
      collapsedAttr, ariaExpanded := markupCollapsed, markupExpanded;
      new;
      SetNavCollapsed(true);
    }

    /** `setNavCollapsed(collapsed)` */
    method SetNavCollapsed(collapsed: bool)
      modifies this
      ensures Valid()
      ensures IsCollapsed() == collapsed
      ensures collapsedAttr == FlagText(collapsed) && ariaExpanded == FlagText(!collapsed)
    {
      collapsedAttr := if collapsed then "true" else "false";
      ariaExpanded := if collapsed then "false" else "true";
    }

    /** The button's click handler: invert the flag. */
    method OnToggleClick()
      requires Valid()
      modifies this
      ensures Valid()
      ensures IsCollapsed() == !old(IsCollapsed())
    {
      var collapsed := collapsedAttr == "true";
      SetNavCollapsed(!collapsed);
    }

    /** A nav link's click handler: collapse, on a narrow viewport only. */
    method OnLinkClick(narrow: bool)
      requires Valid()
      modifies this
      ensures Valid()
      ensures narrow ==> IsCollapsed()
      ensures !narrow ==> unchanged(this)
    {
      if narrow {
        SetNavCollapsed(true);
      }
    }

    /** The document's click handler: on a narrow viewport, a click outside collapses. */
    method OnDocumentClick(narrow: bool, target: ClickTarget)
      requires Valid()
      modifies this
      ensures Valid()
      ensures narrow && !IsInside(target) ==> IsCollapsed()
      ensures !narrow || IsInside(target) ==> unchanged(this)
    {
      if !narrow {
        return;
      }
      var isInside := IsInside(target);
      if !isInside {
        SetNavCollapsed(true);
      }
    }

    /**
     * One click, run through every handler it reaches: the button's or the
     * link's own handler first, then the document's as the event bubbles up.
     */
    method Click(narrow: bool, target: ClickTarget)
      requires Valid()
      modifies this
      ensures Valid()
      ensures target.ToggleButton? ==> IsCollapsed() == !old(IsCollapsed())
      ensures narrow && (target.PanelLink? || target.Outside?) ==> IsCollapsed()
      ensures !narrow && !target.ToggleButton? ==> unchanged(this)
      ensures target.PanelOther? ==> unchanged(this)
    {
      if target.ToggleButton? {
        OnToggleClick();
      } else if target.PanelLink? {
        OnLinkClick(narrow);
      }
      OnDocumentClick(narrow, target);
    }
  }

  /** The collapsed flag after one click, over plain values. */
  function Step(collapsed: bool, narrow: bool, target: ClickTarget): bool
  {
    match target
    case ToggleButton => !collapsed
    case PanelLink => collapsed || narrow
    case PanelOther => collapsed
    case Outside => collapsed || narrow
  }

  /** The collapsed flag after a run of clicks, starting from start-up. */
  function Run(clicks: seq<(bool, ClickTarget)>): bool
  {
    if clicks == [] then true
    else
      var (narrow, target) := clicks[|clicks| - 1];
      Step(Run(clicks[..|clicks| - 1]), narrow, target)
  }

  /** Driving the menu with clicks tracks `Step`, and the mirror holds throughout. */
  method Drive(markupCollapsed: string, markupExpanded: string, clicks: seq<(bool, ClickTarget)>)
    returns (collapsed: bool)
    ensures collapsed == Run(clicks)
  {
    var menu := new NavMenu(markupCollapsed, markupExpanded);
    for i := 0 to |clicks|
      invariant menu.Valid()
      invariant menu.IsCollapsed() == Run(clicks[..i])
    {
      menu.Click(clicks[i].0, clicks[i].1);
      assert clicks[..i + 1][..i] == clicks[..i];
    }
    assert clicks[..|clicks|] == clicks;
    collapsed := menu.IsCollapsed();
  }

  /** On a wide viewport only the toggle button changes anything: the flag is the parity of its clicks. */
  lemma {:induction false} WideRunCountsToggles(clicks: seq<(bool, ClickTarget)>)
    requires forall i :: 0 <= i < |clicks| ==> !clicks[i].0
    ensures Run(clicks) == (ToggleCount(clicks) % 2 == 0)
  {
    if clicks != [] {
      var p := clicks[..|clicks| - 1];
      WideRunCountsToggles(p);
    }
  }

  function ToggleCount(clicks: seq<(bool, ClickTarget)>): nat
  {
    if clicks == [] then 0
    else ToggleCount(clicks[..|clicks| - 1]) + (if clicks[|clicks| - 1].1.ToggleButton? then 1 else 0)
  }
}
