/**
 * Highlighting the nav link of the section most in view: from one batch of
 * intersection entries pick the intersecting one of largest ratio, then mark
 * exactly the anchors that point at it.
 */
module ActiveLink {
  import opened Wrappers

  /** One intersection entry: the section's id, whether it intersects, and how much. */
  datatype Entry = Entry(id: string, isIntersecting: bool, ratio: real)

  /** `entries.filter((e) => e.isIntersecting)` */
  function Intersecting(entries: seq<Entry>): (r: seq<Entry>)
    ensures forall e :: e in r <==> e in entries && e.isIntersecting
  {
    if entries == [] then []
    else
      var rest := Intersecting(entries[1..]);
      assert forall e :: e in entries <==> e == entries[0] || e in entries[1..];
      if entries[0].isIntersecting then [entries[0]] + rest else rest
  }

  /**
   * The head of a stable sort by descending ratio: an element of largest
   * ratio, and among those the earliest; `None` for an empty batch.
   */
  function FirstOfLargest(s: seq<Entry>): (r: Option<Entry>)
    ensures r.None? <==> s == []
    ensures r.Some? ==> exists k :: 0 <= k < |s| && s[k] == r.value &&
                          (forall j :: 0 <= j < k ==> s[j].ratio < r.value.ratio)
    ensures r.Some? ==> forall j :: 0 <= j < |s| ==> s[j].ratio <= r.value.ratio
  {
    if s == [] then None
    else
      var rest := FirstOfLargest(s[1..]);
      if rest.None? || rest.value.ratio <= s[0].ratio then Some(s[0])
      else
        ghost var k :| 0 <= k < |s[1..]| && s[1..][k] == rest.value &&
                       (forall j :: 0 <= j < k ==> s[1..][j].ratio < rest.value.ratio);
        assert s[k + 1] == rest.value;
        rest
  }

  /** The entry the observer callback picks, `None` when no entry intersects. */
  function MostVisible(entries: seq<Entry>): (r: Option<Entry>)
    ensures r.None? <==> forall i :: 0 <= i < |entries| ==> !entries[i].isIntersecting
    ensures r.Some? ==> r.value in entries && r.value.isIntersecting
    ensures r.Some? ==> forall i :: 0 <= i < |entries| && entries[i].isIntersecting ==>
                          entries[i].ratio <= r.value.ratio
  {
    var s := Intersecting(entries);
    assert forall i :: 0 <= i < |entries| ==> entries[i] in entries;
    assert forall i :: 0 <= i < |s| ==> s[i] in s;
    FirstOfLargest(s)
  }

  /** `a.getAttribute("href") === "#" + id` */
  predicate PointsAt(href: Option<string>, id: string)
  {
    href == Some("#" + id)
  }

  /** The nav anchors' `href` attributes and whether each carries the "active" class. */
  class NavAnchors {
    const hrefs: seq<Option<string>>
    const active: array<bool>

    ghost predicate Valid()
      reads this
    {
      active.Length == |hrefs|
    }

    constructor (hrefs: seq<Option<string>>, markupActive: seq<bool>)
      requires |markupActive| == |hrefs|
      ensures Valid() && fresh(active)
      ensures this.hrefs == hrefs && active[..] == markupActive
    {
      this.hrefs := hrefs;
      active := new bool[|markupActive|](i requires 0 <= i < |markupActive| => markupActive[i]);
    }

    /** `setActiveLink(id)`: exactly the anchors pointing at `#id` are active. */
    method SetActiveLink(id: string)
      requires Valid()
      modifies active
      ensures Valid()
      ensures forall i :: 0 <= i < |hrefs| ==> (active[i] <==> PointsAt(hrefs[i], id))
    {
      for i := 0 to |hrefs|
        invariant forall k :: 0 <= k < i ==> (active[k] <==> PointsAt(hrefs[k], id))
      {
        var isActive := hrefs[i] == Some("#" + id);
        active[i] := isActive;
      }
    }

    /**
     * The observer callback for one batch: highlight the most visible
     * section; with no intersecting entry, or one whose id is empty,
     * nothing changes.
     */
    method OnIntersections(entries: seq<Entry>)
      requires Valid()
      modifies active
      ensures Valid()
      ensures var v := MostVisible(entries);
        v.Some? && v.value.id != "" ==>
          forall i :: 0 <= i < |hrefs| ==> (active[i] <==> PointsAt(hrefs[i], v.value.id))
      ensures var v := MostVisible(entries);
        v.None? || v.value.id == "" ==> active[..] == old(active[..])
    {
      var visible := MostVisible(entries);
      if visible.Some? && visible.value.id != "" {
        SetActiveLink(visible.value.id);
      }
    }
  }

  /** When no two anchors share an href, at most one anchor is active after a highlight. */
  lemma AtMostOneActive(hrefs: seq<Option<string>>, active: seq<bool>, id: string)
    requires |active| == |hrefs|
    requires forall i :: 0 <= i < |hrefs| ==> (active[i] <==> PointsAt(hrefs[i], id))
    requires forall i, j :: 0 <= i < j < |hrefs| && hrefs[i].Some? ==> hrefs[i] != hrefs[j]
    ensures forall i, j :: 0 <= i < j < |active| && active[i] ==> !active[j]
  {
  }
}
