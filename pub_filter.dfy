/**
 * The publication list's year and venue filters: the options derived from
 * the cards, the per-card AND match with "all" as a wildcard, and the
 * empty-state indicator.
 */
module PublicationFilter {
  import opened Wrappers
  import opened FilterOptions

  /** The wildcard value of both selects, present as an option in the markup. */
  const All: string := "all"

  /** One `.pub-card`: its `data-year` and `data-venue` attributes, `None` when absent. */
  datatype Card = Card(year: Option<string>, venue: Option<string>)

  /** A card passes the filter: each selection is "all" or equal to the card's attribute. */
  predicate Matches(card: Card, y: string, v: string)
  {
    (y == All || card.year == Some(y)) && (v == All || card.venue == Some(v))
  }

  /** `pubCards.map((c) => c.dataset.year)` */
  function YearsOf(cards: seq<Card>): (r: seq<Option<string>>)
    ensures |r| == |cards| && forall i :: 0 <= i < |cards| ==> r[i] == cards[i].year
  {
    seq(|cards|, i requires 0 <= i < |cards| => cards[i].year)
  }

  /** `pubCards.map((c) => c.dataset.venue)` */
  function VenuesOf(cards: seq<Card>): (r: seq<Option<string>>)
    ensures |r| == |cards| && forall i :: 0 <= i < |cards| ==> r[i] == cards[i].venue
  {
    seq(|cards|, i requires 0 <= i < |cards| => cards[i].venue)
  }

  /** The number of cards whose `hidden` flag is false. */
  function VisibleCount(hidden: seq<bool>): (n: nat)
    ensures n <= |hidden|
  {
    if hidden == [] then 0
    else VisibleCount(hidden[..|hidden| - 1]) + (if hidden[|hidden| - 1] then 0 else 1)
  }

  /** No card is shown exactly when every card is hidden. */
  lemma {:induction false} VisibleCountZero(hidden: seq<bool>)
    ensures VisibleCount(hidden) == 0 <==> forall i :: 0 <= i < |hidden| ==> hidden[i]
  {
    if hidden != [] {
      var p := hidden[..|hidden| - 1];
      VisibleCountZero(p);
      assert forall i :: 0 <= i < |p| ==> p[i] == hidden[i];
    }
  }

  /** Every card is counted exactly when no card is hidden. */
  lemma {:induction false} VisibleCountAll(hidden: seq<bool>)
    ensures VisibleCount(hidden) == |hidden| <==> forall i :: 0 <= i < |hidden| ==> !hidden[i]
  {
    if hidden != [] {
      var p := hidden[..|hidden| - 1];
      VisibleCountAll(p);
      assert forall i :: 0 <= i < |p| ==> p[i] == hidden[i];
    }
  }

  /**
   * With the flags the filter sets, the count is zero exactly when no card
   * matches the selection, so the empty state shows exactly then.
   */
  lemma NoneShownIffNoneMatch(cards: seq<Card>, hidden: seq<bool>, y: string, v: string)
    requires |hidden| == |cards|
    requires forall i :: 0 <= i < |cards| ==> (hidden[i] <==> !Matches(cards[i], y, v))
    ensures VisibleCount(hidden) == 0 <==> forall i :: 0 <= i < |cards| ==> !Matches(cards[i], y, v)
  {
    VisibleCountZero(hidden);
  }

  /** Every card matches the selection ("all", "all"). */
  lemma UnfilteredMatchesAll(cards: seq<Card>)
    ensures forall i :: 0 <= i < |cards| ==> Matches(cards[i], All, All)
  {
  }

  /** A `<select>` element: its option values, in order, and its current value. */
  class Select {
    var options: seq<string>
    var value: string

    /** As the markup delivers it: only the "all" option, selected. */
    constructor ()
      ensures options == [All] && value == All
    {
      options, value := [All], All;
    }

    /** `values.forEach(...)` appending one `<option>` per value, in order. */
    method AppendOptions(values: seq<string>)
      modifies this
      ensures options == old(options) + values && value == old(value)
    {
      for i := 0 to |values|
        invariant options == old(options) + values[..i]
        invariant value == old(value)
      {
        options := options + [values[i]];
        assert values[..i + 1] == values[..i] + [values[i]];
      }
      assert values[..|values|] == values;
    }
  }

  /** The cards, their `hidden` flags, the two selects and the empty-state element. */
  class PublicationList {
    const cards: seq<Card>
    /** `card.hidden` for each card, in document order. */
    const hidden: array<bool>
    /** `#filter-year` and `#filter-venue`, `null` when the page lacks them. */
    const yearSelect: Select?
    const venueSelect: Select?
    /** Whether `#pub-empty` exists, and its `hidden` flag. */
    const hasEmptyState: bool
    var emptyHidden: bool

    ghost predicate Valid()
      reads this
    {
      && hidden.Length == |cards|
      && (yearSelect != null && venueSelect != null ==> yearSelect != venueSelect)
    }

    /** The selects the page has. */
    ghost function Selects(): set<Select>
      reads this
    {
      (if yearSelect != null then {yearSelect} else {}) + (if venueSelect != null then {venueSelect} else {})
    }

    /** `yearSelect?.value ?? "all"` */
    function YearSelection(): string
      reads this, yearSelect
    {
      if yearSelect != null then yearSelect.value else All
    }

    /** `venueSelect?.value ?? "all"` */
    function VenueSelection(): string
      reads this, venueSelect
    {
      if venueSelect != null then venueSelect.value else All
    }

    /** The page as the markup delivers it, each select present holding only "all". */
    constructor (cards: seq<Card>, markupHidden: seq<bool>,
                 hasYearSelect: bool, hasVenueSelect: bool, hasEmptyState: bool, emptyHidden: bool)
      requires |markupHidden| == |cards|
      ensures Valid() && fresh(hidden)
      ensures this.cards == cards && hidden[..] == markupHidden
      ensures (yearSelect != null) == hasYearSelect && (venueSelect != null) == hasVenueSelect
      ensures yearSelect != null ==> fresh(yearSelect) && yearSelect.options == [All] && yearSelect.value == All
      ensures venueSelect != null ==> fresh(venueSelect) && venueSelect.options == [All] && venueSelect.value == All
      ensures this.hasEmptyState == hasEmptyState && this.emptyHidden == emptyHidden
    {
      this.cards := cards;
      this.hidden := new bool[|markupHidden|](i requires 0 <= i < |markupHidden| => markupHidden[i]);
      var year: Select? := null;
      var venue: Select? := null;
      if hasYearSelect {
        year := new Select();
      }
      if hasVenueSelect {
        venue := new Select();
      }
      this.yearSelect, this.venueSelect := year, venue;
      this.hasEmptyState, this.emptyHidden := hasEmptyState, emptyHidden;
    }

    /** `populateFilters()`: append one option per distinct year, then per distinct venue. */
    method PopulateFilters()
      requires Valid()
      modifies yearSelect, venueSelect
      ensures Valid()
      ensures yearSelect != null && venueSelect != null ==>
                && yearSelect.options == old(yearSelect.options) + UniqSorted(YearsOf(cards), true)
                && venueSelect.options == old(venueSelect.options) + UniqSorted(VenuesOf(cards), false)
                && yearSelect.value == old(yearSelect.value) && venueSelect.value == old(venueSelect.value)
      ensures yearSelect == null || venueSelect == null ==> unchanged(Selects())
    {
      if yearSelect == null || venueSelect == null {
        return;
      }
      var years := UniqSorted(YearsOf(cards), true);
      var venues := UniqSorted(VenuesOf(cards), false);
      yearSelect.AppendOptions(years);
      venueSelect.AppendOptions(venues);
    }

    /**
     * `applyFilters()`: hide exactly the cards that do not match the current
     * selection, count the shown ones, and hide the empty state iff some are shown.
     */
    method ApplyFilters() returns (shown: nat)
      requires Valid()
      modifies hidden, this`emptyHidden
      ensures Valid()
      ensures forall i :: 0 <= i < |cards| ==> (hidden[i] <==> !Matches(cards[i], YearSelection(), VenueSelection()))
      ensures shown == VisibleCount(hidden[..])
      ensures emptyHidden == if hasEmptyState then shown != 0 else old(emptyHidden)
    {
      var y := YearSelection();
      var v := VenueSelection();
      shown := 0;
      for i := 0 to |cards|
        invariant forall k :: 0 <= k < i ==> (hidden[k] <==> !Matches(cards[k], y, v))
        invariant shown == VisibleCount(hidden[..i])
        invariant emptyHidden == old(emptyHidden)
      {
        var show := Matches(cards[i], y, v);
        hidden[i] := !show;
        assert hidden[..i + 1][..i] == hidden[..i];
        if show {
          shown := shown + 1;
        }
      }
      assert hidden[..|cards|] == hidden[..];
      if hasEmptyState {
        emptyHidden := shown != 0;
      }
    }

    /** `resetFilters()`: select "all" in each select present, then reapply: every card shows. */
    method ResetFilters()
      requires Valid()
      modifies yearSelect, venueSelect, hidden, this`emptyHidden
      ensures Valid()
      ensures YearSelection() == All && VenueSelection() == All
      ensures yearSelect != null ==> yearSelect.options == old(yearSelect.options)
      ensures venueSelect != null ==> venueSelect.options == old(venueSelect.options)
      ensures forall i :: 0 <= i < |cards| ==> !hidden[i]
      ensures emptyHidden == if hasEmptyState then |cards| != 0 else old(emptyHidden)
    {
      if yearSelect != null {
        yearSelect.value := All;
      }
      if venueSelect != null {
        venueSelect.value := All;
      }
      var shown := ApplyFilters();
      UnfilteredMatchesAll(cards);
      VisibleCountAll(hidden[..]);
    }

    /**
     * The start-up block: with at least one card and both selects present,
     * populate the options and apply the filters once; otherwise nothing changes.
     */
    method Load()
      requires Valid()
      modifies yearSelect, venueSelect, hidden, this`emptyHidden
      ensures Valid()
      ensures |cards| > 0 && yearSelect != null && venueSelect != null ==>
                && yearSelect.options == old(yearSelect.options) + UniqSorted(YearsOf(cards), true)
                && venueSelect.options == old(venueSelect.options) + UniqSorted(VenuesOf(cards), false)
                && yearSelect.value == old(yearSelect.value) && venueSelect.value == old(venueSelect.value)
                && (forall i :: 0 <= i < |cards| ==> (hidden[i] <==> !Matches(cards[i], YearSelection(), VenueSelection())))
                && emptyHidden == if hasEmptyState then VisibleCount(hidden[..]) != 0 else old(emptyHidden)
      ensures !(|cards| > 0 && yearSelect != null && venueSelect != null) ==>
                && unchanged(Selects())
                && hidden[..] == old(hidden[..]) && emptyHidden == old(emptyHidden)
    {
      if |cards| > 0 && yearSelect != null && venueSelect != null {
        PopulateFilters();
        var shown := ApplyFilters();
      }
    }
  }

  /**
   * Loading a page whose selects still show "all" leaves the same cards
   * shown and the same empty state as pressing reset on that page.
   */
  method LoadMatchesReset(cards: seq<Card>, markupHidden: seq<bool>, hasEmptyState: bool, emptyHidden: bool)
    returns (loadedHidden: seq<bool>, loadedEmpty: bool, resetHidden: seq<bool>, resetEmpty: bool)
    requires |cards| > 0 && |markupHidden| == |cards|
    ensures loadedHidden == resetHidden && loadedEmpty == resetEmpty
    ensures |loadedHidden| == |cards| && forall i :: 0 <= i < |cards| ==> !loadedHidden[i]
    ensures loadedEmpty == if hasEmptyState then true else emptyHidden
  {
    var loaded := new PublicationList(cards, markupHidden, true, true, hasEmptyState, emptyHidden);
    loaded.Load();
    var reset := new PublicationList(cards, markupHidden, true, true, hasEmptyState, emptyHidden);
    reset.ResetFilters();
    VisibleCountAll(loaded.hidden[..]);
    loadedHidden, loadedEmpty := loaded.hidden[..], loaded.emptyHidden;
    resetHidden, resetEmpty := reset.hidden[..], reset.emptyHidden;
  }

  /** Applying the filters a second time, with the selections unchanged, changes nothing. */
  method ReapplyChangesNothing(page: PublicationList)
    returns (firstHidden: seq<bool>, firstEmpty: bool, secondHidden: seq<bool>, secondEmpty: bool)
    requires page.Valid()
    modifies page.hidden, page
    ensures secondHidden == firstHidden && secondEmpty == firstEmpty
  {
    var first := page.ApplyFilters();
    firstHidden, firstEmpty := page.hidden[..], page.emptyHidden;
    var second := page.ApplyFilters();
    secondHidden, secondEmpty := page.hidden[..], page.emptyHidden;
  }
}
