# Homepage interactivity, modelled in Dafny

A model of the page script `scripts.js` of a static academic homepage. The
script wires four independent behaviours to the page; this project states each
one over plain data, with the document abstracted away, and proves what each
promises.

- **Publication filter** (modules `FilterOptions`, `PublicationFilter`, with the
  orders in `Strings`). `uniqSorted` turns the cards' `data-year` and
  `data-venue` attributes into option lists. It drops missing and empty values,
  keeps the first occurrence of each, and sorts stably: years by descending
  numeric value, venues in ascending order. `populateFilters` appends those lists
  after each select's "all" option. `applyFilters` hides every card that fails the
  two-part AND match, with "all" as a wildcard. It counts the cards it shows and
  hides the empty-state element exactly when that count is non-zero.
  `resetFilters` selects "all" in both selects and applies again. The cards are a
  `seq<Card>`, their `hidden` flags an `array<bool>`, each `<select>` a small
  class holding its options and value, and an absent select is `null`.
- **Nav toggle** (module `NavToggle`). The panel's `data-collapsed` string and the
  button's `aria-expanded` string are fields of `NavMenu`. Every write keeps
  `aria-expanded` the inverse of the flag. Start-up collapses the menu and the
  button click inverts it. On a narrow viewport, a link click or a click outside
  both the panel and the button collapses it. `Click` runs one click through the
  handlers it reaches as it bubbles. `Run` and `Drive` follow a whole sequence of
  clicks.
- **Active link** (module `ActiveLink`). From one observer batch, the script
  keeps the intersecting entries and sorts them by descending ratio. The head of
  that stable sort is the first entry of largest ratio. `setActiveLink(id)` then
  marks exactly the anchors whose `href` is `"#" + id`.
- **Reveal** (module `Reveal`). Each callback batch marks every intersecting
  target "is-visible" and unobserves it. Markers are only ever added. Without
  observer support, start-up marks every element.

The viewport width test `matchMedia("(max-width: 859px)")` is the boolean
`narrow`. Observer callbacks are explicit calls that take a batch of entries.
A missing attribute is `None`, so it never equals a selected value.

## Model

| member | source | states |
|---|---|---|
| `Strings.LexLessTotal` | scripts.js:97 | the order that replaces `localeCompare` puts any two different strings one way or the other |
| `Strings.LexLessTransitive` | scripts.js:97 | that order is transitive, so a stable sort under it leaves an ascending list |
| `Strings.CanonicalInjective` | scripts.js:96 | two year strings of at most 15 digits without leading zeros that `Number` maps to the same value are the same string |
| `FilterOptions.Truthy` | scripts.js:95 | `values.filter(Boolean)` keeps exactly the present, non-empty values |
| `FilterOptions.Dedupe` | scripts.js:95 | `Array.from(new Set(...))` holds each value once and exactly the values of its input |
| `FilterOptions.Sort` | scripts.js:96-97 | the sort returns a permutation of its input: the same multiset of values |
| `FilterOptions.SortOrdered` | scripts.js:96-97 | after the sort no element precedes an earlier one under the comparator |
| `FilterOptions.SortDistinct` | scripts.js:96-97 | sorting a list without repeats gives a list without repeats |
| `FilterOptions.UniqSorted` | scripts.js:94-98 | each present non-empty value appears exactly once and nothing else does; venues come out strictly ascending; when every year is a digit string of at most 15 digits, years come out by non-increasing value |
| `FilterOptions.YearsStrictlyDescending` | scripts.js:96 | when every year is a digit string of at most 15 digits without leading zeros, the year options are strictly descending by value |
| `PublicationFilter.VisibleCountZero` | scripts.js:125-134 | the count of shown cards is zero exactly when every card is hidden |
| `PublicationFilter.VisibleCountAll` | scripts.js:125-134 | the count equals the number of cards exactly when no card is hidden |
| `PublicationFilter.NoneShownIffNoneMatch` | scripts.js:126-134 | with the flags the filter sets, nothing is shown exactly when no card matches, which is when the empty state shows |
| `PublicationFilter.UnfilteredMatchesAll` | scripts.js:127-129 | the selection ("all", "all") matches every card |
| `PublicationFilter.Select.AppendOptions` | scripts.js:106-118 | the options afterwards are the old options followed by the values, in order; the selected value is unchanged |
| `PublicationFilter.PublicationList.constructor` | scripts.js:87-92 | the page as the markup delivers it: cards, their initial flags, each present select holding only "all" |
| `PublicationFilter.PublicationList.PopulateFilters` | scripts.js:100-119 | with both selects present, the year options gain `UniqSorted(years, numeric)` and the venue options `UniqSorted(venues)`, appended after the existing ones; with either select missing nothing changes |
| `PublicationFilter.PublicationList.ApplyFilters` | scripts.js:121-135 | a card is hidden iff it fails (year is "all" or equal) and (venue is "all" or equal); `shown` is the number of unhidden cards; the empty state, when present, is hidden iff `shown != 0`; nothing else changes |
| `PublicationFilter.PublicationList.ResetFilters` | scripts.js:137-141 | both selections read "all", every card is shown, and the empty state is hidden iff there is at least one card |
| `PublicationFilter.PublicationList.Load` | scripts.js:143-146 | with cards and both selects, the options are populated and the filter applied once; otherwise the page is left as it was |
| `PublicationFilter.LoadMatchesReset` | scripts.js:137-146 | on a page whose selects show "all", loading leaves every card shown and the empty state hidden, the same state that reset leaves |
| `PublicationFilter.ReapplyChangesNothing` | scripts.js:121-135 | applying the filters twice with unchanged selections gives the same flags and empty state as applying them once |
| `NavToggle.NavMenu.SetNavCollapsed` | scripts.js:8-11 | writes the flag as "true"/"false" and `aria-expanded` as its exact inverse |
| `NavToggle.NavMenu.constructor` | scripts.js:13-14 | whatever the markup held, the menu starts collapsed with the mirror in place |
| `NavToggle.NavMenu.OnToggleClick` | scripts.js:16-19 | the button click inverts the collapsed flag and keeps the mirror |
| `NavToggle.NavMenu.OnLinkClick` | scripts.js:21-26 | on a narrow viewport a link click collapses the menu; on a wide one nothing changes |
| `NavToggle.NavMenu.OnDocumentClick` | scripts.js:28-33 | on a narrow viewport a click outside panel and button collapses the menu; a wide viewport or an inside click changes nothing |
| `NavToggle.NavMenu.Click` | scripts.js:16-33 | a whole bubbling click: the button inverts the flag, a narrow link or outside click collapses, a wide non-button click and any other inside click change nothing |
| `NavToggle.Drive` | scripts.js:13-33 | driving a menu through any run of clicks ends in the collapsed state `Run` predicts |
| `NavToggle.WideRunCountsToggles` | scripts.js:16-33 | on a wide viewport the menu is collapsed exactly when the button was clicked an even number of times |
| `ActiveLink.Intersecting` | scripts.js:53-54 | the filtered batch holds exactly the intersecting entries |
| `ActiveLink.FirstOfLargest` | scripts.js:55 | the head of the stable descending sort has the largest ratio, and every earlier entry has a strictly smaller one |
| `ActiveLink.MostVisible` | scripts.js:51-56 | there is a pick iff some entry intersects; the pick is an intersecting entry of the batch with no intersecting entry of larger ratio |
| `ActiveLink.NavAnchors.SetActiveLink` | scripts.js:42-47 | an anchor is active iff its href equals `"#" + id`; all others are cleared |
| `ActiveLink.NavAnchors.OnIntersections` | scripts.js:49-57 | a batch with an intersecting entry highlights the links of the picked section; a batch with none, or whose pick has an empty id, leaves the links unchanged |
| `ActiveLink.AtMostOneActive` | scripts.js:42-47 | when no two anchors share an href, at most one anchor is active after a highlight |
| `Reveal.AfterBatchMarks` | scripts.js:70-76 | after a batch an element is marked iff it was marked before or the batch reports it intersecting |
| `Reveal.MarkersNeverRemoved` | scripts.js:70-76 | a marker once set survives any later sequence of batches |
| `Reveal.RevealGroup.OnIntersections` | scripts.js:70-76 | the markers become `AfterBatch` of the old ones and the observed set loses exactly the intersecting targets |
| `Reveal.RevealGroup.Start` | scripts.js:67-82 | with elements and observer support every element is observed and no marker changes; otherwise every element is marked visible |

## Left out

- Document querying, element creation and listener registration (scripts.js:5-6, 39-40, 67, 87-92, 147-149). They become constructor inputs and explicit method calls.
- The nav toggle's behaviour when the button or the panel is missing. No handler is then registered, so the model covers only a page that has both.
- `matchMedia` and the 859px breakpoint. They are reduced to the boolean `narrow`.
- Observer scheduling, thresholds (0.2 to 0.65, and 0.12) and callback timing. One callback batch is an input sequence. The reveal callback requires every entry's target to be one of the observed elements, as the browser guarantees.
- The active-section observer is started only when the page has sections and observer support (scripts.js:49). This start-up gate is not modelled. Without it no batch ever arrives.
- Floating-point intersection ratios. They are modelled as reals, which only get compared.
- `ActiveLink.MostVisible`: its contract does not pin down which of several entries with equal largest ratio wins. `FirstOfLargest` does: the earliest, as a stable sort leaves it.
- `localeCompare` collation is replaced by lexicographic order on character codes. Locale rules, and distinct strings that collate as equal, are not modelled.
- `Number` is modelled only for non-empty strings of decimal digits. Any other year is treated as `NaN`, which never precedes anything under the comparator. Signs, decimals, exponents, hex and surrounding whitespace are not parsed.
- `FilterOptions.UniqSorted`: with any year that is not a digit string, the comparator returns `NaN`. It is then inconsistent, and the whole order the sort produces is implementation-defined, not only where the `NaN` year goes. The model picks one order, and its year-order clause promises nothing for such inputs.
- `FilterOptions.UniqSorted`: `Number` rounds to a double, so digit strings longer than 15 digits can tie where their exact values differ (9007199254740993 and 9007199254740992). The year-order clause and `YearsStrictlyDescending` therefore cover only years of at most 15 digits.
- `FilterOptions.UniqSorted`: year order is only non-increasing in general, because "2023" and "02023" have the same value. Strict descent is proved in `YearsStrictlyDescending` for years written without leading zeros.
- `FilterOptions.Sort`: stability is built into `Insert` but is not stated as a contract. The contracts give a permutation that is ordered under the comparator.
- A select's `value` is modelled as a plain string. Browsers turn a value that has no matching option into "". Reset only writes "all", which the markup provides.
- CSS classes and animations are modelled only as the boolean markers they stand for.
