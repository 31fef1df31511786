# Movie gallery pipeline, modelled in Dafny

This project models the logic of a browser gallery of Marvel Cinematic Universe films (`script.js`).
The page loads a static list of movie records. From that list it derives the option lists of two filter controls (main character, phase). On every change of a control it filters a copy of the list, sorts the copy stably by story order or by release date, and renders one card per record, or an empty-state indicator when nothing is left.

Modules, one per component:

- `Movies` (`movies.dfy`): the record. Optional fields are `Option<string>`. JavaScript truthiness of such a field is `Truthy`.
- `Labels` (`labels.dfy`): the order the default `Array.prototype.sort` gives strings, which is lexicographic on UTF-16 code units. A Dafny `char` is a Unicode scalar value, so each character is ranked by where its UTF-16 encoding falls: below U+D800 first, then supplementary characters (their high surrogate), then U+E000..U+FFFF. `Labels.Encode` gives a string's UTF-16 code units, and `Labels.BeforeIsCodeUnitOrder` proves that `Before` is exactly lexicographic order on those code units.
- `FilterOptions` (`filter_options.dfy`): `populateFilters`' map, `filter(Boolean)`, `new Set`, `sort()` chain as functions.
- `Filters` (`filters.dfy`): the two exact-match filters and the `"all"` selection.
- `Ordering` (`ordering.dfy`): the comparator. In chronological mode it subtracts story orders. Otherwise it compares release dates, held as (year, month, day) triples.
- `StableSort` (`stable_sort.dfy`): `filtered.sort(...)`, written as a stable insertion sort. The function `SortedBy` specifies it. The methods `SortInPlace` and `InsertInPlace` run it in place on an array.
- `Engine` (`engine.dfy`): the filter-then-sort computation of `applyFiltersAndSort`.
- `Render` (`render.dfy`): the fields of one card, with the poster and badge fallbacks.
- `View` (`view.dfy`): the page's mutable state as a class. It holds the dataset, the appended options, the gallery's cards and the empty-state flag.

Stability is stated per key. For every record `y`, the records tied with `y` appear in the output in the same order and with the same multiplicities as in the input (`StableSort.StableRearrangement`). `StableSort.SortedByIsTheStableSort` proves that a sorted, stable rearrangement is unique. So the insertion sort gives the same result as any stable sort that ECMA-262 (2019 edition and later) allows for `Array.prototype.sort`.

The model follows these details of the code:

- Option labels are ordered by UTF-16 code units, not by a locale-aware "lexicographic" order.
- Card fields are inserted into markup without escaping. No escaping property is claimed.
- The story-order number is shown exactly as stored.

## Model

| member | source | states |
|---|---|---|
| Labels.CodeUnitRank | script.js:28-29 | a character's rank is its code point below U+D800, and the three UTF-16 ranges keep their relative order (order within each range: `Labels.BeforeIsCodeUnitOrder`) |
| Labels.Units | script.js:28-29 | a character below U+10000 is one code unit, itself and never a surrogate; any other character is a high and a low surrogate that decode back to it |
| Labels.BeforeIsCodeUnitOrder | script.js:28-29 | one label sorts before another exactly when its UTF-16 code-unit sequence is lexicographically smaller, the order of the default `sort()` |
| Labels.BeforeTransitive | script.js:28-29 | the default string order is transitive |
| Labels.BeforeTotal | script.js:28-29 | of two different labels, one sorts strictly before the other |
| Labels.BeforeIrreflexive | script.js:28-29 | no label sorts before itself |
| Labels.AscendingDistinctIsStrict | script.js:28-29 | a sorted sequence without duplicates is strictly ascending |
| Labels.StrictlyAscendingUnique | script.js:28-29 | two strictly ascending label sequences with the same elements are equal |
| FilterOptions.MainCharacters | script.js:28 | `map` yields each record's `main_character`, position by position |
| FilterOptions.Phases | script.js:29 | `map` yields each record's `phase`, position by position |
| FilterOptions.TruthyValues | script.js:28-29 | `filter(Boolean)` keeps exactly the present, non-empty values |
| FilterOptions.FirstOccurrences | script.js:28-29 | `Array.from(new Set(...))` has no duplicates and exactly the input's elements |
| FilterOptions.SortLabels | script.js:28-29 | `sort()` returns a permutation in ascending order that stays duplicate-free |
| FilterOptions.DeriveOptions | script.js:28-29 | the option list is strictly ascending and holds a label exactly when it is a non-empty value of the field |
| FilterOptions.CharacterOptions | script.js:28 | character options are strictly ascending; a label is listed exactly when some record has it as non-empty `main_character` |
| FilterOptions.PhaseOptions | script.js:29 | phase options are strictly ascending; a label is listed exactly when some record has it as non-empty `phase` |
| FilterOptions.OptionsAreTheAscendingLabelSet | script.js:28-29 | the option list does not depend on the order the `Set` met its labels: it is the only strictly ascending list of them |
| Filters.WithCharacter | script.js:47-49 | the character filter keeps exactly the records whose `main_character` equals the selection, in list order, each as often as the list holds it |
| Filters.WithPhase | script.js:51-53 | the phase filter keeps exactly the records whose `phase` equals the selection, in list order, each as often as the list holds it |
| Filters.Filtered | script.js:45-53 | a record is kept exactly when it is in the dataset and passes both active filters; two `"all"` selections keep the dataset unchanged |
| Filters.FilteredIsKeep | script.js:45-53 | the two filters applied in turn equal one pass keeping the records that pass both |
| Filters.KeepIsSubsequence | script.js:45-53 | the kept records are a subsequence of the dataset |
| Filters.KeepMultiplicity | script.js:45-53 | each passing record is kept as often as it occurs, and each other record never |
| Filters.FilteredIsExactSubsequence | script.js:45-53 | the filtered copy is a subsequence of the dataset holding every passing record with its multiplicity and no other |
| Filters.FilteredIdempotent | script.js:45-53 | filtering the filtered list again changes nothing |
| Filters.PhaseScenario | script.js:51-53 | with phases "Phase 1", "Phase 2", "Phase 1", selecting "Phase 1" keeps the first and third records in order |
| Ordering.ModeOf | script.js:56 | story order is used exactly when `sortBy` is "chronological"; every other value sorts by date |
| Ordering.SameKeyMeansEqualKey | script.js:55-60 | the comparator ties two records exactly when their story orders (or their release dates) are equal |
| Ordering.CompareAntisymmetric | script.js:55-60 | swapping the comparator's arguments flips its sign |
| Ordering.CompareTransitive | script.js:55-60 | the comparator's "may precede" relation is transitive |
| Ordering.SameKeyTransitive | script.js:55-60 | ties form equivalence classes |
| StableSort.InsertSorted | script.js:55-60 | inserting into a sorted list keeps it sorted and adds exactly one record |
| StableSort.InsertStable | script.js:55-60 | inserting puts the new record after every record it ties with and keeps every key's order |
| StableSort.InsertAt | script.js:55-60 | the insertion point lies after the last record that may precede the new one |
| StableSort.SortedBySorts | script.js:55-60 | the sorted list is in comparator order and a permutation of its input |
| StableSort.SortedByStable | script.js:55-60 | the sort is stable: each key's records keep their input order and multiplicities |
| StableSort.SortedStableUnique | script.js:55-60 | two sorted lists with the same records per key are equal |
| StableSort.SortedByIsTheStableSort | script.js:55-60 | every sorted, stable rearrangement of a list is the one `SortedBy` returns |
| StableSort.InsertInPlace | script.js:55-60 | one pass moves `a[i]` into the sorted prefix exactly as `Insert` does and leaves the rest of the array unchanged |
| StableSort.SortInPlace | script.js:55 | the array ends up holding the stable sort of its old contents |
| Engine.FilterAndSort | script.js:40-61 | the result holds exactly the passing records, with their multiplicities, sorted by the selected key, stably |
| Engine.ShownProperties | script.js:40-61 | the shown list holds only passing records, each passing record as often as the dataset holds it, in comparator order, with ties in dataset order |
| Engine.ShownMembers | script.js:45-60 | a record is shown exactly when it is in the dataset and passes the filters; sorting keeps the filtered length |
| Engine.ShownIdempotent | script.js:40-61 | applying the same selection to its own output gives the same order and content |
| Engine.ChronologicalScenario | script.js:56-58 | story orders 3, 1, 2 sort chronologically to 1, 2, 3 |
| Engine.SameReleaseDateScenario | script.js:59 | two films released on the same day keep their dataset order when sorted by date |
| Render.CardOf | script.js:75-92 | the poster is `poster_url` when non-empty, otherwise the placeholder; the badge is `main_character` when non-empty, otherwise "MCU"; the other fields are carried over |
| Render.Cards | script.js:73-94 | one card per record, in list order |
| View.Page.constructor | script.js:9 | before loading there is no dataset, no appended option and no card |
| View.Page.PopulateFilters | script.js:27-38 | the derived character and phase labels are appended to the two controls, in order |
| View.Page.RenderMovies | script.js:65-97 | an empty list clears the gallery and shows the empty state; otherwise the gallery holds one card per record and the empty state is hidden |
| View.Page.ApplyFiltersAndSort | script.js:40-63 | the gallery shows the cards of the filtered, sorted copy; the empty state is shown exactly when no record passes; the dataset is untouched |
| View.Page.Load | script.js:21-24 | the dataset is stored, the options are derived from it and the gallery is rendered for the current selection |
| View.ShownCardsMatchSelection | script.js:47-53 | every shown card carries the selected phase unless that selection is "all", and the selected character as badge unless that selection is "all" or empty (an empty `main_character` passes an empty selection but shows the badge 'MCU') |
| View.CharacterOptionShowsSomething | script.js:28 | a character selection equal to a derived character label shows at least one card |
| View.PhaseOptionShowsSomething | script.js:29 | a phase selection equal to a derived phase label shows at least one card |

## Left out

- Loading (`loadMovies`, script.js:18-20): `fetch`, the HTTP status check and JSON parsing are I/O. `View.Page.Load` starts from the parsed array. A failed load throws before any state changes, so the page keeps its initial state.
- DOM wiring (script.js:1-5, 11-16): looking up the elements and attaching the change listeners. The controls' current values are a `Selection` parameter.
- Markup text: the `<option>` strings (script.js:32, 36), the card template (script.js:75-92) and the `alt` text. The model keeps the labels and card fields they would contain. The code inserts field text without escaping, and no escaping property is stated.
- The `onerror` handler on the poster image (script.js:78): swapping in the placeholder after a failed image load is browser behaviour.
- `formatDate` (script.js:99-102): `toLocaleDateString` is a locale library call. Cards carry the date triple.
- Invalid or unparsable `release_date` values: `new Date` gives NaN and the comparator gives NaN. Dates are already-parsed (year, month, day) triples. For valid ISO dates, their lexicographic order is the order of the millisecond difference.
- `chronological_order` is a JavaScript double. The model uses unbounded integers, so it does not capture rounding beyond 2^53.
- Non-string values in the optional fields: `filter(Boolean)` would also drop `0`, `false` and `NaN`. The model's optional fields are strings or absent.
- The initial visibility of the empty-state indicator comes from the page's markup, which is not part of this model. It is a constructor parameter.
- Lone surrogates: a JavaScript string can hold an unpaired surrogate code unit, which a Dafny `string` (a sequence of Unicode scalar values) cannot. Labels are strings of scalar values.
- The selected value and the option label can differ: options are written as `value="${label}"` without escaping (script.js:32, 36), so a label holding `"` or an `&…;` reference gives a different value. `View.CharacterOptionShowsSomething` and `View.PhaseOptionShowsSomething` state their result for a selection equal to the label.
