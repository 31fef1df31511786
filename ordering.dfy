/**
 * The comparator `applyFiltersAndSort` passes to `sort`: story order when the
 * sort control reads "chronological", release date otherwise.
 */
module Ordering {
  import opened Movies

  datatype SortMode = Chronological | ByReleaseDate

  /** `sortBy === 'chronological'` picks the story order; every other value the date. */
  function ModeOf(sortBy: string): (mode: SortMode)
    ensures mode == Chronological <==> sortBy == "chronological"
  {
    if sortBy == "chronological" then Chronological else ByReleaseDate
  }

  /**
   * The sign of `new Date(a) - new Date(b)` for two valid ISO dates: negative,
   * zero or positive as (year, month, day) compares.
   */
  function CompareDates(a: Date, b: Date): int
  {
    if a.year != b.year then (if a.year < b.year then -1 else 1)
    else if a.month != b.month then (if a.month < b.month then -1 else 1)
    else if a.day != b.day then (if a.day < b.day then -1 else 1)
    else 0
  }

  /** The comparator: negative when `a` goes first, positive when `b` does, zero on a tie. */
  function Compare(mode: SortMode, a: Movie, b: Movie): int
  {
    match mode
    case Chronological => a.chronologicalOrder - b.chronologicalOrder
    case ByReleaseDate => CompareDates(a.releaseDate, b.releaseDate)
  }

  /** The two records have the same sort key, so the comparator ties them. */
  predicate SameKey(mode: SortMode, a: Movie, b: Movie) {
    Compare(mode, a, b) == 0
  }

  /** `a` may precede `b` in a sorted list. */
  predicate InOrder(mode: SortMode, a: Movie, b: Movie) {
    Compare(mode, a, b) <= 0
  }

  /** A tie means an equal key: equal story order, or the same calendar date. */
  lemma SameKeyMeansEqualKey(mode: SortMode, a: Movie, b: Movie)
    ensures SameKey(mode, a, b) <==>
      match mode
      case Chronological => a.chronologicalOrder == b.chronologicalOrder
      case ByReleaseDate => a.releaseDate == b.releaseDate
  {
  }

  /** The comparator is consistent: swapping its arguments flips its sign. */
  lemma CompareAntisymmetric(mode: SortMode, a: Movie, b: Movie)
    ensures Compare(mode, a, b) < 0 <==> Compare(mode, b, a) > 0
    ensures Compare(mode, a, b) == 0 <==> Compare(mode, b, a) == 0
  {
  }

  /** The comparator is consistent: "may precede" is transitive, strictly when one step is strict. */
  lemma CompareTransitive(mode: SortMode, a: Movie, b: Movie, c: Movie)
    requires InOrder(mode, a, b) && InOrder(mode, b, c)
    ensures InOrder(mode, a, c)
    ensures Compare(mode, a, b) < 0 || Compare(mode, b, c) < 0 ==> Compare(mode, a, c) < 0
  {
  }

  /** Ties form classes: a record tied with `b` ties with exactly what `b` ties with. */
  lemma SameKeyTransitive(mode: SortMode, a: Movie, b: Movie, c: Movie)
    requires SameKey(mode, a, b)
    ensures SameKey(mode, a, c) <==> SameKey(mode, b, c)
  {
  }
}
