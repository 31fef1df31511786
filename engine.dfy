/**
 * The filter/sort engine of `applyFiltersAndSort`: a copy of the dataset,
 * filtered, then sorted in place with the selected comparator.
 */
module Engine {
  import opened Movies
  import opened Filters
  import opened Ordering
  import opened StableSort

  /** The ordered subset of the dataset that the current selection shows. */
  function Shown(movies: seq<Movie>, sel: Selection): seq<Movie>
  {
    SortedBy(ModeOf(sel.sortBy), Filtered(movies, sel))
  }

  /**
   * Filters a copy of `movies` and sorts it in place. The result holds exactly
   * the records that pass the active filters, as often as the dataset does, in
   * the selected order, with ties in dataset order.
   */
  method FilterAndSort(movies: seq<Movie>, sel: Selection) returns (result: seq<Movie>)
    ensures result == Shown(movies, sel)
    ensures forall m :: m in result ==> Passes(m, sel)
    ensures forall m :: multiset(result)[m] == if Passes(m, sel) then multiset(movies)[m] else 0
    ensures Sorted(ModeOf(sel.sortBy), result)
    ensures StableRearrangement(ModeOf(sel.sortBy), result, Filtered(movies, sel))
  {
    var filtered := Filtered(movies, sel);
    var a := new Movie[|filtered|](i requires 0 <= i < |filtered| => filtered[i]);
    assert a[..] == filtered;
    SortInPlace(ModeOf(sel.sortBy), a);
    result := a[..];
    ShownProperties(movies, sel);
  }

  /** The shown list holds exactly the passing records, sorted and stable. */
  lemma ShownProperties(movies: seq<Movie>, sel: Selection)
    ensures forall m :: m in Shown(movies, sel) ==> Passes(m, sel)
    ensures forall m :: multiset(Shown(movies, sel))[m] == if Passes(m, sel) then multiset(movies)[m] else 0
    ensures Sorted(ModeOf(sel.sortBy), Shown(movies, sel))
    ensures StableRearrangement(ModeOf(sel.sortBy), Shown(movies, sel), Filtered(movies, sel))
  {
    var filtered := Filtered(movies, sel);
    SortedBySorts(ModeOf(sel.sortBy), filtered);
    SortedByStable(ModeOf(sel.sortBy), filtered);
    FilteredIsExactSubsequence(movies, sel);
    forall m | m in Shown(movies, sel)
      ensures Passes(m, sel)
    {
      assert m in multiset(filtered);
    }
  }

  /** Shown records are passing records of the dataset, and every passing record is shown. */
  lemma ShownMembers(movies: seq<Movie>, sel: Selection)
    ensures forall m :: m in Shown(movies, sel) <==> m in movies && Passes(m, sel)
    ensures |Shown(movies, sel)| == |Filtered(movies, sel)|
  {
    var mode := ModeOf(sel.sortBy);
    SortedBySorts(mode, Filtered(movies, sel));
    forall m
      ensures m in Shown(movies, sel) <==> m in Filtered(movies, sel)
    {
      assert m in Shown(movies, sel) <==> m in multiset(Shown(movies, sel));
    }
    assert |Shown(movies, sel)| == |multiset(Shown(movies, sel))|;
  }

  /** Running the engine twice on its own output changes nothing. */
  lemma ShownIdempotent(movies: seq<Movie>, sel: Selection)
    ensures Shown(Shown(movies, sel), sel) == Shown(movies, sel)
  {
    var mode := ModeOf(sel.sortBy);
    var shown := Shown(movies, sel);
    SortedBySorts(mode, Filtered(movies, sel));
    SortedByStable(mode, Filtered(movies, sel));
    ShownMembers(movies, sel);
    // Every shown record passes, so filtering the shown list keeps all of it.
    KeepAll(shown, sel);
    FilteredIsKeep(shown, sel);
    SortedByStable(mode, shown);
    SortedBySorts(mode, shown);
    SortedStableUnique(mode, SortedBy(mode, shown), shown);
  }

  lemma {:induction false} KeepAll(s: seq<Movie>, sel: Selection)
    requires forall m :: m in s ==> Passes(m, sel)
    ensures Keep(s, sel) == s
  {
    if s != [] {
      KeepAll(s[1..], sel);
      assert s == [s[0]] + s[1..];
    }
  }

  /** Story order 3, 1, 2 sorts chronologically into 1, 2, 3. */
  lemma ChronologicalScenario(a: Movie, b: Movie, c: Movie)
    requires a.chronologicalOrder == 3 && b.chronologicalOrder == 1 && c.chronologicalOrder == 2
    ensures SortedBy(Chronological, [a, b, c]) == [b, c, a]
  {
    assert [a, b, c][..2] == [a, b] && [a, b][..1] == [a] && [a][..0] == [];
    assert SortedBy(Chronological, [a]) == [a];
    assert Insert(Chronological, [a], b) == [b, a];
    assert SortedBy(Chronological, [a, b]) == [b, a];
    assert [b, a][..1] == [b];
    assert Insert(Chronological, [b], c) == [b, c];
    assert Insert(Chronological, [b, a], c) == [b, c, a];
  }

  /** Two films released the same day keep their dataset order when sorted by date. */
  lemma SameReleaseDateScenario(a: Movie, b: Movie)
    requires a.releaseDate == b.releaseDate
    ensures SortedBy(ByReleaseDate, [a, b]) == [a, b]
  {
    assert [a, b][..1] == [a] && [a][..0] == [];
    assert SortedBy(ByReleaseDate, [a]) == [a];
    assert Insert(ByReleaseDate, [a], b) == [a, b];
  }
}
