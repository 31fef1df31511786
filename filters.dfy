/**
 * The two exact-match filters of `applyFiltersAndSort`. A selection of
 * `"all"` switches its filter off.
 */
module Filters {
  import opened Movies

  /** The current values of the three selection controls. */
  datatype Selection = Selection(sortBy: string, character: string, phase: string)

  const ALL: string := "all"

  /** `movie.main_character === character` */
  predicate HasCharacter(m: Movie, character: string) {
    m.mainCharacter == Some(character)
  }

  /** `movie.phase === phase` */
  predicate HasPhase(m: Movie, phase: string) {
    m.phase == Some(phase)
  }

  /** A record passes the filters of `sel` that are active. */
  predicate Passes(m: Movie, sel: Selection) {
    && (sel.character != ALL ==> HasCharacter(m, sel.character))
    && (sel.phase != ALL ==> HasPhase(m, sel.phase))
  }

  /** `list.filter((movie) => movie.main_character === character)` */
  function WithCharacter(list: seq<Movie>, character: string): (r: seq<Movie>)
    ensures |r| <= |list|
    ensures forall m :: m in r <==> m in list && HasCharacter(m, character)
    ensures IsSubsequence(r, list)
    ensures forall m :: multiset(r)[m] == if HasCharacter(m, character) then multiset(list)[m] else 0
  {
    if list == [] then []
    else
      var rest := WithCharacter(list[1..], character);
      assert list == [list[0]] + list[1..];
      if HasCharacter(list[0], character) then
        var r := [list[0]] + rest;
        assert r[1..] == rest;
        r
      else
        SkipHead(rest, list);
        rest
  }

  /** `list.filter((movie) => movie.phase === phase)` */
  function WithPhase(list: seq<Movie>, phase: string): (r: seq<Movie>)
    ensures |r| <= |list|
    ensures forall m :: m in r <==> m in list && HasPhase(m, phase)
    ensures IsSubsequence(r, list)
    ensures forall m :: multiset(r)[m] == if HasPhase(m, phase) then multiset(list)[m] else 0
  {
    if list == [] then []
    else
      var rest := WithPhase(list[1..], phase);
      assert list == [list[0]] + list[1..];
      if HasPhase(list[0], phase) then
        var r := [list[0]] + rest;
        assert r[1..] == rest;
        r
      else
        SkipHead(rest, list);
        rest
  }

  /** The copy of the dataset after the character filter and then the phase filter. */
  function Filtered(movies: seq<Movie>, sel: Selection): (r: seq<Movie>)
    ensures forall m :: m in r <==> m in movies && Passes(m, sel)
    ensures sel.character == ALL && sel.phase == ALL ==> r == movies
  {
    var byCharacter := if sel.character != ALL then WithCharacter(movies, sel.character) else movies;
    if sel.phase != ALL then WithPhase(byCharacter, sel.phase) else byCharacter
  }

  /** Reference definition: one pass over the dataset keeping the records that pass. */
  function Keep(movies: seq<Movie>, sel: Selection): seq<Movie>
  {
    if movies == [] then []
    else if Passes(movies[0], sel) then [movies[0]] + Keep(movies[1..], sel)
    else Keep(movies[1..], sel)
  }

  /** `r` is `s` with some elements removed, the rest in their original order. */
  predicate IsSubsequence(r: seq<Movie>, s: seq<Movie>)
  {
    if r == [] then true
    else if s == [] then false
    else (r[0] == s[0] && IsSubsequence(r[1..], s[1..])) || IsSubsequence(r, s[1..])
  }

  /** A subsequence of the tail is a subsequence of the whole list. */
  lemma SkipHead(r: seq<Movie>, s: seq<Movie>)
    requires s != [] && IsSubsequence(r, s[1..])
    ensures IsSubsequence(r, s)
  {
  }

  lemma {:induction false} WithCharacterIsKeep(movies: seq<Movie>, sel: Selection)
    requires sel.character != ALL && sel.phase == ALL
    ensures WithCharacter(movies, sel.character) == Keep(movies, sel)
  {
    if movies != [] {
      WithCharacterIsKeep(movies[1..], sel);
    }
  }

  lemma {:induction false} WithPhaseIsKeep(movies: seq<Movie>, sel: Selection)
    requires sel.character == ALL && sel.phase != ALL
    ensures WithPhase(movies, sel.phase) == Keep(movies, sel)
  {
    if movies != [] {
      WithPhaseIsKeep(movies[1..], sel);
    }
  }

  lemma {:induction false} BothFiltersAreKeep(movies: seq<Movie>, sel: Selection)
    requires sel.character != ALL && sel.phase != ALL
    ensures WithPhase(WithCharacter(movies, sel.character), sel.phase) == Keep(movies, sel)
  {
    if movies != [] {
      BothFiltersAreKeep(movies[1..], sel);
    }
  }

  lemma {:induction false} AllKeepsEverything(movies: seq<Movie>, sel: Selection)
    requires sel.character == ALL && sel.phase == ALL
    ensures Keep(movies, sel) == movies
  {
    if movies != [] {
      AllKeepsEverything(movies[1..], sel);
      assert movies == [movies[0]] + movies[1..];
    }
  }

  /** Filtering in two stages is the same as one pass with both filters. */
  lemma FilteredIsKeep(movies: seq<Movie>, sel: Selection)
    ensures Filtered(movies, sel) == Keep(movies, sel)
  {
    if sel.character != ALL && sel.phase != ALL {
      BothFiltersAreKeep(movies, sel);
    } else if sel.character != ALL {
      WithCharacterIsKeep(movies, sel);
    } else if sel.phase != ALL {
      WithPhaseIsKeep(movies, sel);
    } else {
      AllKeepsEverything(movies, sel);
    }
  }

  /** The kept records appear in the dataset's order. */
  lemma {:induction false} KeepIsSubsequence(movies: seq<Movie>, sel: Selection)
    ensures IsSubsequence(Keep(movies, sel), movies)
  {
    if movies != [] {
      KeepIsSubsequence(movies[1..], sel);
      var r := Keep(movies, sel);
      if !Passes(movies[0], sel) && r != [] {
        assert r[0] in r;
        KeepMembers(movies[1..], sel);
      }
    }
  }

  lemma {:induction false} KeepMembers(movies: seq<Movie>, sel: Selection)
    ensures forall m :: m in Keep(movies, sel) ==> Passes(m, sel)
  {
    if movies != [] {
      KeepMembers(movies[1..], sel);
    }
  }

  /** Every record is kept as often as it occurs in the dataset, or never. */
  lemma {:induction false} KeepMultiplicity(movies: seq<Movie>, sel: Selection, m: Movie)
    ensures multiset(Keep(movies, sel))[m] == if Passes(m, sel) then multiset(movies)[m] else 0
  {
    if movies != [] {
      KeepMultiplicity(movies[1..], sel, m);
      assert movies == [movies[0]] + movies[1..];
    }
  }

  /**
   * The filtered copy holds exactly the passing records, as often as the
   * dataset does, in the dataset's order.
   */
  lemma FilteredIsExactSubsequence(movies: seq<Movie>, sel: Selection)
    ensures IsSubsequence(Filtered(movies, sel), movies)
    ensures forall m :: multiset(Filtered(movies, sel))[m] == if Passes(m, sel) then multiset(movies)[m] else 0
  {
    FilteredIsKeep(movies, sel);
    KeepIsSubsequence(movies, sel);
    forall m ensures multiset(Filtered(movies, sel))[m] == if Passes(m, sel) then multiset(movies)[m] else 0 {
      KeepMultiplicity(movies, sel, m);
    }
  }

  lemma {:induction false} KeepIdempotent(movies: seq<Movie>, sel: Selection)
    ensures Keep(Keep(movies, sel), sel) == Keep(movies, sel)
  {
    if movies != [] {
      KeepIdempotent(movies[1..], sel);
    }
  }

  /** Re-applying the same selection changes nothing. */
  lemma FilteredIdempotent(movies: seq<Movie>, sel: Selection)
    ensures Filtered(Filtered(movies, sel), sel) == Filtered(movies, sel)
  {
    FilteredIsKeep(movies, sel);
    FilteredIsKeep(Filtered(movies, sel), sel);
    KeepIdempotent(movies, sel);
  }

  /** Phases "Phase 1", "Phase 2", "Phase 1": selecting "Phase 1" keeps the first and third record. */
  lemma PhaseScenario(a: Movie, b: Movie, c: Movie, sortBy: string)
    requires a.phase == Some("Phase 1") && b.phase == Some("Phase 2") && c.phase == Some("Phase 1")
    ensures Filtered([a, b, c], Selection(sortBy, ALL, "Phase 1")) == [a, c]
  {
    assert [a, b, c][1..] == [b, c] && [b, c][1..] == [c] && [c][1..] == [];
    assert "Phase 2"[6] != "Phase 1"[6];
    assert WithPhase([c], "Phase 1") == [c];
    assert WithPhase([b, c], "Phase 1") == [c];
    assert WithPhase([a, b, c], "Phase 1") == [a, c];
  }
}
