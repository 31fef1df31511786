/**
 * The page's state: the loaded dataset, the options appended to the two
 * filter controls, and the two things the renderer changes (the gallery's
 * cards and whether the empty-state indicator is hidden).
 */
module View {
  import opened Movies
  import opened Labels
  import opened FilterOptions
  import opened Filters
  import opened Ordering
  import opened StableSort
  import opened Engine
  import opened Render

  class Page {
    /** The dataset, assigned once it is loaded. */
    var movies: seq<Movie>
    /** The options appended after the pre-existing "all" option of each filter control. */
    var characterOptions: seq<string>
    var phaseOptions: seq<string>
    /** The cards in the gallery container, in display order. */
    var gallery: seq<Card>
    /** Whether the empty-state indicator carries its hidden-state class. */
    var emptyStateHidden: bool

    /** The empty state is shown exactly when the gallery holds no card. */
    ghost predicate Consistent()
      reads this
    {
      emptyStateHidden <==> gallery != []
    }

    /** The page before loading: no dataset, no options, no cards. */
    constructor (emptyStateHiddenInitially: bool)
      ensures movies == [] && characterOptions == [] && phaseOptions == []
      ensures gallery == [] && emptyStateHidden == emptyStateHiddenInitially
    {
      movies := [];
      characterOptions := [];
      phaseOptions := [];
      gallery := [];
      emptyStateHidden := emptyStateHiddenInitially;
    }

    /** Appends the derived labels to the two filter controls. */
    method PopulateFilters(list: seq<Movie>)
      modifies this`characterOptions, this`phaseOptions
      ensures characterOptions == old(characterOptions) + CharacterOptions(list)
      ensures phaseOptions == old(phaseOptions) + PhaseOptions(list)
    {
      characterOptions := characterOptions + CharacterOptions(list);
      phaseOptions := phaseOptions + PhaseOptions(list);
    }

    /** Replaces the gallery's cards, or clears it and shows the empty state. */
    method RenderMovies(list: seq<Movie>)
      modifies this`gallery, this`emptyStateHidden
      ensures list == [] ==> gallery == [] && !emptyStateHidden
      ensures list != [] ==> gallery == Cards(list) && emptyStateHidden
      ensures Consistent()
    {
      if |list| == 0 {
        gallery := [];
        emptyStateHidden := false;
        return;
      }
      emptyStateHidden := true;
      gallery := Cards(list);
    }

    /**
     * Filters and sorts a copy of the dataset by the controls' values and
     * renders it; the dataset itself is left as it was.
     */
    method ApplyFiltersAndSort(sel: Selection)
      modifies this`gallery, this`emptyStateHidden
      ensures gallery == Cards(Shown(movies, sel))
      ensures emptyStateHidden <==> Filtered(movies, sel) != []
      ensures Consistent()
    {
      var filtered := FilterAndSort(movies, sel);
      ShownMembers(movies, sel);
      RenderMovies(filtered);
    }

    /**
     * What happens once the dataset has been fetched and parsed: it is stored,
     * the filter options are derived from it, and the gallery is rendered.
     */
    method Load(data: seq<Movie>, sel: Selection)
      modifies this
      ensures movies == data
      ensures characterOptions == old(characterOptions) + CharacterOptions(data)
      ensures phaseOptions == old(phaseOptions) + PhaseOptions(data)
      ensures gallery == Cards(Shown(data, sel))
      ensures emptyStateHidden <==> Filtered(data, sel) != []
    {
      movies := data;
      PopulateFilters(movies);
      ApplyFiltersAndSort(sel);
    }
  }

  /**
   * Every card the gallery shows carries the selected character as its badge
   * and the selected phase, unless that selection is "all".
   */
  lemma ShownCardsMatchSelection(movies: seq<Movie>, sel: Selection)
    ensures forall c :: c in Cards(Shown(movies, sel)) && sel.character != ALL && sel.character != "" ==>
      c.badge == sel.character
    ensures forall c :: c in Cards(Shown(movies, sel)) && sel.phase != ALL ==> c.phase == Some(sel.phase)
  {
    var shown := Shown(movies, sel);
    ShownMembers(movies, sel);
    forall c | c in Cards(shown)
      ensures sel.character != ALL && sel.character != "" ==> c.badge == sel.character
      ensures sel.phase != ALL ==> c.phase == Some(sel.phase)
    {
      var i :| 0 <= i < |shown| && Cards(shown)[i] == c;
      assert shown[i] in shown;
    }
  }

  /** Picking any derived character option (with every phase) shows at least one card. */
  lemma CharacterOptionShowsSomething(movies: seq<Movie>, sortBy: string, character: string)
    requires character in CharacterOptions(movies)
    ensures Filtered(movies, Selection(sortBy, character, ALL)) != []
    ensures Cards(Shown(movies, Selection(sortBy, character, ALL))) != []
  {
    var sel := Selection(sortBy, character, ALL);
    var m :| m in movies && m.mainCharacter == Some(character);
    assert Passes(m, sel);
    ShownMembers(movies, sel);
  }

  /** Picking any derived phase option (with every character) shows at least one card. */
  lemma PhaseOptionShowsSomething(movies: seq<Movie>, sortBy: string, phase: string)
    requires phase in PhaseOptions(movies)
    ensures Filtered(movies, Selection(sortBy, ALL, phase)) != []
    ensures Cards(Shown(movies, Selection(sortBy, ALL, phase))) != []
  {
    var sel := Selection(sortBy, ALL, phase);
    var m :| m in movies && m.phase == Some(phase);
    assert Passes(m, sel);
    ShownMembers(movies, sel);
  }

  /** An empty dataset renders no card and shows the empty state. */
  method EmptyDatasetScenario(sel: Selection)
  {
    var page := new Page(true);
    page.Load([], sel);
    assert page.gallery == [] && !page.emptyStateHidden;
  }
}
