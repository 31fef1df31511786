/**
 * Option derivation of `populateFilters`: for one field of the records, the
 * values are mapped out, the falsy ones dropped, the rest de-duplicated through
 * a `Set` (first occurrences, in order) and sorted with the default sort.
 */
module FilterOptions {
  import opened Movies
  import opened Labels

  /** `list.map((m) => m.main_character)` */
  function MainCharacters(list: seq<Movie>): (r: seq<Option<string>>)
    ensures |r| == |list|
    ensures forall i :: 0 <= i < |list| ==> r[i] == list[i].mainCharacter
  {
    seq(|list|, i requires 0 <= i < |list| => list[i].mainCharacter)
  }

  /** `list.map((m) => m.phase)` */
  function Phases(list: seq<Movie>): (r: seq<Option<string>>)
    ensures |r| == |list|
    ensures forall i :: 0 <= i < |list| ==> r[i] == list[i].phase
  {
    seq(|list|, i requires 0 <= i < |list| => list[i].phase)
  }

  /** `.filter(Boolean)`: the present, non-empty values, in order. */
  function TruthyValues(values: seq<Option<string>>): (r: seq<string>)
    ensures forall x :: x in r <==> x != "" && Some(x) in values
    ensures |r| <= |values|
  {
    if values == [] then []
    else
      var rest := TruthyValues(values[1..]);
      assert values == [values[0]] + values[1..];
      if Truthy(values[0]) then [values[0].value] + rest else rest
  }

  /** `Array.from(new Set(xs))`: each value once; the sort that follows does not depend on their order. */
  function FirstOccurrences(xs: seq<string>): (r: seq<string>)
    ensures Distinct(r)
    ensures forall x :: x in r <==> x in xs
  {
    if xs == [] then []
    else
      var init := xs[..|xs| - 1];
      var last := xs[|xs| - 1];
      assert xs == init + [last];
      var seen := FirstOccurrences(init);
      if last in seen then seen else seen + [last]
  }

  /**
   * Insertion of one label into an ascending sequence, after every label that
   * does not sort after it.
   */
  function InsertLabel(t: seq<string>, x: string): (r: seq<string>)
    ensures multiset(r) == multiset(t) + multiset{x}
    ensures Ascending(t) ==> Ascending(r)
    ensures Distinct(t) && x !in t ==> Distinct(r)
  {
    if t == [] then [x]
    else
      var init := t[..|t| - 1];
      var last := t[|t| - 1];
      assert t == init + [last];
      if Before(x, last) then
        var r' := InsertLabel(init, x);
        InsertLabelBeforeLast(t, x, r');
        r' + [last]
      else
        AppendLabel(t, x);
        t + [x]
  }

  lemma InsertLabelBeforeLast(t: seq<string>, x: string, r': seq<string>)
    requires t != [] && Before(x, t[|t| - 1])
    requires multiset(r') == multiset(t[..|t| - 1]) + multiset{x}
    requires Ascending(t[..|t| - 1]) ==> Ascending(r')
    requires Distinct(t[..|t| - 1]) && x !in t[..|t| - 1] ==> Distinct(r')
    ensures multiset(r' + [t[|t| - 1]]) == multiset(t) + multiset{x}
    ensures Ascending(t) ==> Ascending(r' + [t[|t| - 1]])
    ensures Distinct(t) && x !in t ==> Distinct(r' + [t[|t| - 1]])
  {
    var init := t[..|t| - 1];
    assert t == init + [t[|t| - 1]];
    if Ascending(t) {
      assert Ascending(init);
      AscendingBeforeLast(t, x, r');
    }
    if Distinct(t) && x !in t {
      assert Distinct(init);
      DistinctBeforeLast(t, x, r');
    }
  }

  /** Every element of `r'` is `x` or an element of `init`. */
  lemma FromInitOrX(init: seq<string>, x: string, r': seq<string>, e: string)
    requires multiset(r') == multiset(init) + multiset{x}
    requires e in r'
    ensures e == x || e in init
  {
    assert e in multiset(r');
  }

  lemma AscendingBeforeLast(t: seq<string>, x: string, r': seq<string>)
    requires t != [] && Before(x, t[|t| - 1]) && Ascending(t)
    requires multiset(r') == multiset(t[..|t| - 1]) + multiset{x}
    requires Ascending(r')
    ensures Ascending(r' + [t[|t| - 1]])
  {
    var init, last := t[..|t| - 1], t[|t| - 1];
    var r := r' + [last];
    forall i, j | 0 <= i < j < |r|
      ensures !Before(r[j], r[i])
    {
      if j == |r| - 1 {
        FromInitOrX(init, x, r', r[i]);
        if r[i] == x {
          BeforeAsymmetric(x, last);
        } else {
          var k :| 0 <= k < |init| && init[k] == r[i];
          assert t[k] == r[i];
        }
      } else {
        assert r[i] == r'[i] && r[j] == r'[j];
      }
    }
  }

  lemma DistinctBeforeLast(t: seq<string>, x: string, r': seq<string>)
    requires t != [] && Distinct(t) && x !in t
    requires multiset(r') == multiset(t[..|t| - 1]) + multiset{x}
    requires Distinct(r')
    ensures Distinct(r' + [t[|t| - 1]])
  {
    var init, last := t[..|t| - 1], t[|t| - 1];
    var r := r' + [last];
    forall i, j | 0 <= i < j < |r|
      ensures r[i] != r[j]
    {
      if j == |r| - 1 {
        FromInitOrX(init, x, r', r[i]);
        if r[i] != x {
          var k :| 0 <= k < |init| && init[k] == r[i];
          assert t[k] == r[i];
        }
      } else {
        assert r[i] == r'[i] && r[j] == r'[j];
      }
    }
  }

  lemma AppendLabel(t: seq<string>, x: string)
    requires t != [] && !Before(x, t[|t| - 1])
    ensures Ascending(t) ==> Ascending(t + [x])
    ensures Distinct(t) && x !in t ==> Distinct(t + [x])
  {
    var r := t + [x];
    if Ascending(t) {
      forall i, j | 0 <= i < j < |r|
        ensures !Before(r[j], r[i])
      {
        if j == |r| - 1 && i < |t| - 1 {
          NotBeforeTransitive(t[i], t[|t| - 1], x);
        }
      }
    }
  }

  /** `.sort()` with the default comparison: insertion sort by UTF-16 code units. */
  function SortLabels(xs: seq<string>): (r: seq<string>)
    ensures multiset(r) == multiset(xs)
    ensures Ascending(r)
    ensures Distinct(xs) ==> Distinct(r)
  {
    if xs == [] then []
    else
      var init := xs[..|xs| - 1];
      var last := xs[|xs| - 1];
      assert xs == init + [last];
      var sorted := SortLabels(init);
      assert last !in init ==> last !in multiset(sorted);
      InsertLabel(sorted, last)
  }

  /** The option labels derived from one field's values. */
  function DeriveOptions(values: seq<Option<string>>): (r: seq<string>)
    ensures StrictlyAscending(r)
    ensures forall x :: x in r <==> x != "" && Some(x) in values
  {
    var labels := FirstOccurrences(TruthyValues(values));
    var r := SortLabels(labels);
    forall x ensures x in r <==> x in labels {
      assert x in r <==> x in multiset(r);
    }
    AscendingDistinctIsStrict(r);
    r
  }

  /** The labels appended to the character filter (script.js line 28). */
  function CharacterOptions(list: seq<Movie>): (r: seq<string>)
    ensures StrictlyAscending(r)
    ensures forall x :: x in r <==> x != "" && exists m :: m in list && m.mainCharacter == Some(x)
  {
    var values := MainCharacters(list);
    var r := DeriveOptions(values);
    forall x ensures (Some(x) in values) <==> exists m :: m in list && m.mainCharacter == Some(x) {
      if Some(x) in values {
        var i :| 0 <= i < |values| && values[i] == Some(x);
        assert list[i] in list;
      }
      if exists m :: m in list && m.mainCharacter == Some(x) {
        var m :| m in list && m.mainCharacter == Some(x);
        var i :| 0 <= i < |list| && list[i] == m;
        assert values[i] == Some(x);
      }
    }
    r
  }

  /** The labels appended to the phase filter (script.js line 29). */
  function PhaseOptions(list: seq<Movie>): (r: seq<string>)
    ensures StrictlyAscending(r)
    ensures forall x :: x in r <==> x != "" && exists m :: m in list && m.phase == Some(x)
  {
    var values := Phases(list);
    var r := DeriveOptions(values);
    forall x ensures (Some(x) in values) <==> exists m :: m in list && m.phase == Some(x) {
      if Some(x) in values {
        var i :| 0 <= i < |values| && values[i] == Some(x);
        assert list[i] in list;
      }
      if exists m :: m in list && m.phase == Some(x) {
        var m :| m in list && m.phase == Some(x);
        var i :| 0 <= i < |list| && list[i] == m;
        assert values[i] == Some(x);
      }
    }
    r
  }

  /**
   * The option list does not depend on the order in which the `Set` met the
   * labels: it is the one strictly ascending sequence of the truthy values.
   */
  lemma OptionsAreTheAscendingLabelSet(values: seq<Option<string>>, s: seq<string>)
    requires StrictlyAscending(s)
    requires forall x :: x in s <==> x != "" && Some(x) in values
    ensures s == DeriveOptions(values)
  {
    StrictlyAscendingUnique(s, DeriveOptions(values));
  }
}
