/**
 * `filtered.sort(comparator)`. ECMA-262 requires `Array.prototype.sort` to be
 * stable, so the sort is modelled as a stable insertion sort: a function that
 * specifies the result, and the in-place method on an array.
 */
module StableSort {
  import opened Movies
  import opened Ordering

  /** Every record may precede every later one. */
  predicate Sorted(mode: SortMode, s: seq<Movie>) {
    forall i, j :: 0 <= i < j < |s| ==> InOrder(mode, s[i], s[j])
  }

  /** The records of `s` that tie with `y`, in their order in `s`. */
  function TiedWith(mode: SortMode, s: seq<Movie>, y: Movie): seq<Movie>
  {
    if s == [] then []
    else TiedWith(mode, s[..|s| - 1], y) + (if SameKey(mode, s[|s| - 1], y) then [s[|s| - 1]] else [])
  }

  /**
   * `r` is a stable rearrangement of `s`: for every key, the records with that
   * key come in the same order, with the same multiplicities.
   */
  ghost predicate StableRearrangement(mode: SortMode, r: seq<Movie>, s: seq<Movie>) {
    forall y :: TiedWith(mode, r, y) == TiedWith(mode, s, y)
  }

  /**
   * Insert `x` into `t` after every record that may precede it: walk back from
   * the end past the records the comparator puts strictly after `x`.
   */
  function Insert(mode: SortMode, t: seq<Movie>, x: Movie): seq<Movie>
  {
    if t == [] then [x]
    else if Compare(mode, t[|t| - 1], x) > 0 then Insert(mode, t[..|t| - 1], x) + [t[|t| - 1]]
    else t + [x]
  }

  /** The stable sort of `s`: insert each record in turn into the sorted prefix. */
  function SortedBy(mode: SortMode, s: seq<Movie>): seq<Movie>
  {
    if s == [] then []
    else Insert(mode, SortedBy(mode, s[..|s| - 1]), s[|s| - 1])
  }

  lemma SortedAppend(mode: SortMode, s: seq<Movie>, b: Movie)
    requires Sorted(mode, s)
    requires forall e :: e in s ==> InOrder(mode, e, b)
    ensures Sorted(mode, s + [b])
  {
    var r := s + [b];
    forall i, j | 0 <= i < j < |r|
      ensures InOrder(mode, r[i], r[j])
    {
      if j < |s| {
        assert r[i] == s[i] && r[j] == s[j];
      } else {
        assert r[i] == s[i] && s[i] in s;
      }
    }
  }

  /** Inserting into a sorted list gives a sorted list with one more occurrence of `x`. */
  lemma {:induction false} InsertSorted(mode: SortMode, t: seq<Movie>, x: Movie)
    requires Sorted(mode, t)
    ensures Sorted(mode, Insert(mode, t, x))
    ensures multiset(Insert(mode, t, x)) == multiset(t) + multiset{x}
  {
    if t != [] {
      var init, last := t[..|t| - 1], t[|t| - 1];
      assert t == init + [last];
      if Compare(mode, last, x) > 0 {
        assert Sorted(mode, init);
        InsertSorted(mode, init, x);
        InsertBeforeLast(mode, t, x, Insert(mode, init, x));
      } else {
        InsertAfterLast(mode, t, x);
      }
    }
  }

  /** `x` goes before the last record `last`: the list inserted into the rest, then `last`. */
  lemma InsertBeforeLast(mode: SortMode, t: seq<Movie>, x: Movie, r': seq<Movie>)
    requires Sorted(mode, t) && t != [] && Compare(mode, t[|t| - 1], x) > 0
    requires Sorted(mode, r') && multiset(r') == multiset(t[..|t| - 1]) + multiset{x}
    ensures Sorted(mode, r' + [t[|t| - 1]])
    ensures multiset(r' + [t[|t| - 1]]) == multiset(t) + multiset{x}
  {
    var init, last := t[..|t| - 1], t[|t| - 1];
    assert t == init + [last];
    forall e | e in r'
      ensures InOrder(mode, e, last)
    {
      assert e in multiset(r');
      if e == x {
        CompareAntisymmetric(mode, last, x);
      } else {
        LastIsGreatest(mode, t, e);
      }
    }
    SortedAppend(mode, r', last);
  }

  /** `x` goes after the last record: appending keeps the list sorted. */
  lemma InsertAfterLast(mode: SortMode, t: seq<Movie>, x: Movie)
    requires Sorted(mode, t) && t != [] && InOrder(mode, t[|t| - 1], x)
    ensures Sorted(mode, t + [x])
  {
    forall e | e in t
      ensures InOrder(mode, e, x)
    {
      LastIsGreatest(mode, t, e);
      CompareTransitive(mode, e, t[|t| - 1], x);
    }
    SortedAppend(mode, t, x);
  }

  /** A record strictly after one tied with `y` does not tie with `y`. */
  lemma AfterTieNotTied(mode: SortMode, x: Movie, y: Movie, e: Movie)
    requires SameKey(mode, x, y) && Compare(mode, e, x) > 0
    ensures !SameKey(mode, e, y)
  {
  }

  lemma TiedWithSnoc(mode: SortMode, s: seq<Movie>, e: Movie, y: Movie)
    ensures TiedWith(mode, s + [e], y) == TiedWith(mode, s, y) + if SameKey(mode, e, y) then [e] else []
  {
    assert (s + [e])[..|s|] == s;
  }

  /** Inserting keeps every key's records in order and puts `x` last among its ties. */
  lemma {:induction false} InsertStable(mode: SortMode, t: seq<Movie>, x: Movie, y: Movie)
    ensures TiedWith(mode, Insert(mode, t, x), y) == TiedWith(mode, t + [x], y)
  {
    if t != [] {
      var init, last := t[..|t| - 1], t[|t| - 1];
      assert t == init + [last];
      if Compare(mode, last, x) > 0 {
        var r' := Insert(mode, init, x);
        assert Insert(mode, t, x) == r' + [last];
        InsertStable(mode, init, x, y);
        PassTie(mode, init, last, x, y, r');
      }
    }
  }

  /**
   * If `r'` keeps the ties of `init + [x]`, then `r' + [last]` keeps those of
   * `init + [last] + [x]` when `last` sorts strictly after `x`.
   */
  lemma PassTie(mode: SortMode, init: seq<Movie>, last: Movie, x: Movie, y: Movie, r': seq<Movie>)
    requires Compare(mode, last, x) > 0
    requires TiedWith(mode, r', y) == TiedWith(mode, init + [x], y)
    ensures TiedWith(mode, r' + [last], y) == TiedWith(mode, init + [last] + [x], y)
  {
    TiedWithSnoc(mode, r', last, y);
    TiedWithSnoc(mode, init, x, y);
    TiedWithSnoc(mode, init, last, y);
    TiedWithSnoc(mode, init + [last], x, y);
    var a := TiedWith(mode, init, y);
    var tx := if SameKey(mode, x, y) then [x] else [];
    var tl := if SameKey(mode, last, y) then [last] else [];
    if SameKey(mode, x, y) {
      AfterTieNotTied(mode, x, y, last);
    }
    assert tx == [] || tl == [];
    assert a + tx + tl == a + tl + tx;
  }

  /** The sort's result is in order and a permutation of its input. */
  lemma {:induction false} SortedBySorts(mode: SortMode, s: seq<Movie>)
    ensures Sorted(mode, SortedBy(mode, s))
    ensures multiset(SortedBy(mode, s)) == multiset(s)
  {
    if s != [] {
      var init := s[..|s| - 1];
      SortedBySorts(mode, init);
      InsertSorted(mode, SortedBy(mode, init), s[|s| - 1]);
      assert s == init + [s[|s| - 1]];
    }
  }

  /** The sort is stable: records with equal keys keep their relative order. */
  lemma {:induction false} SortedByStable(mode: SortMode, s: seq<Movie>)
    ensures StableRearrangement(mode, SortedBy(mode, s), s)
  {
    if s != [] {
      var init, x := s[..|s| - 1], s[|s| - 1];
      assert s == init + [x];
      SortedByStable(mode, init);
      forall y
        ensures TiedWith(mode, SortedBy(mode, s), y) == TiedWith(mode, s, y)
      {
        InsertStable(mode, SortedBy(mode, init), x, y);
        TiedWithSnoc(mode, SortedBy(mode, init), x, y);
        TiedWithSnoc(mode, init, x, y);
      }
    }
  }

  /** The records tied with `y` are records of the list. */
  lemma {:induction false} TiedWithMembers(mode: SortMode, s: seq<Movie>, y: Movie)
    ensures forall e :: e in TiedWith(mode, s, y) ==> e in s
  {
    if s != [] {
      var init, last := s[..|s| - 1], s[|s| - 1];
      assert s == init + [last];
      TiedWithMembers(mode, init, y);
    }
  }

  /** A record occurs in a list exactly when it occurs among the records tied with it. */
  lemma {:induction false} InTiedWith(mode: SortMode, s: seq<Movie>, y: Movie)
    ensures y in s <==> y in TiedWith(mode, s, y)
  {
    TiedWithMembers(mode, s, y);
    if s != [] {
      var init, last := s[..|s| - 1], s[|s| - 1];
      assert s == init + [last];
      InTiedWith(mode, init, y);
      CompareAntisymmetric(mode, y, y);
    }
  }

  /** In a sorted list every record may precede the last one. */
  lemma LastIsGreatest(mode: SortMode, r: seq<Movie>, e: Movie)
    requires Sorted(mode, r) && e in r
    ensures InOrder(mode, e, r[|r| - 1])
  {
    var i :| 0 <= i < |r| && r[i] == e;
    if i == |r| - 1 {
      CompareAntisymmetric(mode, e, e);
    }
  }

  /** Lists with the same records per key are empty together. */
  lemma EmptyTogether(mode: SortMode, r1: seq<Movie>, r2: seq<Movie>)
    requires forall y :: TiedWith(mode, r1, y) == TiedWith(mode, r2, y)
    requires r1 != []
    ensures r2 != []
  {
    var e := r1[0];
    InTiedWith(mode, r1, e);
    assert TiedWith(mode, r1, e) == TiedWith(mode, r2, e);
    TiedWithMembers(mode, r2, e);
  }

  /** Two sorted lists with the same records per key end in records that tie. */
  lemma LastsTie(mode: SortMode, r1: seq<Movie>, r2: seq<Movie>)
    requires Sorted(mode, r1) && Sorted(mode, r2) && r1 != [] && r2 != []
    requires forall y :: TiedWith(mode, r1, y) == TiedWith(mode, r2, y)
    ensures SameKey(mode, r1[|r1| - 1], r2[|r2| - 1])
  {
    var x, z := r1[|r1| - 1], r2[|r2| - 1];
    // Each last record occurs in the other list, so each may precede the other.
    InTiedWith(mode, r1, x);
    assert TiedWith(mode, r1, x) == TiedWith(mode, r2, x);
    TiedWithMembers(mode, r2, x);
    LastIsGreatest(mode, r2, x);
    InTiedWith(mode, r2, z);
    assert TiedWith(mode, r1, z) == TiedWith(mode, r2, z);
    TiedWithMembers(mode, r1, z);
    LastIsGreatest(mode, r1, z);
    CompareAntisymmetric(mode, x, z);
  }

  /**
   * When two lists with the same records per key end in records that tie,
   * those are the same record, and the lists before them again have the same
   * records per key.
   */
  lemma DropLastTie(mode: SortMode, init1: seq<Movie>, x: Movie, init2: seq<Movie>, z: Movie)
    requires SameKey(mode, x, z)
    requires forall y :: TiedWith(mode, init1 + [x], y) == TiedWith(mode, init2 + [z], y)
    ensures x == z
    ensures forall y :: TiedWith(mode, init1, y) == TiedWith(mode, init2, y)
  {
    LastTiesAgree(mode, init1, x, init2, z);
    forall y
      ensures TiedWith(mode, init1, y) == TiedWith(mode, init2, y)
    {
      DropSharedLast(mode, init1, init2, x, y);
    }
  }

  /** Two lists whose tied records agree for the key of their tied last records end in the same record. */
  lemma LastTiesAgree(mode: SortMode, init1: seq<Movie>, x: Movie, init2: seq<Movie>, z: Movie)
    requires SameKey(mode, x, z)
    requires TiedWith(mode, init1 + [x], x) == TiedWith(mode, init2 + [z], x)
    ensures x == z
  {
    CompareAntisymmetric(mode, x, x);
    CompareAntisymmetric(mode, x, z);
    TiedWithSnoc(mode, init1, x, x);
    TiedWithSnoc(mode, init2, z, x);
    var c1, c2 := TiedWith(mode, init1, x), TiedWith(mode, init2, x);
    assert c1 + [x] == c2 + [z];
    assert x == (c1 + [x])[|c1|] == (c2 + [z])[|c2|] == z;
  }

  /** Removing the same last record from two lists keeps their tied records equal. */
  lemma DropSharedLast(mode: SortMode, init1: seq<Movie>, init2: seq<Movie>, x: Movie, y: Movie)
    requires TiedWith(mode, init1 + [x], y) == TiedWith(mode, init2 + [x], y)
    ensures TiedWith(mode, init1, y) == TiedWith(mode, init2, y)
  {
    TiedWithSnoc(mode, init1, x, y);
    TiedWithSnoc(mode, init2, x, y);
    var d1, d2 := TiedWith(mode, init1, y), TiedWith(mode, init2, y);
    if SameKey(mode, x, y) {
      assert d1 == (d1 + [x])[..|d1|];
      assert d2 == (d2 + [x])[..|d2|];
    }
  }

  /**
   * A sorted, stable arrangement is unique: any two sorted lists with the same
   * records per key are equal.
   */
  lemma {:induction false} SortedStableUnique(mode: SortMode, r1: seq<Movie>, r2: seq<Movie>)
    requires Sorted(mode, r1) && Sorted(mode, r2)
    requires forall y :: TiedWith(mode, r1, y) == TiedWith(mode, r2, y)
    ensures r1 == r2
  {
    if r1 != [] {
      EmptyTogether(mode, r1, r2);
    }
    if r2 != [] {
      EmptyTogether(mode, r2, r1);
    }
    if r1 != [] {
      var init1, x := r1[..|r1| - 1], r1[|r1| - 1];
      var init2, z := r2[..|r2| - 1], r2[|r2| - 1];
      assert r1 == init1 + [x] && r2 == init2 + [z];
      LastsTie(mode, r1, r2);
      DropLastTie(mode, init1, x, init2, z);
      assert Sorted(mode, init1) && Sorted(mode, init2);
      SortedStableUnique(mode, init1, init2);
    }
  }

  /**
   * The sort's result is determined by the comparator alone: every sorted,
   * stable rearrangement of `s` is `SortedBy(mode, s)`.
   */
  lemma SortedByIsTheStableSort(mode: SortMode, s: seq<Movie>, r: seq<Movie>)
    requires Sorted(mode, r) && StableRearrangement(mode, r, s)
    ensures r == SortedBy(mode, s)
  {
    SortedBySorts(mode, s);
    SortedByStable(mode, s);
    SortedStableUnique(mode, r, SortedBy(mode, s));
  }

  /**
   * Where `Insert` puts `x`: after `t[..j]`, when every record from `j` on
   * sorts strictly after `x` and the record before `j`, if any, does not.
   */
  lemma {:induction false} InsertAt(mode: SortMode, t: seq<Movie>, x: Movie, j: nat)
    requires j <= |t|
    requires j == 0 || Compare(mode, t[j - 1], x) <= 0
    requires forall k :: j <= k < |t| ==> Compare(mode, t[k], x) > 0
    ensures Insert(mode, t, x) == t[..j] + [x] + t[j..]
  {
    if j == |t| {
      assert t[..j] == t && t[j..] == [];
    } else {
      var init, last := t[..|t| - 1], t[|t| - 1];
      InsertAt(mode, init, x, j);
      assert init[..j] == t[..j];
      assert t[j..] == init[j..] + [last];
    }
  }

  /** A list that agrees with `t` before `j`, holds `x` at `j` and `t` shifted by one after it. */
  lemma Splice(u: seq<Movie>, t: seq<Movie>, j: nat, x: Movie)
    requires j <= |t| && |u| == |t| + 1
    requires forall k :: 0 <= k < j ==> u[k] == t[k]
    requires u[j] == x
    requires forall k :: j < k < |u| ==> u[k] == t[k - 1]
    ensures u == t[..j] + [x] + t[j..]
  {
  }

  /**
   * One step of the sort: `a[..i]` is sorted so far; the records of that
   * prefix that sort strictly after `a[i]` shift right by one and `a[i]` takes
   * the place they free.
   */
  method InsertInPlace(mode: SortMode, a: array<Movie>, i: nat)
    requires i < a.Length
    modifies a
    ensures a[..i + 1] == Insert(mode, old(a[..i]), old(a[i]))
    ensures a[i + 1..] == old(a[i + 1..])
  {
    var x := a[i];
    ghost var t := a[..i];
    var j := i;
    while j > 0 && Compare(mode, a[j - 1], x) > 0
      invariant 0 <= j <= i
      invariant forall k :: j <= k < i ==> Compare(mode, t[k], x) > 0
    {
      j := j - 1;
    }
    InsertAt(mode, t, x, j);
    forall k | j < k <= i {
      a[k] := a[k - 1];
    }
    a[j] := x;
    Splice(a[..i + 1], t, j, x);
  }

  /** Sorting one more record of `s` inserts it into the sorted prefix. */
  lemma SortedByPrefix(mode: SortMode, s: seq<Movie>, i: nat)
    requires i < |s|
    ensures SortedBy(mode, s[..i + 1]) == Insert(mode, SortedBy(mode, s[..i]), s[i])
  {
    assert s[..i + 1][..i] == s[..i];
  }

  /** Sorts `a` in place, exactly as the stable sort of its contents. */
  method SortInPlace(mode: SortMode, a: array<Movie>)
    modifies a
    ensures a[..] == SortedBy(mode, old(a[..]))
  {
    ghost var s := a[..];
    var i := 0;
    while i < a.Length
      invariant 0 <= i <= a.Length
      invariant a[..i] == SortedBy(mode, s[..i])
      invariant a[i..] == s[i..]
    {
      assert a[i] == s[i];
      SortedByPrefix(mode, s, i);
      InsertInPlace(mode, a, i);
      assert a[i + 1..] == s[i + 1..];
      i := i + 1;
    }
    assert a[..] == a[..a.Length] && s == s[..a.Length];
  }
}
