/**
 * The order in which JavaScript's default `Array.prototype.sort` puts strings:
 * lexicographic on UTF-16 code units. A Dafny `char` is a Unicode scalar value,
 * so each character is first given the rank its UTF-16 encoding sorts by.
 */
module Labels {

  /**
   * Where a character's UTF-16 encoding falls among all encodings: characters
   * below U+D800 are one code unit below every surrogate; supplementary
   * characters start with a high surrogate (0xD800..0xDBFF) and keep their
   * code-point order among themselves; characters U+E000..U+FFFF are one code
   * unit above every surrogate.
   */
  function CodeUnitRank(c: char): (r: int)
    ensures (c as int < 0xD800) ==> r == c as int
    ensures (c as int < 0xD800) <==> r < 0xD800
    ensures (0xE000 <= c as int < 0x10000) <==> 0x110000 <= r
  {
    if c as int < 0xD800 then c as int
    else if c as int >= 0x10000 then c as int
    else c as int + 0x110000
  }

  /** Distinct characters have distinct ranks, so the order on characters is total. */
  lemma RankInjective(a: char, b: char)
    requires a != b
    ensures CodeUnitRank(a) != CodeUnitRank(b)
  {
  }

  /** `a` sorts strictly before `b` (a proper prefix sorts first). */
  predicate Before(a: string, b: string)
  {
    if a == [] then b != []
    else if b == [] then false
    else if a[0] == b[0] then Before(a[1..], b[1..])
    else CodeUnitRank(a[0]) < CodeUnitRank(b[0])
  }

  lemma {:induction false} BeforeIrreflexive(a: string)
    ensures !Before(a, a)
  {
    if a != [] {
      BeforeIrreflexive(a[1..]);
    }
  }

  lemma {:induction false} BeforeTransitive(a: string, b: string, c: string)
    requires Before(a, b) && Before(b, c)
    ensures Before(a, c)
  {
    if a != [] && b != [] && c != [] && a[0] == b[0] && b[0] == c[0] {
      BeforeTransitive(a[1..], b[1..], c[1..]);
    }
  }

  lemma {:induction false} BeforeTotal(a: string, b: string)
    requires a != b
    ensures Before(a, b) || Before(b, a)
  {
    if a != [] && b != [] {
      if a[0] == b[0] {
        assert a == [a[0]] + a[1..] && b == [b[0]] + b[1..];
        BeforeTotal(a[1..], b[1..]);
      } else {
        RankInjective(a[0], b[0]);
      }
    }
  }

  lemma BeforeAsymmetric(a: string, b: string)
    requires Before(a, b)
    ensures !Before(b, a)
  {
    if Before(b, a) {
      BeforeTransitive(a, b, a);
      BeforeIrreflexive(a);
    }
  }

  /** "Not after" is transitive; the sort of labels relies on it. */
  lemma NotBeforeTransitive(a: string, b: string, c: string)
    requires !Before(b, a) && !Before(c, b)
    ensures !Before(c, a)
  {
    if a != b {
      BeforeTotal(a, b);
    }
    if b != c {
      BeforeTotal(b, c);
    }
    if a != c && Before(c, a) {
      if a == b {
        BeforeAsymmetric(b, c);
      } else if b == c {
        BeforeAsymmetric(a, b);
      } else {
        BeforeTransitive(a, b, c);
        BeforeAsymmetric(a, c);
      }
    }
    if a == c {
      BeforeIrreflexive(a);
    }
  }

  /** One UTF-16 code unit. */
  type CodeUnit = u: int | 0 <= u < 0x1_0000

  /**
   * The UTF-16 encoding of one character: itself when below U+10000, else a
   * high surrogate (0xD800..0xDBFF) followed by a low surrogate (0xDC00..0xDFFF).
   */
  function Units(c: char): (r: seq<CodeUnit>)
    ensures |r| == 1 <==> c as int < 0x1_0000
    ensures |r| == 1 ==> r[0] == c as int && !(0xD800 <= r[0] < 0xE000)
    ensures |r| != 1 ==> |r| == 2 && 0xD800 <= r[0] < 0xDC00 && 0xDC00 <= r[1] < 0xE000
    ensures |r| != 1 ==> c as int == 0x1_0000 + (r[0] as int - 0xD800) * 0x400 + (r[1] as int - 0xDC00)
  {
    if c as int < 0x1_0000 then [c as int]
    else
      var v := c as int - 0x1_0000;
      [0xD800 + v / 0x400, 0xDC00 + v % 0x400]
  }

  /** The UTF-16 code units of a string, the sequence JavaScript compares. */
  function Encode(s: string): seq<CodeUnit>
  {
    if s == [] then [] else Units(s[0]) + Encode(s[1..])
  }

  /** Lexicographic order on code-unit sequences (a proper prefix comes first). */
  predicate CodeUnitsLess(u: seq<CodeUnit>, v: seq<CodeUnit>)
  {
    if u == [] then v != []
    else if v == [] then false
    else if u[0] == v[0] then CodeUnitsLess(u[1..], v[1..])
    else u[0] < v[0]
  }

  /** A common prefix does not change the comparison. */
  lemma {:induction false} CommonPrefix(p: seq<CodeUnit>, u: seq<CodeUnit>, v: seq<CodeUnit>)
    ensures CodeUnitsLess(p + u, p + v) == CodeUnitsLess(u, v)
  {
    if p != [] {
      assert (p + u)[0] == p[0] == (p + v)[0];
      assert (p + u)[1..] == p[1..] + u && (p + v)[1..] == p[1..] + v;
      CommonPrefix(p[1..], u, v);
    } else {
      assert p + u == u && p + v == v;
    }
  }

  /** Splitting a character offset below 0x100000 into its two ten-bit halves preserves order. */
  lemma HalvesOrder(x: int, y: int)
    requires 0 <= x && 0 <= y && x != y
    ensures x < y <==> x / 0x400 < y / 0x400 || (x / 0x400 == y / 0x400 && x % 0x400 < y % 0x400)
  {
    assert x == 0x400 * (x / 0x400) + x % 0x400;
    assert y == 0x400 * (y / 0x400) + y % 0x400;
  }

  /**
   * Two strings that start with different characters compare as the ranks of
   * those characters: the UTF-16 encodings differ within the first character.
   */
  lemma FirstCharacterDecides(a: char, b: char, x: seq<CodeUnit>, y: seq<CodeUnit>)
    requires a != b
    ensures CodeUnitsLess(Units(a) + x, Units(b) + y) <==> CodeUnitRank(a) < CodeUnitRank(b)
  {
    var ua, ub := Units(a), Units(b);
    var u, v := ua + x, ub + y;
    assert u[0] == ua[0] && v[0] == ub[0];
    if ua[0] == ub[0] {
      assert |ua| == 2 && |ub| == 2;
      assert u[1..][0] == ua[1] && v[1..][0] == ub[1];
      assert ua[1] != ub[1];
      HalvesOrder(a as int - 0x1_0000, b as int - 0x1_0000);
    } else if |ua| == 2 && |ub| == 2 {
      HalvesOrder(a as int - 0x1_0000, b as int - 0x1_0000);
    }
  }

  /**
   * `Before` is exactly the order of UTF-16 code-unit sequences, the order
   * the default `Array.prototype.sort` uses.
   */
  lemma {:induction false} BeforeIsCodeUnitOrder(a: string, b: string)
    ensures Before(a, b) <==> CodeUnitsLess(Encode(a), Encode(b))
  {
    if a != [] && b != [] {
      if a[0] == b[0] {
        CommonPrefix(Units(a[0]), Encode(a[1..]), Encode(b[1..]));
        BeforeIsCodeUnitOrder(a[1..], b[1..]);
      } else {
        FirstCharacterDecides(a[0], b[0], Encode(a[1..]), Encode(b[1..]));
      }
    }
  }

  /** A sequence of labels in strictly ascending order: sorted and free of duplicates. */
  predicate StrictlyAscending(s: seq<string>)
  {
    forall i, j :: 0 <= i < j < |s| ==> Before(s[i], s[j])
  }

  /** A sequence of labels in ascending order, duplicates allowed. */
  predicate Ascending(s: seq<string>)
  {
    forall i, j :: 0 <= i < j < |s| ==> !Before(s[j], s[i])
  }

  predicate Distinct(s: seq<string>)
  {
    forall i, j :: 0 <= i < j < |s| ==> s[i] != s[j]
  }

  /** Sorted and duplicate-free together amount to strictly ascending. */
  lemma AscendingDistinctIsStrict(s: seq<string>)
    requires Ascending(s) && Distinct(s)
    ensures StrictlyAscending(s)
  {
    forall i, j | 0 <= i < j < |s|
      ensures Before(s[i], s[j])
    {
      BeforeTotal(s[i], s[j]);
    }
  }

  /**
   * There is only one strictly ascending arrangement of a set of labels: two
   * strictly ascending sequences with the same elements are equal.
   */
  lemma {:induction false} StrictlyAscendingUnique(s: seq<string>, t: seq<string>)
    requires StrictlyAscending(s) && StrictlyAscending(t)
    requires forall x :: x in s <==> x in t
    ensures s == t
  {
    if s != [] {
      assert s[0] in t;
    }
    if t != [] {
      assert t[0] in s;
    }
    if s != [] {
      // Both heads are the least element of the same set.
      if s[0] != t[0] {
        assert s[0] in t;
        assert t[0] in s;
        var i :| 0 <= i < |t| && t[i] == s[0];
        var j :| 0 <= j < |s| && s[j] == t[0];
        assert 0 < i && 0 < j;
        BeforeAsymmetric(t[0], s[0]);
        assert false;
      }
      forall x
        ensures x in s[1..] <==> x in t[1..]
      {
        if x in s[1..] {
          var j :| 1 <= j < |s| && s[j] == x;
          assert Before(s[0], x);
          BeforeIrreflexive(x);
          assert x in t && x != t[0];
        }
        if x in t[1..] {
          var j :| 1 <= j < |t| && t[j] == x;
          assert Before(t[0], x);
          BeforeIrreflexive(x);
          assert x in s && x != s[0];
        }
      }
      StrictlyAscendingUnique(s[1..], t[1..]);
      assert s == [s[0]] + s[1..] && t == [t[0]] + t[1..];
    }
  }
}
