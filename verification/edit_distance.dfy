/** Levenshtein distance: the standard recursive insert/delete/substitute
    definition, its metric properties (identity, symmetry, triangle
    inequality), and the single-row dynamic-programming loop of
    `levenshtein` in src/fuzzy_index.rs proved equal to it. */
module EditDistance {
  import opened Text

  function Min(x: nat, y: nat): nat { if x <= y then x else y }

  function Min3(x: nat, y: nat, z: nat): nat { Min(Min(x, y), z) }

  function Init(s: string): string
    requires |s| > 0
  {
    s[..|s| - 1]
  }

  function Last(s: string): char
    requires |s| > 0
  {
    s[|s| - 1]
  }

  function Cost(x: char, y: char): nat { if x == y then 0 else 1 }

  /** The edit distance between `a` and `b`: the fewest single-character
      deletions, insertions and substitutions turning `a` into `b`, written as
      the usual recursion on the last characters. */
  function Dist(a: string, b: string): nat
    decreases |a| + |b|
  {
    if |a| == 0 then |b|
    else if |b| == 0 then |a|
    else Min3(Dist(Init(a), b) + 1, Dist(a, Init(b)) + 1,
              Dist(Init(a), Init(b)) + Cost(Last(a), Last(b)))
  }

  // ---------------------------------------------------------------------------
  // Metric properties
  // ---------------------------------------------------------------------------

  /** A word is at distance 0 from itself, and the distance to or from the
      empty word is the other word's length. */
  lemma {:induction false} DistBasics(a: string)
    ensures Dist(a, a) == 0
    ensures Dist(a, "") == |a| && Dist("", a) == |a|
  {
    if |a| > 0 {
      DistBasics(Init(a));
    }
  }

  lemma {:induction false} DistSymmetric(a: string, b: string)
    ensures Dist(a, b) == Dist(b, a)
    decreases |a| + |b|
  {
    if |a| > 0 && |b| > 0 {
      DistSymmetric(Init(a), b);
      DistSymmetric(a, Init(b));
      DistSymmetric(Init(a), Init(b));
    }
  }

  /** The distance is at least the difference in length and at most the sum
      of the lengths. */
  lemma {:induction false} DistLengthBounds(a: string, b: string)
    ensures Dist(a, b) >= |a| - |b| && Dist(a, b) >= |b| - |a|
    ensures Dist(a, b) <= |a| + |b|
    decreases |a| + |b|
  {
    if |a| > 0 && |b| > 0 {
      DistLengthBounds(Init(a), b);
      DistLengthBounds(a, Init(b));
      DistLengthBounds(Init(a), Init(b));
    }
  }

  /** The triangle inequality, by induction on the three lengths: take the
      case of the recursion that realises each of `Dist(a, b)` and
      `Dist(b, c)` and pair it with a step of `Dist(a, c)`. */
  lemma {:induction false} Triangle(a: string, b: string, c: string)
    ensures Dist(a, c) <= Dist(a, b) + Dist(b, c)
    decreases |a| + |b| + |c|
  {
    if |a| == 0 {
      DistLengthBounds(b, c);
    } else if |b| == 0 {
      DistLengthBounds(a, c);
    } else if |c| == 0 {
      DistLengthBounds(a, b);
    } else {
      var a', b', c' := Init(a), Init(b), Init(c);
      var ab, bc := Dist(a, b), Dist(b, c);
      if ab == Dist(a', b) + 1 {
        Triangle(a', b, c);
      } else if bc == Dist(b, c') + 1 {
        Triangle(a, b, c');
      } else if ab == Dist(a, b') + 1 && bc == Dist(b', c) + 1 {
        Triangle(a, b', c);
      } else if ab == Dist(a, b') + 1 {
        Triangle(a, b', c');
      } else if bc == Dist(b', c) + 1 {
        Triangle(a', b', c);
      } else {
        Triangle(a', b', c');
      }
    }
  }

  /** Dropping the last character of a word moves it by at most one. */
  lemma DropLastStep(s: string)
    requires |s| > 0
    ensures Dist(s, Init(s)) <= 1 && Dist(Init(s), s) <= 1
  {
    DistBasics(Init(s));
    DistSymmetric(s, Init(s));
  }

  /** When the last characters agree, the diagonal case alone gives the
      distance: this is the shortcut `new_cost = last_cost` in the loop. */
  lemma EqualLastChars(a: string, b: string)
    requires |a| > 0 && |b| > 0 && Last(a) == Last(b)
    ensures Dist(a, b) == Dist(Init(a), Init(b))
  {
    Triangle(Init(a), b, Init(b));
    DropLastStep(b);
    Triangle(Init(a), a, Init(b));
    DropLastStep(a);
  }

  // ---------------------------------------------------------------------------
  // The single-row loop
  // ---------------------------------------------------------------------------

  /** One cell of the table: the cost the loop computes for the prefixes
      `cur` of `a` (ending in `ca`) and `b[..j+1]` from its three neighbours. */
  lemma CellStep(pre: string, ca: char, b: string, j: nat)
    requires j < |b|
    ensures Dist(pre + [ca], b[..j + 1]) ==
      if ca == b[j] then Dist(pre, b[..j])
      else 1 + Min(Min(Dist(pre, b[..j]), Dist(pre + [ca], b[..j])), Dist(pre, b[..j + 1]))
  {
    var a1, b1 := pre + [ca], b[..j + 1];
    assert Init(a1) == pre && Last(a1) == ca;
    assert Init(b1) == b[..j] && Last(b1) == b[j];
    if ca == b[j] {
      EqualLastChars(a1, b1);
    }
  }

  /** `row[k]` holds the distance from `s` to `b[..k]` for `lo <= k <= hi`. */
  ghost predicate RowHolds(row: seq<nat>, s: string, b: string, lo: nat, hi: nat)
    requires hi < |row| && hi <= |b|
  {
    forall k :: lo <= k <= hi ==> row[k] == Dist(s, b[..k])
  }

  /** One pass of the outer loop of `levenshtein`: turns the row for the
      prefix `pre` of `a` into the row for `pre + [ca]`, leaving entries past
      `|b|` alone. */
  method NextRow(pre: string, ca: char, b: string, costs: seq<nat>) returns (next: seq<nat>)
    requires |costs| > |b|
    requires RowHolds(costs, pre, b, 0, |b|)
    ensures |next| == |costs|
    ensures RowHolds(next, pre + [ca], b, 0, |b|)
    ensures next[|b| + 1..] == costs[|b| + 1..]
  {
    var cur := pre + [ca];
    var lastCost := |pre|;
    DistBasics(pre);
    DistBasics(cur);
    assert b[..0] == "";
    next := costs[0 := |pre| + 1];
    var j := 0;
    while j < |b|
      invariant 0 <= j <= |b|
      invariant |next| == |costs|
      invariant lastCost == Dist(pre, b[..j])
      invariant RowHolds(next, cur, b, 0, j)
      invariant RowHolds(next, pre, b, j + 1, |b|)
      invariant next[|b| + 1..] == costs[|b| + 1..]
    {
      var cb := b[j];
      var newCost := if ca == cb then lastCost else 1 + Min(Min(lastCost, next[j]), next[j + 1]);
      CellStep(pre, ca, b, j);
      assert newCost == Dist(cur, b[..j + 1]);
      lastCost := next[j + 1];
      next := next[j + 1 := newCost];
      j := j + 1;
    }
  }

  /** The dynamic-programming table of `levenshtein`, with the row `costs`
      allocated `width + 1` entries wide while the loop walks only the `|b|`
      characters of `b`, and the answer read from `costs[width]`. With
      `width == |b|` it is the edit distance; with a wider row the last entry
      is never written and keeps its initial value `width`. */
  method DistanceTable(a: string, b: string, width: nat) returns (d: nat)
    requires width >= |b|
    ensures width == |b| ==> d == Dist(a, b)
    ensures width > |b| ==> d == width
  {
    var costs: seq<nat> := seq(width + 1, k => k);
    forall k | 0 <= k <= |b|
      ensures costs[k] == Dist(a[..0], b[..k])
    {
      DistBasics(b[..k]);
    }
    var i := 0;
    while i < |a|
      invariant 0 <= i <= |a|
      invariant |costs| == width + 1
      invariant RowHolds(costs, a[..i], b, 0, |b|)
      invariant forall k :: |b| < k <= width ==> costs[k] == k
    {
      var ca := a[i];
      assert a[..i + 1] == a[..i] + [ca];
      costs := NextRow(a[..i], ca, b, costs);
      i := i + 1;
    }
    assert a[..|a|] == a && b[..|b|] == b;
    d := costs[width];
  }

  /** `levenshtein` as written: the row is sized by `b.len()`, the UTF-8 byte
      length, but filled per character. For ASCII `b` it is the edit distance;
      as soon as `b` holds a multi-byte character the answer is the byte length
      of `b`, whatever `a` is. */
  method LevenshteinAsWritten(a: string, b: string) returns (d: nat)
    ensures IsAscii(b) ==> d == Dist(a, b)
    ensures !IsAscii(b) ==> d == Utf8Length(b)
  {
    d := DistanceTable(a, b, Utf8Length(b));
  }

  /** The input that shows the sizing mismatch: "é" is one character but two
      bytes, so the loop returns 2 for a pair of identical words. */
  lemma MultiByteMismatch()
    ensures var w := "\U{E9}"; !IsAscii(w) && Utf8Length(w) == 2 && Dist(w, w) == 0
  {
    var w := "\U{E9}";
    assert w[1..] == "";
    DistBasics(w);
  }

  /** `levenshtein` with the row sized by the character count of `b`: the
      edit distance for every pair of words. */
  method Levenshtein(a: string, b: string) returns (d: nat)
    ensures d == Dist(a, b)
  {
    d := DistanceTable(a, b, |b|);
  }
}
