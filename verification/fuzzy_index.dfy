/** The BK-tree word index of src/fuzzy_index.rs: every node holds a word, and
    a child hangs under the key `levenshtein(new_word, parent.word)`. Insertion,
    range search pruned by the triangle inequality, and predicate search. */
module FuzzyIndex {
  import opened Wrappers
  import opened Ints
  import opened Text
  import opened EditDistance

  /** A tree node and its children. The source keeps the children in a
      `HashMap<u32, Node>`; here they are a list of edges with distinct keys,
      kept in insertion order. */
  datatype Node = Node(word: string, children: seq<Edge>)

  datatype Edge = Edge(key: nat, child: Node)

  datatype MatchMode = Prefix | Suffix | Substring | Exact

  /** `FuzzyIndex { root: Option<Node> }`; empty until the first word. */
  datatype Index = Index(root: Option<Node>)

  function Leaf(w: string): Node { Node(w, []) }

  // ---------------------------------------------------------------------------
  // Contents and the metric invariant
  // ---------------------------------------------------------------------------

  /** Every word stored in the subtree, node before children (pre-order). */
  function Words(n: Node): seq<string>
    decreases n
  {
    [n.word] + EdgesWords(n.children)
  }

  function EdgesWords(es: seq<Edge>): seq<string>
    decreases es
  {
    if |es| == 0 then []
    else
      assert es[0] in es && es[0].child < es[0];
      Words(es[0].child) + EdgesWords(es[1..])
  }

  function IndexWords(ix: Index): seq<string> {
    match ix.root
    case None => []
    case Some(n) => Words(n)
  }

  function Keys(es: seq<Edge>): set<nat> {
    if |es| == 0 then {} else {es[0].key} + Keys(es[1..])
  }

  /** The BK-tree invariant: under every node, the child keys are distinct, and
      every word in the subtree below key `k` is at edit distance exactly `k`
      from the node's word. */
  ghost predicate Valid(n: Node)
    decreases n
  {
    ValidEdges(n.word, n.children)
  }

  ghost predicate ValidEdges(parent: string, es: seq<Edge>)
    decreases es
  {
    |es| == 0 ||
    (assert es[0] in es && es[0].child < es[0];
     && es[0].key !in Keys(es[1..])
     && (forall w :: w in Words(es[0].child) ==> Dist(w, parent) == es[0].key)
     && Valid(es[0].child)
     && ValidEdges(parent, es[1..]))
  }

  ghost predicate ValidIndex(ix: Index) {
    ix.root.Some? ==> Valid(ix.root.value)
  }

  /** The invariant as stated for direct children: the word of the child under
      key `k` is at distance `k` from its parent, and no key repeats. */
  lemma {:induction false} MetricInvariant(parent: string, es: seq<Edge>)
    requires ValidEdges(parent, es)
    ensures forall i :: 0 <= i < |es| ==> Dist(es[i].child.word, parent) == es[i].key
    ensures forall i, j :: 0 <= i < j < |es| ==> es[i].key != es[j].key
  {
    if |es| > 0 {
      MetricInvariant(parent, es[1..]);
      assert es[0].child.word in Words(es[0].child);
      forall j | 0 < j < |es|
        ensures es[0].key != es[j].key
      {
        KeysMember(es[1..], j - 1);
      }
      assert forall i :: 0 < i < |es| ==> es[i] == es[1..][i - 1];
    }
  }

  lemma {:induction false} KeysMember(es: seq<Edge>, i: nat)
    requires i < |es|
    ensures es[i].key in Keys(es)
  {
    if i > 0 {
      KeysMember(es[1..], i - 1);
    }
  }

  // ---------------------------------------------------------------------------
  // Insertion (`Node::insert`, `FuzzyIndex::add_word`, `add_words`)
  // ---------------------------------------------------------------------------

  /** `Node::insert`: descend into the child keyed by the distance to this
      node's word, or hang a new leaf there. A word equal to the node's word
      has distance 0 and goes into the key-0 bucket; nothing is rejected. */
  function Insert(n: Node, w: string): Node
    decreases n
  {
    Node(n.word, InsertEdges(n.children, Dist(w, n.word), w))
  }

  function InsertEdges(es: seq<Edge>, d: nat, w: string): seq<Edge>
    decreases es
  {
    if |es| == 0 then [Edge(d, Leaf(w))]
    else if es[0].key == d then
      assert es[0] in es && es[0].child < es[0];
      [Edge(d, Insert(es[0].child, w))] + es[1..]
    else [es[0]] + InsertEdges(es[1..], d, w)
  }

  lemma {:induction false} EdgesWordsAppend(xs: seq<Edge>, ys: seq<Edge>)
    ensures EdgesWords(xs + ys) == EdgesWords(xs) + EdgesWords(ys)
  {
    if |xs| > 0 {
      assert (xs + ys)[1..] == xs[1..] + ys;
      assert (xs + ys)[0] == xs[0];
      EdgesWordsAppend(xs[1..], ys);
    } else {
      assert xs + ys == ys;
    }
  }

  /** Insertion adds exactly the new word to the stored multiset. */
  lemma {:induction false} InsertWords(n: Node, w: string)
    ensures multiset(Words(Insert(n, w))) == multiset(Words(n)) + multiset{w}
    decreases n, 1
  {
    InsertEdgesWords(n.children, Dist(w, n.word), w);
  }

  lemma {:induction false} InsertEdgesWords(es: seq<Edge>, d: nat, w: string)
    ensures multiset(EdgesWords(InsertEdges(es, d, w))) == multiset(EdgesWords(es)) + multiset{w}
    decreases es, 0
  {
    if |es| == 0 {
      assert EdgesWords([Edge(d, Leaf(w))]) == [w];
    } else {
      assert es[0] in es && es[0].child < es[0];
      if es[0].key == d {
        InsertWords(es[0].child, w);
        EdgesWordsAppend([Edge(d, Insert(es[0].child, w))], es[1..]);
        assert [Edge(d, Insert(es[0].child, w))][1..] == [];
      } else {
        InsertEdgesWords(es[1..], d, w);
        assert ([es[0]] + InsertEdges(es[1..], d, w))[1..] == InsertEdges(es[1..], d, w);
      }
    }
  }

  /** Insertion adds the key `d` and keeps every other key. */
  lemma {:induction false} InsertEdgesKeys(es: seq<Edge>, d: nat, w: string)
    ensures Keys(InsertEdges(es, d, w)) == Keys(es) + {d}
  {
    if |es| > 0 && es[0].key != d {
      InsertEdgesKeys(es[1..], d, w);
      assert ([es[0]] + InsertEdges(es[1..], d, w))[1..] == InsertEdges(es[1..], d, w);
    } else if |es| > 0 {
      assert ([Edge(d, Insert(es[0].child, w))] + es[1..])[1..] == es[1..];
    }
  }

  /** Insertion keeps the BK-tree invariant. */
  lemma {:induction false} InsertValid(n: Node, w: string)
    ensures Valid(n) ==> Valid(Insert(n, w))
    decreases n, 1
  {
    if Valid(n) {
      InsertEdgesValid(n.word, n.children, w);
    }
  }

  lemma {:induction false} InsertEdgesValid(parent: string, es: seq<Edge>, w: string)
    requires ValidEdges(parent, es)
    ensures ValidEdges(parent, InsertEdges(es, Dist(w, parent), w))
    decreases es, 0
  {
    var d := Dist(w, parent);
    if |es| == 0 {
      assert Words(Leaf(w)) == [w];
    } else {
      assert es[0] in es && es[0].child < es[0];
      if es[0].key == d {
        var c := Insert(es[0].child, w);
        InsertValid(es[0].child, w);
        InsertWords(es[0].child, w);
        assert forall x :: x in Words(c) ==> x in multiset(Words(es[0].child)) + multiset{w};
        var r := [Edge(d, c)] + es[1..];
        assert r[1..] == es[1..];
      } else {
        InsertEdgesValid(parent, es[1..], w);
        InsertEdgesKeys(es[1..], d, w);
        var r := [es[0]] + InsertEdges(es[1..], d, w);
        assert r[1..] == InsertEdges(es[1..], d, w);
      }
    }
  }

  /** `after` keeps everything `before` had: the same word at every old node and
      the same key, at the same position, on every old edge. */
  ghost predicate Extends(before: Node, after: Node)
    decreases before
  {
    before.word == after.word && EdgesExtend(before.children, after.children)
  }

  ghost predicate EdgesExtend(before: seq<Edge>, after: seq<Edge>)
    decreases before
  {
    |before| <= |after| &&
    (|before| == 0 ||
     (assert before[0] in before && before[0].child < before[0];
      before[0].key == after[0].key && Extends(before[0].child, after[0].child)
      && EdgesExtend(before[1..], after[1..])))
  }

  lemma {:induction false} ExtendsReflexive(n: Node)
    ensures Extends(n, n)
    decreases n, 1
  {
    EdgesExtendReflexive(n.children);
  }

  lemma {:induction false} EdgesExtendReflexive(es: seq<Edge>)
    ensures EdgesExtend(es, es)
    decreases es, 0
  {
    if |es| > 0 {
      assert es[0] in es && es[0].child < es[0];
      ExtendsReflexive(es[0].child);
      EdgesExtendReflexive(es[1..]);
    }
  }

  /** Insertion changes no stored word and no existing key. */
  lemma {:induction false} InsertExtends(n: Node, w: string)
    ensures Extends(n, Insert(n, w))
    decreases n, 1
  {
    InsertEdgesExtend(n.children, Dist(w, n.word), w);
  }

  lemma {:induction false} InsertEdgesExtend(es: seq<Edge>, d: nat, w: string)
    ensures EdgesExtend(es, InsertEdges(es, d, w))
    decreases es, 0
  {
    if |es| > 0 {
      assert es[0] in es && es[0].child < es[0];
      if es[0].key == d {
        InsertExtends(es[0].child, w);
        EdgesExtendReflexive(es[1..]);
        assert ([Edge(d, Insert(es[0].child, w))] + es[1..])[1..] == es[1..];
      } else {
        InsertEdgesExtend(es[1..], d, w);
        ExtendsReflexive(es[0].child);
        assert ([es[0]] + InsertEdges(es[1..], d, w))[1..] == InsertEdges(es[1..], d, w);
      }
    }
  }

  /** Inserting the word a node already holds goes into that node's key-0
      bucket. */
  lemma InsertDuplicate(n: Node)
    ensures Insert(n, n.word) == Node(n.word, InsertEdges(n.children, 0, n.word))
  {
    DistBasics(n.word);
  }

  /** `FuzzyIndex::new` */
  function NewIndex(): (ix: Index)
    ensures IndexWords(ix) == [] && ValidIndex(ix)
  {
    Index(None)
  }

  /** `FuzzyIndex::add_word`: an empty index makes the word its root; otherwise
      the word is inserted below the root. Exactly one copy of the word joins
      the index, nothing stored before changes, and the invariant is kept. */
  function AddWord(ix: Index, w: string): (r: Index)
    ensures r.root.Some?
    ensures ix.root.None? ==> r.root.value == Leaf(w)
    ensures multiset(IndexWords(r)) == multiset(IndexWords(ix)) + multiset{w}
    ensures ix.root.Some? ==> Extends(ix.root.value, r.root.value)
    ensures ValidIndex(ix) ==> ValidIndex(r)
  {
    match ix.root
    case None =>
      assert Words(Leaf(w)) == [w];
      Index(Some(Leaf(w)))
    case Some(n) =>
      InsertWords(n, w);
      InsertExtends(n, w);
      InsertValid(n, w);
      Index(Some(Insert(n, w)))
  }

  /** The reference for `add_words`: `add_word` applied to each word in turn. */
  function AddEach(ix: Index, ws: seq<string>): Index
  {
    if |ws| == 0 then ix else AddWord(AddEach(ix, ws[..|ws| - 1]), ws[|ws| - 1])
  }

  /** One turn of the `add_words` loop. */
  lemma AddEachSnoc(ix: Index, ws: seq<string>, i: nat)
    requires i < |ws|
    ensures AddWord(AddEach(ix, ws[..i]), ws[i]) == AddEach(ix, ws[..i + 1])
  {
    assert ws[..i + 1][..i] == ws[..i];
  }

  lemma AddWordsCount(before: multiset<string>, r: Index, ws: seq<string>, i: nat)
    requires i < |ws|
    requires multiset(IndexWords(r)) == before + multiset(ws[..i])
    ensures multiset(IndexWords(AddWord(r, ws[i]))) == before + multiset(ws[..i + 1])
  {
    assert ws[..i + 1] == ws[..i] + [ws[i]];
  }

  /** `FuzzyIndex::add_words`: the loop over the words, equal to adding them
      one by one in order, so the index gains exactly the multiset of `ws`. */
  method AddWords(ix: Index, ws: seq<string>) returns (r: Index)
    ensures r == AddEach(ix, ws)
    ensures multiset(IndexWords(r)) == multiset(IndexWords(ix)) + multiset(ws)
    ensures ValidIndex(ix) ==> ValidIndex(r)
  {
    r := ix;
    var i := 0;
    while i < |ws|
      invariant 0 <= i <= |ws|
      invariant r == AddEach(ix, ws[..i])
      invariant multiset(IndexWords(r)) == multiset(IndexWords(ix)) + multiset(ws[..i])
      invariant ValidIndex(ix) ==> ValidIndex(r)
    {
      AddEachSnoc(ix, ws, i);
      AddWordsCount(multiset(IndexWords(ix)), r, ws, i);
      r, i := AddWord(r, ws[i]), i + 1;
    }
    assert ws[..|ws|] == ws;
  }

  // ---------------------------------------------------------------------------
  // Brute-force references for the two searches
  // ---------------------------------------------------------------------------

  /** The words of `ws` within edit distance `m` of the query, in order. */
  function WithinDist(ws: seq<string>, q: string, m: nat): seq<string>
  {
    if |ws| == 0 then []
    else (if Dist(q, ws[0]) <= m then [ws[0]] else []) + WithinDist(ws[1..], q, m)
  }

  lemma {:induction false} WithinDistAppend(xs: seq<string>, ys: seq<string>, q: string, m: nat)
    ensures WithinDist(xs + ys, q, m) == WithinDist(xs, q, m) + WithinDist(ys, q, m)
  {
    if |xs| > 0 {
      assert (xs + ys)[1..] == xs[1..] + ys;
      assert (xs + ys)[0] == xs[0];
      WithinDistAppend(xs[1..], ys, q, m);
    } else {
      assert xs + ys == ys;
    }
  }

  lemma {:induction false} WithinDistNone(ws: seq<string>, q: string, m: nat)
    requires forall w :: w in ws ==> Dist(q, w) > m
    ensures WithinDist(ws, q, m) == []
  {
    if |ws| > 0 {
      WithinDistNone(ws[1..], q, m);
    }
  }

  /** A word is found by the reference range search exactly when it is one of
      the words and within range. */
  lemma {:induction false} InWithinDist(ws: seq<string>, q: string, m: nat, w: string)
    ensures w in WithinDist(ws, q, m) <==> w in ws && Dist(q, w) <= m
  {
    if |ws| > 0 {
      InWithinDist(ws[1..], q, m, w);
      assert w in ws <==> w == ws[0] || w in ws[1..];
    }
  }

  /** The string predicate of each match mode (`starts_with`, `ends_with`,
      `contains`, `==`), with the stored word as haystack. */
  predicate Matches(w: string, q: string, mode: MatchMode) {
    match mode
    case Prefix => StartsWith(w, q)
    case Suffix => EndsWith(w, q)
    case Substring => Contains(w, q)
    case Exact => w == q
  }

  /** The words of `ws` the mode's predicate accepts, in order. */
  function Matching(ws: seq<string>, q: string, mode: MatchMode): seq<string>
  {
    if |ws| == 0 then []
    else (if Matches(ws[0], q, mode) then [ws[0]] else []) + Matching(ws[1..], q, mode)
  }

  lemma {:induction false} MatchingAppend(xs: seq<string>, ys: seq<string>, q: string, mode: MatchMode)
    ensures Matching(xs + ys, q, mode) == Matching(xs, q, mode) + Matching(ys, q, mode)
  {
    if |xs| > 0 {
      assert (xs + ys)[1..] == xs[1..] + ys;
      assert (xs + ys)[0] == xs[0];
      MatchingAppend(xs[1..], ys, q, mode);
    } else {
      assert xs + ys == ys;
    }
  }

  /** A word is found by the reference predicate search exactly when it is one
      of the words and the mode's predicate accepts it. */
  lemma {:induction false} InMatching(ws: seq<string>, q: string, mode: MatchMode, w: string)
    ensures w in Matching(ws, q, mode) <==> w in ws && Matches(w, q, mode)
  {
    if |ws| > 0 {
      InMatching(ws[1..], q, mode, w);
      assert w in ws <==> w == ws[0] || w in ws[1..];
    }
  }

  // ---------------------------------------------------------------------------
  // Range search (`Node::search_fuzzy`, `FuzzyIndex::search_fuzzy`)
  // ---------------------------------------------------------------------------

  /** The pruning window `[d.saturating_sub(max), d + max]` around the
      query's distance `d` to the node's word. */
  function Window(d: nat, m: nat): (nat, nat)
  {
    (SaturatingSub(d, m), d + m)
  }

  /** The window as the source computes it: both bounds go through
      `usize` saturation and are then cast `as u32`, keeping only the low 32
      bits. */
  function WindowAsWritten(d: nat, m: nat): (nat, nat)
  {
    (SaturatingSub(d, m) % TWO_TO_THE_32, SaturatingAdd(d, m) % TWO_TO_THE_32)
  }

  /** The traversal of `Node::search_fuzzy`, with the window computation as a
      parameter: emit the node's word when it is within `m` of the query,
      then visit the children whose key lies in the window. */
  function SearchFuzzyWith(n: Node, q: string, m: nat, window: (nat, nat) -> (nat, nat)): (r: seq<string>)
    ensures forall w :: w in r ==> Dist(q, w) <= m
    decreases n
  {
    var d := Dist(q, n.word);
    (if d <= m then [n.word] else []) + SearchFuzzyEdges(n.children, q, m, window(d, m), window)
  }

  function SearchFuzzyEdges(es: seq<Edge>, q: string, m: nat, win: (nat, nat),
                            window: (nat, nat) -> (nat, nat)): (r: seq<string>)
    ensures forall w :: w in r ==> Dist(q, w) <= m
    decreases es
  {
    if |es| == 0 then []
    else
      assert es[0] in es && es[0].child < es[0];
      (if win.0 <= es[0].key <= win.1 then SearchFuzzyWith(es[0].child, q, m, window) else [])
      + SearchFuzzyEdges(es[1..], q, m, win, window)
  }

  /** A pruned subtree holds no word within range: every word below key `k`
      is at distance `k` from the parent, and the triangle inequality puts any
      word within `m` of the query inside the window. */
  lemma PrunedSubtreeEmpty(parent: string, q: string, m: nat, key: nat, ws: seq<string>)
    requires forall w :: w in ws ==> Dist(w, parent) == key
    requires !(Window(Dist(q, parent), m).0 <= key <= Window(Dist(q, parent), m).1)
    ensures WithinDist(ws, q, m) == []
  {
    forall w | w in ws
      ensures Dist(q, w) > m
    {
      if Dist(q, w) <= m {
        Triangle(w, q, parent);
        DistSymmetric(w, q);
        Triangle(q, w, parent);
      }
    }
    WithinDistNone(ws, q, m);
  }

  /** On a valid tree the pruned traversal returns exactly the brute-force
      answer: no stored word within range is lost, none outside is kept. */
  lemma {:induction false} SearchFuzzyComplete(n: Node, q: string, m: nat)
    ensures Valid(n) ==> SearchFuzzyWith(n, q, m, Window) == WithinDist(Words(n), q, m)
    decreases n, 1
  {
    if Valid(n) {
      SearchFuzzyEdgesComplete(n.word, n.children, q, m);
      WithinDistAppend([n.word], EdgesWords(n.children), q, m);
    }
  }

  lemma {:induction false} SearchFuzzyEdgesComplete(parent: string, es: seq<Edge>, q: string, m: nat)
    requires ValidEdges(parent, es)
    ensures SearchFuzzyEdges(es, q, m, Window(Dist(q, parent), m), Window) == WithinDist(EdgesWords(es), q, m)
    decreases es, 0
  {
    if |es| > 0 {
      assert es[0] in es && es[0].child < es[0];
      var win := Window(Dist(q, parent), m);
      SearchFuzzyEdgesComplete(parent, es[1..], q, m);
      WithinDistAppend(Words(es[0].child), EdgesWords(es[1..]), q, m);
      if win.0 <= es[0].key <= win.1 {
        SearchFuzzyComplete(es[0].child, q, m);
      } else {
        PrunedSubtreeEmpty(parent, q, m, es[0].key, Words(es[0].child));
      }
    }
  }

  /** `FuzzyIndex::search_fuzzy`: every word returned is within `m` of the
      query, an empty index returns nothing, and on a valid index the result
      is exactly the stored words within `m` (with repeats for repeated
      insertions). */
  function SearchFuzzy(ix: Index, q: string, m: nat): (r: seq<string>)
    ensures forall w :: w in r ==> Dist(q, w) <= m
    ensures ix.root.None? ==> r == []
    ensures ValidIndex(ix) ==> r == WithinDist(IndexWords(ix), q, m)
  {
    match ix.root
    case None => []
    case Some(n) =>
      SearchFuzzyComplete(n, q, m);
      SearchFuzzyWith(n, q, m, Window)
  }

  /** The input that shows the `as u32` cast losing matches: the index holds
      "a" and "b" (at distance 1), and a query for "a" with maximum distance
      2^32 (the `/find` command accepts it) gets the window [0, 0], so "b" is
      pruned although it is within range. */
  lemma WindowTruncationLosesMatch()
    ensures var ix := AddWord(AddWord(NewIndex(), "a"), "b");
            && ValidIndex(ix)
            && IndexWords(ix) == ["a", "b"]
            && SearchFuzzyWith(ix.root.value, "a", TWO_TO_THE_32, WindowAsWritten) == ["a"]
            && SearchFuzzy(ix, "a", TWO_TO_THE_32) == ["a", "b"]
  {
    var ix := AddWord(AddWord(NewIndex(), "a"), "b");
    DistBasics("a");
    assert Dist("b", "a") == 1 by {
      assert Init("b") == "" && Init("a") == "";
    }
    assert Dist("a", "b") == 1 by {
      assert Init("b") == "" && Init("a") == "";
    }
    var root := ix.root.value;
    assert root == Node("a", [Edge(1, Leaf("b"))]);
    assert IndexWords(ix) == ["a", "b"];
    assert WindowAsWritten(0, TWO_TO_THE_32) == (0, 0);
  }

  // ---------------------------------------------------------------------------
  // Predicate search (`Node::search_match`, `FuzzyIndex::search_match`)
  // ---------------------------------------------------------------------------

  /** `Node::search_match`: an unpruned pre-order traversal. */
  function SearchMatchNode(n: Node, q: string, mode: MatchMode): seq<string>
    decreases n
  {
    (if Matches(n.word, q, mode) then [n.word] else []) + SearchMatchEdges(n.children, q, mode)
  }

  function SearchMatchEdges(es: seq<Edge>, q: string, mode: MatchMode): seq<string>
    decreases es
  {
    if |es| == 0 then []
    else
      assert es[0] in es && es[0].child < es[0];
      SearchMatchNode(es[0].child, q, mode) + SearchMatchEdges(es[1..], q, mode)
  }

  lemma {:induction false} SearchMatchExact(n: Node, q: string, mode: MatchMode)
    ensures SearchMatchNode(n, q, mode) == Matching(Words(n), q, mode)
    decreases n, 1
  {
    SearchMatchEdgesExact(n.children, q, mode);
    MatchingAppend([n.word], EdgesWords(n.children), q, mode);
  }

  lemma {:induction false} SearchMatchEdgesExact(es: seq<Edge>, q: string, mode: MatchMode)
    ensures SearchMatchEdges(es, q, mode) == Matching(EdgesWords(es), q, mode)
    decreases es, 0
  {
    if |es| > 0 {
      assert es[0] in es && es[0].child < es[0];
      SearchMatchExact(es[0].child, q, mode);
      SearchMatchEdgesExact(es[1..], q, mode);
      MatchingAppend(Words(es[0].child), EdgesWords(es[1..]), q, mode);
    }
  }

  /** `FuzzyIndex::search_match`: exactly the stored words (with repeats) that
      satisfy the mode's predicate; valid or not, an empty index gives none. */
  function SearchMatch(ix: Index, q: string, mode: MatchMode): (r: seq<string>)
    ensures r == Matching(IndexWords(ix), q, mode)
  {
    match ix.root
    case None => []
    case Some(n) => SearchMatchExact(n, q, mode); SearchMatchNode(n, q, mode)
  }
}
