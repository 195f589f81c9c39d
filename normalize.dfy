/** Morphological normalisation of a dependency tree: `normalizeWord` and the post-order
    walk `normalize`. */
module Normalization {
  import opened Wrappers
  import opened Words
  import opened Tree
  import opened Lexicon

  /** A part-of-speech tag is present, non-empty, and begins with `c`. */
  predicate TagStartsWith(pos: Option<string>, c: char) {
    pos.Some? && |pos.value| > 0 && pos.value[0] == c
  }

  /** `normalizeWord`: a noun becomes its noun lemma, a verb the noun derived from its verb
      lemma; any other word, or one without a tag, is left alone. */
  function NormalizeWord(w: Word, lex: Lexicon): (r: Word)
    ensures r.index == w.index && r.pos == w.pos
    ensures TagStartsWith(w.pos, 'N') ==> r.word == lex.lemmatize(w.word, Noun)
    ensures TagStartsWith(w.pos, 'V') ==> r.word == NounifyExcept(lex.lemmatize(w.word, Verb), lex)
    ensures !TagStartsWith(w.pos, 'N') && !TagStartsWith(w.pos, 'V') ==> r == w
  {
    if TagStartsWith(w.pos, 'N') then w.(word := lex.lemmatize(w.word, Noun))
    else if TagStartsWith(w.pos, 'V') then w.(word := NounifyExcept(lex.lemmatize(w.word, Verb), lex))
    else w
  }

  /** `normalizeWord` applied to each word of a list. */
  function NormalizeWords(ws: seq<Word>, lex: Lexicon): (r: seq<Word>)
    ensures |r| == |ws|
    ensures forall k :: 0 <= k < |ws| ==> r[k] == NormalizeWord(ws[k], lex)
  {
    if ws == [] then []
    else NormalizeWords(ws[..|ws| - 1], lex) + [NormalizeWord(ws[|ws| - 1], lex)]
  }

  /** The words once the first `j` of them have been normalised. */
  function PartlyNormalized(ws: seq<Word>, j: nat, lex: Lexicon): seq<Word>
    requires j <= |ws|
  {
    NormalizeWords(ws[..j], lex) + ws[j..]
  }

  lemma PartlyNormalizedStep(ws: seq<Word>, j: nat, lex: Lexicon)
    requires j < |ws|
    ensures PartlyNormalized(ws, j + 1, lex) == PartlyNormalized(ws, j, lex)[j := NormalizeWord(ws[j], lex)]
  {
    var a := PartlyNormalized(ws, j + 1, lex);
    var b := PartlyNormalized(ws, j, lex)[j := NormalizeWord(ws[j], lex)];
    assert |a| == |b|;
    forall k | 0 <= k < |a| ensures a[k] == b[k] {
      if k < j {
        assert a[k] == NormalizeWords(ws[..j + 1], lex)[k] == NormalizeWord(ws[k], lex);
      } else if k > j {
        assert a[k] == ws[k];
      }
    }
  }

  /** `a` differs from `b` at most in the text of its words. */
  ghost predicate SameButWords(a: Node, b: Node) {
    && a == b.(wordList := a.wordList)
    && (a.wordList.Some? <==> b.wordList.Some?)
    && (a.wordList.Some? ==>
          && |a.wordList.value| == |b.wordList.value|
          && forall k :: 0 <= k < |a.wordList.value| ==>
               a.wordList.value[k].index == b.wordList.value[k].index &&
               a.wordList.value[k].pos == b.wordList.value[k].pos)
  }

  /** What normalisation does to one node: its words are normalised when it carries no
      named-entity tag; a tagged node is left exactly as it is. */
  function NormalizeNode(n: Node, lex: Lexicon): (r: Node)
    ensures SameButWords(r, n)
    ensures n.namedEntityTag != Undef ==> r == n
    ensures n.namedEntityTag == Undef && n.wordList.Some? ==>
      forall k :: 0 <= k < |n.wordList.value| ==> r.wordList.value[k] == NormalizeWord(n.wordList.value[k], lex)
  {
    if n.namedEntityTag == Undef && n.wordList.Some? then
      n.(wordList := Some(NormalizeWords(n.wordList.value, lex)))
    else n
  }

  /** The arena after `normalize(id)`: first each child in turn, then the node itself. */
  function NormalizeAt(nodes: seq<Node>, rank: seq<nat>, id: NodeId, lex: Lexicon): (r: seq<Node>)
    requires Ranked(Children(nodes), rank) && id < |nodes|
    ensures |r| == |nodes| && Children(r) == Children(nodes)
    ensures forall x :: 0 <= x < |nodes| ==> SameButWords(r[x], nodes[x])
    ensures forall x :: 0 <= x < |nodes| && x !in Subtree(Children(nodes), rank, id) ==> r[x] == nodes[x]
    ensures forall x :: 0 <= x < |nodes| && nodes[x].namedEntityTag != Undef ==> r[x] == nodes[x]
    decreases rank[id], 1, 0
  {
    var after := NormalizeAll(nodes, rank, nodes[id].child, lex, rank[id]);
    var r := after[id := NormalizeNode(after[id], lex)];
    ChildrenAgree(r, after);
    r
  }

  /** The arena after `normalize(c)` for each `c` of `cs` in order. */
  function NormalizeAll(nodes: seq<Node>, rank: seq<nat>, cs: seq<NodeId>, lex: Lexicon, bound: nat): (r: seq<Node>)
    requires Ranked(Children(nodes), rank) && RankedBelow(rank, cs, bound)
    ensures |r| == |nodes| && Children(r) == Children(nodes)
    ensures forall x :: 0 <= x < |nodes| ==> SameButWords(r[x], nodes[x])
    ensures forall x :: 0 <= x < |nodes| && x !in Subtrees(Children(nodes), rank, cs, bound) ==> r[x] == nodes[x]
    ensures forall x :: 0 <= x < |nodes| && nodes[x].namedEntityTag != Undef ==> r[x] == nodes[x]
    decreases bound, 0, |cs|
  {
    if cs == [] then nodes
    else
      var prev := NormalizeAll(nodes, rank, cs[..|cs| - 1], lex, bound);
      NormalizeAt(prev, rank, cs[|cs| - 1], lex)
  }

  /** Below `id` the child links form a tree: the subtrees of two different children of a
      node share no node, so no node is reached along two paths. */
  ghost predicate TreeBelow(kids: seq<seq<NodeId>>, rank: seq<nat>, id: NodeId)
    requires Ranked(kids, rank) && id < |kids|
  {
    forall x, i, j :: x in Subtree(kids, rank, id) && x < |kids| && 0 <= i < j < |kids[x]| ==>
      Subtree(kids, rank, kids[x][i]) !! Subtree(kids, rank, kids[x][j])
  }

  /** On a tree, `normalize(id)` normalises every node below `id` exactly once and touches
      nothing else. */
  lemma {:induction false} NormalizeTree(nodes: seq<Node>, rank: seq<nat>, id: NodeId, lex: Lexicon)
    requires Ranked(Children(nodes), rank) && id < |nodes|
    requires TreeBelow(Children(nodes), rank, id)
    ensures forall x :: 0 <= x < |nodes| ==>
      NormalizeAt(nodes, rank, id, lex)[x] ==
        if x in Subtree(Children(nodes), rank, id) then NormalizeNode(nodes[x], lex) else nodes[x]
    decreases rank[id], 1, 0
  {
    var kids := Children(nodes);
    var cs := nodes[id].child;
    forall i | 0 <= i < |cs| ensures TreeBelow(kids, rank, cs[i]) {
      ChildSubtree(kids, rank, id, i);
    }
    NormalizeTreeAll(nodes, rank, cs, lex, rank[id]);
    forall x | x in Subtrees(kids, rank, cs, rank[id]) ensures x != id {
      SubtreesRanks(kids, rank, cs, rank[id], x);
    }
  }

  lemma {:induction false} NormalizeTreeAll(nodes: seq<Node>, rank: seq<nat>, cs: seq<NodeId>, lex: Lexicon, bound: nat)
    requires Ranked(Children(nodes), rank) && RankedBelow(rank, cs, bound)
    requires forall i :: 0 <= i < |cs| ==> TreeBelow(Children(nodes), rank, cs[i])
    requires forall i, j :: 0 <= i < j < |cs| ==>
      Subtree(Children(nodes), rank, cs[i]) !! Subtree(Children(nodes), rank, cs[j])
    ensures forall x :: 0 <= x < |nodes| ==>
      NormalizeAll(nodes, rank, cs, lex, bound)[x] ==
        if x in Subtrees(Children(nodes), rank, cs, bound) then NormalizeNode(nodes[x], lex) else nodes[x]
    decreases bound, 0, |cs|
  {
    if cs != [] {
      var kids := Children(nodes);
      var init := cs[..|cs| - 1];
      var last := cs[|cs| - 1];
      NormalizeTreeAll(nodes, rank, init, lex, bound);
      var prev := NormalizeAll(nodes, rank, init, lex, bound);
      NormalizeTree(prev, rank, last, lex);
      SubtreesDisjoint(kids, rank, init, bound, Subtree(kids, rank, last));
    }
  }

  /** What `normalize` needs so as not to raise: every untagged node it reaches still has
      its word list (iterating the None left by `merge` raises TypeError). */
  ghost predicate Walkable(nodes: seq<Node>, rank: seq<nat>, id: NodeId)
    requires Ranked(Children(nodes), rank) && id < |nodes|
  {
    forall x :: x in Subtree(Children(nodes), rank, id) && x < |nodes| && nodes[x].namedEntityTag == Undef ==>
      nodes[x].wordList.Some?
  }

  /** `normalize(t, lmtzr)`: children first, then, when the node has no named-entity tag,
      each of its words. */
  method Normalize(f: Forest, id: NodeId, lex: Lexicon, ghost rank: seq<nat>)
    requires Ranked(Children(f.nodes), rank) && id < |f.nodes|
    requires Walkable(f.nodes, rank, id)
    modifies f
    ensures f.nodes == NormalizeAt(old(f.nodes), rank, id, lex)
    decreases rank[id], 1
  {
    ghost var kids := Children(f.nodes);
    assert id in Subtree(kids, rank, id);
    NormalizeChildren(f, id, lex, rank);
    if f.nodes[id].namedEntityTag == Undef {
      NormalizeOwnWords(f, id, lex);
    } else {
      assert f.nodes[id := NormalizeNode(f.nodes[id], lex)] == f.nodes;
    }
  }

  /** Visits the children of `id` in list order, normalising each of their subtrees. */
  method NormalizeChildren(f: Forest, id: NodeId, lex: Lexicon, ghost rank: seq<nat>)
    requires Ranked(Children(f.nodes), rank) && id < |f.nodes|
    requires Walkable(f.nodes, rank, id)
    modifies f
    ensures f.nodes == NormalizeAll(old(f.nodes), rank, old(f.nodes)[id].child, lex, rank[id])
    decreases rank[id], 0
  {
    ghost var start := f.nodes;
    ghost var kids := Children(start);
    var cs := f.nodes[id].child;
    assert RankedBelow(rank, cs, rank[id]);
    for i := 0 to |cs|
      invariant RankedBelow(rank, cs[..i], rank[id])
      invariant f.nodes == NormalizeAll(start, rank, cs[..i], lex, rank[id])
      invariant Children(f.nodes) == kids
      invariant forall x :: 0 <= x < |start| ==> SameButWords(f.nodes[x], start[x])
    {
      assert cs[..i + 1][..i] == cs[..i];
      ChildSubtree(kids, rank, id, i);
      Normalize(f, cs[i], lex, rank);
    }
    assert cs[..|cs|] == cs;
  }

  /** Normalises the words of node `id` one after another, rewriting each in place. */
  method NormalizeOwnWords(f: Forest, id: NodeId, lex: Lexicon)
    requires id < |f.nodes| && f.nodes[id].namedEntityTag == Undef && f.nodes[id].wordList.Some?
    modifies f
    ensures f.nodes == old(f.nodes)[id := NormalizeNode(old(f.nodes)[id], lex)]
  {
    ghost var before := f.nodes;
    var ws := f.nodes[id].wordList.value;
    assert PartlyNormalized(ws, 0, lex) == ws;
    for j := 0 to |ws|
      invariant f.nodes == before[id := before[id].(wordList := Some(PartlyNormalized(ws, j, lex)))]
    {
      var w := NormalizeWord(ws[j], lex);
      PartlyNormalizedStep(ws, j, lex);
      f.nodes := f.nodes[id := f.nodes[id].(wordList := Some(f.nodes[id].wordList.value[j := w]))];
    }
    assert PartlyNormalized(ws, |ws|, lex) == NormalizeWords(ws, lex);
  }
}
