/** The nodes of a dependency tree (`DependenciesTree` objects), kept in an arena and named
    by their position in it, with the node operations: creation from a key, `merge`,
    `getWords` and `initText`. */
module Tree {
  import opened Wrappers
  import opened Words
  import opened Keys

  /** A reference to a node: its position in the arena. */
  type NodeId = nat

  /** The value `namedEntityTag` and `dependency` start with. */
  const Undef: string := "undef"

  /** One `DependenciesTree`. `wordList` is None once `merge` has absorbed the node. */
  datatype Node = Node(
    wordList: Option<seq<Word>>,
    namedEntityTag: string,
    dependency: string,
    child: seq<NodeId>,
    parent: Option<NodeId>,
    text: string)

  /** The node `DependenciesTree(key)` builds, or the error its key parse raises. */
  function FreshNode(key: string): Result<Node, KeyFormatError> {
    match ParseKey(key)
    case Ok(t) => Ok(Node(Some([t]), Undef, Undef, [], None, ""))
    case Err(e) => Err(e)
  }

  /** A node built from `w-i` holds the one word `w` at index `i`, with no tags,
      no dependency, no children, no parent and no text yet. */
  lemma FreshNodeOfKey(w: string, i: nat)
    ensures FreshNode(KeyOf(w, i)) == Ok(Node(Some([Word(w, i, None)]), Undef, Undef, [], None, ""))
  {
    KeyRoundTrip(w, i);
  }

  // ---------------------------------------------------------------------------
  // Shape of the arena: child lists, ranks and the nodes below a node
  // ---------------------------------------------------------------------------

  /** The child list of every node. */
  function Children(nodes: seq<Node>): (kids: seq<seq<NodeId>>)
    ensures |kids| == |nodes|
    ensures forall x :: 0 <= x < |nodes| ==> kids[x] == nodes[x].child
  {
    seq(|nodes|, x requires 0 <= x < |nodes| => nodes[x].child)
  }

  lemma ChildrenAgree(a: seq<Node>, b: seq<Node>)
    requires |a| == |b|
    requires forall x :: 0 <= x < |a| ==> a[x].child == b[x].child
    ensures Children(a) == Children(b)
  {
  }

  /** `rank` witnesses that following child links always ends: every child ranks below
      its parent (on a cycle the source's recursive walks never return). */
  ghost predicate Ranked(kids: seq<seq<NodeId>>, rank: seq<nat>) {
    |rank| == |kids| &&
    forall p, i :: 0 <= p < |kids| && 0 <= i < |kids[p]| ==>
      kids[p][i] < |kids| && rank[kids[p][i]] < rank[p]
  }

  ghost predicate RankedBelow(rank: seq<nat>, cs: seq<NodeId>, bound: nat) {
    forall i :: 0 <= i < |cs| ==> cs[i] < |rank| && rank[cs[i]] < bound
  }

  /** The node `id` and every node reachable from it along child links. */
  ghost function Subtree(kids: seq<seq<NodeId>>, rank: seq<nat>, id: NodeId): set<NodeId>
    requires Ranked(kids, rank) && id < |kids|
    decreases rank[id], 1, 0
  {
    {id} + Subtrees(kids, rank, kids[id], rank[id])
  }

  /** The union of the subtrees of the nodes in `cs`. */
  ghost function Subtrees(kids: seq<seq<NodeId>>, rank: seq<nat>, cs: seq<NodeId>, bound: nat): set<NodeId>
    requires Ranked(kids, rank) && RankedBelow(rank, cs, bound)
    decreases bound, 0, |cs|
  {
    if cs == [] then {}
    else Subtrees(kids, rank, cs[..|cs| - 1], bound) + Subtree(kids, rank, cs[|cs| - 1])
  }

  /** Every node below `id` exists and ranks no higher than `id`. */
  lemma {:induction false} SubtreeRanks(kids: seq<seq<NodeId>>, rank: seq<nat>, id: NodeId, x: NodeId)
    requires Ranked(kids, rank) && id < |kids|
    requires x in Subtree(kids, rank, id)
    ensures x < |kids| && rank[x] <= rank[id]
    decreases rank[id], 1, 0
  {
    if x != id {
      SubtreesRanks(kids, rank, kids[id], rank[id], x);
    }
  }

  lemma {:induction false} SubtreesRanks(kids: seq<seq<NodeId>>, rank: seq<nat>, cs: seq<NodeId>, bound: nat, x: NodeId)
    requires Ranked(kids, rank) && RankedBelow(rank, cs, bound)
    requires x in Subtrees(kids, rank, cs, bound)
    ensures x < |kids| && rank[x] < bound
    decreases bound, 0, |cs|
  {
    var last := cs[|cs| - 1];
    if x in Subtree(kids, rank, last) {
      SubtreeRanks(kids, rank, last, x);
    } else {
      SubtreesRanks(kids, rank, cs[..|cs| - 1], bound, x);
    }
  }

  /** The subtree of each listed node is part of the union. */
  lemma {:induction false} SubtreesCover(kids: seq<seq<NodeId>>, rank: seq<nat>, cs: seq<NodeId>, bound: nat, i: nat)
    requires Ranked(kids, rank) && RankedBelow(rank, cs, bound) && i < |cs|
    ensures Subtree(kids, rank, cs[i]) <= Subtrees(kids, rank, cs, bound)
    decreases |cs|
  {
    if i < |cs| - 1 {
      SubtreesCover(kids, rank, cs[..|cs| - 1], bound, i);
    }
  }

  /** A node of the union lies in the subtree of one of the listed nodes. */
  lemma {:induction false} SubtreesWitness(kids: seq<seq<NodeId>>, rank: seq<nat>, cs: seq<NodeId>, bound: nat, x: NodeId)
    returns (i: nat)
    requires Ranked(kids, rank) && RankedBelow(rank, cs, bound)
    requires x in Subtrees(kids, rank, cs, bound)
    ensures i < |cs| && x in Subtree(kids, rank, cs[i])
    decreases |cs|
  {
    if x in Subtree(kids, rank, cs[|cs| - 1]) {
      i := |cs| - 1;
    } else {
      i := SubtreesWitness(kids, rank, cs[..|cs| - 1], bound, x);
    }
  }

  /** A set that meets none of the listed subtrees does not meet their union. */
  lemma {:induction false} SubtreesDisjoint(kids: seq<seq<NodeId>>, rank: seq<nat>, cs: seq<NodeId>, bound: nat, other: set<NodeId>)
    requires Ranked(kids, rank) && RankedBelow(rank, cs, bound)
    requires forall i :: 0 <= i < |cs| ==> Subtree(kids, rank, cs[i]) !! other
    ensures Subtrees(kids, rank, cs, bound) !! other
    decreases |cs|
  {
    if cs != [] {
      SubtreesDisjoint(kids, rank, cs[..|cs| - 1], bound, other);
    }
  }

  /** The subtree of a child lies inside the subtree of its parent. */
  lemma ChildSubtree(kids: seq<seq<NodeId>>, rank: seq<nat>, id: NodeId, i: nat)
    requires Ranked(kids, rank) && id < |kids| && i < |kids[id]|
    ensures Subtree(kids, rank, kids[id][i]) <= Subtree(kids, rank, id)
  {
    SubtreesCover(kids, rank, kids[id], rank[id], i);
  }

  // ---------------------------------------------------------------------------
  // initText
  // ---------------------------------------------------------------------------

  /** The arena after `initText(id, s)`: `id` gets text `s`, then each child in turn. */
  function InitTextAt(nodes: seq<Node>, rank: seq<nat>, id: NodeId, s: string): (r: seq<Node>)
    requires Ranked(Children(nodes), rank) && id < |nodes|
    ensures |r| == |nodes| && Children(r) == Children(nodes)
    ensures forall x :: 0 <= x < |nodes| ==>
      r[x] == if x in Subtree(Children(nodes), rank, id) then nodes[x].(text := s) else nodes[x]
    decreases rank[id], 1, 0
  {
    var marked := nodes[id := nodes[id].(text := s)];
    ChildrenAgree(marked, nodes);
    InitTextAll(marked, rank, nodes[id].child, s, rank[id])
  }

  /** The arena after `initText(c, s)` for each `c` of `cs` in order. */
  function InitTextAll(nodes: seq<Node>, rank: seq<nat>, cs: seq<NodeId>, s: string, bound: nat): (r: seq<Node>)
    requires Ranked(Children(nodes), rank) && RankedBelow(rank, cs, bound)
    ensures |r| == |nodes| && Children(r) == Children(nodes)
    ensures forall x :: 0 <= x < |nodes| ==>
      r[x] == if x in Subtrees(Children(nodes), rank, cs, bound) then nodes[x].(text := s) else nodes[x]
    decreases bound, 0, |cs|
  {
    if cs == [] then nodes
    else
      var prev := InitTextAll(nodes, rank, cs[..|cs| - 1], s, bound);
      InitTextAt(prev, rank, cs[|cs| - 1], s)
  }

  /** `initText(t, s)`: gives every node reachable from `id` the sentence text `s`. */
  method InitText(f: Forest, id: NodeId, s: string, ghost rank: seq<nat>)
    requires Ranked(Children(f.nodes), rank) && id < |f.nodes|
    modifies f
    ensures f.nodes == InitTextAt(old(f.nodes), rank, id, s)
    decreases rank[id], 1
  {
    ghost var start := f.nodes;
    f.nodes := f.nodes[id := f.nodes[id].(text := s)];
    ChildrenAgree(f.nodes, start);
    InitTextChildren(f, id, s, rank);
  }

  /** Visits the children of `id` in list order, giving each of their subtrees the text `s`. */
  method InitTextChildren(f: Forest, id: NodeId, s: string, ghost rank: seq<nat>)
    requires Ranked(Children(f.nodes), rank) && id < |f.nodes|
    modifies f
    ensures f.nodes == InitTextAll(old(f.nodes), rank, old(f.nodes)[id].child, s, rank[id])
    decreases rank[id], 0
  {
    ghost var start := f.nodes;
    ghost var kids := Children(start);
    var cs := f.nodes[id].child;
    assert RankedBelow(rank, cs, rank[id]);
    for i := 0 to |cs|
      invariant RankedBelow(rank, cs[..i], rank[id])
      invariant f.nodes == InitTextAll(start, rank, cs[..i], s, rank[id])
      invariant Children(f.nodes) == kids
    {
      assert cs[..i + 1][..i] == cs[..i];
      assert cs[i] < |f.nodes|;
      InitText(f, cs[i], s, rank);
    }
    assert cs[..|cs|] == cs;
  }

  // ---------------------------------------------------------------------------
  // merge
  // ---------------------------------------------------------------------------

  /** The position of the first `x` in `xs`. */
  function IndexOf(xs: seq<NodeId>, x: NodeId): (i: nat)
    requires x in xs
    ensures i < |xs| && xs[i] == x && x !in xs[..i]
  {
    if xs[0] == x then 0
    else
      var j := IndexOf(xs[1..], x);
      assert xs[..j + 1] == [xs[0]] + xs[1..][..j];
      j + 1
  }

  /** Python's list removal: drops the first occurrence of `x` and keeps the rest in order. */
  function RemoveFirst(xs: seq<NodeId>, x: NodeId): (r: seq<NodeId>)
    requires x in xs
    ensures |r| == |xs| - 1
    ensures multiset(r) == multiset(xs) - multiset{x}
  {
    var i := IndexOf(xs, x);
    assert xs == xs[..i] + [x] + xs[i + 1..];
    xs[..i] + xs[i + 1..]
  }

  /** The occurrence that goes is the first one, and the remaining elements keep their
      order. Kept apart from `RemoveFirst` so that the merge lemmas see only its counts. */
  lemma RemoveFirstKeepsOrder(xs: seq<NodeId>, x: NodeId)
    requires x in xs
    ensures exists i ::
      0 <= i < |xs| && xs[i] == x && x !in xs[..i] && RemoveFirst(xs, x) == xs[..i] + xs[i + 1..]
  {
    var i := IndexOf(xs, x);
    assert xs[i] == x && x !in xs[..i] && RemoveFirst(xs, x) == xs[..i] + xs[i + 1..];
  }

  /** Sets the parent of every node listed in `cs` to `s`. */
  function Reparent(nodes: seq<Node>, cs: seq<NodeId>, s: NodeId): (r: seq<Node>)
    requires forall i :: 0 <= i < |cs| ==> cs[i] < |nodes|
    ensures |r| == |nodes|
    ensures forall x :: 0 <= x < |nodes| ==>
      r[x] == if x in cs then nodes[x].(parent := Some(s)) else nodes[x]
  {
    if cs == [] then nodes
    else
      var prev := Reparent(nodes, cs[..|cs| - 1], s);
      var c := cs[|cs| - 1];
      assert cs == cs[..|cs| - 1] + [c];
      prev[c := prev[c].(parent := Some(s))]
  }

  /** What `self.merge(other, mergeWords)` needs so as not to raise, on top of `s != o`:
      both word lists exist when they are to be merged, and `other` is in its parent's
      child list (otherwise `list.remove` raises ValueError). */
  ghost predicate Mergeable(nodes: seq<Node>, s: NodeId, o: NodeId, mergeWords: bool) {
    s < |nodes| && o < |nodes| && s != o &&
    (forall i :: 0 <= i < |nodes[o].child| ==> nodes[o].child[i] < |nodes|) &&
    o !in nodes[o].child &&
    (mergeWords ==> nodes[s].wordList.Some? && nodes[o].wordList.Some?) &&
    (nodes[o].parent.Some? ==> nodes[o].parent.value < |nodes| && o in nodes[nodes[o].parent.value].child)
  }

  /** The child list of `self` is extended by the child list of `other`. */
  function AdoptChildren(nodes: seq<Node>, s: NodeId, o: NodeId): (r: seq<Node>)
    requires s < |nodes| && o < |nodes|
    ensures |r| == |nodes|
    ensures forall x :: 0 <= x < |nodes| && x != s ==> r[x] == nodes[x]
    ensures r[s] == nodes[s].(child := nodes[s].child + nodes[o].child)
  {
    nodes[s := nodes[s].(child := nodes[s].child + nodes[o].child)]
  }

  /** The words of `self` become the words of `other` followed by its own, sorted by index. */
  function UniteWords(nodes: seq<Node>, s: NodeId, o: NodeId): (r: seq<Node>)
    requires s < |nodes| && o < |nodes|
    requires nodes[s].wordList.Some? && nodes[o].wordList.Some?
    ensures |r| == |nodes|
    ensures forall x :: 0 <= x < |nodes| && x != s ==> r[x] == nodes[x]
    ensures r[s] == nodes[s].(wordList := Some(SortByIndex(nodes[o].wordList.value + nodes[s].wordList.value)))
  {
    nodes[s := nodes[s].(wordList := Some(SortByIndex(nodes[o].wordList.value + nodes[s].wordList.value)))]
  }

  /** When `other` has a parent, the first occurrence of `other` leaves that parent's child list. */
  function Detach(nodes: seq<Node>, o: NodeId): (r: seq<Node>)
    requires o < |nodes|
    requires nodes[o].parent.Some? ==> nodes[o].parent.value < |nodes| && o in nodes[nodes[o].parent.value].child
    ensures |r| == |nodes|
    ensures forall x :: 0 <= x < |nodes| && Some(x) != nodes[o].parent ==> r[x] == nodes[x]
    ensures nodes[o].parent.Some? ==>
      var p := nodes[o].parent.value;
      r[p] == nodes[p].(child := RemoveFirst(nodes[p].child, o))
  {
    match nodes[o].parent
    case None => nodes
    case Some(p) => nodes[p := nodes[p].(child := RemoveFirst(nodes[p].child, o))]
  }

  /** `other` loses its word list: the mark of a node absorbed by a merge. */
  function Tombstone(nodes: seq<Node>, o: NodeId): (r: seq<Node>)
    requires o < |nodes|
    ensures |r| == |nodes|
    ensures forall x :: 0 <= x < |nodes| && x != o ==> r[x] == nodes[x]
    ensures r[o] == nodes[o].(wordList := None)
  {
    nodes[o := nodes[o].(wordList := None)]
  }

  /** The arena after `merge`, step by step as the source does it. */
  function MergeNodes(nodes: seq<Node>, s: NodeId, o: NodeId, mergeWords: bool): (r: seq<Node>)
    requires Mergeable(nodes, s, o, mergeWords)
    ensures |r| == |nodes|
  {
    var adopted := AdoptChildren(nodes, s, o);
    var moved := Reparent(adopted, adopted[o].child, s);
    var united := if mergeWords then UniteWords(moved, s, o) else moved;
    Tombstone(Detach(united, o), o)
  }

  /** `self.child` becomes the old `self.child` followed by `other.child` (less the first
      `other`, when `self` was the parent of `other`), and every former child of `other`
      now has `self` as parent. */
  lemma MergeMovesChildren(nodes: seq<Node>, s: NodeId, o: NodeId, mergeWords: bool)
    requires Mergeable(nodes, s, o, mergeWords)
    ensures var r := MergeNodes(nodes, s, o, mergeWords);
      var joined := nodes[s].child + nodes[o].child;
      && r[s].child == (if nodes[o].parent == Some(s) then RemoveFirst(joined, o) else joined)
      && forall c :: c in nodes[o].child ==> r[c].parent == Some(s)
  {
  }

  /** The child list of the former parent of `other` after `merge`: its list as it stood
      before the detaching step, less the first `other`. */
  lemma MergeParentList(nodes: seq<Node>, s: NodeId, o: NodeId, mergeWords: bool, p: NodeId)
    requires Mergeable(nodes, s, o, mergeWords)
    requires nodes[o].parent == Some(p)
    ensures var before: seq<NodeId> := if p == s then nodes[s].child + nodes[o].child else nodes[p].child;
      && o in before
      && MergeNodes(nodes, s, o, mergeWords)[p].child == RemoveFirst(before, o)
  {
    var adopted := AdoptChildren(nodes, s, o);
    var moved := Reparent(adopted, adopted[o].child, s);
    var united := if mergeWords then UniteWords(moved, s, o) else moved;
    var before: seq<NodeId> := if p == s then nodes[s].child + nodes[o].child else nodes[p].child;
    assert united[p].child == before;
    assert united[o].parent == nodes[o].parent;
  }

  /** `other` leaves the child list of its former parent: one occurrence of it goes, so
      all of it when it occurred once. */
  lemma MergeDetaches(nodes: seq<Node>, s: NodeId, o: NodeId, mergeWords: bool, p: NodeId)
    requires Mergeable(nodes, s, o, mergeWords)
    requires nodes[o].parent == Some(p)
    ensures var r := MergeNodes(nodes, s, o, mergeWords);
      var before: seq<NodeId> := if p == s then nodes[s].child + nodes[o].child else nodes[p].child;
      && multiset(r[p].child) == multiset(before) - multiset{o}
      && (multiset(before)[o] == 1 ==> o !in r[p].child)
  {
    var r := MergeNodes(nodes, s, o, mergeWords);
    var before: seq<NodeId> := if p == s then nodes[s].child + nodes[o].child else nodes[p].child;
    MergeParentList(nodes, s, o, mergeWords, p);
    if multiset(before)[o] == 1 {
      assert multiset(r[p].child)[o] == 0;
    }
  }

  /** The occurrence of `other` that leaves its former parent's child list is the first,
      and the siblings that stay keep their order. */
  lemma MergeKeepsSiblingOrder(nodes: seq<Node>, s: NodeId, o: NodeId, mergeWords: bool, p: NodeId)
    requires Mergeable(nodes, s, o, mergeWords)
    requires nodes[o].parent == Some(p)
    ensures var r := MergeNodes(nodes, s, o, mergeWords);
      var before: seq<NodeId> := if p == s then nodes[s].child + nodes[o].child else nodes[p].child;
      exists i ::
        0 <= i < |before| && before[i] == o && o !in before[..i] && r[p].child == before[..i] + before[i + 1..]
  {
    var before: seq<NodeId> := if p == s then nodes[s].child + nodes[o].child else nodes[p].child;
    MergeParentList(nodes, s, o, mergeWords, p);
    RemoveFirstKeepsOrder(before, o);
  }

  /** No child list changes but those of `self` and of the former parent of `other`; so
      when `other` had no parent, only that of `self`. */
  lemma MergeKeepsOtherLists(nodes: seq<Node>, s: NodeId, o: NodeId, mergeWords: bool)
    requires Mergeable(nodes, s, o, mergeWords)
    ensures var r := MergeNodes(nodes, s, o, mergeWords);
      forall x :: 0 <= x < |nodes| && x != s && Some(x) != nodes[o].parent ==> r[x].child == nodes[x].child
  {
    var adopted := AdoptChildren(nodes, s, o);
    var moved := Reparent(adopted, adopted[o].child, s);
    var united := if mergeWords then UniteWords(moved, s, o) else moved;
    assert united[o].parent == nodes[o].parent;
    var r := MergeNodes(nodes, s, o, mergeWords);
    forall x | 0 <= x < |nodes| && x != s && Some(x) != nodes[o].parent
      ensures r[x].child == nodes[x].child
    {
      assert r[x].child == united[x].child;
    }
  }

  /** With `mergeWords` the words of `self` become the words of both nodes, sorted by
      index, none lost or added; without it they stay as they were. The word list of
      `other` is gone either way, and no other node's words change. */
  lemma MergeWordLists(nodes: seq<Node>, s: NodeId, o: NodeId, mergeWords: bool)
    requires Mergeable(nodes, s, o, mergeWords)
    ensures var r := MergeNodes(nodes, s, o, mergeWords);
      && r[o].wordList == None
      && (mergeWords ==>
            var ws := nodes[s].wordList.value;
            var os := nodes[o].wordList.value;
            && r[s].wordList.Some?
            && SortedByIndex(r[s].wordList.value)
            && multiset(r[s].wordList.value) == multiset(os) + multiset(ws)
            && |r[s].wordList.value| == |os| + |ws|)
      && (!mergeWords ==> r[s].wordList == nodes[s].wordList)
      && forall x :: 0 <= x < |nodes| && x != s && x != o ==> r[x].wordList == nodes[x].wordList
  {
  }

  /** `merge` changes no tag, dependency label or text, and no parent but those of the
      former children of `other`. */
  lemma MergeKeepsLabels(nodes: seq<Node>, s: NodeId, o: NodeId, mergeWords: bool)
    requires Mergeable(nodes, s, o, mergeWords)
    ensures var r := MergeNodes(nodes, s, o, mergeWords);
      forall x :: 0 <= x < |nodes| ==>
        && r[x].namedEntityTag == nodes[x].namedEntityTag
        && r[x].dependency == nodes[x].dependency
        && r[x].text == nodes[x].text
        && (x !in nodes[o].child ==> r[x].parent == nodes[x].parent)
  {
  }

  // ---------------------------------------------------------------------------
  // The arena object
  // ---------------------------------------------------------------------------

  /** All `DependenciesTree` objects of one parse. */
  class Forest {
    var nodes: seq<Node>

    constructor ()
      ensures nodes == []
    {
      nodes := [];
    }

    /** `DependenciesTree(key)`: appends the new node and returns its reference. */
    method NewNode(key: string) returns (r: Result<NodeId, KeyFormatError>)
      modifies this
      ensures FreshNode(key).Ok? ==> r == Ok(|old(nodes)|) && nodes == old(nodes) + [FreshNode(key).value]
      ensures FreshNode(key).Err? ==> r == Err(FreshNode(key).error) && nodes == old(nodes)
    {
      var n := FreshNode(key);
      if n.Err? {
        return Err(n.error);
      }
      r := Ok(|nodes|);
      nodes := nodes + [n.value];
    }

    /** `self.merge(other, mergeWords)` with `self` = `s` and `other` = `o`. */
    method Merge(s: NodeId, o: NodeId, mergeWords: bool)
      requires Mergeable(nodes, s, o, mergeWords)
      modifies this
      ensures nodes == MergeNodes(old(nodes), s, o, mergeWords)
    {
      nodes := nodes[s := nodes[s].(child := nodes[s].child + nodes[o].child)];
      ghost var adopted := nodes;
      assert adopted == AdoptChildren(old(nodes), s, o);
      AdoptAll(nodes[o].child, s);
      ghost var moved := nodes;
      if mergeWords {
        nodes := nodes[s := nodes[s].(wordList := Some(SortByIndex(nodes[o].wordList.value + nodes[s].wordList.value)))];
      }
      ghost var united := nodes;
      assert united == if mergeWords then UniteWords(moved, s, o) else moved;
      if nodes[o].parent.Some? {
        var p := nodes[o].parent.value;
        nodes := nodes[p := nodes[p].(child := RemoveFirst(nodes[p].child, o))];
      }
      assert nodes == Detach(united, o);
      nodes := nodes[o := nodes[o].(wordList := None)];
    }

    /** The loop of `merge` that gives every child of `other` the parent `self`. */
    method AdoptAll(cs: seq<NodeId>, s: NodeId)
      requires forall i :: 0 <= i < |cs| ==> cs[i] < |nodes|
      modifies this
      ensures nodes == Reparent(old(nodes), cs, s)
    {
      for i := 0 to |cs|
        invariant |nodes| == |old(nodes)|
        invariant nodes == Reparent(old(nodes), cs[..i], s)
      {
        assert cs[..i + 1][..i] == cs[..i];
        nodes := nodes[cs[i] := nodes[cs[i]].(parent := Some(s))];
      }
      assert cs[..|cs|] == cs;
    }

    /** `getWords`: sorts the node's words by index, in place, and joins their text with
        single spaces. */
    method GetWords(id: NodeId) returns (text: string)
      requires id < |nodes| && nodes[id].wordList.Some?
      modifies this
      ensures nodes == old(nodes)[id := old(nodes)[id].(wordList := Some(SortByIndex(old(nodes)[id].wordList.value)))]
      ensures text == JoinWords(SortByIndex(old(nodes)[id].wordList.value))
    {
      var sorted := SortByIndex(nodes[id].wordList.value);
      nodes := nodes[id := nodes[id].(wordList := Some(sorted))];
      text := JoinWords(sorted);
    }
  }
}
