/** Building the dependency tree from a parse: `computeEdges`, `computeTags` and the
    sequence `computeTree` runs them in. */
module Build {
  import opened Wrappers
  import opened Words
  import opened Keys
  import opened Tree

  /** One entry of `indexeddependencies`: `[relation, parent key, child key]`. */
  datatype Edge = Edge(relation: string, governor: string, dependent: string)

  /** One entry of `words`: `[surface form, {PartOfSpeech, NamedEntityTag}]`. */
  datatype Annotation = Annotation(surface: string, partOfSpeech: string, namedEntityTag: string)

  /** The arena together with the dictionary `nameToNodes` from keys to nodes. */
  datatype Built = Built(nodes: seq<Node>, names: map<string, NodeId>)

  ghost predicate Bounded(b: Built) {
    forall k :: k in b.names ==> b.names[k] < |b.nodes|
  }

  /** No two keys name the same node. */
  ghost predicate Injective(names: map<string, NodeId>) {
    forall k1, k2 :: k1 in names && k2 in names && names[k1] == names[k2] ==> k1 == k2
  }

  /** Every node has a key. */
  ghost predicate Covered(b: Built) {
    forall x :: 0 <= x < |b.nodes| ==> x in b.names.Values
  }

  ghost predicate WellBuilt(b: Built) {
    Bounded(b) && Injective(b.names)
  }

  // ---------------------------------------------------------------------------
  // computeEdges
  // ---------------------------------------------------------------------------

  /** `nameToNodes[key]`, or a new node stored under `key` when there is none. */
  function GetOrCreate(b: Built, key: string): (r: Result<(Built, NodeId), KeyFormatError>)
    requires Bounded(b)
    ensures key in b.names ==> r == Ok((b, b.names[key]))
    ensures key !in b.names && r.Ok? ==>
      && FreshNode(key).Ok?
      && r.value.1 == |b.nodes|
      && r.value.0 == Built(b.nodes + [FreshNode(key).value], b.names[key := |b.nodes|])
    ensures r.Err? <==> key !in b.names && FreshNode(key).Err?
    ensures r.Ok? ==> Bounded(r.value.0)
  {
    if key in b.names then Ok((b, b.names[key]))
    else
      match FreshNode(key)
      case Err(e) => Err(e)
      case Ok(n) => Ok((Built(b.nodes + [n], b.names[key := |b.nodes|]), |b.nodes|))
  }

  /** Appends `n2` to the child list of `n1`, and gives `n2` the parent `n1` and the edge's
      relation as its dependency label. */
  function Link(nodes: seq<Node>, n1: NodeId, n2: NodeId, relation: string): (r: seq<Node>)
    requires n1 < |nodes| && n2 < |nodes|
    ensures |r| == |nodes|
    ensures forall x :: 0 <= x < |r| ==>
      r[x] == nodes[x].(child := nodes[x].child + (if x == n1 then [n2] else []),
                        parent := if x == n2 then Some(n1) else nodes[x].parent,
                        dependency := if x == n2 then relation else nodes[x].dependency)
  {
    var wired := nodes[n1 := nodes[n1].(child := nodes[n1].child + [n2])];
    wired[n2 := wired[n2].(parent := Some(n1), dependency := relation)]
  }

  /** One pass of the loop of `computeEdges`; on an error, the state at the moment the
      exception is raised. */
  function AddEdge(b: Built, e: Edge): (r: (Built, Option<KeyFormatError>))
    requires Bounded(b)
    ensures Bounded(r.0)
  {
    var g := GetOrCreate(b, e.governor);
    if g.Err? then (b, Some(g.error))
    else
      var b1 := g.value.0;
      var d := GetOrCreate(b1, e.dependent);
      if d.Err? then (b1, Some(d.error))
      else
        var b2 := d.value.0;
        (Built(Link(b2.nodes, g.value.1, d.value.1, e.relation), b2.names), None)
  }

  /** The loop of `computeEdges` over the edges in order, stopping at the first error. */
  function Edges(b: Built, es: seq<Edge>): (r: (Built, Option<KeyFormatError>))
    requires Bounded(b)
    ensures Bounded(r.0)
    decreases |es|
  {
    if es == [] then (b, None)
    else
      var (b1, err) := AddEdge(b, es[0]);
      if err.Some? then (b1, err) else Edges(b1, es[1..])
  }

  /** `computeEdges(r, nameToNodes)`: returns the updated dictionary, and the malformed-key
      error (Python's `ValueError`) that stopped the loop, if any. */
  method ComputeEdges(f: Forest, nameToNodes: map<string, NodeId>, edges: seq<Edge>)
    returns (names: map<string, NodeId>, err: Option<KeyFormatError>)
    requires Bounded(Built(f.nodes, nameToNodes))
    modifies f
    ensures (Built(f.nodes, names), err) == Edges(Built(old(f.nodes), nameToNodes), edges)
  {
    names := nameToNodes;
    var i := 0;
    while i < |edges|
      invariant 0 <= i <= |edges|
      invariant Bounded(Built(f.nodes, names))
      invariant Edges(Built(old(f.nodes), nameToNodes), edges) == Edges(Built(f.nodes, names), edges[i..])
    {
      assert edges[i..][0] == edges[i] && edges[i..][1..] == edges[i + 1..];
      names, err := ConnectEdge(f, names, edges[i]);
      if err.Some? {
        return;
      }
      i := i + 1;
    }
    err := None;
  }

  /** The body of the loop of `computeEdges` for one edge. */
  method ConnectEdge(f: Forest, nameToNodes: map<string, NodeId>, e: Edge)
    returns (names: map<string, NodeId>, err: Option<KeyFormatError>)
    requires Bounded(Built(f.nodes, nameToNodes))
    modifies f
    ensures (Built(f.nodes, names), err) == AddEdge(Built(old(f.nodes), nameToNodes), e)
  {
    names := nameToNodes;
    ghost var b0 := Built(f.nodes, names);
    var n1: NodeId;
    if e.governor in names {
      n1 := names[e.governor];
    } else {
      var created := f.NewNode(e.governor);
      if created.Err? {
        return names, Some(created.error);
      }
      n1 := created.value;
      names := names[e.governor := n1];
    }
    ghost var b1 := Built(f.nodes, names);
    assert GetOrCreate(b0, e.governor) == Ok((b1, n1));
    var n2: NodeId;
    if e.dependent in names {
      n2 := names[e.dependent];
    } else {
      var created := f.NewNode(e.dependent);
      if created.Err? {
        return names, Some(created.error);
      }
      n2 := created.value;
      names := names[e.dependent := n2];
    }
    assert GetOrCreate(b1, e.dependent) == Ok((Built(f.nodes, names), n2));
    f.nodes := f.nodes[n1 := f.nodes[n1].(child := f.nodes[n1].child + [n2])];
    f.nodes := f.nodes[n2 := f.nodes[n2].(parent := Some(n1), dependency := e.relation)];
    err := None;
  }

  // ---------------------------------------------------------------------------
  // What computeEdges promises
  // ---------------------------------------------------------------------------

  /** Every key names a node whose single token is the parsed key. */
  ghost predicate Keyed(b: Built) {
    && Bounded(b)
    && forall k :: k in b.names ==>
         ParseKey(k).Ok? && b.nodes[b.names[k]].wordList == Some([ParseKey(k).value])
  }

  /** A node as `DependenciesTree.__init__` leaves it, apart from its words. */
  predicate Blank(n: Node) {
    n.child == [] && n.parent == None && n.dependency == Undef && n.namedEntityTag == Undef && n.text == ""
  }

  /** `c` is `b` with blank nodes appended and new keys stored under them. */
  ghost predicate Extends(b: Built, c: Built) {
    && WellBuilt(c)
    && |b.nodes| <= |c.nodes|
    && (forall x :: 0 <= x < |b.nodes| ==> c.nodes[x] == b.nodes[x])
    && (forall x :: |b.nodes| <= x < |c.nodes| ==> Blank(c.nodes[x]))
    && (forall k :: k in b.names ==> k in c.names && c.names[k] == b.names[k])
    && (forall k :: k in c.names && k !in b.names ==> |b.nodes| <= c.names[k])
  }

  lemma GetOrCreateExtends(b: Built, key: string)
    requires WellBuilt(b) && GetOrCreate(b, key).Ok?
    ensures Extends(b, GetOrCreate(b, key).value.0)
  {
  }

  lemma ExtendsTransitive(a: Built, b: Built, c: Built)
    requires Extends(a, b) && Extends(b, c)
    ensures Extends(a, c)
  {
  }

  /** The two `getOrCreate` steps of one edge, before the link is made. */
  lemma AddEdgeStages(b: Built, e: Edge)
    requires WellBuilt(b) && AddEdge(b, e).1 == None
    ensures var g := GetOrCreate(b, e.governor);
      && g.Ok? && GetOrCreate(g.value.0, e.dependent).Ok?
      && var d := GetOrCreate(g.value.0, e.dependent);
      && Extends(b, d.value.0)
      && AddEdge(b, e).0 == Built(Link(d.value.0.nodes, g.value.1, d.value.1, e.relation), d.value.0.names)
      && e.governor in d.value.0.names && d.value.0.names[e.governor] == g.value.1
      && e.dependent in d.value.0.names && d.value.0.names[e.dependent] == d.value.1
  {
    var g := GetOrCreate(b, e.governor);
    GetOrCreateExtends(b, e.governor);
    var d := GetOrCreate(g.value.0, e.dependent);
    GetOrCreateExtends(g.value.0, e.dependent);
    ExtendsTransitive(b, g.value.0, d.value.0);
  }

  /** One edge keeps keys apart, never renames a key and stores new keys under new
      nodes. */
  lemma AddEdgeGrows(b: Built, e: Edge)
    requires WellBuilt(b)
    ensures var (r, err) := AddEdge(b, e);
      && WellBuilt(r)
      && |b.nodes| <= |r.nodes|
      && (forall k :: k in b.names ==> k in r.names && r.names[k] == b.names[k])
      && (forall k :: k in r.names && k !in b.names ==> |b.nodes| <= r.names[k])
      && (err.None? ==> e.governor in r.names && e.dependent in r.names)
  {
    var g := GetOrCreate(b, e.governor);
    if g.Ok? {
      GetOrCreateExtends(b, e.governor);
      var d := GetOrCreate(g.value.0, e.dependent);
      if d.Ok? {
        AddEdgeStages(b, e);
      }
    }
  }

  lemma AddEdgeCovers(b: Built, e: Edge)
    requires WellBuilt(b) && Covered(b)
    ensures Covered(AddEdge(b, e).0)
  {
    var r := AddEdge(b, e).0;
    AddEdgeGrows(b, e);
    forall x | 0 <= x < |r.nodes| ensures x in r.names.Values {
      if x < |b.nodes| {
        assert x in b.names.Values;
        var k :| k in b.names && b.names[k] == x;
        assert r.names[k] == x;
      } else if e.governor !in b.names && x == |b.nodes| {
        assert r.names[e.governor] == x;
      } else if e.dependent in r.names && r.names[e.dependent] == x {
      }
    }
  }

  lemma GetOrCreateKeeps(b: Built, key: string)
    requires Keyed(b) && GetOrCreate(b, key).Ok?
    ensures Keyed(GetOrCreate(b, key).value.0)
  {
  }

  lemma AddEdgeKeeps(b: Built, e: Edge)
    requires WellBuilt(b) && Keyed(b)
    ensures Keyed(AddEdge(b, e).0)
  {
    var g := GetOrCreate(b, e.governor);
    if g.Ok? {
      GetOrCreateKeeps(b, e.governor);
      var d := GetOrCreate(g.value.0, e.dependent);
      if d.Ok? {
        GetOrCreateKeeps(g.value.0, e.dependent);
      }
    }
  }

  /** The loop of `computeEdges` never stores two keys under one node and never renames
      a key, and the keys it adds name nodes it created. That both ends of every edge end
      up stored is `EdgesReachEnds`. */
  lemma {:induction false} EdgesGrow(b: Built, es: seq<Edge>)
    requires WellBuilt(b)
    ensures var (r, err) := Edges(b, es);
      && WellBuilt(r)
      && |b.nodes| <= |r.nodes|
      && (forall k :: k in b.names ==> k in r.names && r.names[k] == b.names[k])
      && (forall k :: k in r.names && k !in b.names ==> |b.nodes| <= r.names[k])
    decreases |es|
  {
    if es != [] {
      AddEdgeGrows(b, es[0]);
      var (b1, err) := AddEdge(b, es[0]);
      if err.None? {
        EdgesGrow(b1, es[1..]);
      }
    }
  }

  /** When no key is refused, both ends of every edge have a node. */
  lemma {:induction false} EdgesReachEnds(b: Built, es: seq<Edge>)
    requires WellBuilt(b) && Edges(b, es).1 == None
    ensures var r := Edges(b, es).0;
      forall i :: 0 <= i < |es| ==> es[i].governor in r.names && es[i].dependent in r.names
    decreases |es|
  {
    if es != [] {
      AddEdgeGrows(b, es[0]);
      var b1 := AddEdge(b, es[0]).0;
      var r := Edges(b1, es[1..]).0;
      assert Edges(b, es).0 == r;
      EdgesReachEnds(b1, es[1..]);
      EdgesGrow(b1, es[1..]);
      forall i | 0 <= i < |es| ensures es[i].governor in r.names && es[i].dependent in r.names {
        if i > 0 {
          assert es[i] == es[1..][i - 1];
        }
      }
    }
  }

  /** Every node the loop creates is stored under a key. */
  lemma {:induction false} EdgesCover(b: Built, es: seq<Edge>)
    requires WellBuilt(b) && Covered(b)
    ensures Covered(Edges(b, es).0)
    decreases |es|
  {
    if es != [] {
      AddEdgeGrows(b, es[0]);
      AddEdgeCovers(b, es[0]);
      var (b1, err) := AddEdge(b, es[0]);
      if err.None? {
        EdgesCover(b1, es[1..]);
      }
    }
  }

  /** The node stored under a key holds that key's word and index. */
  lemma {:induction false} EdgesKeep(b: Built, es: seq<Edge>)
    requires WellBuilt(b) && Keyed(b)
    ensures Keyed(Edges(b, es).0)
    decreases |es|
  {
    if es != [] {
      AddEdgeGrows(b, es[0]);
      AddEdgeKeeps(b, es[0]);
      var (b1, err) := AddEdge(b, es[0]);
      if err.None? {
        EdgesKeep(b1, es[1..]);
      }
    }
  }

  /** What one edge does to node `x`: the governor's child list gains the dependent, and
      the dependent gets the governor as parent and the edge's relation as dependency.
      A node created on the way starts with no children, no parent and `undef`. */
  lemma AddEdgeLinks(b: Built, e: Edge, x: NodeId)
    requires WellBuilt(b) && AddEdge(b, e).1 == None && x < |AddEdge(b, e).0.nodes|
    ensures var r := AddEdge(b, e).0;
      var n1 := r.names[e.governor];
      var n2 := r.names[e.dependent];
      var was := if x < |b.nodes| then b.nodes[x] else Node(r.nodes[x].wordList, Undef, Undef, [], None, "");
      r.nodes[x] == was.(child := was.child + (if x == n1 then [n2] else []),
                         parent := if x == n2 then Some(n1) else was.parent,
                         dependency := if x == n2 then e.relation else was.dependency)
  {
    AddEdgeStages(b, e);
    var b2 := GetOrCreate(GetOrCreate(b, e.governor).value.0, e.dependent).value.0;
    assert x < |b2.nodes|;
    if x >= |b.nodes| {
      assert Blank(b2.nodes[x]);
    }
  }

  /** A node that no later edge names as dependent keeps its parent and dependency. */
  lemma {:induction false} EdgesKeepParent(b: Built, es: seq<Edge>, k: string)
    requires WellBuilt(b) && k in b.names
    requires forall i :: 0 <= i < |es| ==> es[i].dependent != k
    ensures var r := Edges(b, es).0;
      && b.names[k] < |r.nodes|
      && r.nodes[b.names[k]].parent == b.nodes[b.names[k]].parent
      && r.nodes[b.names[k]].dependency == b.nodes[b.names[k]].dependency
    decreases |es|
  {
    EdgesGrow(b, es);
    if es != [] {
      AddEdgeGrows(b, es[0]);
      var (b1, err) := AddEdge(b, es[0]);
      if err.None? {
        AddEdgeLinks(b, es[0], b.names[k]);
        EdgesKeepParent(b1, es[1..], k);
      }
    }
  }

  /** The first edge sets its dependent's parent and dependency, and when no later edge
      names that dependent they stay. */
  lemma EdgesFirstWins(b: Built, es: seq<Edge>)
    requires WellBuilt(b) && Edges(b, es).1 == None && 0 < |es|
    requires forall i :: 0 < i < |es| ==> es[i].dependent != es[0].dependent
    ensures var r := Edges(b, es).0;
      && es[0].dependent in r.names && es[0].governor in r.names
      && r.nodes[r.names[es[0].dependent]].parent == Some(r.names[es[0].governor])
      && r.nodes[r.names[es[0].dependent]].dependency == es[0].relation
  {
    AddEdgeGrows(b, es[0]);
    var b1 := AddEdge(b, es[0]).0;
    assert Edges(b, es).0 == Edges(b1, es[1..]).0;
    AddEdgeLinks(b, es[0], b1.names[es[0].dependent]);
    forall i | 0 <= i < |es[1..]| ensures es[1..][i].dependent != es[0].dependent {
      assert es[1..][i] == es[i + 1];
    }
    EdgesKeepParent(b1, es[1..], es[0].dependent);
    EdgesGrow(b1, es[1..]);
  }

  /** When every edge is read, a node's parent and dependency come from the last edge
      naming it as dependent. */
  lemma {:induction false} EdgesLastWins(b: Built, es: seq<Edge>, j: nat)
    requires WellBuilt(b) && Edges(b, es).1 == None
    requires j < |es|
    requires forall i :: j < i < |es| ==> es[i].dependent != es[j].dependent
    ensures var r := Edges(b, es).0;
      && es[j].dependent in r.names && es[j].governor in r.names
      && r.nodes[r.names[es[j].dependent]].parent == Some(r.names[es[j].governor])
      && r.nodes[r.names[es[j].dependent]].dependency == es[j].relation
    decreases |es|
  {
    if j == 0 {
      EdgesFirstWins(b, es);
    } else {
      AddEdgeGrows(b, es[0]);
      var b1 := AddEdge(b, es[0]).0;
      assert Edges(b, es).0 == Edges(b1, es[1..]).0;
      assert es[1..][j - 1] == es[j];
      forall i | j - 1 < i < |es[1..]| ensures es[1..][i].dependent != es[1..][j - 1].dependent {
        assert es[1..][i] == es[i + 1];
      }
      EdgesLastWins(b1, es[1..], j - 1);
    }
  }

  /** The dependent keys of the edges whose governor is `p`, in edge order. */
  function Dependents(es: seq<Edge>, p: string): (ds: seq<string>)
    ensures forall d :: d in ds ==> exists i :: 0 <= i < |es| && es[i].governor == p && es[i].dependent == d
  {
    if es == [] then []
    else
      var rest := Dependents(es[1..], p);
      assert forall d :: d in rest ==> exists i :: 1 <= i < |es| && es[i].governor == p && es[i].dependent == d by {
        forall d | d in rest ensures exists i :: 1 <= i < |es| && es[i].governor == p && es[i].dependent == d {
          var i :| 0 <= i < |es[1..]| && es[1..][i].governor == p && es[1..][i].dependent == d;
          assert es[i + 1] == es[1..][i];
        }
      }
      (if es[0].governor == p then [es[0].dependent] else []) + rest
  }

  /** The nodes stored under the keys `ks`, in order. */
  function Lookup(names: map<string, NodeId>, ks: seq<string>): (ids: seq<NodeId>)
    requires forall k :: k in ks ==> k in names
    ensures |ids| == |ks| && forall i :: 0 <= i < |ks| ==> ids[i] == names[ks[i]]
  {
    if ks == [] then [] else [names[ks[0]]] + Lookup(names, ks[1..])
  }

  lemma LookupAppend(names: map<string, NodeId>, ks1: seq<string>, ks2: seq<string>)
    requires forall k :: k in ks1 + ks2 ==> k in names
    ensures Lookup(names, ks1 + ks2) == Lookup(names, ks1) + Lookup(names, ks2)
  {
  }

  /** Regrouping a concatenation, proved apart so that `EdgesChildren` stays within its
      resource budget. */
  lemma ConcatAssociates<T>(a: seq<T>, b: seq<T>, c: seq<T>)
    ensures a + b + c == a + (b + c)
  {
  }

  /** One edge appends its dependent to its governor's child list and to no other. */
  lemma AddEdgeChild(b: Built, e: Edge, p: string)
    requires WellBuilt(b) && AddEdge(b, e).1 == None && p in AddEdge(b, e).0.names
    ensures var r := AddEdge(b, e).0;
      && e.dependent in r.names
      && r.nodes[r.names[p]].child
         == (if p in b.names then b.nodes[b.names[p]].child else [])
            + (if e.governor == p then [r.names[e.dependent]] else [])
  {
    AddEdgeGrows(b, e);
    var r := AddEdge(b, e).0;
    AddEdgeLinks(b, e, r.names[p]);
    assert r.names[p] == r.names[e.governor] <==> e.governor == p;
  }

  /** When every edge is read, a node's child list is what it had before followed, in
      edge order, by the dependents of the edges it governs (duplicates included). */
  lemma {:induction false} EdgesChildren(b: Built, es: seq<Edge>, p: string)
    requires WellBuilt(b) && Edges(b, es).1 == None
    requires p in Edges(b, es).0.names
    ensures var r := Edges(b, es).0;
      && (forall d :: d in Dependents(es, p) ==> d in r.names)
      && r.nodes[r.names[p]].child
         == (if p in b.names then b.nodes[b.names[p]].child else []) + Lookup(r.names, Dependents(es, p))
    decreases |es|
  {
    var r := Edges(b, es).0;
    EdgesReachEnds(b, es);
    forall d | d in Dependents(es, p) ensures d in r.names {
      var i :| 0 <= i < |es| && es[i].governor == p && es[i].dependent == d;
    }
    if es == [] {
      assert Dependents(es, p) == [] && Lookup(r.names, []) == [];
      assert r.nodes[r.names[p]].child == r.nodes[r.names[p]].child + [];
    } else {
      var e := es[0];
      AddEdgeGrows(b, e);
      assert AddEdge(b, e).1 == None;
      var b1 := AddEdge(b, e).0;
      assert r == Edges(b1, es[1..]).0;
      EdgesGrow(b1, es[1..]);
      var mine := if e.governor == p then [e.dependent] else [];
      var later := Dependents(es[1..], p);
      assert Dependents(es, p) == mine + later;
      LookupAppend(r.names, mine, later);
      EdgesChildren(b1, es[1..], p);
      var base := if p in b.names then b.nodes[b.names[p]].child else [];
      if p in b1.names {
        AddEdgeChild(b, e, p);
        assert Lookup(r.names, mine) == if e.governor == p then [b1.names[e.dependent]] else [];
        var ids1, ids2 := Lookup(r.names, mine), Lookup(r.names, later);
        assert r.nodes[r.names[p]].child == base + ids1 + ids2;
        ConcatAssociates(base, ids1, ids2);
      } else {
        assert mine == [] && base == [] && mine + later == later;
        assert r.nodes[r.names[p]].child == base + Lookup(r.names, later);
      }
    }
  }

  // ---------------------------------------------------------------------------
  // From a ranked parse to a ranked arena
  // ---------------------------------------------------------------------------

  /** Every edge's dependent key ranks below its governor key: the parse is acyclic. */
  ghost predicate Descending(edges: seq<Edge>, keyRank: string -> nat) {
    forall i :: 0 <= i < |edges| ==> keyRank(edges[i].dependent) < keyRank(edges[i].governor)
  }

  /** The rank of a node: the rank of the key it is stored under. */
  ghost function RankOf(names: map<string, NodeId>, keyRank: string -> nat, x: NodeId): nat {
    if x in names.Values then
      var k :| k in names && names[k] == x; keyRank(k)
    else 0
  }

  ghost function KeyRanks(names: map<string, NodeId>, keyRank: string -> nat, n: nat): (rank: seq<nat>)
    ensures |rank| == n && forall x :: 0 <= x < n ==> rank[x] == RankOf(names, keyRank, x)
  {
    seq(n, x requires 0 <= x < n => RankOf(names, keyRank, x))
  }

  lemma RankOfKey(names: map<string, NodeId>, keyRank: string -> nat, k: string)
    requires Injective(names) && k in names
    ensures RankOf(names, keyRank, names[k]) == keyRank(k)
  {
    assert names[k] in names.Values;
  }

  /** In the arena built over an acyclic parse each child ranks below its parent. */
  lemma ChildRanksBelow(edges: seq<Edge>, keyRank: string -> nat, p: NodeId, i: nat)
    requires Descending(edges, keyRank)
    requires Edges(Built([], map[]), edges).1 == None
    requires p < |Edges(Built([], map[]), edges).0.nodes|
    requires i < |Edges(Built([], map[]), edges).0.nodes[p].child|
    ensures var r := Edges(Built([], map[]), edges).0;
      var c := r.nodes[p].child[i];
      c < |r.nodes| && RankOf(r.names, keyRank, c) < RankOf(r.names, keyRank, p)
  {
    var b0 := Built([], map[]);
    var r := Edges(b0, edges).0;
    EdgesGrow(b0, edges);
    EdgesCover(b0, edges);
    assert p in r.names.Values;
    var kp :| kp in r.names && r.names[kp] == p;
    EdgesChildren(b0, edges, kp);
    var ds := Dependents(edges, kp);
    assert r.nodes[p].child == Lookup(r.names, ds);
    var d := ds[i];
    assert d in ds;
    var j :| 0 <= j < |edges| && edges[j].governor == kp && edges[j].dependent == d;
    RankOfKey(r.names, keyRank, kp);
    RankOfKey(r.names, keyRank, d);
  }

  /** Building from nothing over an acyclic parse gives an arena whose child links all
      point down: ranking each node by its key makes every child rank below its parent. */
  lemma BuiltRanked(edges: seq<Edge>, keyRank: string -> nat)
    requires Descending(edges, keyRank)
    requires Edges(Built([], map[]), edges).1 == None
    ensures var r := Edges(Built([], map[]), edges).0;
      Ranked(Children(r.nodes), KeyRanks(r.names, keyRank, |r.nodes|))
  {
    var r := Edges(Built([], map[]), edges).0;
    forall p, i | 0 <= p < |r.nodes| && 0 <= i < |r.nodes[p].child| {
      ChildRanksBelow(edges, keyRank, p, i);
    }
  }

  // ---------------------------------------------------------------------------
  // computeTags
  // ---------------------------------------------------------------------------

  predicate IsAlnumChar(c: char) {
    'a' <= c <= 'z' || 'A' <= c <= 'Z' || '0' <= c <= '9'
  }

  /** Python's alphanumeric test on a string: non-empty and made of letters and digits only. */
  predicate IsAlnum(s: string) {
    |s| > 0 && forall i :: 0 <= i < |s| ==> IsAlnumChar(s[i])
  }

  /** The surface forms whose nodes receive tags. */
  predicate Qualifies(surface: string) {
    IsAlnum(surface) || surface == "$" || surface == "%"
  }

  /** Every key names a live node holding exactly one word. */
  ghost predicate SingleWords(nodes: seq<Node>, names: map<string, NodeId>) {
    forall k :: k in names ==>
      names[k] < |nodes| && nodes[names[k]].wordList.Some? && |nodes[names[k]].wordList.value| == 1
  }

  /** `b` is `a` with at most the part-of-speech tags of its words and its named-entity
      tag changed. */
  ghost predicate SameButTags(a: Node, b: Node) {
    && a.child == b.child && a.parent == b.parent && a.dependency == b.dependency && a.text == b.text
    && a.wordList.Some? == b.wordList.Some?
    && (a.wordList.Some? ==>
          |a.wordList.value| == |b.wordList.value|
          && forall i :: 0 <= i < |a.wordList.value| ==>
               a.wordList.value[i].word == b.wordList.value[i].word
               && a.wordList.value[i].index == b.wordList.value[i].index)
  }

  /** The single word of `n` gets the part of speech of `a`; the node gets the
      named-entity tag of `a` unless that is `O`. */
  function Tagged(n: Node, a: Annotation): (r: Node)
    requires n.wordList.Some? && |n.wordList.value| == 1
    ensures SameButTags(n, r)
    ensures r.wordList.value[0].pos == Some(a.partOfSpeech)
    ensures r.namedEntityTag == if a.namedEntityTag != "O" then a.namedEntityTag else n.namedEntityTag
  {
    var tagged := n.(wordList := Some([n.wordList.value[0].(pos := Some(a.partOfSpeech))]));
    if a.namedEntityTag != "O" then tagged.(namedEntityTag := a.namedEntityTag) else tagged
  }

  /** Whether word number `index` (counting from 1) tags a node, and which. */
  predicate Hits(names: map<string, NodeId>, a: Annotation, index: nat) {
    Qualifies(a.surface) && KeyOf(a.surface, index) in names
  }

  /** One pass of the loop of `computeTags`, for word number `index`. */
  function TagStep(nodes: seq<Node>, names: map<string, NodeId>, a: Annotation, index: nat): (r: seq<Node>)
    requires SingleWords(nodes, names)
    ensures |r| == |nodes| && SingleWords(r, names)
    ensures !Hits(names, a, index) ==> r == nodes
  {
    if Hits(names, a, index) then
      var x := names[KeyOf(a.surface, index)];
      nodes[x := Tagged(nodes[x], a)]
    else nodes
  }

  /** The loop of `computeTags` over the words after the first `done`. */
  function Tags(nodes: seq<Node>, names: map<string, NodeId>, ws: seq<Annotation>, done: nat): (r: seq<Node>)
    requires SingleWords(nodes, names)
    ensures |r| == |nodes| && SingleWords(r, names)
    decreases |ws|
  {
    if ws == [] then nodes else Tags(TagStep(nodes, names, ws[0], done + 1), names, ws[1..], done + 1)
  }

  /** `computeTags(r, nameToNodes)`. */
  method ComputeTags(f: Forest, names: map<string, NodeId>, words: seq<Annotation>)
    requires SingleWords(f.nodes, names)
    modifies f
    ensures f.nodes == Tags(old(f.nodes), names, words, 0)
  {
    var index := 0;
    while index < |words|
      invariant 0 <= index <= |words|
      invariant SingleWords(f.nodes, names)
      invariant Tags(old(f.nodes), names, words, 0) == Tags(f.nodes, names, words[index..], index)
    {
      assert words[index..][0] == words[index] && words[index..][1..] == words[index + 1..];
      TagWord(f, names, words[index], index + 1);
      index := index + 1;
    }
  }

  /** The body of the loop of `computeTags` for word number `index`. */
  method TagWord(f: Forest, names: map<string, NodeId>, word: Annotation, index: nat)
    requires SingleWords(f.nodes, names)
    modifies f
    ensures f.nodes == TagStep(old(f.nodes), names, word, index)
  {
    if Qualifies(word.surface) {
      var w := word.surface + "-" + NatToString(index);
      if w in names {
        var n := names[w];
        f.nodes := f.nodes[n := f.nodes[n].(wordList := Some([f.nodes[n].wordList.value[0].(pos := Some(word.partOfSpeech))]))];
        if word.namedEntityTag != "O" {
          f.nodes := f.nodes[n := f.nodes[n].(namedEntityTag := word.namedEntityTag)];
        }
      }
    }
  }

  /** Tagging changes only part-of-speech and named-entity tags: the links, the text
      and the words themselves stay as they are. */
  lemma {:induction false} TagsKeepShape(nodes: seq<Node>, names: map<string, NodeId>, ws: seq<Annotation>, done: nat)
    requires SingleWords(nodes, names)
    ensures var r := Tags(nodes, names, ws, done);
      forall x :: 0 <= x < |r| ==> SameButTags(nodes[x], r[x])
    decreases |ws|
  {
    if ws != [] {
      var step := TagStep(nodes, names, ws[0], done + 1);
      TagsKeepShape(step, names, ws[1..], done + 1);
      var r := Tags(nodes, names, ws, done);
      forall x | 0 <= x < |r| ensures SameButTags(nodes[x], r[x]) {
        assert SameButTags(nodes[x], step[x]);
      }
    }
  }

  /** A node that no word hits keeps its tags. */
  lemma {:induction false} TagsUntouched(nodes: seq<Node>, names: map<string, NodeId>, ws: seq<Annotation>, done: nat, x: NodeId)
    requires SingleWords(nodes, names) && x < |nodes|
    requires forall j :: 0 <= j < |ws| && Hits(names, ws[j], done + j + 1) ==> names[KeyOf(ws[j].surface, done + j + 1)] != x
    ensures Tags(nodes, names, ws, done)[x] == nodes[x]
    decreases |ws|
  {
    if ws != [] {
      var step := TagStep(nodes, names, ws[0], done + 1);
      forall j | 0 <= j < |ws[1..]| && Hits(names, ws[1..][j], done + 1 + j + 1)
        ensures names[KeyOf(ws[1..][j].surface, done + 1 + j + 1)] != x
      {
        assert ws[1..][j] == ws[j + 1];
      }
      TagsUntouched(step, names, ws[1..], done + 1, x);
    }
  }

  /** A word leaves alone the node stored under the key of a word at another position. */
  lemma TagStepMisses(nodes: seq<Node>, names: map<string, NodeId>, a: Annotation, index: nat, w: string, other: nat)
    requires SingleWords(nodes, names) && Injective(names)
    requires index != other && KeyOf(w, other) in names
    ensures TagStep(nodes, names, a, index)[names[KeyOf(w, other)]] == nodes[names[KeyOf(w, other)]]
  {
    if Hits(names, a, index) && names[KeyOf(a.surface, index)] == names[KeyOf(w, other)] {
      KeyOfInjective(a.surface, index, w, other);
    }
  }

  /** The first word tags the node stored under its key, and the later words leave that
      node alone. */
  lemma TagsAtFirst(nodes: seq<Node>, names: map<string, NodeId>, ws: seq<Annotation>, done: nat)
    requires SingleWords(nodes, names) && Injective(names)
    requires 0 < |ws| && Hits(names, ws[0], done + 1)
    ensures var x := names[KeyOf(ws[0].surface, done + 1)];
      Tags(nodes, names, ws, done)[x] == Tagged(nodes[x], ws[0])
  {
    var x := names[KeyOf(ws[0].surface, done + 1)];
    var step := TagStep(nodes, names, ws[0], done + 1);
    assert Tags(nodes, names, ws, done) == Tags(step, names, ws[1..], done + 1);
    assert step[x] == Tagged(nodes[x], ws[0]);
    forall j | 0 <= j < |ws[1..]| && Hits(names, ws[1..][j], done + 1 + j + 1)
      ensures names[KeyOf(ws[1..][j].surface, done + 1 + j + 1)] != x
    {
      if names[KeyOf(ws[1..][j].surface, done + 1 + j + 1)] == x {
        KeyOfInjective(ws[1..][j].surface, done + 1 + j + 1, ws[0].surface, done + 1);
      }
    }
    TagsUntouched(step, names, ws[1..], done + 1, x);
  }

  /** Word number `done + i + 1` tags the node stored under its key, and no other word
      touches that node. */
  lemma {:induction false} TagsAt(nodes: seq<Node>, names: map<string, NodeId>, ws: seq<Annotation>, done: nat, i: nat)
    requires SingleWords(nodes, names) && Injective(names)
    requires i < |ws| && Hits(names, ws[i], done + i + 1)
    ensures var x := names[KeyOf(ws[i].surface, done + i + 1)];
      Tags(nodes, names, ws, done)[x] == Tagged(nodes[x], ws[i])
    decreases |ws|
  {
    if i == 0 {
      TagsAtFirst(nodes, names, ws, done);
    } else {
      TagsAtLater(nodes, names, ws, done, i);
    }
  }

  /** The inductive step of `TagsAt`: the first word misses the node, and the rest of the
      words see it at position `i - 1`. */
  lemma {:induction false} TagsAtLater(nodes: seq<Node>, names: map<string, NodeId>, ws: seq<Annotation>, done: nat, i: nat)
    requires SingleWords(nodes, names) && Injective(names)
    requires 0 < i < |ws| && Hits(names, ws[i], done + i + 1)
    ensures var x := names[KeyOf(ws[i].surface, done + i + 1)];
      Tags(nodes, names, ws, done)[x] == Tagged(nodes[x], ws[i])
    decreases |ws|, 0
  {
    var k := KeyOf(ws[i].surface, done + i + 1);
    var x := names[k];
    var step := TagStep(nodes, names, ws[0], done + 1);
    var rest := ws[1..];
    assert Tags(nodes, names, ws, done) == Tags(step, names, rest, done + 1);
    TagStepMisses(nodes, names, ws[0], done + 1, ws[i].surface, done + i + 1);
    assert rest[i - 1] == ws[i] && done + 1 + (i - 1) + 1 == done + i + 1;
    TagsAt(step, names, rest, done + 1, i - 1);
  }

  // ---------------------------------------------------------------------------
  // computeTree
  // ---------------------------------------------------------------------------

  /** The key of the artificial root word. */
  const RootKey := "ROOT-0"

  /** Why `computeTree` gives up: a key without a well-formed index (`ValueError`), or no
      `ROOT-0` among the keys (`KeyError`). */
  datatype BuildError = BadKey(error: KeyFormatError) | MissingRoot

  /** `computeTree(r)` up to and including `initText`: build the arena from the edges, tag
      it from the words, look up the root and set the sentence text on its subtree.
      `keyRank` is a ghost witness that the parse is acyclic. */
  method ComputeTree(edges: seq<Edge>, words: seq<Annotation>, text: string, ghost keyRank: string -> nat)
    returns (f: Forest, r: Result<NodeId, BuildError>)
    requires Descending(edges, keyRank)
    ensures fresh(f)
    ensures var (b, err) := Edges(Built([], map[]), edges);
      && (err.Some? ==> r == Err(BadKey(err.value)))
      && (err.None? && RootKey !in b.names ==> r == Err(MissingRoot))
      && (r.Ok? <==> err.None? && RootKey in b.names)
      && (r.Ok? ==>
            && r.value == b.names[RootKey]
            && SingleWords(b.nodes, b.names)
            && Ranked(Children(Tags(b.nodes, b.names, words, 0)), KeyRanks(b.names, keyRank, |b.nodes|))
            && f.nodes == InitTextAt(Tags(b.nodes, b.names, words, 0), KeyRanks(b.names, keyRank, |b.nodes|), r.value, text))
  {
    f := new Forest();
    ghost var empty := Built([], map[]);
    var names, err := ComputeEdges(f, map[], edges);
    if err.Some? {
      return f, Err(BadKey(err.value));
    }
    ghost var b := Built(f.nodes, names);
    EdgesGrow(empty, edges);
    EdgesKeep(empty, edges);
    BuiltRanked(edges, keyRank);
    assert SingleWords(b.nodes, names);
    ComputeTags(f, names, words);
    TagsKeepShape(b.nodes, names, words, 0);
    ChildrenAgree(f.nodes, b.nodes);
    if RootKey !in names {
      return f, Err(MissingRoot);
    }
    var tree := names[RootKey];
    InitText(f, tree, text, KeyRanks(names, keyRank, |b.nodes|));
    r := Ok(tree);
  }
}
