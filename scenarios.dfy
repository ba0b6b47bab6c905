/** The expectations of tests/core.tests.js, stated about the model.  The
    "simple model" graph of the tests is written down as the node and edge
    lists its add_node and add_edge calls build, and each test's expected
    answer is proved from the contracts of the queries it calls.
 */
module Scenarios {
  import opened Elements
  import opened Tables
  import opened Json
  import opened Ancestors
  import opened Graphs

  /** The nodes of the simple model, in the order they are added. */
  const SimpleNodes: seq<Node> := [NewNode("a", ""), NewNode("b", ""), NewNode("c", ""), NewNode("d", ""),
                                   NewNode("e", ""), NewNode("n", ""), NewNode("x", ""), NewNode("z", "")]

  /** The edges of the simple model, in the order they are added; only
      d -> b names a predicate. */
  const SimpleEdges: seq<Edge> := [NewEdge(ById("b"), ById("a"), ""), NewEdge(ById("c"), ById("a"), ""),
                                   NewEdge(ById("d"), ById("c"), ""), NewEdge(ById("e"), ById("c"), ""),
                                   NewEdge(ById("d"), ById("n"), ""), NewEdge(ById("d"), ById("b"), "is_a"),
                                   NewEdge(ById("y"), ById("x"), "")]

  /** The ids the simple model's add_node calls give. */
  const SimpleIds: set<string> := {"a", "b", "c", "d", "e", "n", "x", "z"}

  /** x is the id of one of the simple model's nodes exactly when it is
      one of the eight ids. */
  lemma SimpleNodeIds(x: string)
    ensures (exists i :: 0 <= i < |SimpleNodes| && SimpleNodes[i].id == x) <==> x in SimpleIds
  {
    if x in SimpleIds {
      var i := if x == "a" then 0 else if x == "b" then 1 else if x == "c" then 2 else if x == "d" then 3
               else if x == "e" then 4 else if x == "n" then 5 else if x == "x" then 6 else 7;
      assert SimpleNodes[i].id == x;
    }
  }

  /** The subjects of the simple model's edges. */
  lemma SimpleSubjects(x: string)
    ensures (exists i :: 0 <= i < |SimpleEdges| && SimpleEdges[i].subjectId == x) <==> x in {"b", "c", "d", "e", "y"}
  {
    if x in {"b", "c", "d", "e", "y"} {
      var i := if x == "b" then 0 else if x == "c" then 1 else if x == "d" then 2 else if x == "e" then 3 else 6;
      assert SimpleEdges[i].subjectId == x;
    }
  }

  /** The objects of the simple model's edges. */
  lemma SimpleObjects(x: string)
    ensures (exists i :: 0 <= i < |SimpleEdges| && SimpleEdges[i].objectId == x) <==> x in {"a", "c", "n", "b", "x"}
  {
    if x in {"a", "c", "n", "b", "x"} {
      var i := if x == "a" then 0 else if x == "c" then 2 else if x == "n" then 4 else if x == "b" then 5 else 6;
      assert SimpleEdges[i].objectId == x;
    }
  }

  /** The simple model's predicate array: the default predicate first,
      then is_a, as add_edge first sees them. */
  lemma SimplePredicates()
    ensures PredicatesOf(SimpleEdges) == [DefaultPredicate, "is_a"]
  {
    var es := SimpleEdges;
    var d := [DefaultPredicate];
    assert PredicatesOf(es[..0]) == [];
    PredicatesOfPrefix(es, 0);
    assert PredicatesOf(es[..1]) == d;
    PredicatesOfPrefix(es, 1);
    PredicatesOfPrefix(es, 2);
    PredicatesOfPrefix(es, 3);
    PredicatesOfPrefix(es, 4);
    assert PredicatesOf(es[..5]) == d;
    PredicatesOfPrefix(es, 5);
    PredicatesOfPrefix(es, 6);
    TakeAll(es);
  }

  /** Adding the simple model's nodes keeps all eight, and its edges have
      two ends each, so every add_edge call is allowed. */
  lemma SimpleModelBuilt()
    ensures AddNodesTo([], SimpleNodes) == SimpleNodes
    ensures forall i :: 0 <= i < |SimpleEdges| ==> SimpleEdges[i].subjectId != "" && SimpleEdges[i].objectId != ""
  {
    AddNodesToEmpty(SimpleNodes);
  }

  /** The (subject, object, predicate) triples of the simple model. */
  const SimpleTriples: set<(string, string, string)> :=
    {("b", "a", DefaultPredicate), ("c", "a", DefaultPredicate), ("d", "c", DefaultPredicate),
     ("e", "c", DefaultPredicate), ("d", "n", DefaultPredicate), ("d", "b", "is_a"), ("y", "x", DefaultPredicate)}

  /** An edge of the simple model has the triple (s, o, p) exactly when it
      is one of the seven triples. */
  lemma SimpleHasTriple(s: string, o: string, p: string)
    ensures HasTriple(SimpleEdges, s, o, p) <==> (s, o, p) in SimpleTriples
  {
    if (s, o, p) in SimpleTriples {
      var i := if (s, o) == ("b", "a") then 0 else if (s, o) == ("c", "a") then 1 else if (s, o) == ("d", "c") then 2
               else if (s, o) == ("e", "c") then 3 else if (s, o) == ("d", "n") then 4 else if (s, o) == ("d", "b") then 5 else 6;
      assert SimpleEdges[i].subjectId == s && SimpleEdges[i].objectId == o && SimpleEdges[i].predicateId == p;
    }
  }

  /** No two edges of the simple model share a triple, so each is the one
      get_edge finds for its triple. */
  lemma SimpleLast(i: int)
    requires 0 <= i < |SimpleEdges|
    ensures LastWithTriple(SimpleEdges, i, SimpleEdges[i].subjectId, SimpleEdges[i].objectId, SimpleEdges[i].predicateId)
  {
  }

  /** A graph whose add_node and add_edge calls were those of the simple
      model. */
  ghost predicate IsSimpleModel(g: Graph)
    reads g
  {
    g.Valid() && g.nodes == SimpleNodes && g.edges == SimpleEdges
  }

  /** Which ids of the simple model are nodes, subjects and objects. */
  lemma SimpleEnds(g: Graph)
    requires g.nodes == SimpleNodes && g.edges == SimpleEdges
    ensures forall x :: g.HasNode(x) <==> x in SimpleIds
    ensures forall x :: g.IsSubject(x) <==> x in {"b", "c", "d", "e", "y"}
    ensures forall x :: g.IsObject(x) <==> x in {"a", "c", "n", "b", "x"}
  {
    forall x
      ensures g.HasNode(x) <==> x in SimpleIds
      ensures g.IsSubject(x) <==> x in {"b", "c", "d", "e", "y"}
      ensures g.IsObject(x) <==> x in {"a", "c", "n", "b", "x"}
    {
      SimpleNodeIds(x);
      SimpleSubjects(x);
      SimpleObjects(x);
    }
  }

  /** The roots and leaves of a graph whose nodes are SimpleIds and whose
      edge ends are those of the simple model. */
  lemma RootsFromEnds(g: Graph, x: string)
    requires g.Valid()
    requires g.HasNode(x) <==> x in SimpleIds
    requires g.IsSubject(x) <==> x in {"b", "c", "d", "e", "y"}
    ensures g.IsRootNode(x) <==> x in {"a", "n", "x", "z"}
  {
  }

  lemma LeavesFromEnds(g: Graph, x: string)
    requires g.Valid()
    requires g.HasNode(x) <==> x in SimpleIds
    requires g.IsObject(x) <==> x in {"a", "c", "n", "b", "x"}
    ensures g.IsLeafNode(x) <==> x in {"d", "e", "z"}
  {
  }

  lemma LonersFromEnds(g: Graph)
    requires forall x :: g.HasNode(x) <==> x in SimpleIds
    requires forall x :: g.IsSubject(x) <==> x in {"b", "c", "d", "e", "y"}
    requires forall x :: g.IsObject(x) <==> x in {"a", "c", "n", "b", "x"}
    ensures forall x :: g.HasNode(x) && !g.IsSubject(x) && !g.IsObject(x) <==> x == "z"
    ensures forall x :: (g.IsSubject(x) || g.IsObject(x)) && !g.HasNode(x) <==> x == "y"
  {
  }

  /** The "graph construction", "leaf correctness" and "root correctness"
      tests: the roots are a, n, x and z, the leaves d, e and z, z is the
      only singleton, y the only dangling id, and the graph is not
      complete. */
  lemma SimpleModelQueries(g: Graph)
    requires IsSimpleModel(g)
    ensures forall x :: g.IsRootNode(x) <==> x in {"a", "n", "x", "z"}
    ensures forall x :: g.IsLeafNode(x) <==> x in {"d", "e", "z"}
    ensures forall x :: g.HasNode(x) && !g.IsSubject(x) && !g.IsObject(x) <==> x == "z"
    ensures forall x :: (g.IsSubject(x) || g.IsObject(x)) && !g.HasNode(x) <==> x == "y"
    ensures !forall i :: 0 <= i < |g.edges| ==> g.HasNode(g.edges[i].subjectId) && g.HasNode(g.edges[i].objectId)
  {
    SimpleEnds(g);
    forall x ensures g.IsRootNode(x) <==> x in {"a", "n", "x", "z"} {
      RootsFromEnds(g, x);
    }
    forall x ensures g.IsLeafNode(x) <==> x in {"d", "e", "z"} {
      LeavesFromEnds(g, x);
    }
    LonersFromEnds(g);
    assert !g.HasNode(g.edges[6].subjectId);
  }

  /** The predicates get_parent_nodes and get_child_nodes go through in the
      simple model: the given one, or both predicates in use. */
  lemma SimplePredicatesToUse(g: Graph, pred: string)
    requires IsSimpleModel(g)
    ensures g.PredicatesToUse(pred) == if pred != "" then [pred] else [DefaultPredicate, "is_a"]
  {
    SimplePredicates();
  }

  /** s points at o in the simple model under pred, or under either
      predicate in use when pred is falsy. */
  ghost predicate SimpleLinked(s: string, o: string, pred: string)
  {
    if pred != "" then (s, o, pred) in SimpleTriples
    else (s, o, DefaultPredicate) in SimpleTriples || (s, o, "is_a") in SimpleTriples
  }

  /** No two ids are linked under both predicates, so the count of linking
      predicates is 0 or 1. */
  lemma SimpleCount(pred: string, s: string, o: string)
    ensures PredicateCount(SimpleEdges, if pred != "" then [pred] else [DefaultPredicate, "is_a"], s, o)
         == if SimpleLinked(s, o, pred) then 1 else 0
  {
    var es := SimpleEdges;
    if pred != "" {
      SimpleHasTriple(s, o, pred);
      assert [pred][..0] == [];
      assert PredicateCount(es, [pred], s, o) == PredicateCount(es, [], s, o) + (if HasTriple(es, s, o, pred) then 1 else 0);
    } else {
      SimpleHasTriple(s, o, DefaultPredicate);
      SimpleHasTriple(s, o, "is_a");
      var ps := [DefaultPredicate, "is_a"];
      assert ps[..1] == [DefaultPredicate] && ps[..1][..0] == [];
      assert PredicateCount(es, ps[..1], s, o) == PredicateCount(es, [], s, o) + (if HasTriple(es, s, o, DefaultPredicate) then 1 else 0);
      assert PredicateCount(es, ps, s, o) == PredicateCount(es, ps[..1], s, o) + (if HasTriple(es, s, o, "is_a") then 1 else 0);
      assert PredicateCount(es, ps, s, o)
          == (if HasTriple(es, s, o, DefaultPredicate) then 1 else 0) + (if HasTriple(es, s, o, "is_a") then 1 else 0);
      assert !((s, o, DefaultPredicate) in SimpleTriples && (s, o, "is_a") in SimpleTriples);
    }
  }

  /** What the contract of get_parent_nodes says in the simple model: each
      node nid points at occurs once, and nothing else occurs. */
  lemma SimpleParents(g: Graph, nid: string, pred: string, r: seq<Node>)
    requires IsSimpleModel(g)
    requires forall x :: CountId(r, x) == if g.HasNode(x) then PredicateCount(g.edges, g.PredicatesToUse(pred), nid, x) else 0
    ensures CountsLinkedFrom(r, nid, pred)
  {
    SimplePredicatesToUse(g, pred);
    SimpleEnds(g);
    forall x ensures CountId(r, x) == if x in SimpleIds && SimpleLinked(nid, x, pred) then 1 else 0 {
      SimpleCount(pred, nid, x);
    }
  }

  /** What the contract of get_child_nodes says in the simple model: each
      node pointing at nid occurs once, and nothing else occurs. */
  lemma SimpleChildren(g: Graph, nid: string, pred: string, r: seq<Node>)
    requires IsSimpleModel(g)
    requires forall x :: CountId(r, x) == if g.HasNode(x) then PredicateCount(g.edges, g.PredicatesToUse(pred), x, nid) else 0
    ensures CountsLinkedTo(r, nid, pred)
  {
    SimplePredicatesToUse(g, pred);
    SimpleEnds(g);
    forall x ensures CountId(r, x) == if x in SimpleIds && SimpleLinked(x, nid, pred) then 1 else 0 {
      SimpleCount(pred, x, nid);
    }
  }

  /** What get_parent_nodes(nid, pred) promises of its result r. */
  ghost predicate ParentNodesResult(g: Graph, nid: string, pred: string, r: seq<Node>)
    reads g
    requires g.Valid()
  {
    forall x :: CountId(r, x) == if g.HasNode(x) then PredicateCount(g.edges, g.PredicatesToUse(pred), nid, x) else 0
  }

  /** What get_child_nodes(nid, pred) promises of its result r. */
  ghost predicate ChildNodesResult(g: Graph, nid: string, pred: string, r: seq<Node>)
    reads g
    requires g.Valid()
  {
    forall x :: CountId(r, x) == if g.HasNode(x) then PredicateCount(g.edges, g.PredicatesToUse(pred), x, nid) else 0
  }

  /** A result that holds each id linked from nid once, and nothing else. */
  ghost predicate CountsLinkedFrom(r: seq<Node>, nid: string, pred: string)
  {
    forall x :: CountId(r, x) == if x in SimpleIds && SimpleLinked(nid, x, pred) then 1 else 0
  }

  /** A result that holds each id linked to nid once, and nothing else. */
  ghost predicate CountsLinkedTo(r: seq<Node>, nid: string, pred: string)
  {
    forall x :: CountId(r, x) == if x in SimpleIds && SimpleLinked(x, nid, pred) then 1 else 0
  }

  /** The nodes the tests expect above a, b and d. */
  lemma LinkedFromCases(x: string)
    ensures x in SimpleIds && SimpleLinked("a", x, "") <==> x in {}
    ensures x in SimpleIds && SimpleLinked("b", x, "") <==> x in {"a"}
    ensures x in SimpleIds && SimpleLinked("d", x, "") <==> x in {"b", "c", "n"}
    ensures x in SimpleIds && SimpleLinked("d", x, DefaultPredicate) <==> x in {"c", "n"}
    ensures x in SimpleIds && SimpleLinked("d", x, "is_a") <==> x in {"b"}
  {
  }

  /** The nodes the tests expect below a, b, d, z and x. */
  lemma LinkedToCases(x: string)
    ensures x in SimpleIds && SimpleLinked(x, "a", "") <==> x in {"b", "c"}
    ensures x in SimpleIds && SimpleLinked(x, "b", "") <==> x in {"d"}
    ensures x in SimpleIds && SimpleLinked(x, "b", DefaultPredicate) <==> x in {}
    ensures x in SimpleIds && SimpleLinked(x, "b", "is_a") <==> x in {"d"}
    ensures x in SimpleIds && SimpleLinked(x, "d", "") <==> x in {}
    ensures x in SimpleIds && SimpleLinked(x, "z", "") <==> x in {}
    ensures x in SimpleIds && SimpleLinked(x, "x", "") <==> x in {}
  {
  }

  /** A result holding the ids linked from nid has one entry per such id. */
  lemma LinkedFromSize(r: seq<Node>, nid: string, pred: string, ids: set<string>)
    requires CountsLinkedFrom(r, nid, pred)
    requires forall x :: x in SimpleIds && SimpleLinked(nid, x, pred) <==> x in ids
    ensures |r| == |ids|
    ensures forall i :: 0 <= i < |r| ==> r[i].id in ids
  {
    CountIdSize(r, ids);
    forall i | 0 <= i < |r| ensures r[i].id in ids {
      CountIdPositive(r, r[i].id);
    }
  }

  /** A result holding the ids linked to nid has one entry per such id. */
  lemma LinkedToSize(r: seq<Node>, nid: string, pred: string, ids: set<string>)
    requires CountsLinkedTo(r, nid, pred)
    requires forall x :: x in SimpleIds && SimpleLinked(x, nid, pred) <==> x in ids
    ensures |r| == |ids|
    ensures forall i :: 0 <= i < |r| ==> r[i].id in ids
  {
    CountIdSize(r, ids);
    forall i | 0 <= i < |r| ensures r[i].id in ids {
      CountIdPositive(r, r[i].id);
    }
  }

  /** The parents of d: b, c and n, split by predicate. */
  lemma ParentCountsOfD(r: seq<Node>, pred: string)
    requires pred in {"", DefaultPredicate, "is_a"} && CountsLinkedFrom(r, "d", pred)
    ensures pred == "" ==> |r| == 3
    ensures pred == DefaultPredicate ==> |r| == 2
    ensures pred == "is_a" ==> |r| == 1 && r[0].id == "b"
  {
    var ids: set<string> := if pred == "" then {"b", "c", "n"} else if pred == DefaultPredicate then {"c", "n"} else {"b"};
    forall x ensures x in SimpleIds && SimpleLinked("d", x, pred) <==> x in ids {
      LinkedFromCases(x);
    }
    LinkedFromSize(r, "d", pred, ids);
  }

  /** The parents of a and b: none and a. */
  lemma ParentCountsOfAAndB(r: seq<Node>, nid: string)
    requires nid in {"a", "b"} && CountsLinkedFrom(r, nid, "")
    ensures nid == "a" ==> |r| == 0
    ensures nid == "b" ==> |r| == 1 && r[0].id == "a"
  {
    var ids: set<string> := if nid == "a" then {} else {"a"};
    forall x ensures x in SimpleIds && SimpleLinked(nid, x, "") <==> x in ids {
      LinkedFromCases(x);
    }
    LinkedFromSize(r, nid, "", ids);
  }

  /** The children of a and b: b and c, and d, which points at b under is_a. */
  lemma ChildCountsOfAAndB(r: seq<Node>, nid: string, pred: string)
    requires nid in {"a", "b"} && pred in {"", DefaultPredicate, "is_a"} && CountsLinkedTo(r, nid, pred)
    ensures nid == "a" && pred != "is_a" ==> |r| == 2
    ensures nid == "b" && pred == DefaultPredicate ==> |r| == 0
    ensures nid == "b" && pred != DefaultPredicate ==> |r| == 1 && r[0].id == "d"
  {
    var ids: set<string> :=
      if nid == "a" then (if pred == "is_a" then {} else {"b", "c"})
      else if pred == DefaultPredicate then {} else {"d"};
    forall x ensures x in SimpleIds && SimpleLinked(x, nid, pred) <==> x in ids {
      LinkedToCases(x);
    }
    LinkedToSize(r, nid, pred, ids);
  }

  /** d, z and x have no children (y points at x, but y is no node). */
  lemma ChildCountsOfLeaves(r: seq<Node>, nid: string)
    requires nid in {"d", "z", "x"} && CountsLinkedTo(r, nid, "")
    ensures |r| == 0
  {
    forall x ensures x in SimpleIds && SimpleLinked(x, nid, "") <==> x in {} {
      LinkedToCases(x);
    }
    LinkedToSize(r, nid, "", {});
  }

  /** "graph structure up": a has no parents and b has one, a. */
  lemma ParentsOfAAndB(g: Graph, nid: string, r: seq<Node>)
    requires IsSimpleModel(g) && nid in {"a", "b"} && ParentNodesResult(g, nid, "", r)
    ensures nid == "a" ==> |r| == 0
    ensures nid == "b" ==> |r| == 1 && r[0].id == "a"
  {
    SimpleParents(g, nid, "", r);
    ParentCountsOfAAndB(r, nid);
  }

  /** "graph structure up": d has three parents, two under the default
      predicate (c and n) and one under is_a (b). */
  lemma ParentsOfD(g: Graph, pred: string, r: seq<Node>)
    requires IsSimpleModel(g) && pred in {"", DefaultPredicate, "is_a"} && ParentNodesResult(g, "d", pred, r)
    ensures pred == "" ==> |r| == 3
    ensures pred == DefaultPredicate ==> |r| == 2
    ensures pred == "is_a" ==> |r| == 1 && r[0].id == "b"
  {
    SimpleParents(g, "d", pred, r);
    ParentCountsOfD(r, pred);
  }

  /** "graph structure down": a has two children, b and c; b has one, d, which
      points at it under is_a and not under the default predicate. */
  lemma ChildrenOfAAndB(g: Graph, nid: string, pred: string, r: seq<Node>)
    requires IsSimpleModel(g) && nid in {"a", "b"} && pred in {"", DefaultPredicate, "is_a"}
    requires ChildNodesResult(g, nid, pred, r)
    ensures nid == "a" && pred != "is_a" ==> |r| == 2
    ensures nid == "b" && pred == DefaultPredicate ==> |r| == 0
    ensures nid == "b" && pred != DefaultPredicate ==> |r| == 1 && r[0].id == "d"
  {
    SimpleChildren(g, nid, pred, r);
    ChildCountsOfAAndB(r, nid, pred);
  }

  /** "graph structure down": d, z and x have no children. */
  lemma Childless(g: Graph, nid: string, r: seq<Node>)
    requires IsSimpleModel(g) && nid in {"d", "z", "x"} && ChildNodesResult(g, nid, "", r)
    ensures |r| == 0
  {
    SimpleChildren(g, nid, "", r);
    ChildCountsOfLeaves(r, nid);
  }

  /** Whether x is a root, and whether it is a leaf, of the simple model. */
  lemma SimpleRoot(g: Graph, x: string)
    requires IsSimpleModel(g)
    ensures g.IsRootNode(x) <==> x in {"a", "n", "x", "z"}
  {
    SimpleNodeIds(x);
    SimpleSubjects(x);
    RootsFromEnds(g, x);
  }

  lemma SimpleLeaf(g: Graph, x: string)
    requires IsSimpleModel(g)
    ensures g.IsLeafNode(x) <==> x in {"d", "e", "z"}
  {
    SimpleNodeIds(x);
    SimpleObjects(x);
    LeavesFromEnds(g, x);
  }

  /** A list of distinct nodes whose ids are the roots or the leaves of the
      simple model has one node per id. */
  lemma ListedCount(r: seq<Node>, ids: set<string>)
    requires ids == {"a", "n", "x", "z"} || ids == {"d", "e", "z"}
    requires DistinctIds(r)
    requires forall i :: 0 <= i < |r| ==> r[i].id in ids
    requires forall x :: x in ids ==> exists i :: 0 <= i < |r| && r[i].id == x
    ensures |r| == if "a" in ids then 4 else 3
  {
    ListedIdsSize(r, ids);
  }

  /** What get_root_nodes promises of its result r. */
  ghost predicate RootNodesResult(g: Graph, r: seq<Node>)
    reads g
    requires g.Valid()
  {
    && DistinctIds(r)
    && (forall i :: 0 <= i < |r| ==> g.IsRootNode(r[i].id))
    && (forall x :: g.IsRootNode(x) ==> exists i :: 0 <= i < |r| && r[i].id == x)
  }

  /** What get_leaf_nodes promises of its result r. */
  ghost predicate LeafNodesResult(g: Graph, r: seq<Node>)
    reads g
    requires g.Valid()
  {
    && DistinctIds(r)
    && (forall i :: 0 <= i < |r| ==> g.IsLeafNode(r[i].id))
    && (forall x :: g.IsLeafNode(x) ==> exists i :: 0 <= i < |r| && r[i].id == x)
  }

  /** What get_singleton_nodes promises of its result r. */
  ghost predicate SingletonNodesResult(g: Graph, r: seq<Node>)
    reads g
  {
    && DistinctIds(r)
    && (forall i :: 0 <= i < |r| ==> r[i] in g.nodes && !g.IsSubject(r[i].id) && !g.IsObject(r[i].id))
    && (forall n :: n in g.nodes && !g.IsSubject(n.id) && !g.IsObject(n.id) ==> n in r)
  }

  /** The roots and the leaves of the simple model. */
  lemma SimpleRoots(g: Graph)
    requires IsSimpleModel(g)
    ensures forall x :: g.IsRootNode(x) <==> x in {"a", "n", "x", "z"}
  {
    forall x ensures g.IsRootNode(x) <==> x in {"a", "n", "x", "z"} {
      SimpleRoot(g, x);
    }
  }

  lemma SimpleLeaves(g: Graph)
    requires IsSimpleModel(g)
    ensures forall x :: g.IsLeafNode(x) <==> x in {"d", "e", "z"}
  {
    forall x ensures g.IsLeafNode(x) <==> x in {"d", "e", "z"} {
      SimpleLeaf(g, x);
    }
  }

  /** A result of get_root_nodes, or of get_leaf_nodes, holds one node per
      root, or per leaf. */
  lemma RootsCounted(g: Graph, r: seq<Node>, ids: set<string>)
    requires g.Valid() && RootNodesResult(g, r)
    requires ids == {"a", "n", "x", "z"} && forall x :: g.IsRootNode(x) <==> x in ids
    ensures |r| == 4
  {
    forall x | x in ids ensures exists i :: 0 <= i < |r| && r[i].id == x {
      assert g.IsRootNode(x);
    }
    ListedCount(r, ids);
  }

  lemma LeavesCounted(g: Graph, r: seq<Node>, ids: set<string>)
    requires g.Valid() && LeafNodesResult(g, r)
    requires ids == {"d", "e", "z"} && forall x :: g.IsLeafNode(x) <==> x in ids
    ensures |r| == 3
  {
    forall x | x in ids ensures exists i :: 0 <= i < |r| && r[i].id == x {
      assert g.IsLeafNode(x);
    }
    ListedCount(r, ids);
  }

  /** "root correctness": get_root_nodes returns four nodes. */
  lemma RootCount(g: Graph, r: seq<Node>)
    requires IsSimpleModel(g) && RootNodesResult(g, r)
    ensures |r| == 4
  {
    SimpleRoots(g);
    RootsCounted(g, r, {"a", "n", "x", "z"});
  }

  /** "leaf correctness": get_leaf_nodes returns three nodes. */
  lemma LeafCount(g: Graph, r: seq<Node>)
    requires IsSimpleModel(g) && LeafNodesResult(g, r)
    ensures |r| == 3
  {
    SimpleLeaves(g);
    LeavesCounted(g, r, {"d", "e", "z"});
  }

  /** z is the one node that is no end of an edge, and y the one end that
      is no node. */
  lemma SimpleLoners(g: Graph)
    requires g.nodes == SimpleNodes && g.edges == SimpleEdges
    ensures forall x :: g.HasNode(x) && !g.IsSubject(x) && !g.IsObject(x) <==> x == "z"
    ensures forall x :: (g.IsSubject(x) || g.IsObject(x)) && !g.HasNode(x) <==> x == "y"
  {
    SimpleEnds(g);
    LonersFromEnds(g);
  }

  /** A result of get_singleton_nodes in a graph whose one lone node is z. */
  lemma SingletonCounted(g: Graph, r: seq<Node>)
    requires SingletonNodesResult(g, r) && NewNode("z", "") in g.nodes
    requires forall x :: g.HasNode(x) && !g.IsSubject(x) && !g.IsObject(x) <==> x == "z"
    ensures |r| == 1 && r[0].id == "z"
  {
    forall i | 0 <= i < |r| ensures r[i].id == "z" {
      var k :| 0 <= k < |g.nodes| && g.nodes[k] == r[i];
      assert g.HasNode(g.nodes[k].id);
    }
    var k :| 0 <= k < |g.nodes| && g.nodes[k] == NewNode("z", "");
    assert g.HasNode(g.nodes[k].id);
    assert NewNode("z", "") in r;
    ListedIdsSize(r, {"z"});
  }

  /** "graph construction": just one singleton, z. */
  lemma SingletonIsZ(g: Graph, r: seq<Node>)
    requires IsSimpleModel(g) && SingletonNodesResult(g, r)
    ensures |r| == 1 && r[0].id == "z"
  {
    SimpleLoners(g);
    assert g.nodes[7] == NewNode("z", "");
    SingletonCounted(g, r);
  }

  /** A list of distinct ids that holds y and nothing else is [y]. */
  lemma OnlyY(r: seq<string>)
    requires Distinct(r)
    requires forall x :: x in r <==> x == "y"
    ensures r == ["y"]
  {
    assert "y" in r;
    var last := |r| - 1;
    assert r[0] in r && r[last] in r;
    assert last == 0;
  }

  /** "graph construction": just one dangling id, y. */
  lemma DanglingIsY(g: Graph, r: seq<string>)
    requires IsSimpleModel(g) && Distinct(r)
    requires forall x :: x in r <==> (g.IsSubject(x) || g.IsObject(x)) && !g.HasNode(x)
    ensures r == ["y"]
  {
    SimpleLoners(g);
    OnlyY(r);
  }

  /** The ancestor walk from d, on any store whose parent steps are those of
      the simple model: every parent edge leads up from d to a, b, c and n,
      and along is_a only to b. */
  lemma AncestorsOfD(v: Store, pid: string, keys: set<string>)
    requires pid in {"", "is_a"} && "d" in v.nodeHash
    requires forall x, y :: ParentStep(v, pid, x, y) <==> y in SimpleIds && SimpleLinked(x, y, pid)
    requires Closed(v, pid, keys) && NeedsAll(v, pid, ["d"], keys)
    requires forall t :: Closed(v, pid, t) && NeedsAll(v, pid, ["d"], t) ==> keys <= t
    ensures keys == SubIds(pid)
  {
    var t: set<string> := SubIds(pid);
    forall x, y | x in t && ParentStep(v, pid, x, y) ensures y in t {
      assert SimpleLinked(x, y, pid);
    }
    assert Needs(v, pid, "d", t);
    assert keys <= t;
    assert Needs(v, pid, "d", keys);
    assert ParentStep(v, pid, "d", "b");
    if pid == "" {
      assert ParentStep(v, pid, "d", "c") && ParentStep(v, pid, "d", "n");
      assert ParentStep(v, pid, "b", "a");
    }
  }

  /** One step up in the simple model: along the default predicate or is_a
      when no predicate is given, along is_a only when it is given. */
  lemma SimpleSteps(g: Graph, pid: string)
    requires IsSimpleModel(g) && pid in {"", "is_a"}
    ensures forall x, y :: ParentStep(g.View(), pid, x, y) <==> y in SimpleIds && SimpleLinked(x, y, pid)
  {
    SimplePredicatesToUse(g, pid);
    SimpleEnds(g);
    g.NodeFacts();
    forall x, y ensures ParentStep(g.View(), pid, x, y) <==> y in SimpleIds && SimpleLinked(x, y, pid) {
      g.ParentStepMeans(pid, x, y);
      SimpleHasTriple(x, y, DefaultPredicate);
      SimpleHasTriple(x, y, "is_a");
      assert g.PredicatesToUse(pid) == if pid == "" then [DefaultPredicate, "is_a"] else ["is_a"];
    }
  }

  /** What get_ancestor_subgraph(starts, pid) promises of the graph it
      returns. */
  ghost predicate AncestorResult(g: Graph, starts: seq<string>, pid: string, sub: Graph)
    reads g, sub
    requires g.Valid()
  {
    && sub.Valid()
    && Closed(g.View(), pid, sub.nodeHash.Keys) && NeedsAll(g.View(), pid, starts, sub.nodeHash.Keys)
    && (forall t :: Closed(g.View(), pid, t) && NeedsAll(g.View(), pid, starts, t) ==> sub.nodeHash.Keys <= t)
    && (forall e :: e in sub.edges <==>
          IsParentEdge(g.View(), pid, e) && (e.subjectId in sub.nodeHash || e.subjectId in starts))
  }

  /** The triples of the ancestor subgraph of d: every triple of the simple
      model whose subject is reached from d, along is_a only when pid is. */
  function SubTriples(pid: string): (ts: set<(string, string, string)>)
    ensures ts <= SimpleTriples
  {
    if pid == "" then SimpleTriples - {("y", "x", DefaultPredicate), ("e", "c", DefaultPredicate)}
    else {("d", "b", "is_a")}
  }

  /** The ids the ancestor walk from d marks. */
  function SubIds(pid: string): (ids: set<string>)
    ensures "d" in ids && ids <= SimpleIds
  {
    if pid == "" then {"a", "b", "c", "d", "n"} else {"b", "d"}
  }

  /** The subjects of the subgraph's edges. */
  function SubSubjectIds(pid: string): (ids: set<string>)
    ensures ids <= SubIds(pid)
  {
    if pid == "" then {"b", "c", "d"} else {"d"}
  }

  /** The objects of the subgraph's edges. */
  function SubObjectIds(pid: string): (ids: set<string>)
    ensures ids <= SubIds(pid)
  {
    if pid == "" then {"a", "b", "c", "n"} else {"b"}
  }

  /** The walk from d marks SubIds. */
  lemma SubgraphNodes(g: Graph, pid: string, sub: Graph)
    requires IsSimpleModel(g) && pid in {"", "is_a"} && AncestorResult(g, ["d"], pid, sub)
    ensures sub.nodeHash.Keys == SubIds(pid)
  {
    var v := g.View();
    SimpleSteps(g, pid);
    g.NodeFacts();
    assert g.nodes[3].id == "d";
    assert "d" in v.nodeHash;
    assert Closed(v, pid, sub.nodeHash.Keys) && NeedsAll(v, pid, ["d"], sub.nodeHash.Keys);
    assert forall t :: Closed(v, pid, t) && NeedsAll(v, pid, ["d"], t) ==> sub.nodeHash.Keys <= t;
    AncestorsOfD(v, pid, sub.nodeHash.Keys);
  }

  /** A triple of the simple model is one of the subgraph's exactly when its
      subject is marked and its predicate is walked. */
  lemma SubTripleMeans(pid: string, t: (string, string, string))
    requires pid in {"", "is_a"}
    ensures t in SubTriples(pid) <==>
      t in SimpleTriples && t.0 in SubIds(pid) && t.2 in (if pid == "" then [DefaultPredicate, "is_a"] else [pid])
  {
  }

  /** Every edge of the ancestor subgraph of d carries one of its triples. */
  lemma SubgraphEdgesIn(g: Graph, pid: string, sub: Graph)
    requires IsSimpleModel(g) && pid in {"", "is_a"} && AncestorResult(g, ["d"], pid, sub)
    requires sub.nodeHash.Keys == SubIds(pid)
    ensures forall e :: e in sub.edges ==> (e.subjectId, e.objectId, e.predicateId) in SubTriples(pid)
  {
    SimplePredicatesToUse(g, pid);
    forall e | e in sub.edges ensures (e.subjectId, e.objectId, e.predicateId) in SubTriples(pid) {
      g.IsParentEdgeMeans(pid, e);
      SimpleHasTriple(e.subjectId, e.objectId, e.predicateId);
      SubTripleMeans(pid, (e.subjectId, e.objectId, e.predicateId));
    }
  }

  /** Every triple of the ancestor subgraph of d is carried by one of its
      edges. */
  lemma SubgraphEdgesCover(g: Graph, pid: string, sub: Graph)
    requires IsSimpleModel(g) && pid in {"", "is_a"} && AncestorResult(g, ["d"], pid, sub)
    requires sub.nodeHash.Keys == SubIds(pid)
    ensures forall t :: t in SubTriples(pid) ==> exists e :: e in sub.edges && (e.subjectId, e.objectId, e.predicateId) == t
  {
    SimplePredicatesToUse(g, pid);
    forall t | t in SubTriples(pid) ensures exists e :: e in sub.edges && (e.subjectId, e.objectId, e.predicateId) == t {
      SubTripleMeans(pid, t);
      SimpleHasTriple(t.0, t.1, t.2);
      var e := g.GetEdge(t.0, t.1, t.2).value;
      g.IsParentEdgeMeans(pid, e);
      assert e in sub.edges;
    }
  }

  /** The subjects and objects of a list of edges are those of its triples. */
  lemma EndsOfTriples(es: seq<Edge>, ts: set<(string, string, string)>, x: string)
    requires forall e :: e in es ==> (e.subjectId, e.objectId, e.predicateId) in ts
    requires forall t :: t in ts ==> exists e :: e in es && (e.subjectId, e.objectId, e.predicateId) == t
    ensures (exists i :: 0 <= i < |es| && es[i].subjectId == x) <==> exists t :: t in ts && t.0 == x
    ensures (exists i :: 0 <= i < |es| && es[i].objectId == x) <==> exists t :: t in ts && t.1 == x
  {
    if i :| 0 <= i < |es| && es[i].subjectId == x {
      assert es[i] in es;
    }
    if i :| 0 <= i < |es| && es[i].objectId == x {
      assert es[i] in es;
    }
    if t :| t in ts && t.0 == x {
      var e :| e in es && (e.subjectId, e.objectId, e.predicateId) == t;
      var i :| 0 <= i < |es| && es[i] == e;
    }
    if t :| t in ts && t.1 == x {
      var e :| e in es && (e.subjectId, e.objectId, e.predicateId) == t;
      var i :| 0 <= i < |es| && es[i] == e;
    }
  }

  /** The subjects of the subgraph's triples. */
  lemma SubSubjects(pid: string, x: string)
    requires pid in {"", "is_a"}
    ensures (exists t :: t in SubTriples(pid) && t.0 == x) <==> x in SubSubjectIds(pid)
  {
    if x in SubSubjectIds(pid) {
      var t := if x == "b" then ("b", "a", DefaultPredicate) else if x == "c" then ("c", "a", DefaultPredicate)
               else if pid == "" then ("d", "c", DefaultPredicate) else ("d", "b", "is_a");
      assert t in SubTriples(pid);
    }
  }

  /** The objects of the subgraph's triples. */
  lemma SubObjects(pid: string, x: string)
    requires pid in {"", "is_a"}
    ensures (exists t :: t in SubTriples(pid) && t.1 == x) <==> x in SubObjectIds(pid)
  {
    if x in SubObjectIds(pid) {
      var t := if x == "a" then ("b", "a", DefaultPredicate) else if x == "b" then ("d", "b", "is_a")
               else if x == "c" then ("d", "c", DefaultPredicate) else ("d", "n", DefaultPredicate);
      assert t in SubTriples(pid);
    }
  }

  /** The nodes, subjects and objects of the ancestor subgraph of d: a, b,
      c, d and n with the edges b -> a, c -> a, d -> c, d -> n and d -> b;
      along is_a only, b and d with the edge d -> b. */
  lemma SubgraphOfD(g: Graph, pid: string, sub: Graph)
    requires IsSimpleModel(g) && pid in {"", "is_a"} && AncestorResult(g, ["d"], pid, sub)
    ensures forall x :: sub.HasNode(x) <==> x in SubIds(pid)
    ensures forall x :: sub.IsSubject(x) <==> x in SubSubjectIds(pid)
    ensures forall x :: sub.IsObject(x) <==> x in SubObjectIds(pid)
  {
    SubgraphNodes(g, pid, sub);
    SubgraphEdgesIn(g, pid, sub);
    SubgraphEdgesCover(g, pid, sub);
    sub.NodeFacts();
    forall x
      ensures sub.IsSubject(x) <==> x in SubSubjectIds(pid)
      ensures sub.IsObject(x) <==> x in SubObjectIds(pid)
    {
      EndsOfTriples(sub.edges, SubTriples(pid), x);
      SubSubjects(pid, x);
      SubObjects(pid, x);
    }
  }

  /** The roots of the ancestor subgraph of d. */
  function SubRootIds(pid: string): (ids: set<string>)
    ensures ids <= SubIds(pid)
  {
    if pid == "" then {"a", "n"} else {"b"}
  }

  /** "subgraph test 1" and "subgraph test 2": the roots of the ancestor
      subgraph of d are a and n (b along is_a only), and d is its one
      leaf. */
  lemma SubgraphQueries(g: Graph, pid: string, sub: Graph)
    requires IsSimpleModel(g) && pid in {"", "is_a"} && AncestorResult(g, ["d"], pid, sub)
    ensures forall x :: sub.IsRootNode(x) <==> x in SubRootIds(pid)
    ensures forall x :: sub.IsLeafNode(x) <==> x == "d"
  {
    SubgraphOfD(g, pid, sub);
    forall x ensures sub.IsRootNode(x) <==> x in SubRootIds(pid) {
      SubRootFromEnds(sub, pid, x);
    }
    forall x ensures sub.IsLeafNode(x) <==> x == "d" {
      SubLeafFromEnds(sub, pid, x);
    }
  }

  /** Whether x is a root, and whether it is a leaf, of a graph with the
      nodes and ends of the ancestor subgraph of d. */
  lemma SubRootFromEnds(sub: Graph, pid: string, x: string)
    requires sub.Valid() && pid in {"", "is_a"}
    requires sub.HasNode(x) <==> x in SubIds(pid)
    requires sub.IsSubject(x) <==> x in SubSubjectIds(pid)
    ensures sub.IsRootNode(x) <==> x in SubRootIds(pid)
  {
  }

  lemma SubLeafFromEnds(sub: Graph, pid: string, x: string)
    requires sub.Valid() && pid in {"", "is_a"}
    requires sub.HasNode(x) <==> x in SubIds(pid)
    requires sub.IsObject(x) <==> x in SubObjectIds(pid)
    ensures sub.IsLeafNode(x) <==> x == "d"
  {
  }

  /** A result of get_root_nodes on the subgraph has one node per root, and
      one of get_leaf_nodes is just d. */
  lemma SubgraphCounts(g: Graph, pid: string, sub: Graph, roots: seq<Node>, leaves: seq<Node>)
    requires IsSimpleModel(g) && pid in {"", "is_a"} && AncestorResult(g, ["d"], pid, sub)
    requires RootNodesResult(sub, roots) && LeafNodesResult(sub, leaves)
    ensures |roots| == (if pid == "" then 2 else 1)
    ensures |leaves| == 1 && leaves[0].id == "d"
  {
    SubgraphQueries(g, pid, sub);
    forall x | x in SubRootIds(pid) ensures exists i :: 0 <= i < |roots| && roots[i].id == x {
      assert sub.IsRootNode(x);
    }
    ListedIdsSize(roots, SubRootIds(pid));
    assert sub.IsLeafNode("d");
    ListedIdsSize(leaves, {"d"});
  }

  /** "node / works at all": a node built with id a is typed node, and
      setting its id to b gives id b. */
  lemma NodeTest()
    ensures NewNode("a", "").id == "a" && NewNode("a", "").kind == "node"
    ensures NewNode("a", "").SetId("b").id == "b"
  {
    NodeSetterLaws(NewNode("a", ""), "b", None);
  }

  /** "edges / basically functional": an edge built from two nodes takes
      their ids and the default predicate; one built from raw ids keeps them
      and the given predicate. */
  lemma EdgeTest()
    ensures var e1 := NewEdge(ByNode(NewNode("a", "")), ByNode(NewNode("b", "")), "");
      e1.subjectId == "a" && e1.objectId == "b" && e1.predicateId == DefaultPredicate && e1.WellFormed()
    ensures NewEdge(ByNode(NewNode("b", "")), ByNode(NewNode("c", "")), "foo").predicateId == "foo"
    ensures NewEdge(ById("d"), ById("e"), "bar").objectId == "e"
  {
  }

  /** The document of the "roundtrip" test. */
  const SimpleDocument: Document :=
    Document(Some([NodeRecord("a", "A", None), NodeRecord("b", "B", None)]),
             Some([EdgeRecord("a", "b", "is_a", None)]))

  /** "roundtrip": loading the document into a new graph and exporting it
      gives the document back. */
  lemma SimpleDocumentRoundTrip()
    ensures Export(AddNodesTo([], ImportNodes(SimpleDocument)), ImportEdges(SimpleDocument)) == SimpleDocument
  {
    var d := SimpleDocument;
    assert d.nodes.value[0].id != d.nodes.value[1].id;
    assert RoundTrips(d);
    RoundTrip(d);
  }
}
