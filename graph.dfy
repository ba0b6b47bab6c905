/** The graph of lib/graph.js: nodes, edges and the lookup tables add_node and
    add_edge keep in step with them.

    Every table is a field, updated the way the source updates it.  Valid()
    states what each table holds: each one equals the fold (module Tables) of
    the edge list or the node list.  So a query that reads a table can be
    specified in terms of the lists alone.
 */
module Graphs {
  import opened Elements
  import opened Tables
  import opened Json
  import opened Ancestors

  /** The predicate get_edge looks for: the given one, or the default one
      when the given one is falsy. */
  function PredicateOrDefault(pred: string): (p: PredicateId)
    ensures pred != "" ==> p == pred
    ensures pred == "" ==> p == DefaultPredicate
  {
    if pred != "" then pred else DefaultPredicate
  }

  /** get_edge falls back to the predicate the edge constructor falls back
      to, so the edge added last, built from two ends and a predicate
      argument, is what get_edge returns for those ids and that same
      argument, falsy or not. */
  lemma ConstructedEdgeFound(g: Graph, sub: Endpoint, obj: Endpoint, pred: string)
    requires g.Valid() && |g.edges| > 0 && g.edges[|g.edges| - 1] == NewEdge(sub, obj, pred)
    ensures g.GetEdge(sub.ResolvedId(), obj.ResolvedId(), pred) == Some(NewEdge(sub, obj, pred))
  {
    var e := NewEdge(sub, obj, pred);
    assert PredicateOrDefault(pred) == e.predicateId;
    assert LastWithTriple(g.edges, |g.edges| - 1, sub.ResolvedId(), obj.ResolvedId(), e.predicateId);
  }

  /** The errors edges_to_nodes throws. */
  datatype GraphError = BadTarget | WorldIssue(target: string)

  /** The first argument of get_ancestor_subgraph: one id or a list of ids. */
  datatype IdOrList = OneId(id: string) | IdList(ids: seq<string>)
  {
    function Ids(): (r: seq<string>)
      ensures OneId? ==> r == [id]
      ensures IdList? ==> r == ids
    {
      match this
      case OneId(x) => [x]
      case IdList(xs) => xs
    }
  }

  /** The end of an edge edges_to_nodes reads for a target. */
  function EndOf(e: Edge, target: string): (x: string)
  {
    if target == "subject" then e.subjectId else e.objectId
  }

  /** A copy of every node of an id-keyed table whose id is outside
      `excluded`, once each (the loop get_root_nodes and get_leaf_nodes share;
      the copy is a clone of what get_node returns, which is again a clone). */
  method CopiesOutside(hash: map<string, Node>, excluded: set<string>) returns (r: seq<Node>)
    requires forall k :: k in hash ==> hash[k].id == k
    ensures DistinctIds(r)
    ensures forall i :: 0 <= i < |r| ==> r[i].id in hash && r[i].id !in excluded && r[i] == hash[r[i].id].Clone()
    ensures forall x :: x in hash && x !in excluded ==> exists i :: 0 <= i < |r| && r[i].id == x
  {
    r := [];
    var rest := hash.Keys;
    while rest != {}
      invariant rest <= hash.Keys
      invariant DistinctIds(r)
      invariant forall i :: 0 <= i < |r| ==>
        r[i].id in hash.Keys - rest && r[i].id !in excluded && r[i] == hash[r[i].id].Clone()
      invariant forall x :: x in hash.Keys - rest && x !in excluded ==> exists i :: 0 <= i < |r| && r[i].id == x
      decreases rest
    {
      var x :| x in rest;
      if x !in excluded {
        ghost var before := r;
        NodeCloneLaws(hash[x]);
        r := r + [hash[x].Clone().Clone()];
        assert forall i :: 0 <= i < |before| ==> r[i] == before[i];
        assert r[|r| - 1].id == x;
      }
      rest := rest - {x};
    }
  }

  /** The entries of an id-keyed table under the given keys, once each. */
  method Originals(hash: map<string, Node>, keys: set<string>) returns (r: seq<Node>)
    requires keys <= hash.Keys
    requires forall k :: k in hash ==> hash[k].id == k
    ensures DistinctIds(r)
    ensures forall i :: 0 <= i < |r| ==> r[i].id in keys && r[i] == hash[r[i].id]
    ensures forall x :: x in keys ==> exists i :: 0 <= i < |r| && r[i].id == x
  {
    r := [];
    var rest := keys;
    while rest != {}
      invariant rest <= keys
      invariant DistinctIds(r)
      invariant forall i :: 0 <= i < |r| ==> r[i].id in keys - rest && r[i] == hash[r[i].id]
      invariant forall x :: x in keys && x !in rest ==> exists i :: 0 <= i < |r| && r[i].id == x
      decreases rest
    {
      var x :| x in rest;
      ghost var before := r;
      r := r + [hash[x]];
      assert forall i :: 0 <= i < |before| ==> r[i] == before[i];
      assert r[|r| - 1].id == x;
      rest := rest - {x};
    }
  }

  /** The loop of get_child_nodes over the subjects pointing at nid: a copy
      of each one that is a node and has an edge to nid under p. */
  method ChildCopies(hash: map<string, Node>, sop: SopTable, subjects: set<string>, nid: string, p: string)
    returns (r: seq<Node>)
    requires forall k :: k in hash ==> hash[k].id == k
    ensures forall k :: 0 <= k < |r| ==> r[k].id in hash && r[k] == hash[r[k].id].Clone()
    ensures forall x :: CountId(r, x) == if x in subjects && x in hash && Lookup(sop, x, nid, p).Some? then 1 else 0
  {
    r := [];
    var rest := subjects;
    while rest != {}
      invariant rest <= subjects
      invariant forall k :: 0 <= k < |r| ==> r[k].id in hash && r[k] == hash[r[k].id].Clone()
      invariant forall x :: CountId(r, x) == if x in subjects && x !in rest && x in hash && Lookup(sop, x, nid, p).Some? then 1 else 0
      decreases rest
    {
      var sub :| sub in rest;
      if Lookup(sop, sub, nid, p).Some? && sub in hash {
        var child := hash[sub].Clone();
        ghost var before := r;
        r := r + [child];
        forall x ensures CountId(r, x) == CountId(before, x) + (if sub == x then 1 else 0) {
          CountIdAppend(before, [child], x);
        }
      }
      rest := rest - {sub};
    }
  }

  /** The loop of get_parent_nodes: get_node on the object end of each
      edge, keeping the copies of the ends that are nodes. */
  method ObjectNodes(hash: map<string, Node>, es: seq<Edge>) returns (r: seq<Node>)
    requires forall x :: x in hash ==> hash[x].id == x
    ensures forall k :: 0 <= k < |r| ==> r[k].id in hash && r[k] == hash[r[k].id].Clone()
    ensures forall x :: CountId(r, x) == if x in hash then CountObject(es, x) else 0
  {
    r := [];
    for i := 0 to |es|
      invariant forall k :: 0 <= k < |r| ==> r[k].id in hash && r[k] == hash[r[k].id].Clone()
      invariant forall x :: CountId(r, x) == if x in hash then CountObject(es[..i], x) else 0
    {
      var objId := es[i].objectId;
      CountObjectPrefix(es, i);
      if objId in hash {
        var n := hash[objId].Clone();
        ghost var before := r;
        r := r + [n];
        forall x ensures CountId(r, x) == CountId(before, x) + (if n.id == x then 1 else 0) {
          CountIdAppend(before, [n], x);
        }
      }
    }
    TakeAll(es);
  }

  /** The loop of all_dangling: each named id that is not a node, once. */
  method DanglingIds(named: set<string>, hash: map<string, Node>) returns (r: seq<string>)
    ensures Distinct(r)
    ensures forall x :: x in r <==> x in named && x !in hash
  {
    r := [];
    var rest := named;
    while rest != {}
      invariant rest <= named
      invariant Distinct(r)
      invariant forall x :: x in r <==> x in named && x !in rest && x !in hash
      decreases rest
    {
      var x :| x in rest;
      if x !in hash {
        r := r + [x];
      }
      rest := rest - {x};
    }
  }

  /** The last part of get_ancestor_subgraph: a new graph, then add_node
      for each marked node and add_edge for each listed edge. */
  method BuildGraph(ns: map<string, Node>, es: seq<Edge>) returns (g: Graph)
    requires forall x :: x in ns ==> ns[x].id == x && x != ""
    requires forall e :: e in es ==> e.subjectId != "" && e.objectId != ""
    ensures fresh(g) && g.Valid()
    ensures g.nodeHash == ns && g.edges == es && g.id == ""
  {
    g := new Graph();
    AddNodesOf(g, ns);
    AddEdgesOf(g, es);
  }

  /** add_node for each node of an id-keyed table, into a graph without
      nodes. */
  method AddNodesOf(g: Graph, ns: map<string, Node>)
    requires g.Valid() && g.nodeHash == map[]
    requires forall x :: x in ns ==> ns[x].id == x && x != ""
    modifies g
    ensures g.Valid() && g.nodeHash == ns && g.edges == old(g.edges) && g.id == old(g.id)
  {
    var rest := ns.Keys;
    while rest != {}
      invariant g.Valid()
      invariant rest <= ns.Keys
      invariant g.nodeHash.Keys == ns.Keys - rest
      invariant forall k :: k in g.nodeHash ==> g.nodeHash[k] == ns[k]
      invariant g.edges == old(g.edges) && g.id == old(g.id)
      decreases rest
    {
      var k :| k in rest;
      g.AddNode(ns[k]);
      rest := rest - {k};
    }
    assert g.nodeHash == ns;
  }

  /** add_edge for each edge of a list, in order. */
  method AddEdgesOf(g: Graph, es: seq<Edge>)
    requires g.Valid()
    requires forall e :: e in es ==> e.subjectId != "" && e.objectId != ""
    modifies g
    ensures g.Valid() && g.edges == old(g.edges) + es
    ensures g.nodes == old(g.nodes) && g.nodeHash == old(g.nodeHash) && g.id == old(g.id)
  {
    for x := 0 to |es|
      invariant g.Valid()
      invariant g.nodes == old(g.nodes) && g.nodeHash == old(g.nodeHash) && g.id == old(g.id)
      invariant g.edges == old(g.edges) + es[..x]
    {
      assert es[x] in es;
      PrefixSnoc(es, old(g.edges), x);
      g.AddEdge(es[x]);
    }
    TakeAll(es);
  }

  /** add_node for each node of a list, in order. */
  method AddNodeList(g: Graph, ns: seq<Node>)
    requires g.Valid()
    modifies g
    ensures g.Valid() && g.nodes == AddNodesTo(old(g.nodes), ns)
    ensures g.edges == old(g.edges) && g.id == old(g.id)
  {
    for x := 0 to |ns|
      invariant g.Valid()
      invariant g.nodes == AddNodesTo(old(g.nodes), ns[..x])
      invariant g.edges == old(g.edges) && g.id == old(g.id)
    {
      AddNodesToSnoc(old(g.nodes), ns, x);
      g.AddNode(ns[x]);
    }
    TakeAll(ns);
  }

  /** A copy of each node of a list. */
  function CloneNodes(ns: seq<Node>): (cs: seq<Node>)
  {
    seq(|ns|, i requires 0 <= i < |ns| => ns[i].Clone())
  }

  /** A copy of each edge of a list. */
  function CloneEdges(es: seq<Edge>): (cs: seq<Edge>)
  {
    seq(|es|, i requires 0 <= i < |es| => es[i].Clone())
  }

  /** The graph's stores agree: the node hash is that of the node array,
      the edge tables are those of the edge array, and the named and
      singleton hashes are what the node and end sets make them. */
  ghost predicate Consistent(nodes: seq<Node>, nodeHash: map<string, Node>, edges: seq<Edge>, tables: EdgeTables,
                             namedNodes: set<string>, singletons: set<string>)
  {
    && NodeStore(nodes, nodeHash)
    && EdgeStore(edges, tables)
    && namedNodes == nodeHash.Keys + tables.subjects + tables.objects
    && singletons == nodeHash.Keys - tables.subjects - tables.objects
  }

  /** add_node of a node with a new id keeps the stores in agreement. */
  lemma NodeAdded(nodes: seq<Node>, nodeHash: map<string, Node>, edges: seq<Edge>, tables: EdgeTables,
                  namedNodes: set<string>, singletons: set<string>, n: Node)
    requires Consistent(nodes, nodeHash, edges, tables, namedNodes, singletons)
    requires n.id != "" && n.id !in nodeHash
    ensures AddNodeTo(nodes, n) == nodes + [n]
    ensures Consistent(nodes + [n], nodeHash[n.id := n], edges, tables, namedNodes + {n.id},
                       if n.id in tables.subjects || n.id in tables.objects then singletons else singletons + {n.id})
  {
    NodeStoreAdd(nodes, nodeHash, n);
  }

  /** add_edge keeps the stores in agreement. */
  lemma EdgeAdded(nodes: seq<Node>, nodeHash: map<string, Node>, edges: seq<Edge>, tables: EdgeTables,
                  namedNodes: set<string>, singletons: set<string>, e: Edge)
    requires Consistent(nodes, nodeHash, edges, tables, namedNodes, singletons)
    requires e.subjectId != "" && e.objectId != ""
    ensures Consistent(nodes, nodeHash, edges + [e], tables.Insert(e), namedNodes + {e.subjectId, e.objectId},
                       singletons - {e.subjectId, e.objectId})
  {
    EdgeStoreSnoc(edges, tables, e);
    var t := tables.Insert(e);
    assert t.subjects == tables.subjects + {e.subjectId} && t.objects == tables.objects + {e.objectId};
    EndsAdded(nodeHash.Keys, tables.subjects, tables.objects, namedNodes, singletons, e.subjectId, e.objectId);
  }

  /** The named and singleton sets once s and o are ends of an edge. */
  lemma EndsAdded(keys: set<string>, subjects: set<string>, objects: set<string>,
                  namedNodes: set<string>, singletons: set<string>, s: string, o: string)
    requires namedNodes == keys + subjects + objects && singletons == keys - subjects - objects
    ensures namedNodes + {s, o} == keys + (subjects + {s}) + (objects + {o})
    ensures singletons - {s, o} == keys - (subjects + {s}) - (objects + {o})
  {
  }

  class Graph {
    var id: string
    /** The node array and the node hash (id -> node). */
    var nodes: seq<Node>
    var nodeHash: map<string, Node>
    /** The edge array, in the order the edges were added. */
    var edges: seq<Edge>
    /** The predicate array and hash, the subject and object hashes and the
        so, os and sop tables. */
    var tables: EdgeTables
    /** Every id that is a node or an end of an edge. */
    var namedNodes: set<string>
    /** Node ids that are no end of any edge. */
    var singletons: set<string>

    ghost predicate Valid()
      reads this
    {
      Consistent(nodes, nodeHash, edges, tables, namedNodes, singletons)
    }

    /** A node with id x has been added. */
    ghost predicate HasNode(x: string)
      reads this
    {
      exists i :: 0 <= i < |nodes| && nodes[i].id == x
    }

    /** Some edge has subject x. */
    ghost predicate IsSubject(x: string)
      reads this
    {
      exists i :: 0 <= i < |edges| && edges[i].subjectId == x
    }

    /** Some edge has object x. */
    ghost predicate IsObject(x: string)
      reads this
    {
      exists i :: 0 <= i < |edges| && edges[i].objectId == x
    }

    /** What the node hash holds. */
    lemma NodeFacts()
      requires Valid()
      ensures forall x :: x in nodeHash <==> HasNode(x)
      ensures forall i :: 0 <= i < |nodes| ==> nodes[i].id in nodeHash && nodeHash[nodes[i].id] == nodes[i]
      ensures forall x :: x in nodeHash ==> nodeHash[x].id == x && x != "" && nodeHash[x] in nodes
    {
      NodeTableOfFacts(nodes);
      forall x | x in nodeHash ensures nodeHash[x] in nodes {
        var i :| 0 <= i < |nodes| && nodes[i].id == x;
      }
    }

    /** The subject and object hashes hold the ends of the edges. */
    lemma EndFacts()
      requires Valid()
      ensures forall x :: x in tables.subjects <==> IsSubject(x)
      ensures forall x :: x in tables.objects <==> IsObject(x)
    {
      forall x ensures x in tables.subjects <==> IsSubject(x) {
        SubjectsOfMembers(edges, x);
      }
      forall x ensures x in tables.objects <==> IsObject(x) {
        ObjectsOfMembers(edges, x);
      }
    }

    /** What the edge tables hold, and how they agree with one another. */
    lemma EdgeFacts()
      requires Valid()
      ensures tables.so.Keys == tables.sop.Keys == tables.subjects && tables.os.Keys == tables.objects
      ensures forall s :: s in tables.so ==> tables.so[s] == tables.sop[s].Keys
      ensures forall s, o :: (s in tables.so && o in tables.so[s]) <==> (o in tables.os && s in tables.os[o])
      ensures forall s, o, p :: Lookup(tables.sop, s, o, p).Some? <==> HasTriple(edges, s, o, p)
      ensures forall s, o, p :: Lookup(tables.sop, s, o, p).Some? ==>
        var e := Lookup(tables.sop, s, o, p).value;
        e.subjectId == s && e.objectId == o && e.predicateId == p && e in edges
      ensures Distinct(tables.predicates)
      ensures forall p :: p in tables.predicates <==> exists i :: 0 <= i < |edges| && edges[i].predicateId == p
      ensures forall p :: p in tables.predicates ==> p != ""
    {
      SoAgreesWithSop(edges);
      OsTransposesSo(edges);
      forall s, o, p ensures Lookup(tables.sop, s, o, p).Some? <==> HasTriple(edges, s, o, p) {
        SopOfLookup(edges, s, o, p);
      }
      forall s, o, p | Lookup(tables.sop, s, o, p).Some?
        ensures var e := Lookup(tables.sop, s, o, p).value;
          e.subjectId == s && e.objectId == o && e.predicateId == p && e in edges
      {
        SopOfStoresOwnTriple(edges, s, o, p);
      }
      PredicatesOfFacts(edges);
      forall p | p in tables.predicates ensures p != "" {
        var i :| 0 <= i < |edges| && edges[i].predicateId == p;
      }
    }

    /** The node table is keyed by id. */
    lemma NodeKeyed(x: string)
      requires Valid()
      requires x in nodeHash
      ensures nodeHash[x].id == x && x != ""
    {
      NodeTableOfFacts(nodes);
    }

    /** The node hash is keyed by id. */
    lemma HashKeyed()
      requires Valid()
      ensures forall x :: x in nodeHash ==> nodeHash[x].id == x && x != ""
    {
      NodeTableOfFacts(nodes);
    }

    /** An edge's triple is filed under both of its ends. */
    lemma TripleInTables(s: string, o: string, p: string)
      requires Valid()
      requires HasTriple(edges, s, o, p)
      ensures s in tables.so && o in tables.so[s] && o in tables.os && s in tables.os[o]
    {
      SopOfLookup(edges, s, o, p);
      SoAgreesWithSop(edges);
      OsTransposesSo(edges);
    }

    /** An empty graph without an id. */
    constructor ()
      ensures Valid()
      ensures id == "" && nodes == [] && edges == []
    {
      id := "";
      nodes := [];
      nodeHash := map[];
      edges := [];
      tables := NoTables;
      namedNodes := {};
      singletons := {};
    }

    /** The id getter/setter: a falsy value leaves the id as it is. */
    method Id(value: string) returns (r: string)
      modifies this`id
      ensures id == (if value != "" then value else old(id))
      ensures r == id
    {
      if value != "" {
        id := value;
      }
      r := id;
    }

    /** add_node: a node without an id, or whose id is already a node, is
        ignored; otherwise it is stored, under its id, and is a singleton
        unless some edge already names it. */
    method AddNode(n: Node)
      requires Valid()
      modifies this`nodes, this`nodeHash, this`namedNodes, this`singletons
      ensures Valid()
      ensures nodes == AddNodeTo(old(nodes), n)
      ensures n.id == "" || n.id in old(nodeHash) ==>
        nodeHash == old(nodeHash) && namedNodes == old(namedNodes) && singletons == old(singletons)
      ensures n.id != "" && n.id !in old(nodeHash) ==>
        && nodeHash == old(nodeHash)[n.id := n]
        && namedNodes == old(namedNodes) + {n.id}
        && singletons == (if IsSubject(n.id) || IsObject(n.id) then old(singletons) else old(singletons) + {n.id})
      ensures n.id != "" ==> HasNode(n.id)
      ensures n.id != "" && n.id !in old(nodeHash) ==> GetNode(n.id) == Some(n.Clone())
      ensures n.id != "" && n.id in old(nodeHash) ==> GetNode(n.id) == Some(old(nodeHash[n.id]).Clone())
    {
      SubjectsOfMembers(edges, n.id);
      ObjectsOfMembers(edges, n.id);
      if n.id == "" || n.id in nodeHash {
        NodeStoreAdd(nodes, nodeHash, n);
        NodeTableOfFacts(nodes);
      } else {
        var nid := n.id;
        NodeAdded(nodes, nodeHash, edges, tables, namedNodes, singletons, n);
        nodeHash := nodeHash[nid := n];
        nodes := nodes + [n];
        namedNodes := namedNodes + {nid};
        singletons := if nid in tables.subjects || nid in tables.objects then singletons else singletons + {nid};
        assert nodes[|nodes| - 1].id == nid;
      }
    }

    /** add_edge: the edge is appended and every table is updated; an edge
        stored before under the same triple is replaced in the sop table, and
        the ends stop being singletons. */
    method AddEdge(e: Edge)
      requires Valid()
      requires e.subjectId != "" && e.objectId != ""
      modifies this`edges, this`tables, this`singletons, this`namedNodes
      ensures Valid()
      ensures edges == old(edges) + [e]
      ensures tables == old(tables).Insert(e)
      ensures singletons == old(singletons) - {e.subjectId, e.objectId}
      ensures namedNodes == old(namedNodes) + {e.subjectId, e.objectId}
      ensures GetEdge(e.subjectId, e.objectId, e.predicateId) == Some(e.Clone())
    {
      var s, o, p := e.subjectId, e.objectId, e.predicateId;
      EdgeAdded(nodes, nodeHash, edges, tables, namedNodes, singletons, e);
      tables := tables.Insert(e);
      singletons := singletons - {s, o};
      edges := edges + [e];
      namedNodes := namedNodes + {s, o};
      assert LastWithTriple(edges, |edges| - 1, s, o, p);
    }

    /** get_node: a copy of the node with that id, if there is one. */
    function GetNode(nid: string): (r: Option<Node>)
      reads this
      requires Valid()
      ensures r.Some? <==> HasNode(nid)
      ensures r.Some? ==> r.value.id == nid
      ensures r.Some? ==> exists i :: 0 <= i < |nodes| && nodes[i].id == nid && r.value == nodes[i].Clone()
    {
      NodeFacts();
      if nid in nodeHash then Some(nodeHash[nid].Clone()) else None
    }

    /** get_edge: a copy of the edge stored for the triple, the predicate
        defaulting when falsy.  The stored edge is the last one added with
        that triple. */
    function GetEdge(s: string, o: string, pred: string): (r: Option<Edge>)
      reads this
      requires Valid()
      ensures r.Some? <==> HasTriple(edges, s, o, PredicateOrDefault(pred))
      ensures forall i :: LastWithTriple(edges, i, s, o, PredicateOrDefault(pred)) ==> r == Some(edges[i].Clone())
      ensures r.Some? ==>
        r.value.subjectId == s && r.value.objectId == o && r.value.predicateId == PredicateOrDefault(pred) && r.value.WellFormed()
    {
      var p := PredicateOrDefault(pred);
      SopOfLookup(edges, s, o, p);
      if s in tables.sop && o in tables.sop[s] && p in tables.sop[s][o] then
        SopOfStoresOwnTriple(edges, s, o, p);
        Some(tables.sop[s][o][p].Clone())
      else
        None
    }

    /** all_nodes: the nodes as added, no two with the same id. */
    function AllNodes(): (r: seq<Node>)
      reads this
      requires Valid()
      ensures DistinctIds(r)
      ensures forall i :: 0 <= i < |r| ==> r[i].id != "" && GetNode(r[i].id) == Some(r[i].Clone())
      ensures forall x :: HasNode(x) <==> exists i :: 0 <= i < |r| && r[i].id == x
    {
      NodeFacts();
      nodes
    }

    /** all_edges: the edges as added; each one's triple can be looked up. */
    function AllEdges(): (r: seq<Edge>)
      reads this
      requires Valid()
      ensures forall i :: 0 <= i < |r| ==> r[i].subjectId != "" && r[i].objectId != ""
      ensures forall i :: 0 <= i < |r| ==> GetEdge(r[i].subjectId, r[i].objectId, r[i].predicateId).Some?
    {
      assert forall i :: 0 <= i < |edges| ==> HasTriple(edges, edges[i].subjectId, edges[i].objectId, edges[i].predicateId);
      edges
    }

    /** all_predicates: every predicate used by an edge, each once. */
    function AllPredicates(): (r: seq<string>)
      reads this
      requires Valid()
      ensures Distinct(r)
      ensures forall p :: p in r <==> exists i :: 0 <= i < |edges| && edges[i].predicateId == p
    {
      EdgeFacts();
      tables.predicates
    }

    /** all_dangling: every id an edge names that is not a node, once. */
    method AllDangling() returns (r: seq<string>)
      requires Valid()
      ensures Distinct(r)
      ensures forall x :: x in r <==> (IsSubject(x) || IsObject(x)) && !HasNode(x)
    {
      NodeFacts();
      EndFacts();
      r := DanglingIds(namedNodes, nodeHash);
    }

    /** is_complete: true exactly when both ends of every edge are nodes. */
    method IsComplete() returns (b: bool)
      requires Valid()
      ensures b <==> forall i :: 0 <= i < |edges| ==> HasNode(edges[i].subjectId) && HasNode(edges[i].objectId)
    {
      var dangling := AllDangling();
      b := true;
      if |dangling| > 0 {
        b := false;
      }
      if b {
        forall i | 0 <= i < |edges| ensures HasNode(edges[i].subjectId) && HasNode(edges[i].objectId) {
          assert IsSubject(edges[i].subjectId) && IsObject(edges[i].objectId);
          assert edges[i].subjectId !in dangling && edges[i].objectId !in dangling;
        }
      } else {
        var x := dangling[0];
        assert x in dangling;
        if IsSubject(x) {
          var i :| 0 <= i < |edges| && edges[i].subjectId == x;
          assert !HasNode(edges[i].subjectId);
        } else {
          var i :| 0 <= i < |edges| && edges[i].objectId == x;
          assert !HasNode(edges[i].objectId);
        }
      }
    }

    /** is_root_node: a node that is the subject of no edge. */
    function IsRootNode(x: string): (b: bool)
      reads this
      requires Valid()
      ensures b <==> HasNode(x) && !IsSubject(x)
    {
      NodeTableOfFacts(nodes);
      SubjectsOfMembers(edges, x);
      x in nodeHash && x !in tables.subjects
    }

    /** is_leaf_node: a node that is the object of no edge. */
    function IsLeafNode(x: string): (b: bool)
      reads this
      requires Valid()
      ensures b <==> HasNode(x) && !IsObject(x)
    {
      NodeTableOfFacts(nodes);
      ObjectsOfMembers(edges, x);
      x in nodeHash && x !in tables.objects
    }

    /** get_root_nodes: a copy of every root node, once each. */
    method GetRootNodes() returns (r: seq<Node>)
      requires Valid()
      ensures DistinctIds(r)
      ensures forall i :: 0 <= i < |r| ==> IsRootNode(r[i].id) && GetNode(r[i].id) == Some(r[i])
      ensures forall x :: IsRootNode(x) ==> exists i :: 0 <= i < |r| && r[i].id == x
    {
      NodeFacts();
      r := CopiesOutside(nodeHash, tables.subjects);
      forall i | 0 <= i < |r| ensures IsRootNode(r[i].id) && GetNode(r[i].id) == Some(r[i]) {
        assert r[i].id in nodeHash;
      }
    }

    /** get_leaf_nodes: a copy of every leaf node, once each. */
    method GetLeafNodes() returns (r: seq<Node>)
      requires Valid()
      ensures DistinctIds(r)
      ensures forall i :: 0 <= i < |r| ==> IsLeafNode(r[i].id) && GetNode(r[i].id) == Some(r[i])
      ensures forall x :: IsLeafNode(x) ==> exists i :: 0 <= i < |r| && r[i].id == x
    {
      NodeFacts();
      r := CopiesOutside(nodeHash, tables.objects);
      forall i | 0 <= i < |r| ensures IsLeafNode(r[i].id) && GetNode(r[i].id) == Some(r[i]) {
        assert r[i].id in nodeHash;
      }
    }

    /** get_singleton_nodes: every node that is no end of any edge, the
        originals, once each. */
    method GetSingletonNodes() returns (r: seq<Node>)
      requires Valid()
      ensures DistinctIds(r)
      ensures forall i :: 0 <= i < |r| ==> r[i] in nodes && !IsSubject(r[i].id) && !IsObject(r[i].id)
      ensures forall n :: n in nodes && !IsSubject(n.id) && !IsObject(n.id) ==> n in r
    {
      NodeFacts();
      EndFacts();
      // Every singleton id is a node id, so the world issue the source
      // throws for a singleton without a node cannot arise.
      r := Originals(nodeHash, singletons);
      forall n | n in nodes && !IsSubject(n.id) && !IsObject(n.id) ensures n in r {
        var j :| 0 <= j < |nodes| && nodes[j] == n;
        assert n.id in singletons;
        var i :| 0 <= i < |r| && r[i].id == n.id;
      }
    }

    /** get_edges: a copy of the edge stored for each predicate from s to o. */
    method GetEdges(s: string, o: string) returns (r: seq<Edge>)
      requires Valid()
      ensures Distinct(r)
      ensures forall e :: e in r <==> GetEdge(s, o, e.predicateId) == Some(e)
    {
      r := [];
      if s in tables.sop && o in tables.sop[s] {
        var byPredicate := tables.sop[s][o];
        var rest := byPredicate.Keys;
        while rest != {}
          invariant rest <= byPredicate.Keys
          invariant Distinct(r)
          invariant forall e :: e in r <==> e.predicateId in byPredicate.Keys - rest && GetEdge(s, o, e.predicateId) == Some(e)
          decreases rest
        {
          var p :| p in rest;
          SopOfStoresOwnTriple(edges, s, o, p);
          var found := byPredicate[p];
          r := r + [found.Clone()];
          rest := rest - {p};
        }
      }
    }

    /** get_predicates: the predicates of the edges from s to o, once each. */
    method GetPredicates(s: string, o: string) returns (r: seq<string>)
      requires Valid()
      ensures Distinct(r)
      ensures forall p :: p in r <==> HasTriple(edges, s, o, p)
    {
      r := [];
      if s in tables.sop && o in tables.sop[s] {
        var predicates := tables.sop[s][o].Keys;
        var rest := predicates;
        while rest != {}
          invariant rest <= predicates
          invariant Distinct(r)
          invariant forall p :: p in r <==> p in predicates - rest
          decreases rest
        {
          var p :| p in rest;
          assert p !in r;
          r := r + [p];
          rest := rest - {p};
        }
      }
      forall p ensures p in r <==> HasTriple(edges, s, o, p) {
        SopOfLookup(edges, s, o, p);
      }
    }

    /** edges_to_nodes: the original node at the chosen end of each edge, in
        order; a target other than "subject" or "object", or an end that is no
        node, is an error. */
    method EdgesToNodes(inEdges: seq<Edge>, target: string) returns (r: Result<seq<Node>, GraphError>)
      requires Valid()
      ensures target != "subject" && target != "object" ==> r == Failure(BadTarget)
      ensures target == "subject" || target == "object" ==>
        (r.Success? <==> forall i :: 0 <= i < |inEdges| ==> HasNode(EndOf(inEdges[i], target)))
      ensures r.Success? ==>
        |r.value| == |inEdges| && forall i :: 0 <= i < |inEdges| ==> r.value[i] in nodes && r.value[i].id == EndOf(inEdges[i], target)
      ensures r.Failure? && (target == "subject" || target == "object") ==> r.error == WorldIssue(target)
    {
      if target != "subject" && target != "object" {
        return Failure(BadTarget);
      }
      NodeFacts();
      var results: seq<Node> := [];
      var i := 0;
      while i < |inEdges|
        invariant 0 <= i <= |inEdges|
        invariant |results| == i
        invariant forall k :: 0 <= k < i ==>
          HasNode(EndOf(inEdges[k], target)) && results[k] in nodes && results[k].id == EndOf(inEdges[k], target)
      {
        var targetId := if target == "subject" then inEdges[i].subjectId else inEdges[i].objectId;
        if targetId != "" && targetId in nodeHash {
          results := results + [nodeHash[targetId]];
        } else {
          assert !HasNode(EndOf(inEdges[i], target));
          return Failure(WorldIssue(target));
        }
        i := i + 1;
      }
      return Success(results);
    }

    /** The predicates get_parent_edges and get_child_nodes go through: the
        given one, or every predicate in use when none is given. */
    function PredicatesToUse(pred: string): (ps: seq<string>)
      reads this
      requires Valid()
      ensures pred != "" ==> ps == [pred]
      ensures pred == "" ==> Distinct(ps) && forall p :: p in ps <==> exists i :: 0 <= i < |edges| && edges[i].predicateId == p
      ensures forall p :: p in ps ==> p != ""
    {
      PredicatesOfFacts(edges);
      if pred != "" then [pred] else tables.predicates
    }

    /** The inner loop of get_parent_edges for one predicate: a copy of the
        edge nid -> o under p, for every o that nid points at. */
    method ParentEdgesUnder(nid: string, p: string) returns (r: seq<Edge>)
      requires Valid()
      requires p != ""
      ensures forall e :: e in r <==> GetEdge(nid, e.objectId, p) == Some(e)
      ensures forall o :: CountObject(r, o) == if HasTriple(edges, nid, o, p) then 1 else 0
    {
      r := [];
      if nid in tables.so {
        var objects := tables.so[nid];
        var rest := objects;
        while rest != {}
          invariant rest <= objects
          invariant forall e :: e in r <==> e.objectId in objects && e.objectId !in rest && GetEdge(nid, e.objectId, p) == Some(e)
          invariant forall o :: CountObject(r, o) == if o in objects && o !in rest && HasTriple(edges, nid, o, p) then 1 else 0
          decreases rest
        {
          var o :| o in rest;
          var found := GetEdge(nid, o, p);
          if found.Some? {
            SnocPrefix(r, found.value);
            r := r + [found.value];
          }
          rest := rest - {o};
        }
      }
      forall o | HasTriple(edges, nid, o, p) ensures nid in tables.so && o in tables.so[nid] {
        TripleInTables(nid, o, p);
      }
    }

    /** get_parent_edges: for each predicate to use, a copy of every edge
        from nid under it.  An object reached under k of the predicates is
        the object of exactly k of the result's edges. */
    method GetParentEdges(nid: string, pred: string) returns (r: seq<Edge>)
      requires Valid()
      ensures forall e :: e in r <==> e.predicateId in PredicatesToUse(pred) && GetEdge(nid, e.objectId, e.predicateId) == Some(e)
      ensures forall o :: CountObject(r, o) == PredicateCount(edges, PredicatesToUse(pred), nid, o)
    {
      var ps := PredicatesToUse(pred);
      r := [];
      for j := 0 to |ps|
        invariant forall e :: e in r <==> e.predicateId in ps[..j] && GetEdge(nid, e.objectId, e.predicateId) == Some(e)
        invariant forall o :: CountObject(r, o) == PredicateCount(edges, ps[..j], nid, o)
      {
        assert ps[j] in ps;
        var found := ParentEdgesUnder(nid, ps[j]);
        ParentEdgesStep(nid, ps, j, r, found);
        r := r + found;
      }
      TakeAll(ps);
    }

    /** One round of the predicate loop of get_parent_edges. */
    lemma ParentEdgesStep(nid: string, ps: seq<string>, j: int, r: seq<Edge>, found: seq<Edge>)
      requires Valid()
      requires 0 <= j < |ps| && ps[j] != ""
      requires forall e :: e in r <==> e.predicateId in ps[..j] && GetEdge(nid, e.objectId, e.predicateId) == Some(e)
      requires forall o :: CountObject(r, o) == PredicateCount(edges, ps[..j], nid, o)
      requires forall e :: e in found <==> GetEdge(nid, e.objectId, ps[j]) == Some(e)
      requires forall o :: CountObject(found, o) == if HasTriple(edges, nid, o, ps[j]) then 1 else 0
      ensures forall e :: e in r + found <==> e.predicateId in ps[..j + 1] && GetEdge(nid, e.objectId, e.predicateId) == Some(e)
      ensures forall o :: CountObject(r + found, o) == PredicateCount(edges, ps[..j + 1], nid, o)
    {
      assert ps[..j + 1] == ps[..j] + [ps[j]];
      forall o ensures CountObject(r + found, o) == PredicateCount(edges, ps[..j + 1], nid, o) {
        CountObjectAppend(r, found, o);
      }
    }

    /** get_parent_nodes: a copy of the node at the object end of each parent
        edge that has one, so a parent appears once per predicate linking
        nid to it. */
    method GetParentNodes(nid: string, pred: string) returns (r: seq<Node>)
      requires Valid()
      ensures forall k :: 0 <= k < |r| ==> GetNode(r[k].id) == Some(r[k])
      ensures forall x :: CountId(r, x) == if HasNode(x) then PredicateCount(edges, PredicatesToUse(pred), nid, x) else 0
    {
      var parentEdges := GetParentEdges(nid, pred);
      HashKeyed();
      r := ObjectNodes(nodeHash, parentEdges);
      NodeFacts();
    }

    /** The inner loop of get_child_nodes for one predicate: a copy of every
        node that points at nid under p. */
    method ChildNodesUnder(nid: string, p: string) returns (r: seq<Node>)
      requires Valid()
      requires p != ""
      ensures forall k :: 0 <= k < |r| ==> GetNode(r[k].id) == Some(r[k])
      ensures forall x :: CountId(r, x) == if x in nodeHash && HasTriple(edges, x, nid, p) then 1 else 0
    {
      r := [];
      NodeTableOfFacts(nodes);
      if nid in tables.os {
        r := ChildCopies(nodeHash, tables.sop, tables.os[nid], nid, p);
      }
      forall k | 0 <= k < |r| ensures GetNode(r[k].id) == Some(r[k]) {
      }
      forall x
        ensures Lookup(tables.sop, x, nid, p).Some? <==> HasTriple(edges, x, nid, p)
        ensures HasTriple(edges, x, nid, p) ==> nid in tables.os && x in tables.os[nid]
      {
        SopOfLookup(edges, x, nid, p);
        if HasTriple(edges, x, nid, p) {
          TripleInTables(x, nid, p);
        }
      }
    }

    /** get_child_nodes: for each predicate to use, a copy of every node
        pointing at nid under it, so a child appears once per predicate
        linking it to nid. */
    method GetChildNodes(nid: string, pred: string) returns (r: seq<Node>)
      requires Valid()
      ensures forall k :: 0 <= k < |r| ==> GetNode(r[k].id) == Some(r[k])
      ensures forall x :: CountId(r, x) == if HasNode(x) then PredicateCount(edges, PredicatesToUse(pred), x, nid) else 0
    {
      var ps := PredicatesToUse(pred);
      r := [];
      for j := 0 to |ps|
        invariant forall k :: 0 <= k < |r| ==> GetNode(r[k].id) == Some(r[k])
        invariant forall x :: CountId(r, x) == if x in nodeHash then PredicateCount(edges, ps[..j], x, nid) else 0
      {
        assert ps[j] in ps;
        var found := ChildNodesUnder(nid, ps[j]);
        ChildNodesStep(nid, ps, j, r, found);
        r := r + found;
      }
      TakeAll(ps);
      NodeFacts();
    }

    /** One round of the predicate loop of get_child_nodes. */
    lemma ChildNodesStep(nid: string, ps: seq<string>, j: int, r: seq<Node>, found: seq<Node>)
      requires Valid()
      requires 0 <= j < |ps|
      requires forall x :: CountId(r, x) == if x in nodeHash then PredicateCount(edges, ps[..j], x, nid) else 0
      requires forall x :: CountId(found, x) == if x in nodeHash && HasTriple(edges, x, nid, ps[j]) then 1 else 0
      ensures forall x :: CountId(r + found, x) == if x in nodeHash then PredicateCount(edges, ps[..j + 1], x, nid) else 0
    {
      assert ps[..j + 1][..j] == ps[..j];
      forall x ensures CountId(r + found, x) == CountId(r, x) + CountId(found, x) {
        CountIdAppend(r, found, x);
      }
    }

    // ------------------------------------------------------ ancestor walk

    /** The node hash and edge tables, as the walk reads them. */
    function View(): (v: Store)
      reads this
    {
      Store(nodeHash, tables)
    }

    /** A parent step, read off the tables, is an edge of the list under a
        predicate to use whose object is a node. */
    lemma ParentStepMeans(pid: string, x: string, y: string)
      requires Valid()
      ensures ParentStep(View(), pid, x, y) <==>
        y in nodeHash && exists p :: p in PredicatesToUse(pid) && HasTriple(edges, x, y, p)
    {
      EdgeFacts();
      SoAgreesWithSop(edges);
      if pid == "" && x in tables.so && y in tables.so[x] {
        var p :| p in tables.sop[x][y];
        assert Lookup(tables.sop, x, y, p).Some?;
        assert x == Lookup(tables.sop, x, y, p).value.subjectId;
      }
    }

    /** A parent edge is what get_edge returns for its own triple, under a
        predicate to use. */
    lemma IsParentEdgeMeans(pid: string, e: Edge)
      requires Valid()
      ensures IsParentEdge(View(), pid, e) <==>
        e.predicateId in PredicatesToUse(pid) && GetEdge(e.subjectId, e.objectId, e.predicateId) == Some(e)
    {
      EdgeFacts();
    }

    /** The nodes ObjectNodes finds among nid's parent edges are exactly
        nid's parents. */
    lemma ParentNodesAreSteps(nid: string, pid: string, r: seq<Node>)
      requires Valid()
      requires forall x :: CountId(r, x) == if x in nodeHash then PredicateCount(edges, PredicatesToUse(pid), nid, x) else 0
      ensures forall k :: 0 <= k < |r| ==> ParentStep(View(), pid, nid, r[k].id)
      ensures forall y :: ParentStep(View(), pid, nid, y) <==> y in IdsOf(r)
    {
      forall y ensures ParentStep(View(), pid, nid, y) <==> y in IdsOf(r) {
        IdsOfCount(r, y);
        PredicateCountPositive(edges, PredicatesToUse(pid), nid, y);
        ParentStepMeans(pid, nid, y);
      }
      forall k | 0 <= k < |r| ensures ParentStep(View(), pid, nid, r[k].id) {
        CountIdPositive(r, r[k].id);
        IdsOfCount(r, r[k].id);
      }
    }

    /** The first half of rec_up: nid's parent edges, then a copy of the node
        at the object end of each of them that is a node, then a copy of nid's
        own node if there is one. */
    method NewParents(nid: string, pid: string) returns (parentEdges: seq<Edge>, newParents: seq<Node>)
      requires Valid()
      ensures forall e :: e in parentEdges <==> IsParentEdge(View(), pid, e) && e.subjectId == nid
      ensures forall k :: 0 <= k < |newParents| ==>
        && newParents[k].id in nodeHash && newParents[k] == nodeHash[newParents[k].id].Clone()
        && (ParentStep(View(), pid, nid, newParents[k].id) || newParents[k].id == nid)
      ensures forall y :: ParentStep(View(), pid, nid, y) ==> y in IdsOf(newParents)
      ensures nid in nodeHash ==> nid in IdsOf(newParents)
    {
      parentEdges := GetParentEdges(nid, pid);
      forall e ensures e in parentEdges <==> IsParentEdge(View(), pid, e) && e.subjectId == nid {
        IsParentEdgeMeans(pid, e);
      }
      HashKeyed();
      newParents := ObjectNodes(nodeHash, parentEdges);
      ParentNodesAreSteps(nid, pid, newParents);
      var self := GetNode(nid);
      if self.Some? {
        IdsOfSnoc(newParents, self.value);
        ghost var parents := newParents;
        newParents := newParents + [self.value];
        forall k | 0 <= k < |newParents|
          ensures newParents[k].id in nodeHash && newParents[k] == nodeHash[newParents[k].id].Clone()
          ensures ParentStep(View(), pid, nid, newParents[k].id) || newParents[k].id == nid
        {
          if k < |parents| {
            assert newParents[k] == parents[k];
          }
        }
      }
    }

    /** rec_up: list nid's parent edges, then mark and climb from each parent
        not seen yet, and from nid itself when it is a node. */
    method RecUp(nid: string, pid: string, seen: map<string, Node>, list: seq<Edge>, ghost done: set<string>)
      returns (seenOut: map<string, Node>, listOut: seq<Edge>, ghost doneOut: set<string>)
      requires Valid()
      requires WalkInv(View(), pid, seen, done)
      ensures Climbed(View(), pid, nid, list, seen, done + {nid}, listOut, seenOut, doneOut)
      ensures nid in nodeHash ==> nid in seenOut
      decreases nodeHash.Keys - seen.Keys
    {
      var parentEdges, newParents := NewParents(nid, pid);
      ClimbStart(View(), pid, nid, list, seen, done, parentEdges);
      listOut := list + parentEdges;
      seenOut, doneOut := seen, done;
      for i := 0 to |newParents|
        invariant Climbed(View(), pid, nid, list, seen, done, listOut, seenOut, doneOut)
        invariant IdsOf(newParents[..i]) <= seenOut.Keys
      {
        var anc := newParents[i];
        IdsOfPrefix(newParents, i);
        if anc.id !in seenOut {
          ghost var before, beforeList, beforeDone := seenOut, listOut, doneOut;
          WalkMark(View(), pid, seenOut, doneOut, anc);
          seenOut := seenOut[anc.id := anc];
          Shrinks(nodeHash.Keys, seen.Keys, before.Keys, anc.id);
          seenOut, listOut, doneOut := RecUp(anc.id, pid, seenOut, listOut, doneOut);
          ClimbStep(View(), pid, nid, list, seen, done, beforeList, before, beforeDone, anc, listOut, seenOut, doneOut);
        }
      }
      TakeAll(newParents);
      ClimbFinish(View(), pid, nid, list, seen, done, listOut, seenOut, doneOut, IdsOf(newParents));
      doneOut := doneOut + {nid};
    }

    /** The walk of get_ancestor_subgraph: rec_up on each start id in turn,
        sharing the marks and the edge list.  The marked ids are the least
        set closed under parent steps that holds what the starts need; the
        edges are the parent edges of the marked ids and of the starts. */
    method Walk(starts: seq<string>, pid: string) returns (seen: map<string, Node>, list: seq<Edge>)
      requires Valid()
      ensures forall x :: x in seen ==> seen[x].id == x && GetNode(x) == Some(seen[x])
      ensures Closed(View(), pid, seen.Keys) && NeedsAll(View(), pid, starts, seen.Keys)
      ensures forall t :: Closed(View(), pid, t) && NeedsAll(View(), pid, starts, t) ==> seen.Keys <= t
      ensures forall e :: e in list <==> IsParentEdge(View(), pid, e) && (e.subjectId in seen || e.subjectId in starts)
    {
      seen, list := map[], [];
      ghost var done: set<string> := {};
      for l := 0 to |starts|
        invariant Walked(View(), pid, starts[..l], list, seen, done)
      {
        ghost var before, beforeList, beforeDone := seen, list, done;
        seen, list, done := RecUp(starts[l], pid, seen, list, done);
        WalkStep(View(), pid, starts, l, beforeList, before, beforeDone, list, seen, done);
      }
      TakeAll(starts);
      forall x | x in seen ensures seen[x].id == x && GetNode(x) == Some(seen[x]) {
        NodeKeyed(x);
      }
    }

    /** get_ancestor_subgraph: a new graph holding the marked nodes and the
        listed edges. */
    method GetAncestorSubgraph(start: IdOrList, pid: string) returns (g: Graph)
      requires Valid()
      ensures fresh(g) && g.Valid() && g.id == ""
      ensures forall x :: x in g.nodeHash ==> GetNode(x) == Some(g.nodeHash[x])
      ensures Closed(View(), pid, g.nodeHash.Keys) && NeedsAll(View(), pid, start.Ids(), g.nodeHash.Keys)
      ensures forall t :: Closed(View(), pid, t) && NeedsAll(View(), pid, start.Ids(), t) ==> g.nodeHash.Keys <= t
      ensures forall e :: e in g.edges <==>
        IsParentEdge(View(), pid, e) && (e.subjectId in g.nodeHash || e.subjectId in start.Ids())
    {
      var seen, list := Walk(start.Ids(), pid);
      forall e | e in list ensures e.subjectId != "" && e.objectId != "" {
        IsParentEdgeMeans(pid, e);
      }
      forall x | x in seen ensures x != "" {
        NodeKeyed(x);
      }
      g := BuildGraph(seen, list);
    }

    /** merge_in: add_node on a copy of each node of the other graph, then
        add_edge on a copy of each of its edges.  Both lists are read before
        anything is added, so merging a graph into itself is covered. */
    method MergeIn(other: Graph) returns (r: bool)
      requires Valid() && other.Valid()
      modifies this
      ensures Valid()
      ensures nodes == AddNodesTo(old(nodes), CloneNodes(old(other.nodes)))
      ensures edges == old(edges) + CloneEdges(old(other.edges))
      ensures id == old(id) && r
    {
      var ns := other.AllNodes();
      var es := other.AllEdges();
      AddNodeList(this, CloneNodes(ns));
      AddEdgesOf(this, CloneEdges(es));
      r := true;
    }

    /** load_json: add_node on a node built from each node record, then
        add_edge on an edge built from each edge record. */
    method LoadJson(d: Document) returns (r: bool)
      requires Valid()
      requires forall k :: 0 <= k < |EdgeRecords(d)| ==> EdgeRecords(d)[k].sub != "" && EdgeRecords(d)[k].obj != ""
      modifies this
      ensures Valid()
      ensures nodes == AddNodesTo(old(nodes), ImportNodes(d))
      ensures edges == old(edges) + ImportEdges(d)
      ensures id == old(id) && r
    {
      if d.nodes.Some? {
        AddNodeList(this, ImportNodes(d));
      }
      if d.edges.Some? {
        AddEdgesOf(this, ImportEdges(d));
      }
      r := true;
    }

    /** to_json: one record per node and one per edge, in the order they
        were added. */
    method ToJson() returns (d: Document)
      requires Valid()
      ensures d == Export(nodes, edges)
      ensures RoundTrips(d)
    {
      var nset: seq<NodeRecord> := [];
      for x := 0 to |nodes|
        invariant |nset| == x
        invariant forall i :: 0 <= i < x ==> nset[i] == RecordOfNode(nodes[i])
      {
        nset := nset + [RecordOfNode(nodes[x])];
      }
      var eset: seq<EdgeRecord> := [];
      for x := 0 to |edges|
        invariant |eset| == x
        invariant forall i :: 0 <= i < x ==> eset[i] == RecordOfEdge(edges[i])
      {
        eset := eset + [RecordOfEdge(edges[x])];
      }
      assert nset == Export(nodes, edges).nodes.value;
      assert eset == Export(nodes, edges).edges.value;
      d := Document(Some(nset), Some(eset));
      ExportRoundTrips(nodes, edges);
    }
  }
}
