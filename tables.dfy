/** The index tables of a graph (lib/graph.js:253-277) as functions of the
    lists they are built from.  A graph keeps every table in a field; its
    invariant says that each field equals the fold below of its edge list (or
    node list), and the lemmas here state how the tables agree with one
    another and with the list.
 */
module Tables {
  import opened Elements

  /** subject -> objects (the so table) or object -> subjects (the os table). */
  type AdjTable = map<string, set<string>>

  /** subject -> object -> predicate -> the edge stored for that triple. */
  type SopTable = map<string, map<string, map<string, Edge>>>

  /** Record that a points at b in an adjacency table. */
  function AdjInsert(t: AdjTable, a: string, b: string): (r: AdjTable)
  {
    t[a := (if a in t then t[a] else {}) + {b}]
  }

  /** Store e under its triple, replacing any edge stored there before. */
  function SopInsert(t: SopTable, e: Edge): (r: SopTable)
  {
    var byObject := if e.subjectId in t then t[e.subjectId] else map[];
    var byPredicate := if e.objectId in byObject then byObject[e.objectId] else map[];
    t[e.subjectId := byObject[e.objectId := byPredicate[e.predicateId := e]]]
  }

  /** The edge stored for a triple, if any. */
  function Lookup(t: SopTable, s: string, o: string, p: string): (r: Option<Edge>)
  {
    if s in t && o in t[s] && p in t[s][o] then Some(t[s][o][p]) else None
  }

  /** Some edge of the list has the triple (s, o, p). */
  ghost predicate HasTriple(es: seq<Edge>, s: string, o: string, p: string)
  {
    exists i :: 0 <= i < |es| && es[i].subjectId == s && es[i].objectId == o && es[i].predicateId == p
  }

  /** Index i holds the last edge of the list with the triple (s, o, p). */
  ghost predicate LastWithTriple(es: seq<Edge>, i: int, s: string, o: string, p: string)
  {
    && 0 <= i < |es|
    && es[i].subjectId == s && es[i].objectId == o && es[i].predicateId == p
    && forall j :: i < j < |es| ==> !(es[j].subjectId == s && es[j].objectId == o && es[j].predicateId == p)
  }

  // ---------------------------------------------------------------- folds

  ghost function SubjectsOf(es: seq<Edge>): (ids: set<string>)
  {
    if es == [] then {} else SubjectsOf(es[..|es| - 1]) + {es[|es| - 1].subjectId}
  }

  ghost function ObjectsOf(es: seq<Edge>): (ids: set<string>)
  {
    if es == [] then {} else ObjectsOf(es[..|es| - 1]) + {es[|es| - 1].objectId}
  }

  ghost function SoOf(es: seq<Edge>): (so: AdjTable)
  {
    if es == [] then map[]
    else AdjInsert(SoOf(es[..|es| - 1]), es[|es| - 1].subjectId, es[|es| - 1].objectId)
  }

  ghost function OsOf(es: seq<Edge>): (os: AdjTable)
  {
    if es == [] then map[]
    else AdjInsert(OsOf(es[..|es| - 1]), es[|es| - 1].objectId, es[|es| - 1].subjectId)
  }

  ghost function SopOf(es: seq<Edge>): (sop: SopTable)
  {
    if es == [] then map[] else SopInsert(SopOf(es[..|es| - 1]), es[|es| - 1])
  }

  /** The predicates of the list, each once, in first-seen order. */
  ghost function PredicatesOf(es: seq<Edge>): (r: seq<string>)
  {
    if es == [] then []
    else
      var ps := PredicatesOf(es[..|es| - 1]);
      var p := es[|es| - 1].predicateId;
      if p in ps then ps else ps + [p]
  }

  /** The node hash of a node list: id -> node, later entries winning. */
  ghost function NodeTableOf(ns: seq<Node>): (hash: map<string, Node>)
  {
    if ns == [] then map[] else NodeTableOf(ns[..|ns| - 1])[ns[|ns| - 1].id := ns[|ns| - 1]]
  }

  /** The node list after add_node: a node without an id, or with an id
      already present, is dropped. */
  ghost function AddNodeTo(ns: seq<Node>, n: Node): (r: seq<Node>)
  {
    if n.id == "" || n.id in NodeTableOf(ns) then ns else ns + [n]
  }

  /** The node list after adding the nodes of `more` one after the other. */
  ghost function AddNodesTo(ns: seq<Node>, more: seq<Node>): (r: seq<Node>)
  {
    if more == [] then ns else AddNodeTo(AddNodesTo(ns, more[..|more| - 1]), more[|more| - 1])
  }

  ghost predicate DistinctIds(ns: seq<Node>)
  {
    forall i, j :: 0 <= i < j < |ns| ==> ns[i].id != ns[j].id
  }

  ghost predicate Distinct<T>(s: seq<T>)
  {
    forall i, j :: 0 <= i < j < |s| ==> s[i] != s[j]
  }

  // --------------------------------------------------------------- counts

  /** How many edges of the list have object o. */
  ghost function CountObject(es: seq<Edge>, o: string): (k: nat)
  {
    if es == [] then 0
    else CountObject(es[..|es| - 1], o) + (if es[|es| - 1].objectId == o then 1 else 0)
  }

  /** How many nodes of the list have id x. */
  ghost function CountId(ns: seq<Node>, x: string): (k: nat)
  {
    if ns == [] then 0
    else CountId(ns[..|ns| - 1], x) + (if ns[|ns| - 1].id == x then 1 else 0)
  }

  /** The ids of a node list. */
  ghost function IdsOf(ns: seq<Node>): (ids: set<string>)
  {
    if ns == [] then {} else IdsOf(ns[..|ns| - 1]) + {ns[|ns| - 1].id}
  }

  /** How many predicates of ps carry an edge s -> o in the list. */
  ghost function PredicateCount(es: seq<Edge>, ps: seq<string>, s: string, o: string): (k: nat)
  {
    if ps == [] then 0
    else PredicateCount(es, ps[..|ps| - 1], s, o) + (if HasTriple(es, s, o, ps[|ps| - 1]) then 1 else 0)
  }

  // --------------------------------------------------------------- lemmas

  lemma PrefixSnoc<T>(s: seq<T>, a: seq<T>, i: int)
    requires 0 <= i < |s|
    ensures a + s[..i + 1] == (a + s[..i]) + [s[i]]
  {
    assert s[..i + 1] == s[..i] + [s[i]];
  }

  lemma TakeSnoc<T>(s: seq<T>, i: int)
    requires 0 <= i < |s|
    ensures s[..i + 1] == s[..i] + [s[i]]
  {
  }

  lemma TakeAll<T>(s: seq<T>)
    ensures s[..|s|] == s
  {
  }

  lemma SnocPrefix<T>(s: seq<T>, x: T)
    ensures (s + [x])[..|s|] == s && (s + [x])[|s|] == x
  {
  }

  /** The subject table holds exactly the subjects of the edge list. */
  lemma {:induction false} SubjectsOfMembers(es: seq<Edge>, s: string)
    ensures s in SubjectsOf(es) <==> exists i :: 0 <= i < |es| && es[i].subjectId == s
  {
    if es != [] {
      var init := es[..|es| - 1];
      SubjectsOfMembers(init, s);
      if s in SubjectsOf(init) {
        var i :| 0 <= i < |init| && init[i].subjectId == s;
        assert es[i].subjectId == s;
      }
      if i :| 0 <= i < |es| && es[i].subjectId == s {
        if i < |es| - 1 { assert init[i].subjectId == s; }
      }
    }
  }

  /** The object table holds exactly the objects of the edge list. */
  lemma {:induction false} ObjectsOfMembers(es: seq<Edge>, o: string)
    ensures o in ObjectsOf(es) <==> exists i :: 0 <= i < |es| && es[i].objectId == o
  {
    if es != [] {
      var init := es[..|es| - 1];
      ObjectsOfMembers(init, o);
      if o in ObjectsOf(init) {
        var i :| 0 <= i < |init| && init[i].objectId == o;
        assert es[i].objectId == o;
      }
      if i :| 0 <= i < |es| && es[i].objectId == o {
        if i < |es| - 1 { assert init[i].objectId == o; }
      }
    }
  }

  lemma LookupInsert(t: SopTable, e: Edge, s: string, o: string, p: string)
    ensures Lookup(SopInsert(t, e), s, o, p)
         == if s == e.subjectId && o == e.objectId && p == e.predicateId then Some(e) else Lookup(t, s, o, p)
  {
  }

  /** The sop table has an edge for a triple iff the list has one, and the
      edge it has is the last one added with that triple. */
  lemma {:induction false} SopOfLookup(es: seq<Edge>, s: string, o: string, p: string)
    ensures Lookup(SopOf(es), s, o, p).Some? <==> HasTriple(es, s, o, p)
    ensures forall i :: LastWithTriple(es, i, s, o, p) ==> Lookup(SopOf(es), s, o, p) == Some(es[i])
  {
    if es != [] {
      var init, e := es[..|es| - 1], es[|es| - 1];
      SopOfLookup(init, s, o, p);
      LookupInsert(SopOf(init), e, s, o, p);
      if e.subjectId == s && e.objectId == o && e.predicateId == p {
        assert HasTriple(es, s, o, p);
        forall i | LastWithTriple(es, i, s, o, p) ensures i == |es| - 1 {
        }
      } else {
        if HasTriple(es, s, o, p) {
          var i :| 0 <= i < |es| && es[i].subjectId == s && es[i].objectId == o && es[i].predicateId == p;
          assert init[i] == es[i];
        }
        if HasTriple(init, s, o, p) {
          var i :| 0 <= i < |init| && init[i].subjectId == s && init[i].objectId == o && init[i].predicateId == p;
          assert es[i] == init[i];
        }
        forall i | LastWithTriple(es, i, s, o, p) ensures LastWithTriple(init, i, s, o, p) {
          assert i < |es| - 1;
        }
      }
    }
  }

  /** An edge in the sop table sits under its own triple. */
  lemma {:induction false} SopOfStoresOwnTriple(es: seq<Edge>, s: string, o: string, p: string)
    requires Lookup(SopOf(es), s, o, p).Some?
    ensures var e := Lookup(SopOf(es), s, o, p).value;
      e.subjectId == s && e.objectId == o && e.predicateId == p && e in es
  {
    var init, e := es[..|es| - 1], es[|es| - 1];
    LookupInsert(SopOf(init), e, s, o, p);
    if !(e.subjectId == s && e.objectId == o && e.predicateId == p) {
      SopOfStoresOwnTriple(init, s, o, p);
    }
  }

  /** The so table, the sop table and the subject table have the same keys;
      for each subject the so entry is the key set of the sop entry, and no
      sop entry is empty. */
  lemma {:induction false} SoAgreesWithSop(es: seq<Edge>)
    ensures SoOf(es).Keys == SopOf(es).Keys == SubjectsOf(es)
    ensures forall s :: s in SoOf(es) ==> SoOf(es)[s] == SopOf(es)[s].Keys
    ensures forall s, o :: s in SopOf(es) && o in SopOf(es)[s] ==> SopOf(es)[s][o] != map[]
  {
    if es != [] {
      var init, e := es[..|es| - 1], es[|es| - 1];
      SoAgreesWithSop(init);
      forall s, o | s in SopOf(es) && o in SopOf(es)[s] ensures SopOf(es)[s][o] != map[] {
        if s == e.subjectId && o == e.objectId {
          assert e.predicateId in SopOf(es)[s][o];
        }
      }
    }
  }

  /** The os table has the objects as keys and is the transpose of the so table. */
  lemma {:induction false} OsTransposesSo(es: seq<Edge>)
    ensures OsOf(es).Keys == ObjectsOf(es)
    ensures forall s, o :: (s in SoOf(es) && o in SoOf(es)[s]) <==> (o in OsOf(es) && s in OsOf(es)[o])
  {
    if es != [] {
      OsTransposesSo(es[..|es| - 1]);
    }
  }

  /** The predicate list has no duplicates and holds exactly the predicates
      of the edge list. */
  lemma {:induction false} PredicatesOfFacts(es: seq<Edge>)
    ensures Distinct(PredicatesOf(es))
    ensures forall p :: p in PredicatesOf(es) <==> exists i :: 0 <= i < |es| && es[i].predicateId == p
  {
    if es != [] {
      var init := es[..|es| - 1];
      PredicatesOfFacts(init);
      forall p | p in PredicatesOf(es) ensures exists i :: 0 <= i < |es| && es[i].predicateId == p {
        if p in PredicatesOf(init) {
          var i :| 0 <= i < |init| && init[i].predicateId == p;
          assert es[i].predicateId == p;
        } else {
          assert es[|es| - 1].predicateId == p;
        }
      }
      forall p | exists i :: 0 <= i < |es| && es[i].predicateId == p ensures p in PredicatesOf(es) {
        var i :| 0 <= i < |es| && es[i].predicateId == p;
        if i < |es| - 1 { assert init[i].predicateId == p; }
      }
    }
  }

  /** The predicate array of a prefix one edge longer. */
  lemma PredicatesOfPrefix(es: seq<Edge>, i: int)
    requires 0 <= i < |es|
    ensures PredicatesOf(es[..i + 1])
         == if es[i].predicateId in PredicatesOf(es[..i]) then PredicatesOf(es[..i]) else PredicatesOf(es[..i]) + [es[i].predicateId]
  {
    assert es[..i + 1][..i] == es[..i];
  }

  /** The predicate array only grows at its end: the predicates of a list
      stay, in place, when more edges are added, so each predicate sits
      where it was first seen. */
  lemma {:induction false} PredicatesOfGrows(es: seq<Edge>, more: seq<Edge>)
    ensures PredicatesOf(es) <= PredicatesOf(es + more)
  {
    if more != [] {
      var init := more[..|more| - 1];
      PredicatesOfGrows(es, init);
      assert (es + more)[..|es + more| - 1] == es + init;
    } else {
      assert es + more == es;
    }
  }

  /** The node hash maps every id of the list to its node and nothing else. */
  lemma {:induction false} NodeTableOfFacts(ns: seq<Node>)
    requires DistinctIds(ns)
    ensures forall x :: x in NodeTableOf(ns) <==> exists i :: 0 <= i < |ns| && ns[i].id == x
    ensures forall i :: 0 <= i < |ns| ==> NodeTableOf(ns)[ns[i].id] == ns[i]
    ensures forall x :: x in NodeTableOf(ns) ==> NodeTableOf(ns)[x].id == x
  {
    if ns != [] {
      var init, last := ns[..|ns| - 1], ns[|ns| - 1];
      assert DistinctIds(init);
      NodeTableOfFacts(init);
      assert NodeTableOf(ns) == NodeTableOf(init)[last.id := last];
      forall x | x in NodeTableOf(ns) ensures exists i :: 0 <= i < |ns| && ns[i].id == x {
        if x != last.id {
          assert x in NodeTableOf(init);
          var i :| 0 <= i < |init| && init[i].id == x;
          assert ns[i].id == x;
        }
      }
      forall i | 0 <= i < |ns| ensures NodeTableOf(ns)[ns[i].id] == ns[i] {
        if i < |ns| - 1 { assert init[i] == ns[i]; }
      }
    }
  }

  // ------------------------------------------------------- graph stores

  /** The node array and the node hash of a graph: ids non-empty and
      distinct, and the hash is the table of the array. */
  ghost predicate NodeStore(ns: seq<Node>, hash: map<string, Node>)
  {
    && (forall i :: 0 <= i < |ns| ==> ns[i].id != "")
    && DistinctIds(ns)
    && hash == NodeTableOf(ns)
  }

  /** The tables add_edge keeps besides the edge array: the predicate array
      and hash, the subject and object hashes, and the so, os and sop tables. */
  datatype EdgeTables = EdgeTables(predicates: seq<string>, predicateHash: set<string>,
                                   subjects: set<string>, objects: set<string>,
                                   so: AdjTable, os: AdjTable, sop: SopTable)
  {
    /** The tables after add_edge has entered e. */
    function Insert(e: Edge): (t: EdgeTables)
    {
      EdgeTables(if e.predicateId in predicateHash then predicates else predicates + [e.predicateId],
                 predicateHash + {e.predicateId},
                 subjects + {e.subjectId}, objects + {e.objectId},
                 AdjInsert(so, e.subjectId, e.objectId), AdjInsert(os, e.objectId, e.subjectId),
                 SopInsert(sop, e))
    }
  }

  const NoTables := EdgeTables([], {}, {}, {}, map[], map[], map[])

  /** The tables of an edge array: each one the fold of the array. */
  ghost function TablesOf(es: seq<Edge>): (t: EdgeTables)
  {
    EdgeTables(PredicatesOf(es), (set p | p in PredicatesOf(es)), SubjectsOf(es), ObjectsOf(es),
               SoOf(es), OsOf(es), SopOf(es))
  }

  /** The edge array and its tables: every edge has two ends and the tables
      are those of the array. */
  ghost predicate EdgeStore(es: seq<Edge>, t: EdgeTables)
  {
    && (forall i :: 0 <= i < |es| ==> es[i].subjectId != "" && es[i].objectId != "")
    && t == TablesOf(es)
  }

  /** add_node on the stores: a node without an id or with a known id is
      dropped; any other is appended and entered in the hash. */
  lemma NodeStoreAdd(ns: seq<Node>, hash: map<string, Node>, n: Node)
    requires NodeStore(ns, hash)
    ensures n.id == "" || n.id in hash ==> AddNodeTo(ns, n) == ns
    ensures n.id != "" && n.id !in hash ==>
      AddNodeTo(ns, n) == ns + [n] && NodeStore(ns + [n], hash[n.id := n])
  {
    NodeTableOfFacts(ns);
    SnocPrefix(ns, n);
  }

  /** Entering an edge in the tables of an array gives the tables of the
      array with the edge appended. */
  lemma TablesOfSnoc(es: seq<Edge>, e: Edge)
    ensures TablesOf(es + [e]) == TablesOf(es).Insert(e)
  {
    SnocPrefix(es, e);
    var t := TablesOf(es);
    assert t.predicateHash + {e.predicateId} == (set p | p in TablesOf(es).Insert(e).predicates);
  }

  /** add_edge on the edge store: the edge is appended and entered in the
      tables. */
  lemma EdgeStoreSnoc(es: seq<Edge>, t: EdgeTables, e: Edge)
    requires EdgeStore(es, t)
    requires e.subjectId != "" && e.objectId != ""
    ensures EdgeStore(es + [e], t.Insert(e))
  {
    TablesOfSnoc(es, e);
  }

  /** Adding nodes with distinct non-empty ids to an empty list keeps them all, in order. */
  lemma {:induction false} AddNodesToEmpty(ns: seq<Node>)
    requires DistinctIds(ns) && forall i :: 0 <= i < |ns| ==> ns[i].id != ""
    ensures AddNodesTo([], ns) == ns
  {
    if ns != [] {
      var init := ns[..|ns| - 1];
      AddNodesToEmpty(init);
      NodeTableOfFacts(init);
      assert ns == init + [ns[|ns| - 1]];
    }
  }

  lemma {:induction false} CountObjectAppend(a: seq<Edge>, b: seq<Edge>, o: string)
    ensures CountObject(a + b, o) == CountObject(a, o) + CountObject(b, o)
  {
    if b != [] {
      assert (a + b)[..|a + b| - 1] == a + b[..|b| - 1];
      CountObjectAppend(a, b[..|b| - 1], o);
    } else {
      assert a + b == a;
    }
  }

  lemma {:induction false} CountIdAppend(a: seq<Node>, b: seq<Node>, x: string)
    ensures CountId(a + b, x) == CountId(a, x) + CountId(b, x)
  {
    if b != [] {
      assert (a + b)[..|a + b| - 1] == a + b[..|b| - 1];
      CountIdAppend(a, b[..|b| - 1], x);
    } else {
      assert a + b == a;
    }
  }

  /** Counting over a prefix one element longer. */
  lemma CountObjectPrefix(es: seq<Edge>, i: int)
    requires 0 <= i < |es|
    ensures forall o :: CountObject(es[..i + 1], o) == CountObject(es[..i], o) + (if es[i].objectId == o then 1 else 0)
  {
    assert es[..i + 1][..i] == es[..i];
  }

  /** Some predicate of ps carries an edge s -> o iff PredicateCount is positive. */
  lemma {:induction false} PredicateCountPositive(es: seq<Edge>, ps: seq<string>, s: string, o: string)
    ensures PredicateCount(es, ps, s, o) > 0 <==> exists p :: p in ps && HasTriple(es, s, o, p)
  {
    if ps != [] {
      var init := ps[..|ps| - 1];
      PredicateCountPositive(es, init, s, o);
      assert ps == init + [ps[|ps| - 1]];
    }
  }

  /** An id is among the ids of a list iff the list counts it. */
  lemma {:induction false} IdsOfCount(ns: seq<Node>, x: string)
    ensures x in IdsOf(ns) <==> CountId(ns, x) > 0
  {
    if ns != [] {
      IdsOfCount(ns[..|ns| - 1], x);
    }
  }

  lemma IdsOfPrefix(ns: seq<Node>, i: int)
    requires 0 <= i < |ns|
    ensures IdsOf(ns[..i + 1]) == IdsOf(ns[..i]) + {ns[i].id}
  {
    assert ns[..i + 1][..i] == ns[..i];
  }

  lemma IdsOfSnoc(ns: seq<Node>, n: Node)
    ensures IdsOf(ns + [n]) == IdsOf(ns) + {n.id}
  {
    SnocPrefix(ns, n);
  }

  /** A node list counts an id iff the id occurs in it. */
  lemma {:induction false} CountIdPositive(ns: seq<Node>, x: string)
    ensures CountId(ns, x) > 0 <==> exists i :: 0 <= i < |ns| && ns[i].id == x
  {
    if ns != [] {
      var init := ns[..|ns| - 1];
      CountIdPositive(init, x);
      if CountId(init, x) > 0 {
        var i :| 0 <= i < |init| && init[i].id == x;
        assert ns[i].id == x;
      }
      if i :| 0 <= i < |ns| && ns[i].id == x {
        if i < |ns| - 1 { assert init[i].id == x; }
      }
    }
  }
  /** The ids of a list are the ids its entries carry. */
  lemma IdsOfMembers(ns: seq<Node>, x: string)
    ensures x in IdsOf(ns) <==> exists i :: 0 <= i < |ns| && ns[i].id == x
  {
    IdsOfCount(ns, x);
    CountIdPositive(ns, x);
  }

  /** A list that counts each id of S once and no other id has one entry
      per id of S. */
  lemma {:induction false} CountIdSize(ns: seq<Node>, ids: set<string>)
    requires forall x :: CountId(ns, x) == if x in ids then 1 else 0
    ensures |ns| == |ids|
  {
    if ns != [] {
      var init, y := ns[..|ns| - 1], ns[|ns| - 1].id;
      assert CountId(ns, y) == CountId(init, y) + 1;
      forall x ensures CountId(init, x) == if x in ids - {y} then 1 else 0 {
        assert CountId(ns, x) == CountId(init, x) + (if y == x then 1 else 0);
      }
      CountIdSize(init, ids - {y});
    }
  }

  /** A list without repeated ids whose ids are exactly S has one entry per
      id of S. */
  lemma ListedIdsSize(ns: seq<Node>, ids: set<string>)
    requires DistinctIds(ns)
    requires forall i :: 0 <= i < |ns| ==> ns[i].id in ids
    requires forall x :: x in ids ==> exists i :: 0 <= i < |ns| && ns[i].id == x
    ensures |ns| == |ids|
  {
    forall x ensures CountId(ns, x) == if x in ids then 1 else 0 {
      DistinctCountId(ns, x);
      CountIdPositive(ns, x);
    }
    CountIdSize(ns, ids);
  }

  /** A list without repeated ids counts each id at most once. */
  lemma {:induction false} DistinctCountId(ns: seq<Node>, x: string)
    requires DistinctIds(ns)
    ensures CountId(ns, x) <= 1
  {
    if ns != [] {
      var init := ns[..|ns| - 1];
      DistinctCountId(init, x);
      if ns[|ns| - 1].id == x {
        forall i | 0 <= i < |init| ensures init[i].id != x {
          assert init[i] == ns[i];
        }
        CountIdPositive(init, x);
      }
    }
  }

  /** The node hash of a list is keyed by the ids of the list. */
  lemma {:induction false} NodeTableKeys(ns: seq<Node>)
    ensures NodeTableOf(ns).Keys == IdsOf(ns)
  {
    if ns != [] {
      NodeTableKeys(ns[..|ns| - 1]);
    }
  }

  lemma AddNodesToSnoc(ns: seq<Node>, more: seq<Node>, i: int)
    requires 0 <= i < |more|
    ensures AddNodesTo(ns, more[..i + 1]) == AddNodeTo(AddNodesTo(ns, more[..i]), more[i])
  {
    assert more[..i + 1][..i] == more[..i];
  }

  /** Adding nodes never drops or reorders the nodes already there, and
      afterwards the ids are the old ones and every non-empty id added. */
  lemma {:induction false} AddNodesToGrows(ns: seq<Node>, more: seq<Node>)
    ensures ns <= AddNodesTo(ns, more)
    ensures IdsOf(AddNodesTo(ns, more)) == IdsOf(ns) + (IdsOf(more) - {""})
  {
    if more != [] {
      var init, n := more[..|more| - 1], more[|more| - 1];
      AddNodesToGrows(ns, init);
      var m := AddNodesTo(ns, init);
      NodeTableKeys(m);
      if n.id != "" && n.id !in NodeTableOf(m) {
        IdsOfSnoc(m, n);
      }
    }
  }
}
