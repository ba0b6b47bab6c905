/** The bookkeeping of the ancestor walk of get_ancestor_subgraph
    (lib/graph.js:772-852), stated on the node hash and the edge tables the
    walk reads.  The walk itself is Graphs.Graph.RecUp and Graphs.Graph.Walk;
    Graphs.Graph.ParentStepMeans and Graphs.Graph.IsParentEdgeMeans restate
    the two basic predicates on the graph's edge list. */
module Ancestors {
  import opened Elements
  import opened Tables

  /** What the walk reads of a graph: its node hash and its edge tables. */
  datatype Store = Store(nodeHash: map<string, Node>, tables: EdgeTables)

  /** One step up: y is a node and x points at y under the given predicate,
      or under any predicate when pid is falsy. */
  ghost predicate ParentStep(v: Store, pid: string, x: string, y: string)
  {
    && y in v.nodeHash
    && if pid != "" then Lookup(v.tables.sop, x, y, pid).Some? else x in v.tables.so && y in v.tables.so[x]
  }

  /** An edge get_parent_edges returns: a copy of the edge stored for its
      own triple, under the given predicate when there is one. */
  ghost predicate IsParentEdge(v: Store, pid: string, e: Edge)
  {
    var stored := Lookup(v.tables.sop, e.subjectId, e.objectId, e.predicateId);
    && (pid != "" ==> e.predicateId == pid)
    && stored.Some? && e == stored.value.Clone()
  }

  /** A set of ids closed under parent steps. */
  ghost predicate Closed(v: Store, pid: string, t: set<string>)
  {
    forall x, y :: x in t && ParentStep(v, pid, x, y) ==> y in t
  }

  /** What a set must hold for the walk started at nid: nid itself when it
      is a node, and every parent of nid. */
  ghost predicate Needs(v: Store, pid: string, nid: string, t: set<string>)
  {
    && (nid in v.nodeHash ==> nid in t)
    && forall y :: ParentStep(v, pid, nid, y) ==> y in t
  }

  /** What every start of the walk needs of a set. */
  ghost predicate NeedsAll(v: Store, pid: string, starts: seq<string>, t: set<string>)
  {
    forall s :: s in starts ==> Needs(v, pid, s, t)
  }

  /** The walk's bookkeeping: every seen id maps to a copy of its node, and
      every finished id has all its parents seen. */
  ghost predicate WalkInv(v: Store, pid: string, seen: map<string, Node>, done: set<string>)
  {
    && (forall x :: x in seen ==> x in v.nodeHash && seen[x] == v.nodeHash[x].Clone())
    && (forall x, y :: x in done && ParentStep(v, pid, x, y) ==> y in seen)
  }

  /** The edges the walk from nid lists on top of `list`: every parent
      edge of nid and of each id it newly marks. */
  ghost predicate ListFrom(v: Store, pid: string, nid: string, list: seq<Edge>, seen: set<string>,
                           listOut: seq<Edge>, seenOut: set<string>)
  {
    forall e :: e in listOut <==> e in list || (IsParentEdge(v, pid, e) && e.subjectId in {nid} + (seenOut - seen))
  }

  /** The walk from nid marks nothing that a closed set holding `seen` and
      what nid needs would not hold. */
  ghost predicate LeastFrom(v: Store, pid: string, nid: string, seen: set<string>, seenOut: set<string>)
  {
    forall t :: Closed(v, pid, t) && seen <= t && Needs(v, pid, nid, t) ==> seenOut <= t
  }

  /** Where the loop of rec_up stands: the bookkeeping holds, the ids
      marked since entry are the ids finished since entry, and the edges
      and marks so far are as ListFrom and LeastFrom say. */
  ghost predicate Climbed(v: Store, pid: string, nid: string, list: seq<Edge>, seen: map<string, Node>, done: set<string>,
                          listOut: seq<Edge>, seenOut: map<string, Node>, doneOut: set<string>)
  {
    && WalkInv(v, pid, seenOut, doneOut)
    && seen.Keys <= seenOut.Keys
    && doneOut == done + (seenOut.Keys - seen.Keys)
    && ListFrom(v, pid, nid, list, seen.Keys, listOut, seenOut.Keys)
    && LeastFrom(v, pid, nid, seen.Keys, seenOut.Keys)
  }

  /** Where the walk over the start ids stands once rec_up has run on each
      of `starts`. */
  ghost predicate Walked(v: Store, pid: string, starts: seq<string>, list: seq<Edge>, seen: map<string, Node>,
                         done: set<string>)
  {
    && WalkInv(v, pid, seen, done)
    && seen.Keys <= done
    && (forall s :: s in starts ==> s in done && (s in v.nodeHash ==> s in seen))
    && (forall e :: e in list <==> IsParentEdge(v, pid, e) && (e.subjectId in seen || e.subjectId in starts))
    && (forall t :: Closed(v, pid, t) && NeedsAll(v, pid, starts, t) ==> seen.Keys <= t)
  }

  /** The state rec_up starts its loop in: nid's parent edges listed,
      nothing marked yet. */
  lemma ClimbStart(v: Store, pid: string, nid: string, list: seq<Edge>, seen: map<string, Node>, done: set<string>,
                   parentEdges: seq<Edge>)
    requires WalkInv(v, pid, seen, done)
    requires forall e :: e in parentEdges <==> IsParentEdge(v, pid, e) && e.subjectId == nid
    ensures Climbed(v, pid, nid, list, seen, done, list + parentEdges, seen, done)
  {
  }

  /** Marking a new node of the graph leaves fewer nodes to mark. */
  lemma Shrinks(all: set<string>, seen: set<string>, cur: set<string>, a: string)
    requires seen <= cur && a in all && a !in cur
    ensures all - (cur + {a}) < all - seen
  {
    assert a in all - seen;
  }

  /** Marking a copy of a node keeps the walk's bookkeeping. */
  lemma WalkMark(v: Store, pid: string, seen: map<string, Node>, done: set<string>, n: Node)
    requires WalkInv(v, pid, seen, done)
    requires n.id in v.nodeHash && n == v.nodeHash[n.id].Clone()
    ensures WalkInv(v, pid, seen[n.id := n], done)
  {
  }

  /** Climbing from a newly marked id a finishes exactly the ids marked so
      far. */
  lemma DoneChain(a: string, seen: set<string>, done: set<string>, curSeen: set<string>, curDone: set<string>,
                  marked: set<string>, outSeen: set<string>, outDone: set<string>)
    requires seen <= curSeen && curDone == done + (curSeen - seen)
    requires a !in curSeen && marked == curSeen + {a} && marked <= outSeen
    requires outDone == curDone + {a} + (outSeen - marked)
    ensures seen <= outSeen && outDone == done + (outSeen - seen)
  {
  }

  /** Climbing from a newly marked id a keeps the edge list of the walk
      from nid as ListFrom says. */
  lemma ListChain(v: Store, pid: string, nid: string, a: string, list: seq<Edge>, seen: set<string>,
                  cur: seq<Edge>, curSeen: set<string>, marked: set<string>,
                  out: seq<Edge>, outSeen: set<string>)
    requires seen <= curSeen && a !in curSeen && marked == curSeen + {a} && marked <= outSeen
    requires ListFrom(v, pid, nid, list, seen, cur, curSeen)
    requires ListFrom(v, pid, a, cur, marked, out, outSeen)
    ensures ListFrom(v, pid, nid, list, seen, out, outSeen)
  {
    assert {nid} + (curSeen - seen) + ({a} + (outSeen - marked)) == {nid} + (outSeen - seen);
  }

  /** Climbing from a newly marked id a, itself nid or a parent of nid,
      keeps the walk from nid least. */
  lemma LeastChain(v: Store, pid: string, nid: string, a: string, seen: set<string>, curSeen: set<string>,
                   marked: set<string>, outSeen: set<string>)
    requires marked == curSeen + {a}
    requires a in v.nodeHash && (a == nid || ParentStep(v, pid, nid, a))
    requires LeastFrom(v, pid, nid, seen, curSeen)
    requires LeastFrom(v, pid, a, marked, outSeen)
    ensures LeastFrom(v, pid, nid, seen, outSeen)
  {
    forall t | Closed(v, pid, t) && seen <= t && Needs(v, pid, nid, t) ensures outSeen <= t {
      assert a in t;
      assert Needs(v, pid, a, t);
    }
  }

  /** One round of the loop of rec_up that marks anc and climbs from it. */
  lemma ClimbStep(v: Store, pid: string, nid: string, list: seq<Edge>, seen: map<string, Node>, done: set<string>,
                  curList: seq<Edge>, cur: map<string, Node>, curDone: set<string>, anc: Node,
                  outList: seq<Edge>, out: map<string, Node>, outDone: set<string>)
    requires Climbed(v, pid, nid, list, seen, done, curList, cur, curDone)
    requires anc.id !in cur && anc.id in v.nodeHash && (anc.id == nid || ParentStep(v, pid, nid, anc.id))
    requires Climbed(v, pid, anc.id, curList, cur[anc.id := anc], curDone + {anc.id}, outList, out, outDone)
    ensures Climbed(v, pid, nid, list, seen, done, outList, out, outDone)
  {
    var marked := cur.Keys + {anc.id};
    DoneChain(anc.id, seen.Keys, done, cur.Keys, curDone, marked, out.Keys, outDone);
    ListChain(v, pid, nid, anc.id, list, seen.Keys, curList, cur.Keys, marked, outList, out.Keys);
    LeastChain(v, pid, nid, anc.id, seen.Keys, cur.Keys, marked, out.Keys);
  }

  /** After the loop of rec_up every parent of nid, and nid when it is a
      node, is marked, so nid is finished. */
  lemma ClimbFinish(v: Store, pid: string, nid: string, list: seq<Edge>, seen: map<string, Node>, done: set<string>,
                    listOut: seq<Edge>, seenOut: map<string, Node>, doneOut: set<string>, ids: set<string>)
    requires Climbed(v, pid, nid, list, seen, done, listOut, seenOut, doneOut)
    requires ids <= seenOut.Keys
    requires forall y :: ParentStep(v, pid, nid, y) ==> y in ids
    requires nid in v.nodeHash ==> nid in ids
    ensures Climbed(v, pid, nid, list, seen, done + {nid}, listOut, seenOut, doneOut + {nid})
    ensures nid in v.nodeHash ==> nid in seenOut
  {
  }

  /** One round of the walk over the start ids. */
  lemma WalkStep(v: Store, pid: string, starts: seq<string>, l: int, list: seq<Edge>, seen: map<string, Node>,
                 done: set<string>, outList: seq<Edge>, out: map<string, Node>, outDone: set<string>)
    requires 0 <= l < |starts|
    requires Walked(v, pid, starts[..l], list, seen, done)
    requires Climbed(v, pid, starts[l], list, seen, done + {starts[l]}, outList, out, outDone)
    requires starts[l] in v.nodeHash ==> starts[l] in out
    ensures Walked(v, pid, starts[..l + 1], outList, out, outDone)
  {
    TakeSnoc(starts, l);
    forall t | Closed(v, pid, t) && NeedsAll(v, pid, starts[..l + 1], t) ensures out.Keys <= t {
      assert NeedsAll(v, pid, starts[..l], t);
      assert Needs(v, pid, starts[l], t);
    }
  }
}
