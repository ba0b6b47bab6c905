/** Nodes and edges of the labelled multigraph (lib/graph.js, `node` and `edge`).

    JavaScript truthiness is modelled explicitly: an absent string and the empty
    string are both written "", and absent metadata is None.  Setters ignore
    falsy values, exactly as the getter/setter pairs of the source do.
 */
module Elements {

  datatype Option<+T> = None | Some(value: T)

  datatype Result<+T, +E> = Success(value: T) | Failure(error: E)

  /** Metadata attached to a node or an edge: a JSON object the graph never
      looks into.  Any object is truthy, so present metadata is Some(m). */
  datatype Meta = Meta(content: string)

  /** The predicate an edge gets when it is constructed without one. */
  const DefaultPredicate: string := "points_at"

  /** Edge predicates are never falsy: the edge constructor falls back to
      DefaultPredicate. */
  type PredicateId = p: string | p != "" witness "points_at"

  /** A node: id, label, type (here `kind`) and metadata. */
  datatype Node = Node(id: string, lbl: string, kind: string, metadata: Option<Meta>)
  {
    /** The id setter; a falsy value leaves the node as it is. */
    function SetId(value: string): (n: Node)
    {
      if value != "" then this.(id := value) else this
    }

    /** The type setter; a falsy value leaves the node as it is. */
    function SetKind(value: string): (n: Node)
    {
      if value != "" then this.(kind := value) else this
    }

    /** The label setter; a falsy value leaves the node as it is. */
    function SetLabel(value: string): (n: Node)
    {
      if value != "" then this.(lbl := value) else this
    }

    /** The metadata setter; absent metadata leaves the node as it is. */
    function SetMetadata(value: Option<Meta>): (n: Node)
    {
      if value.Some? then this.(metadata := value) else this
    }

    /** A fresh node with this node's id, type, label and metadata.  The copy
        is built by the constructor, so a node whose id was set after an
        id-less construction (and so has no type) comes back typed "node". */
    function Clone(): (c: Node)
      ensures c.id == id && c.lbl == lbl && c.metadata == metadata
      ensures c.kind == (if kind != "" then kind else if id != "" then "node" else "")
      ensures kind != "" || id == "" ==> c == this
    {
      NewNode(id, "").SetKind(kind).SetLabel(lbl).SetMetadata(metadata)
    }
  }

  /** The node constructor: the type is "node" only when an id is given. */
  function NewNode(newId: string, newLabel: string): (n: Node)
    ensures n.id == newId && n.lbl == newLabel && n.metadata == None
    ensures n.kind == "node" <==> newId != ""
    ensures newId == "" ==> n.kind == ""
  {
    Node(newId, newLabel, if newId != "" then "node" else "", None)
  }

  /** A setter stores a truthy value, ignores a falsy one, touches no other
      field, and setting the same value twice is the same as setting it once. */
  lemma NodeSetterLaws(n: Node, v: string, m: Option<Meta>)
    ensures v != "" ==> n.SetId(v).id == v && n.SetLabel(v).lbl == v && n.SetKind(v).kind == v
    ensures v == "" ==> n.SetId(v) == n && n.SetLabel(v) == n && n.SetKind(v) == n
    ensures m.Some? ==> n.SetMetadata(m).metadata == m
    ensures m.None? ==> n.SetMetadata(m) == n
    ensures n.SetId(v).(id := n.id) == n && n.SetLabel(v).(lbl := n.lbl) == n
    ensures n.SetKind(v).(kind := n.kind) == n && n.SetMetadata(m).(metadata := n.metadata) == n
    ensures n.SetId(v).SetId(v) == n.SetId(v) && n.SetLabel(v).SetLabel(v) == n.SetLabel(v)
    ensures n.SetKind(v).SetKind(v) == n.SetKind(v) && n.SetMetadata(m).SetMetadata(m) == n.SetMetadata(m)
  {
  }

  /** A constructed node is its own copy, and setting its id or label to
      what it was built with changes nothing.  A node built without an id and
      given one afterwards has no type, but its copy is the node the
      constructor builds with that id. */
  lemma NewNodeLaws(x: string, l: string, y: string)
    ensures NewNode(x, l).Clone() == NewNode(x, l)
    ensures NewNode(x, l).SetId(x) == NewNode(x, l) && NewNode(x, l).SetLabel(l) == NewNode(x, l)
    ensures x != "" ==> NewNode(x, l).SetId(y).id == (if y != "" then y else x)
    ensures y != "" ==> NewNode("", l).SetId(y).kind == "" && NewNode("", l).SetId(y).Clone() == NewNode(y, l)
  {
  }

  /** Copying a node twice is copying it once. */
  lemma NodeCloneLaws(n: Node)
    ensures n.Clone().Clone() == n.Clone()
  {
  }

  /** An edge end as the constructor receives it: a raw id or a node. */
  datatype Endpoint = ById(id: string) | ByNode(node: Node)
  {
    /** A node object is always truthy, a string only when non-empty. */
    predicate Truthy()
    {
      ById? ==> id != ""
    }

    /** The id the constructor resolves this end to. */
    function ResolvedId(): (x: string)
    {
      match this
      case ById(s) => s
      case ByNode(n) => n.id
    }
  }

  /** An edge: the (subject, object, predicate) triple, a type and metadata. */
  datatype Edge = Edge(subjectId: string, objectId: string, predicateId: PredicateId,
                       kind: string, metadata: Option<Meta>)
  {
    /** The type setter; a falsy value leaves the edge as it is. */
    function SetKind(value: string): (e: Edge)
    {
      if value != "" then this.(kind := value) else this
    }

    /** The metadata setter; absent metadata leaves the edge as it is. */
    function SetMetadata(value: Option<Meta>): (e: Edge)
    {
      if value.Some? then this.(metadata := value) else this
    }

    /** An edge is well formed when it came out of the constructor with two
        ends and its type was not changed afterwards. */
    predicate WellFormed()
    {
      subjectId != "" && objectId != "" && kind == "edge"
    }

    /** A fresh edge built from this edge's ids and predicate, with a copy of
        its metadata.  The type is not copied: the constructor sets it again. */
    function Clone(): (c: Edge)
      ensures c.subjectId == subjectId && c.objectId == objectId && c.predicateId == predicateId
      ensures c.metadata == metadata
      ensures c.kind == (if subjectId != "" && objectId != "" then "edge" else "")
      ensures WellFormed() ==> c == this
    {
      NewEdge(ById(subjectId), ById(objectId), predicateId).SetMetadata(metadata)
    }
  }

  /** The edge constructor.  Each end is the given string or the given node's
      id; the predicate falls back to DefaultPredicate when falsy; the type is
      "edge" only when both ends were given. */
  function NewEdge(sub: Endpoint, obj: Endpoint, pred: string): (e: Edge)
    ensures sub.ById? ==> e.subjectId == sub.id
    ensures sub.ByNode? ==> e.subjectId == sub.node.id
    ensures obj.ById? ==> e.objectId == obj.id
    ensures obj.ByNode? ==> e.objectId == obj.node.id
    ensures pred != "" ==> e.predicateId == pred
    ensures pred == "" ==> e.predicateId == DefaultPredicate
    ensures e.kind == "edge" <==> sub.Truthy() && obj.Truthy()
    ensures !(sub.Truthy() && obj.Truthy()) ==> e.kind == ""
    ensures e.metadata == None
  {
    Edge(sub.ResolvedId(), obj.ResolvedId(),
         if pred != "" then pred else DefaultPredicate,
         if sub.Truthy() && obj.Truthy() then "edge" else "",
         None)
  }

  /** An edge built from two ends with ids is well formed and is its own
      copy; a node given as an end stands for its id; and building the edge
      again with the predicate it got gives the same edge, so the default
      predicate is a fixed point of the constructor. */
  lemma NewEdgeLaws(sub: Endpoint, obj: Endpoint, pred: string)
    ensures sub.ResolvedId() != "" && obj.ResolvedId() != "" ==>
      NewEdge(sub, obj, pred).WellFormed() && NewEdge(sub, obj, pred).Clone() == NewEdge(sub, obj, pred)
    ensures sub.ByNode? && sub.node.id != "" ==> NewEdge(sub, obj, pred) == NewEdge(ById(sub.node.id), obj, pred)
    ensures obj.ByNode? && obj.node.id != "" ==> NewEdge(sub, obj, pred) == NewEdge(sub, ById(obj.node.id), pred)
    ensures NewEdge(sub, obj, NewEdge(sub, obj, pred).predicateId) == NewEdge(sub, obj, pred)
    ensures NewEdge(sub, obj, pred).predicateId == NewEdge(sub, obj, DefaultPredicate).predicateId <==>
      pred == "" || pred == DefaultPredicate
  {
  }

  /** Cloning an edge is idempotent, and a clone of an edge with two ids is
      well formed. */
  lemma EdgeCloneLaws(e: Edge)
    ensures e.Clone().Clone() == e.Clone()
    ensures e.subjectId != "" && e.objectId != "" ==> e.Clone().WellFormed()
  {
  }
}
