/** The JSON snapshot format read by load_json and written by to_json
    (lib/graph.js:892-976), as records.  An omitted field is "" (or None for
    metadata), so "the field is left out when falsy" is built into the
    representation.
 */
module Json {
  import opened Elements
  import opened Tables

  /** {"id": ..., "lbl": ..., "meta": ...} */
  datatype NodeRecord = NodeRecord(id: string, lbl: string, meta: Option<Meta>)

  /** {"sub": ..., "obj": ..., "pred": ..., "meta": ...} */
  datatype EdgeRecord = EdgeRecord(sub: string, obj: string, pred: string, meta: Option<Meta>)

  /** {"nodes": [...], "edges": [...]}; either list may be missing. */
  datatype Document = Document(nodes: Option<seq<NodeRecord>>, edges: Option<seq<EdgeRecord>>)

  /** The node load_json builds from a record: the constructor with id and
      label, then the metadata if the record has any. */
  function NodeOfRecord(r: NodeRecord): (n: Node)
    ensures n.id == r.id && n.lbl == r.lbl && n.metadata == r.meta
    ensures n.kind == (if r.id != "" then "node" else "")
  {
    NewNode(r.id, r.lbl).SetMetadata(r.meta)
  }

  /** The edge load_json builds from a record: ids as given, the default
      predicate when none is given, then the metadata if any. */
  function EdgeOfRecord(r: EdgeRecord): (e: Edge)
    ensures e.subjectId == r.sub && e.objectId == r.obj && e.metadata == r.meta
    ensures e.predicateId == (if r.pred != "" then r.pred else DefaultPredicate)
    ensures r.sub != "" && r.obj != "" ==> e.WellFormed()
  {
    NewEdge(ById(r.sub), ById(r.obj), r.pred).SetMetadata(r.meta)
  }

  /** The record to_json writes for a node; the type is not written. */
  function RecordOfNode(n: Node): (r: NodeRecord)
  {
    NodeRecord(n.id, n.lbl, n.metadata)
  }

  /** The record to_json writes for an edge; edge metadata is never written. */
  function RecordOfEdge(e: Edge): (r: EdgeRecord)
  {
    EdgeRecord(e.subjectId, e.objectId, e.predicateId, None)
  }

  /** The edge records of a document; a missing list reads as empty. */
  function EdgeRecords(d: Document): (rs: seq<EdgeRecord>)
  {
    if d.edges.Some? then d.edges.value else []
  }

  /** The node records of a document; a missing list reads as empty. */
  function NodeRecords(d: Document): (rs: seq<NodeRecord>)
  {
    if d.nodes.Some? then d.nodes.value else []
  }

  /** The nodes load_json hands to add_node, in document order. */
  function ImportNodes(d: Document): (ns: seq<Node>)
    ensures |ns| == |NodeRecords(d)|
    ensures forall i :: 0 <= i < |ns| ==> ns[i] == NodeOfRecord(NodeRecords(d)[i])
  {
    var rs := NodeRecords(d);
    seq(|rs|, i requires 0 <= i < |rs| => NodeOfRecord(rs[i]))
  }

  /** The edges load_json hands to add_edge, in document order. */
  function ImportEdges(d: Document): (es: seq<Edge>)
    ensures |es| == |EdgeRecords(d)|
    ensures forall i :: 0 <= i < |es| ==> es[i] == EdgeOfRecord(EdgeRecords(d)[i])
  {
    var rs := EdgeRecords(d);
    seq(|rs|, i requires 0 <= i < |rs| => EdgeOfRecord(rs[i]))
  }

  /** What to_json returns for a node list and an edge list: both lists are
      always present, one record per entry, in order. */
  function Export(ns: seq<Node>, es: seq<Edge>): (d: Document)
    ensures d.nodes.Some? && |d.nodes.value| == |ns| && d.edges.Some? && |d.edges.value| == |es|
    ensures forall i :: 0 <= i < |ns| ==> d.nodes.value[i] == RecordOfNode(ns[i])
    ensures forall i :: 0 <= i < |es| ==> d.edges.value[i] == RecordOfEdge(es[i])
  {
    Document(Some(seq(|ns|, i requires 0 <= i < |ns| => RecordOfNode(ns[i]))),
             Some(seq(|es|, i requires 0 <= i < |es| => RecordOfEdge(es[i]))))
  }

  /** Importing what to_json writes gives the lists back, for nodes typed
      "node" with an id and for well-formed edges without metadata (the
      type is not written, and edge metadata is dropped). */
  lemma ImportExport(ns: seq<Node>, es: seq<Edge>)
    requires forall i :: 0 <= i < |ns| ==> ns[i].id != "" && ns[i].kind == "node"
    requires forall i :: 0 <= i < |es| ==> es[i].WellFormed() && es[i].metadata.None?
    ensures ImportNodes(Export(ns, es)) == ns
    ensures ImportEdges(Export(ns, es)) == es
  {
    var d := Export(ns, es);
    assert forall i :: 0 <= i < |ns| ==> ImportNodes(d)[i] == ns[i];
    assert forall i :: 0 <= i < |es| ==> ImportEdges(d)[i] == es[i];
  }

  /** Exporting what load_json builds from a document with both lists gives
      the document back, when every edge record names its predicate and has
      no metadata; a node record always comes back as it was. */
  lemma ExportImport(d: Document)
    requires d.nodes.Some? && d.edges.Some?
    requires forall r :: r in d.edges.value ==> r.pred != "" && r.meta.None?
    ensures Export(ImportNodes(d), ImportEdges(d)) == d
  {
    var out := Export(ImportNodes(d), ImportEdges(d));
    assert out.nodes.value == d.nodes.value;
    assert forall i :: 0 <= i < |d.edges.value| ==> d.edges.value[i] in d.edges.value;
    assert out.edges.value == d.edges.value;
  }

  /** The documents that survive load_json followed by to_json unchanged:
      both lists present, distinct non-empty node ids, non-empty edge ids and
      predicates, and no edge metadata. */
  ghost predicate RoundTrips(d: Document)
  {
    && d.nodes.Some? && d.edges.Some?
    && (forall i :: 0 <= i < |d.nodes.value| ==> d.nodes.value[i].id != "")
    && (forall i, j :: 0 <= i < j < |d.nodes.value| ==> d.nodes.value[i].id != d.nodes.value[j].id)
    && (forall r :: r in d.edges.value ==> r.sub != "" && r.obj != "" && r.pred != "" && r.meta.None?)
  }

  /** Loading such a document into an empty graph and exporting it gives the
      document back. */
  lemma RoundTrip(d: Document)
    requires RoundTrips(d)
    ensures Export(AddNodesTo([], ImportNodes(d)), ImportEdges(d)) == d
  {
    var ns := ImportNodes(d);
    assert DistinctIds(ns);
    AddNodesToEmpty(ns);
    var out := Export(ns, ImportEdges(d));
    assert out.nodes.value == d.nodes.value;
    assert out.edges.value == d.edges.value;
  }

  /** What to_json writes for a graph's lists is itself such a document, so
      exporting, reloading and exporting again gives the same document. */
  lemma ExportRoundTrips(ns: seq<Node>, es: seq<Edge>)
    requires DistinctIds(ns) && forall i :: 0 <= i < |ns| ==> ns[i].id != ""
    requires forall i :: 0 <= i < |es| ==> es[i].subjectId != "" && es[i].objectId != ""
    ensures RoundTrips(Export(ns, es))
  {
    var d := Export(ns, es);
    forall r | r in d.edges.value ensures r.sub != "" && r.obj != "" && r.pred != "" && r.meta.None? {
      var i :| 0 <= i < |d.edges.value| && d.edges.value[i] == r;
    }
  }
}
