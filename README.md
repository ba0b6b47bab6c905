# bbop-graph core in Dafny

A model of `lib/graph.js` of bbop-graph, the small labelled multigraph library
of the Berkeley BOP JavaScript tools, with proofs about it. A graph holds
nodes (id, label, type, metadata) and directed edges (subject, object,
predicate, type, metadata). It keeps index tables over the edges: subject and
object hashes, subject→object and object→subject tables, a
subject→object→predicate table, and a predicate list. Queries read these
tables for roots, leaves, singletons, dangling ids, parents and children, and
the ancestor subgraph of a set of ids. The graph reads and writes a simple
JSON document.

Files:

- `elements.dfy` (module `Elements`) holds nodes and edges as values, their
  constructors, setters and `clone`.
  - JavaScript truthiness is explicit: an absent or empty string is `""` and
    absent metadata is `None`.
  - Every setter ignores a falsy value, as the getter/setters of the source do.
- `tables.dfy` (module `Tables`) holds each index table as a fold over the
  edge list (or the node list), and proves how the tables agree with the
  list and with each other:
  - the so table is the key set of the sop table;
  - os is the transpose of so;
  - the sop table stores the last edge added for each triple.
- `json.dfy` (module `Json`) holds the JSON document as records and the
  conversions `load_json` and `to_json` perform, with the round trip between
  them.
- `walk.dfy` (module `Ancestors`) holds the bookkeeping of the ancestor walk
  of `get_ancestor_subgraph`: what one parent step is, closed sets, and the
  invariants of `rec_up`.
- `graph.dfy` (module `Graphs`) holds the class `Graph`.
  - Its fields are the tables the JavaScript object reads: the node array
    and hash, the edge array, the predicate array and hash, the subject and
    object hashes, the so, os and sop tables, and the key sets of the named
    and singleton hashes. The `_subjects.array` and `_objects.array` that
    add_edge pushes to are never read, and are not fields. Of the named-node
    hash only its key set is kept: its values mix nodes and strings and are
    never read.
  - `Valid()` ties every index field to the fold of the edge or node list.
  - Each method of the source is a method or function here. Its contract
    states the result in terms of the node and edge lists: membership, counts,
    and which copy is returned.
  - Loops that read only plain tables are module-level methods beside the
    class, such as `CopiesOutside`, `ChildCopies`, `ObjectNodes` and
    `DanglingIds`.

Results that JavaScript builds by `for .. in` over a hash have no defined
order. They are specified by membership and, where an element can repeat, by
how many times it occurs (`CountId`, `CountObject`, `PredicateCount`).

Where the documentation comments of `lib/graph.js` and its code disagree, the
model follows the code:

- `get_parent_edges`, `get_parent_nodes` and `get_child_nodes` are documented
  as returning the originals (lib/graph.js:654, :696, :721). They return what
  `get_edge` and `get_node` return, and both of those return `clone()`
  (lib/graph.js:441-453, :464-476). So all three return copies
  (`Graphs.Graph.GetEdge`, `Graphs.Graph.GetNode`).
- `get_parent_edges`, `get_parent_nodes` and `get_child_nodes` are documented
  as using the default predicate when none is given (lib/graph.js:654-655,
  :696-697, :721-722). The code uses every predicate in the predicate array
  (lib/graph.js:668-673, :733-738), and so does the model
  (`Graphs.Graph.PredicatesToUse`). This is also what the tests in
  `tests/core.tests.js` expect.
- Adding a node whose id is already present does nothing. There is no error.

The tests of `tests/core.tests.js` are restated as lemmas in `scenarios.dfy`
(module `Scenarios`). The "simple model" graph is written down as the node and
edge lists its `add_node` and `add_edge` calls build. Each expected answer is
proved from the contracts of the queries the test calls. Some tests read
`default_predicate` off an edge or a graph (tests/core.tests.js:61, :101).
`lib/graph.js` exports it only at module level (lib/graph.js:982), so there it
reads `undefined`, and the assertions that use it (tests/core.tests.js:61,
:150, :159, :193, :199, :217, :221) do not hold against this code. The lemmas
use `"points_at"` in its place, which is the value the tests mean.

## Model

| member | source | states |
|---|---|---|
| Elements.NewNodeLaws | lib/graph.js:47-114 | a constructed node is its own copy and is unchanged by setting the id or label it was built with; a truthy id set later replaces the id; a node built without an id and given one later has no type, but its copy is the node the constructor builds with that id |
| Elements.NodeSetterLaws | lib/graph.js:67-100 | each node setter stores a truthy value and ignores a falsy one, changes no other field, and setting a value twice equals setting it once |
| Elements.Node.Clone | lib/graph.js:108-114 | a node's copy has the same id, label and metadata; its type is the original's or, when that is falsy and there is an id, "node"; a typed node (or an id-less one) copies to itself |
| Elements.NodeCloneLaws | lib/graph.js:108-114 | copying a node twice is copying it once, so get_root_nodes' copy of get_node's copy is a plain copy |
| Elements.NewEdgeLaws | lib/graph.js:132-166 | an edge built from two ends with ids is well formed and is its own copy; a node given as an end stands for its id; rebuilding an edge with the predicate it got gives the same edge; the predicate equals the one built with points_at exactly when none or points_at was given |
| Elements.Edge.Clone | lib/graph.js:219-226 | an edge's copy keeps ids, predicate and metadata, retypes itself "edge" when both ids are present, and a well-formed edge copies to itself |
| Elements.EdgeCloneLaws | lib/graph.js:219-226 | copying an edge twice is copying it once, and the copy of an edge with two ids is well formed |
| Graphs.ConstructedEdgeFound | lib/graph.js:464-468 | get_edge falls back to the same predicate as the edge constructor, so the last edge added, built from two ends and a predicate argument (falsy or not), is what get_edge returns for its ids and that same argument |
| Tables.SubjectsOfMembers | lib/graph.js:355-360 | the subject hash holds exactly the subjects of the added edges |
| Tables.ObjectsOfMembers | lib/graph.js:361-365 | the object hash holds exactly the objects of the added edges |
| Tables.SopOfLookup | lib/graph.js:340-346 | the sop table has an entry for (s, o, p) exactly when some added edge has that triple |
| Tables.SopOfStoresOwnTriple | lib/graph.js:340-346 | the entry of the sop table for a triple is an edge with that triple, and it is one of the added edges |
| Tables.SoAgreesWithSop | lib/graph.js:334-346 | the so table is keyed like the sop table, and so[s] is the key set of sop[s] |
| Tables.OsTransposesSo | lib/graph.js:334-339 | o is in so[s] exactly when s is in os[o] |
| Tables.PredicatesOfFacts | lib/graph.js:348-353 | the predicate array lists each predicate of the added edges exactly once |
| Tables.PredicatesOfGrows | lib/graph.js:348-353 | the predicate array only grows at its end, so each predicate stays where it was first seen |
| Tables.NodeTableOfFacts | lib/graph.js:295-319 | with distinct ids, the node hash maps exactly the ids of the node array to their nodes |
| Tables.NodeStoreAdd | lib/graph.js:295-319 | add_node drops a node without an id or with a known id; otherwise the node is appended and entered in the hash |
| Tables.TablesOfSnoc | lib/graph.js:327-381 | entering an edge in the tables of an edge list gives the tables of the list with the edge appended |
| Tables.AddNodesToEmpty | lib/graph.js:295-319 | adding nodes with distinct non-empty ids to an empty graph keeps all of them, in order |
| Tables.AddNodesToGrows | lib/graph.js:295-319 | adding nodes never drops or reorders the nodes already present; the ids afterwards are the old ones plus every non-empty id added |
| Graphs.NodeAdded | lib/graph.js:295-319 | add_node of a node with a new id keeps the node hash, the named hash and the singleton hash in agreement with the node and edge lists |
| Graphs.EdgeAdded | lib/graph.js:327-381 | add_edge keeps the tables, the named hash and the singleton hash in agreement with the lists; both ends stop being singletons |
| Graphs.Graph.constructor | lib/graph.js:240-278 | a new graph is empty, consistent and has no id |
| Graphs.Graph.Id | lib/graph.js:286-288 | the graph id setter ignores a falsy value and returns the current id |
| Graphs.Graph.AddNode | lib/graph.js:295-319 | a node without an id, or with a known id, changes nothing; otherwise it is stored under its id, named, and a singleton unless an edge already names it; get_node then finds it |
| Graphs.Graph.AddEdge | lib/graph.js:327-381 | the edge is appended and entered in every table, its ends become named and stop being singletons, and get_edge on its triple returns a copy of it |
| Graphs.Graph.GetNode | lib/graph.js:446-453 | some node exactly when a node with that id was added, and then a copy of it |
| Graphs.Graph.GetEdge | lib/graph.js:464-476 | some edge exactly when an edge with that triple (default predicate when falsy) was added, and then a copy of the last such edge; that copy is well formed |
| Graphs.Graph.AllNodes | lib/graph.js:388-390 | the added nodes, distinct ids, every one found by get_node, every node id present |
| Graphs.Graph.AllEdges | lib/graph.js:397-399 | the added edges; each has two ends and get_edge finds its triple |
| Graphs.Graph.AllPredicates | lib/graph.js:406-408 | each predicate used by an edge, exactly once |
| Graphs.Graph.AllDangling | lib/graph.js:415-424 | each id that is an end of some edge but not a node, exactly once, and nothing else |
| Graphs.DanglingIds | lib/graph.js:415-424 | the loop of all_dangling lists each named id outside the node hash, once |
| Graphs.Graph.IsComplete | lib/graph.js:432-438 | true exactly when both ends of every edge are nodes |
| Graphs.Graph.IsRootNode | lib/graph.js:568-575 | true exactly for a node that is no edge's subject |
| Graphs.Graph.IsLeafNode | lib/graph.js:604-612 | true exactly for a node that is no edge's object |
| Graphs.CopiesOutside | lib/graph.js:586-594 | one copy of each hash entry whose id is outside the excluded set, each id once, and no other entry |
| Graphs.Graph.GetRootNodes | lib/graph.js:586-594 | a copy of every root node, each once, and nothing else |
| Graphs.Graph.GetLeafNodes | lib/graph.js:622-630 | a copy of every leaf node, each once, and nothing else |
| Graphs.Originals | lib/graph.js:640-651 | the hash entries under the given keys, each once |
| Graphs.Graph.GetSingletonNodes | lib/graph.js:640-651 | the original of every node that is an end of no edge, each once, and nothing else |
| Graphs.Graph.GetEdges | lib/graph.js:486-497 | no repeats; an edge is returned exactly when get_edge from s to o under its predicate returns it |
| Graphs.Graph.GetPredicates | lib/graph.js:507-516 | no repeats; a predicate is returned exactly when some edge from s to o carries it |
| Graphs.Graph.EdgesToNodes | lib/graph.js:531-559 | a target other than subject or object is an error; otherwise success exactly when every chosen end is a node, then the nodes in edge order, and otherwise the world error |
| Graphs.Graph.PredicatesToUse | lib/graph.js:667-673 | the given predicate alone, or each predicate in use exactly once when none is given |
| Graphs.Graph.ParentEdgesUnder | lib/graph.js:681-690 | for one predicate: every edge get_edge finds from nid under it, one per object |
| Graphs.Graph.GetParentEdges | lib/graph.js:663-693 | an edge is returned exactly when get_edge returns it for nid, its object and one of the predicates to use; edges ending at o occur once per such predicate |
| Graphs.Graph.ParentEdgesStep | lib/graph.js:676-691 | one round of the predicate loop adds the counts of one more predicate |
| Graphs.ObjectNodes | lib/graph.js:706-716 | a copy of the node at the object end of each edge that is a node, as often as edges end there |
| Graphs.Graph.GetParentNodes | lib/graph.js:704-718 | each result is found by get_node; a node occurs once per predicate to use that links nid to it, and no other id occurs |
| Graphs.ChildCopies | lib/graph.js:746-759 | a copy of each node that has an entry for (it, nid, p) in the sop table, once |
| Graphs.Graph.ChildNodesUnder | lib/graph.js:746-759 | for one predicate: a copy of each node pointing at nid under it, once |
| Graphs.Graph.GetChildNodes | lib/graph.js:728-762 | each result is found by get_node; a node occurs once per predicate to use under which it points at nid, and no other id occurs |
| Graphs.Graph.ChildNodesStep | lib/graph.js:741-760 | one round of the predicate loop adds the counts of one more predicate |
| Graphs.Graph.ParentStepMeans | lib/graph.js:799-808 | one step up from x reaches y exactly when y is a node and an edge x → y carries a predicate to use |
| Graphs.Graph.IsParentEdgeMeans | lib/graph.js:788-793 | an edge the walk lists is what get_edge returns for its own triple, under a predicate to use |
| Graphs.Graph.ParentNodesAreSteps | lib/graph.js:799-808 | the nodes read off nid's parent edges are exactly the one-step parents of nid |
| Graphs.Graph.NewParents | lib/graph.js:787-814 | nid's parent edges as get_parent_edges returns them, and a copy of each parent node and of nid's own node when it is one |
| Graphs.Graph.RecUp | lib/graph.js:784-829 | after rec_up(nid): nid is finished, every id marked is a copy of its node, every parent of a finished id is marked, the new edges are exactly the parent edges of nid and of the newly marked ids, and nothing is marked that a closed set holding the old marks and nid would lack |
| Ancestors.ClimbStart | lib/graph.js:788-793 | listing nid's parent edges before marking anything starts rec_up's loop invariant |
| Ancestors.WalkMark | lib/graph.js:820-823 | marking a copy of a node keeps the walk's bookkeeping |
| Ancestors.ClimbStep | lib/graph.js:818-826 | marking a parent and climbing from it keeps rec_up's loop invariant |
| Ancestors.LeastChain | lib/graph.js:818-826 | climbing from a marked parent keeps the marks least |
| Ancestors.ListChain | lib/graph.js:790-826 | climbing from a marked parent keeps the edge list what it should be |
| Ancestors.ClimbFinish | lib/graph.js:816-827 | once every parent and nid itself are marked, nid is finished |
| Ancestors.WalkStep | lib/graph.js:834-840 | running rec_up on one more start id keeps the walk's invariant over the starts seen so far |
| Graphs.Graph.Walk | lib/graph.js:774-840 | the marked ids are the least set that is closed under parent steps and holds each start that is a node and every parent of each start; each maps to a copy of its node; the edge list holds exactly the parent edges of the marked ids and of the starts |
| Graphs.BuildGraph | lib/graph.js:843-851 | a new graph without an id whose node hash is the marked table and whose edge list is the listed edges, in order |
| Graphs.AddNodesOf | lib/graph.js:844-846 | add_node of each entry of an id-keyed table into a graph without nodes gives exactly that node hash; edges and graph id are untouched |
| Graphs.AddEdgesOf | lib/graph.js:847-849 | add_edge of each edge of a list appends the list and leaves the nodes alone |
| Graphs.Graph.GetAncestorSubgraph | lib/graph.js:772-852 | a new graph without an id: its nodes are copies of this graph's nodes, forming the least set closed under parent steps that holds what the start ids need (a single id is walked as a one-element list); its edges are exactly the parent edges of its nodes and of the start ids |
| Graphs.AddNodeList | lib/graph.js:869-872 | add_node of each node of a list, in order, in terms of the node list afterwards |
| Graphs.Graph.MergeIn | lib/graph.js:864-881 | the nodes become those that adding a copy of each of the other graph's nodes gives; the edges are extended by a copy of each of its edges; returns true |
| Json.NodeOfRecord | lib/graph.js:899-902 | a node record becomes a node with its id, label and metadata, typed "node" when it has an id |
| Json.EdgeOfRecord | lib/graph.js:910-912 | an edge record becomes an edge with its ids, its predicate or points_at, and its metadata; well formed when both ids are present |
| Json.ImportExport | lib/graph.js:892-976 | importing what to_json writes gives back the node list (nodes typed "node" with ids) and the edge list (well-formed edges without metadata) |
| Graphs.Graph.LoadJson | lib/graph.js:892-919 | the nodes become those that adding the node built from each node record gives; the edges are extended by the edge built from each edge record; returns true |
| Json.ExportImport | lib/graph.js:892-976 | exporting what load_json builds from a document with both lists gives the document back, when every edge record names its predicate and has no metadata |
| Graphs.Graph.ToJson | lib/graph.js:929-976 | the document is the export of the node and edge lists, and it is one that survives a reload |
| Json.RoundTrip | lib/graph.js:892-976 | loading an exported-style document into an empty graph and exporting gives the document back |
| Json.ExportRoundTrips | lib/graph.js:929-976 | what to_json writes for a consistent graph survives load_json followed by to_json |
| Scenarios.NodeTest | tests/core.tests.js:12-25 | a node built with id a has id a and type node; setting its id to b gives id b |
| Scenarios.EdgeTest | tests/core.tests.js:40-64 | edges built from nodes take their ids and points_at; edges built from ids keep the ids and the given predicate |
| Scenarios.SimpleModelBuilt | tests/core.tests.js:84-99 | all eight add_node calls of the simple model keep their node, and every add_edge call has two ends |
| Scenarios.SimplePredicates | tests/core.tests.js:93-99 | the simple model's predicate array is points_at, then is_a |
| Scenarios.SimpleModelQueries | tests/core.tests.js:104-142 | roots are exactly a, n, x, z; leaves d, e, z; z is the only node that is no edge end; y the only edge end that is no node; the graph is not complete |
| Scenarios.SingletonIsZ | tests/core.tests.js:110-111 | any get_singleton_nodes result of the simple model is one node, z |
| Scenarios.DanglingIsY | tests/core.tests.js:112 | any all_dangling result of the simple model is [y] |
| Scenarios.LeafCount | tests/core.tests.js:116-128 | any get_leaf_nodes result of the simple model has three nodes |
| Scenarios.RootCount | tests/core.tests.js:130-142 | any get_root_nodes result of the simple model has four nodes |
| Scenarios.ParentsOfAAndB | tests/core.tests.js:146-148 | a has no parents; b has one, a |
| Scenarios.ParentsOfD | tests/core.tests.js:149-151 | d has three parents without a predicate, two under points_at, and one, b, under is_a |
| Scenarios.ChildrenOfAAndB | tests/core.tests.js:156-160 | a has two children; b has one, d, under is_a and none under points_at |
| Scenarios.Childless | tests/core.tests.js:161-163 | d, z and x have no children |
| Scenarios.AncestorsOfD | tests/core.tests.js:179-224 | the walk from d marks a, b, c, d and n, and along is_a only b and d |
| Scenarios.SubgraphOfD | tests/core.tests.js:179-224 | the ancestor subgraph of d has nodes a, b, c, d, n with subjects b, c, d and objects a, b, c, n; along is_a, nodes b, d and the one edge d -> b |
| Scenarios.SubgraphQueries | tests/core.tests.js:179-224 | the subgraph's roots are a and n (b along is_a), and d is its only leaf |
| Scenarios.SubgraphCounts | tests/core.tests.js:182-188 | get_root_nodes on the subgraph gives two nodes (one along is_a), get_leaf_nodes gives one, d |
| Scenarios.SimpleDocumentRoundTrip | tests/core.tests.js:338-345 | loading the test's document into a new graph and exporting it gives the document back |

## Left out

- Logging (`bbop.core` logger calls) and `_is_a` tags: no effect on the graph's contents.
- `bbop.clone` of metadata is a deep copy. Metadata is an immutable value here, so copying it is the identity.
- Aliasing: `all_nodes`, `all_edges` and `get_singleton_nodes` return objects shared with the graph. `add_node` and `add_edge` also store the caller's object itself (lib/graph.js:295-319, :327-381). So a caller who changes a node's id after adding it changes the stored node without re-keying the node hash. Nodes and edges are values here, so none of this can happen.
- Order of `for .. in` over hashes: results built that way are specified by membership and number of occurrences, not order.
- Keys of `Object.prototype` (an id such as `constructor`): the hashes are true maps here.
- Graphs.Graph.AddEdge: requires both ends to be non-empty. The source stores an edge with a missing end under the key `undefined`; that key is not modelled.
- Graphs.Graph.LoadJson: requires every edge record to have a subject and an object, for the same reason as add_edge.
- Graphs.Graph.MergeIn: the other graph's node and edge lists are read once, before anything is added. Underscore's `each` fixes the length first, and additions only append, so this is what the source does even when a graph is merged into itself.
- Graphs.Graph.GetAncestorSubgraph: the edge list is specified by membership; how many times an edge repeats (once per time its subject's edges were listed) is not stated.
- Graphs.Graph.Walk: the for .. in order in which the marked nodes are added to the new graph is not modelled; the new graph's node hash is stated, its node array order is not.
- The `type` field of nodes and edges is modelled, with its setters, but no graph operation reads it.
- Removal of nodes or edges: the source has none in this file.
- Scenarios: the tests of get_edges and get_predicates (tests/core.tests.js:166-175), of the JSON-loaded GO and taxon graphs (tests/core.tests.js:229-330), and of parent and child counts inside the ancestor subgraph are not restated as lemmas.
