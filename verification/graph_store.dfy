/** The knowledge graph as the ingestion script leaves it in Neo4j: `Entity` nodes keyed by name and
    `RELATION` edges keyed by (source, target, predicate), each with the provenance lists that the
    script's two `MERGE` statements write. The store is plain state; the Cypher writes are state
    transitions on it. */
module GraphStore {
  import opened Common

  /** An `Entity` node. `typ` is set only by an entity write that creates the node; `sources` is
      absent until the first entity write touches the node. */
  datatype Node = Node(typ: Option<string>, sources: Option<seq<string>>)

  /** A `RELATION` edge is identified by its endpoints' names and its `type` property. */
  datatype EdgeKey = EdgeKey(src: string, dst: string, pred: string)

  /** Node names are map keys, so a name can never name two nodes. Each edge maps to its `sources`. */
  datatype Graph = Graph(nodes: map<string, Node>, edges: map<EdgeKey, seq<string>>)

  /** The relationship label every edge is written with; `type(r)` returns it. */
  const RelationLabel := "RELATION"

  /** Every edge joins two existing nodes. */
  predicate WellFormed(g: Graph) {
    forall k :: k in g.edges ==> k.src in g.nodes && k.dst in g.nodes
  }

  /** `coalesce(n.sources, [])` for the node named `name`, or `[]` if there is none yet. */
  function NodeSources(g: Graph, name: string): seq<string> {
    if name in g.nodes then g.nodes[name].sources.GetOr([]) else []
  }

  /** `coalesce(rel.sources, [])` for the edge `k`, or `[]` if there is none yet. */
  function EdgeSources(g: Graph, k: EdgeKey): seq<string> {
    if k in g.edges then g.edges[k] else []
  }

  /** `MERGE (n:Entity {name}) ON CREATE SET n.type = type SET n.sources = coalesce(n.sources, []) + sid`
      (graph-rag.py, lines 57-62). */
  function UpsertEntity(g: Graph, name: string, typ: string, sid: string): (h: Graph)
    ensures h.nodes.Keys == g.nodes.Keys + {name}
    ensures h.nodes[name].typ == (if name in g.nodes then g.nodes[name].typ else Some(typ))
    ensures h.nodes[name].sources == Some(NodeSources(g, name) + [sid])
    ensures forall n :: n in g.nodes && n != name ==> h.nodes[n] == g.nodes[n]
    ensures h.edges == g.edges
  {
    var typ' := if name in g.nodes then g.nodes[name].typ else Some(typ);
    g.(nodes := g.nodes[name := Node(typ', Some(NodeSources(g, name) + [sid]))])
  }

  /** `MERGE (n:Entity {name})` with nothing else set: a missing node is created bare. */
  function EnsureNode(nodes: map<string, Node>, name: string): map<string, Node> {
    if name in nodes then nodes else nodes[name := Node(None, None)]
  }

  /** `MERGE (a:Entity {name: s}) MERGE (b:Entity {name: o})
      MERGE (a)-[rel:RELATION {type: r}]->(b) SET rel.sources = coalesce(rel.sources, []) + sid`
      (graph-rag.py, lines 65-71). */
  function UpsertRelation(g: Graph, s: string, o: string, r: string, sid: string): (h: Graph)
    ensures h.nodes.Keys == g.nodes.Keys + {s, o}
    ensures forall n :: n in g.nodes ==> h.nodes[n] == g.nodes[n]
    ensures forall n :: n in h.nodes && n !in g.nodes ==> h.nodes[n] == Node(None, None)
    ensures h.edges.Keys == g.edges.Keys + {EdgeKey(s, o, r)}
    ensures h.edges[EdgeKey(s, o, r)] == EdgeSources(g, EdgeKey(s, o, r)) + [sid]
    ensures forall k :: k in g.edges && k != EdgeKey(s, o, r) ==> h.edges[k] == g.edges[k]
  {
    var k := EdgeKey(s, o, r);
    Graph(EnsureNode(EnsureNode(g.nodes, s), o), g.edges[k := EdgeSources(g, k) + [sid]])
  }

  /** `MATCH (e:Entity) WHERE sid IN e.sources RETURN COUNT(e) > 0` (graph-rag.py, lines 29-35):
      only node provenance is consulted, never edge provenance. */
  predicate AlreadyUploaded(g: Graph, sid: string) {
    exists name :: name in g.nodes && sid in NodeSources(g, name)
  }

  /** The relationships matched by `MATCH (a:Entity {name: $name})-[r]->(b)`. */
  function Outgoing(g: Graph, name: string): (ks: set<EdgeKey>)
    ensures forall k :: k in ks <==> k in g.edges && k.src == name
  {
    set k | k in g.edges && k.src == name
  }

  /** The one-hop match for a name that has no node returns no rows, in a well-formed graph. */
  lemma OutgoingOfMissing(g: Graph, name: string)
    requires WellFormed(g) && name !in g.nodes
    ensures Outgoing(g, name) == {}
  {
  }

  /** After a relation write, the one-hop match from its source also returns the written edge;
      the match from any other name is unchanged. */
  lemma OutgoingAfterRelation(g: Graph, s: string, o: string, r: string, sid: string, name: string)
    ensures Outgoing(UpsertRelation(g, s, o, r, sid), name) ==
      if name == s then Outgoing(g, name) + {EdgeKey(s, o, r)} else Outgoing(g, name)
  {
  }

  /** An entity write changes no one-hop match. */
  lemma OutgoingAfterEntity(g: Graph, n: string, typ: string, sid: string, name: string)
    ensures Outgoing(UpsertEntity(g, n, typ, sid), name) == Outgoing(g, name)
  {
  }

  /** `h` is `g` after more writes: no node or edge is lost, no node's type changes, and every
      provenance list only grows at its end. */
  predicate Extends(g: Graph, h: Graph) {
    && (forall n :: n in g.nodes ==> n in h.nodes && h.nodes[n].typ == g.nodes[n].typ)
    && (forall n :: n in g.nodes ==> NodeSources(g, n) <= NodeSources(h, n))
    && (forall k :: k in g.edges ==> k in h.edges && g.edges[k] <= h.edges[k])
  }

  lemma ExtendsTransitive(f: Graph, g: Graph, h: Graph)
    requires Extends(f, g) && Extends(g, h)
    ensures Extends(f, h)
  {
  }

  /** An entity write only adds: the graph after it extends the graph before, and well-formedness
      is kept. */
  lemma UpsertEntityExtends(g: Graph, name: string, typ: string, sid: string)
    ensures Extends(g, UpsertEntity(g, name, typ, sid))
    ensures WellFormed(g) ==> WellFormed(UpsertEntity(g, name, typ, sid))
  {
  }

  /** A relation write only adds, and it keeps the graph well-formed: both endpoints exist after it. */
  lemma UpsertRelationExtends(g: Graph, s: string, o: string, r: string, sid: string)
    ensures Extends(g, UpsertRelation(g, s, o, r, sid))
    ensures WellFormed(g) ==> WellFormed(UpsertRelation(g, s, o, r, sid))
  {
    var h := UpsertRelation(g, s, o, r, sid);
    assert forall n :: n in g.nodes ==> NodeSources(g, n) == NodeSources(h, n);
  }

  /** Provenance of an upload survives any later writes. */
  lemma AlreadyUploadedPersists(g: Graph, h: Graph, sid: string)
    requires Extends(g, h)
    requires AlreadyUploaded(g, sid)
    ensures AlreadyUploaded(h, sid)
  {
    var name :| name in g.nodes && sid in NodeSources(g, name);
    assert NodeSources(g, name) <= NodeSources(h, name);
    assert name in h.nodes && sid in NodeSources(h, name);
  }

  /** An entity write makes its source id "already uploaded". */
  lemma UpsertEntityUploads(g: Graph, name: string, typ: string, sid: string)
    ensures AlreadyUploaded(UpsertEntity(g, name, typ, sid), sid)
  {
    var h := UpsertEntity(g, name, typ, sid);
    assert sid in NodeSources(h, name);
  }

  /** A relation write never changes which source ids count as uploaded: it touches no node's
      `sources` and creates new nodes without any. */
  lemma UpsertRelationKeepsUploaded(g: Graph, s: string, o: string, r: string, sid: string, x: string)
    ensures AlreadyUploaded(UpsertRelation(g, s, o, r, sid), x) <==> AlreadyUploaded(g, x)
  {
    var h := UpsertRelation(g, s, o, r, sid);
    if AlreadyUploaded(h, x) {
      var name :| name in h.nodes && x in NodeSources(h, name);
      assert name in g.nodes;
      assert NodeSources(g, name) == NodeSources(h, name);
    }
    if AlreadyUploaded(g, x) {
      var name :| name in g.nodes && x in NodeSources(g, name);
      assert NodeSources(g, name) == NodeSources(h, name);
    }
  }

  /** Repeating an entity write leaves one node and records the source id twice: provenance is a
      list, not a set. */
  lemma UpsertEntityTwiceDuplicates(g: Graph, name: string, typ: string, sid: string)
    ensures var h := UpsertEntity(UpsertEntity(g, name, typ, sid), name, typ, sid);
      && h.nodes.Keys == g.nodes.Keys + {name}
      && NodeSources(h, name) == NodeSources(g, name) + [sid, sid]
  {
  }

  /** The type given by the write that creates a node wins: later entity writes with other types
      leave it alone. */
  lemma FirstTypeWins(g: Graph, name: string, t1: string, t2: string, d1: string, d2: string)
    requires name !in g.nodes
    ensures var h := UpsertEntity(UpsertEntity(g, name, t1, d1), name, t2, d2);
      && h.nodes[name].typ == Some(t1)
      && NodeSources(h, name) == [d1, d2]
  {
  }

  /** A node first created by a relation write is untyped and stays untyped whatever entity write
      for that name follows. */
  lemma BareNodeStaysUntyped(g: Graph, s: string, o: string, r: string, sid: string, typ: string, sid2: string)
    requires s !in g.nodes
    ensures var h := UpsertEntity(UpsertRelation(g, s, o, r, sid), s, typ, sid2);
      && h.nodes[s].typ == None
      && NodeSources(h, s) == [sid2]
  {
  }

  /** Repeating a relation write keeps a single edge per (source, target, predicate) and appends the
      source id once per write. */
  lemma UpsertRelationTwiceOneEdge(g: Graph, s: string, o: string, r: string, sid: string)
    ensures var h := UpsertRelation(UpsertRelation(g, s, o, r, sid), s, o, r, sid);
      && h.edges.Keys == g.edges.Keys + {EdgeKey(s, o, r)}
      && h.edges[EdgeKey(s, o, r)] == EdgeSources(g, EdgeKey(s, o, r)) + [sid, sid]
  {
  }
}
