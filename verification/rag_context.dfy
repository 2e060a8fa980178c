/** `build_rag_context` and the prompt of `generate_answer_with_vertex_ai` (llm_service.py). The
    encoder together with the vector search is the oracle `search`, spaCy's entity recogniser is
    the oracle `ner`, and the one-hop Cypher match reads the graph of the `GraphStore` module. */
module RagContext {
  import opened Common
  import opened Text
  import opened GraphStore

  /** What `find_neighbors` gives for one query: the neighbour ids in the order returned, or the
      exception it raised. */
  datatype SearchResponse = Neighbours(ids: seq<string>) | SearchFailed(message: string)

  /** Why `build_rag_context` raised: the search failed, or a neighbour id has no passage
      (`KeyError` from `id_to_text[...]`). */
  datatype RagError = SearchError(message: string) | MissingPassage(id: string)

  /** The pair `build_rag_context` returns: the passages joined by newlines, and the relation
      lines joined by newlines. */
  datatype Context = Context(passages: string, relations: string)

  /** `ids[i]` is the first id that has no passage. */
  predicate FirstMissing(ids: seq<string>, idToText: map<string, string>, i: int) {
    0 <= i < |ids| && ids[i] !in idToText && forall j :: 0 <= j < i ==> ids[j] in idToText
  }

  /** `[id_to_text[id] for id in ids]` (line 57): the passages in neighbour order, or the first id
      that raised. */
  function LookupPassages(ids: seq<string>, idToText: map<string, string>): (r: Result<seq<string>, string>)
    ensures r.Ok? <==> forall i :: 0 <= i < |ids| ==> ids[i] in idToText
    ensures r.Ok? ==> |r.value| == |ids| && forall i :: 0 <= i < |ids| ==> r.value[i] == idToText[ids[i]]
    ensures r.Err? ==> exists i :: FirstMissing(ids, idToText, i) && ids[i] == r.error
  {
    if |ids| == 0 then Ok([])
    else if ids[0] !in idToText then
      assert FirstMissing(ids, idToText, 0);
      Err(ids[0])
    else
      match LookupPassages(ids[1..], idToText)
      case Ok(rest) => Ok([idToText[ids[0]]] + rest)
      case Err(id) =>
        assert forall i :: FirstMissing(ids[1..], idToText, i) ==> FirstMissing(ids, idToText, i + 1);
        Err(id)
  }

  /** The set `entities` after the loop of lines 60-63: every surface string the recogniser finds
      in any passage, each once. */
  function EntitySet(texts: seq<string>, ner: string -> set<string>): (es: set<string>)
    ensures forall e :: e in es <==> exists i :: 0 <= i < |texts| && e in ner(texts[i])
  {
    if |texts| == 0 then {}
    else
      var rest := EntitySet(texts[1..], ner);
      assert forall i :: 1 <= i < |texts| ==> texts[1..][i - 1] == texts[i];
      ner(texts[0]) + rest
  }

  /** The line of one record of the match at lines 69-75. `type(r)` is the relationship's label,
      which is `RELATION` for every edge; the predicate stored on the edge is not part of it. */
  function RelationLine(k: EdgeKey): string {
    k.src + " -[" + RelationLabel + "]-> " + k.dst
  }

  /** Two edges between the same nodes that differ only in their predicate give the same line. */
  lemma RelationLineIgnoresPredicate(s: string, d: string, p1: string, p2: string)
    ensures RelationLine(EdgeKey(s, d, p1)) == RelationLine(EdgeKey(s, d, p2))
    ensures RelationLine(EdgeKey(s, d, p1)) == s + " -[RELATION]-> " + d
  {
  }

  function Lines(ks: seq<EdgeKey>): (ls: seq<string>)
    ensures |ls| == |ks|
    ensures forall i :: 0 <= i < |ks| ==> ls[i] == RelationLine(ks[i])
  {
    seq(|ks|, i requires 0 <= i < |ks| => RelationLine(ks[i]))
  }

  /** The edges that leave any of the nodes named in `names`. */
  function EdgesFrom(g: Graph, names: set<string>): (ks: set<EdgeKey>)
    ensures forall k :: k in ks <==> k in g.edges && k.src in names
  {
    set k | k in g.edges && k.src in names
  }

  /** If each entity's rows list its outgoing edges, all rows together list every edge leaving any
      of the entities, each once: entities are distinct, so their edge sets are disjoint. */
  lemma {:induction false} RowsEnumerateEdges(g: Graph, queried: seq<string>, rows: seq<seq<EdgeKey>>)
    requires Distinct(queried) && |rows| == |queried|
    requires forall i :: 0 <= i < |rows| ==> Enumerates(rows[i], Outgoing(g, queried[i]))
    ensures Enumerates(Flatten(rows), EdgesFrom(g, set e | e in queried))
    decreases |rows|
  {
    var names := set e | e in queried;
    if |rows| == 0 {
      assert names == {};
      assert EdgesFrom(g, names) == {};
    } else {
      var tail := set e | e in queried[1..];
      assert Distinct(queried[1..]);
      RowsEnumerateEdges(g, queried[1..], rows[1..]);
      assert queried[0] !in tail;
      assert names == {queried[0]} + tail;
      assert EdgesFrom(g, names) == Outgoing(g, queried[0]) + EdgesFrom(g, tail);
      EnumeratesConcat(rows[0], Outgoing(g, queried[0]), Flatten(rows[1..]), EdgesFrom(g, tail));
    }
  }

  /** The loop of lines 66-75: one match per entity, in the order given, each yielding that
      entity's outgoing edges in the order the store returns them. */
  method QueryEntities(g: Graph, queried: seq<string>) returns (rows: seq<seq<EdgeKey>>)
    ensures |rows| == |queried|
    ensures forall i :: 0 <= i < |rows| ==> Enumerates(rows[i], Outgoing(g, queried[i]))
  {
    rows := [];
    var i := 0;
    while i < |queried|
      invariant 0 <= i <= |queried| && |rows| == i
      invariant forall j :: 0 <= j < i ==> Enumerates(rows[j], Outgoing(g, queried[j]))
    {
      var records := Enumerate(Outgoing(g, queried[i]));
      rows := rows + [records];
      i := i + 1;
    }
  }

  /** `build_rag_context(query, ..., k)` (lines 15-80). A failing search is re-raised and a
      missing passage raises, both before any entity is queried. Otherwise the passages are joined
      in neighbour order; the distinct entities of all passages are queried one at a time, in the
      set's iteration order `queried`; `rows[i]` are the records for `queried[i]`, in the order the
      store returned them; and every record becomes one line. */
  method BuildRagContext(query: string, k: nat, search: (string, nat) -> SearchResponse,
                         ner: string -> set<string>, g: Graph, idToText: map<string, string>)
    returns (r: Result<Context, RagError>, queried: seq<string>, rows: seq<seq<EdgeKey>>)
    ensures search(query, k).SearchFailed? ==> r == Err(SearchError(search(query, k).message)) && queried == [] && rows == []
    ensures search(query, k).Neighbours? && LookupPassages(search(query, k).ids, idToText).Err? ==>
      r == Err(MissingPassage(LookupPassages(search(query, k).ids, idToText).error)) && queried == [] && rows == []
    ensures search(query, k).Neighbours? && LookupPassages(search(query, k).ids, idToText).Ok? ==>
      var texts := LookupPassages(search(query, k).ids, idToText).value;
      && r.Ok?
      && r.value.passages == Join(texts, "\n")
      && Enumerates(queried, EntitySet(texts, ner))
      && |rows| == |queried|
      && (forall i :: 0 <= i < |rows| ==> Enumerates(rows[i], Outgoing(g, queried[i])))
      && Enumerates(Flatten(rows), EdgesFrom(g, EntitySet(texts, ner)))
      && r.value.relations == Join(Lines(Flatten(rows)), "\n")
  {
    queried, rows := [], [];
    match search(query, k)
    case SearchFailed(m) =>
      r := Err(SearchError(m));
    case Neighbours(ids) =>
      match LookupPassages(ids, idToText)
      case Err(id) =>
        r := Err(MissingPassage(id));
      case Ok(texts) =>
        var entities := EntitySet(texts, ner);
        queried := Enumerate(entities);
        rows := QueryEntities(g, queried);
        RowsEnumerateEdges(g, queried, rows);
        assert (set e | e in queried) == entities;
        r := Ok(Context(Join(texts, "\n"), Join(Lines(Flatten(rows)), "\n")));
  }

  /** Every listed edge has its line in the relation context: with the records of
      `build_rag_context`, each edge leaving an entity of the passages shows up as
      `source -[RELATION]-> target`. */
  lemma RelationContextListsEdges(records: seq<EdgeKey>, edges: set<EdgeKey>, k: EdgeKey)
    requires Enumerates(records, edges) && k in edges
    ensures Contains(Join(Lines(records), "\n"), RelationLine(k))
  {
    var i :| 0 <= i < |records| && records[i] == k;
    JoinContainsParts(Lines(records), "\n", i);
  }

  /** The relation context is empty exactly when the store returned no records. */
  lemma RelationsEmptyIffNoRecords(ks: seq<EdgeKey>)
    ensures Join(Lines(ks), "\n") == "" <==> |ks| == 0
  {
    JoinEmpty(Lines(ks), "\n");
  }

  /** The fixed instruction that opens every prompt (lines 86-89). */
  const SystemPrompt := "Using the information and entity-relationship details provided below, answer the query in natural language. If a relevant URL is present in the context, include it in your response."

  const InformationHeader := "\n\n### Information:\n"
  const RelationsHeader := "\n\n### Related Entity-Relationships:\n"
  const QueryHeader := "\n\n### Query:\n"

  /** The part of the prompt before the relation context: the instruction, the information
      header, the passage context and the relations header, in that order. */
  function PromptHead(context: string): (h: string)
    ensures |h| == |SystemPrompt| + |InformationHeader| + |context| + |RelationsHeader|
    ensures h[..|SystemPrompt|] == SystemPrompt
    ensures h[|SystemPrompt|..|SystemPrompt| + |InformationHeader|] == InformationHeader
    ensures h[|SystemPrompt| + |InformationHeader|..|h| - |RelationsHeader|] == context
    ensures h[|h| - |RelationsHeader|..] == RelationsHeader
  {
    var a, b, d := SystemPrompt, InformationHeader, RelationsHeader;
    var h := a + b + context + d;
    ConcatSlices(a + b, context, d);
    ConcatSlices(a, b, []);
    assert h[..|a|] == (a + b)[..|a|];
    assert h[|a|..|a| + |b|] == (a + b)[|a|..];
    h
  }

  /** The prompt of lines 91-96: the head, the relation context `rag`, the query header, then the
      query on a line of its own at the end. */
  function BuildPrompt(query: string, context: string, rag: string): (p: string)
    ensures PromptHead(context) <= p
    ensures |p| == |PromptHead(context)| + |rag| + |QueryHeader| + |query| + 1
    ensures p[|PromptHead(context)|..|PromptHead(context)| + |rag|] == rag
    ensures p[|p| - |query| - 1 - |QueryHeader|..|p| - |query| - 1] == QueryHeader
    ensures p[|p| - |query| - 1..] == query + "\n"
  {
    var head := PromptHead(context);
    var q := QueryHeader;
    var p := head + rag + q + (query + "\n");
    ConcatSlices(head + rag, q, query + "\n");
    ConcatSlices(head, rag, []);
    assert p[..|head|] == (head + rag)[..|head|];
    assert p[|head|..|head| + |rag|] == (head + rag)[|head|..];
    p
  }

  /** The query is recovered from a prompt whose other parts are known: different queries give
      different prompts. */
  lemma BuildPromptInjective(q1: string, q2: string, context: string, rag: string)
    requires BuildPrompt(q1, context, rag) == BuildPrompt(q2, context, rag)
    ensures q1 == q2
  {
    var p := BuildPrompt(q1, context, rag);
    assert |q1| == |q2|;
    assert q1 + "\n" == p[|p| - |q1| - 1..] == q2 + "\n";
    assert q1 == (q1 + "\n")[..|q1|];
  }

  /** `get_chat_response(message, request)` (lines 107-112): the context for the message with
      `k = 10`, then the answer the language model `llm` gives for the prompt built from it. Also
      returns the relation records the context was built from. */
  method GetChatResponse(message: string, search: (string, nat) -> SearchResponse, ner: string -> set<string>,
                         g: Graph, idToText: map<string, string>, llm: string -> string)
    returns (r: Result<string, RagError>, records: seq<EdgeKey>)
    ensures search(message, 10).SearchFailed? ==>
      r == Err(SearchError(search(message, 10).message)) && records == []
    ensures search(message, 10).Neighbours? && LookupPassages(search(message, 10).ids, idToText).Err? ==>
      r == Err(MissingPassage(LookupPassages(search(message, 10).ids, idToText).error)) && records == []
    ensures search(message, 10).Neighbours? && LookupPassages(search(message, 10).ids, idToText).Ok? ==>
      var texts := LookupPassages(search(message, 10).ids, idToText).value;
      && Enumerates(records, EdgesFrom(g, EntitySet(texts, ner)))
      && r == Ok(llm(BuildPrompt(message, Join(texts, "\n"), Join(Lines(records), "\n"))))
  {
    var ctx, _, rows := BuildRagContext(message, 10, search, ner, g, idToText);
    records := Flatten(rows);
    match ctx
    case Err(e) => r := Err(e);
    case Ok(c) => r := Ok(llm(BuildPrompt(message, c.passages, c.relations)));
  }
}
