# Nestlé chatbot backend: retrieval context, graph ingestion, indexing and crawling

This project models the core of a retrieval-augmented chatbot for the madewithnestle.ca site, in
Dafny. It proves properties of that model.

- **Crawling.** Two crawlers collect the site's pages.
  - The dynamic crawler (`crawl_site`) is depth-first. It uses a stack and a visited set, and
    saves pages in batches of 20.
  - The static crawler (`scrape_static`) is recursive and stays under `BASE_URL`.
- **Indexing.** Page text is cleaned by four regular-expression passes and a strip. It is then cut
  into overlapping word windows: 400 words, stepping by 300. Each chunk becomes a passage record
  that carries its page's URL.
- **Graph ingestion.** spaCy entity mentions and a shallow subject-verb-object heuristic are merged
  into a Neo4j graph. Entity nodes are keyed by name and `RELATION` edges are keyed by
  (source, target, predicate). Every merge appends the document's source id to a provenance list.
  A document whose source id is already on some node is skipped.
- **Answering.** `build_rag_context` has three steps:
  - it looks up the passages of the vector-search neighbours;
  - it collects the entities that appear in those passages;
  - it lists every outgoing edge of those entities as `source -[RELATION]-> target`.

  The prompt then puts the instruction, the passages, the relation lines and the query together.

The following are parameters of the model: the sentence encoder, the vector search, spaCy, the
language model, `urljoin`, `urlparse(...).netloc`, and which writes or page loads fail.

- The web a crawler sees is a finite map from a URL to what loading it yields. A URL that is not
  a key fails to load.
- The iteration order of a Python set, and the order of a query's rows, are modelled as an
  enumeration. That enumeration is returned, so the contracts hold for every order.

Modules:

- `Common`: Option/Result, sequences, and set enumeration.
- `Text`: Python `str` operations.
- `GraphStore`: the graph and the two `MERGE` writes.
- `RelationScan`: the relation heuristic.
- `Ingestion`: `extract_and_store` and the ingestion loop.
- `RagContext`: `build_rag_context`, the prompt, and `get_chat_response`.
- `Cleaning` and `Chunking`: `clean_text`, `chunk_text` and `generate_embeddings`.
- `Scraped`: the shared record types.
- `DynamicCrawl` and `StaticCrawl`: the two crawlers.

The model follows the code as written:

- An empty or blank query is not rejected. It is embedded and searched like any other.
- Provenance is a list, not a set. Merging the same source id twice records it twice
  (`GraphStore.UpsertEntityTwiceDuplicates`).
- `type` is set only when a node is created (`ON CREATE`). A node first created bare by a relation
  write stays untyped (`GraphStore.BareNodeStaysUntyped`).
- A relation line shows the relationship's label, which is always `RELATION`. It does not show the
  stored predicate, so an edge stored with predicate `makes` is rendered `Nestle -[RELATION]-> KitKat`
  (`RagContext.RelationLineIgnoresPredicate`).
- A sentence with several subject, verb or object candidates still yields a triple. The last
  candidate of each role is used (`RelationScan.ScanIsLastMatch`); the sentence is not dropped.
- Entities are queried one at a time, in the set's iteration order.

## Model

| member | source | states |
|---|---|---|
| GraphStore.UpsertEntity | app/rag-setup/graph-rag.py:57-62 | The entity merge. The named node exists afterwards. Its type is kept if the node existed and is the given type otherwise. Its provenance is the old list (empty if absent) with the source id appended. No other node or edge changes. |
| GraphStore.UpsertRelation | app/rag-setup/graph-rag.py:65-71 | The relation merge. Both endpoints exist afterwards, and new ones are bare. The edge keyed (source, target, predicate) exists with the source id appended to its list. Existing nodes and other edges are unchanged. |
| GraphStore.UpsertEntityExtends | app/rag-setup/graph-rag.py:57-62 | An entity write loses no node, edge, type or provenance entry, and it keeps the graph well formed (every edge joins existing nodes). |
| GraphStore.UpsertRelationExtends | app/rag-setup/graph-rag.py:65-71 | A relation write only adds, and both endpoints of every edge exist afterwards. |
| GraphStore.ExtendsTransitive | app/rag-setup/graph-rag.py:55-71 | "Only adds" composes over consecutive writes. |
| GraphStore.AlreadyUploadedPersists | app/rag-setup/graph-rag.py:29-35 | Once some node lists a source id, it still does after any later writes. |
| GraphStore.UpsertEntityUploads | app/rag-setup/graph-rag.py:29-35 | After an entity write, the `already_uploaded` query for that source id answers true. |
| GraphStore.UpsertRelationKeepsUploaded | app/rag-setup/graph-rag.py:29-35 | A relation write never changes the `already_uploaded` answer for any id, because the query reads only node provenance. |
| GraphStore.UpsertEntityTwiceDuplicates | app/rag-setup/graph-rag.py:58-60 | Repeating an entity write leaves one node whose provenance holds the id twice. |
| GraphStore.FirstTypeWins | app/rag-setup/graph-rag.py:58-60 | For a new name, the first write's type survives a second write with another type, and both ids are recorded in order. |
| GraphStore.BareNodeStaysUntyped | app/rag-setup/graph-rag.py:57-67 | A node created by a relation write has no type, even after a later entity write for that name. |
| GraphStore.UpsertRelationTwiceOneEdge | app/rag-setup/graph-rag.py:65-71 | Repeating a relation write keeps one edge and appends the id twice. |
| GraphStore.AlreadyUploaded | app/rag-setup/graph-rag.py:29-35 | Definition of the `already_uploaded` query: some entity node lists the source id. Its behaviour under writes is stated by the next rows. |
| GraphStore.OutgoingAfterRelation | app/services/llm_service.py:69-73 | What the one-hop match returns is changed by a relation write only for its source name, which gains exactly the written edge key. |
| GraphStore.OutgoingAfterEntity | app/services/llm_service.py:69-73 | An entity write never changes what the one-hop match returns for any name. |
| GraphStore.OutgoingOfMissing | app/services/llm_service.py:69-73 | The one-hop match for a name with no node returns nothing rather than failing. |
| RelationScan.Visit | app/rag-setup/graph-rag.py:46-51 | Definition of one token's turn: each role takes the token when its dependency label or part of speech matches, and keeps its value otherwise. |
| RelationScan.ScanFrom | app/rag-setup/graph-rag.py:44-51 | Definition of the token loop from a position; compared with the reference by the next rows. |
| RelationScan.LastWhere | app/rag-setup/graph-rag.py:44-51 | Reference definition: the token found is the last one in the sentence with the property, or none if no token has it. |
| RelationScan.ScanFromIsLastMatch | app/rag-setup/graph-rag.py:45-51 | The token loop from any position keeps, per role, the last match after that position, or else the value it started with. |
| RelationScan.ScanIsLastMatch | app/rag-setup/graph-rag.py:44-51 | The whole loop leaves each role with the last subject-, verb- and object-bearing token of the sentence. |
| RelationScan.SentenceTriple | app/rag-setup/graph-rag.py:52-53 | A sentence yields a triple exactly when all three last matches exist and are truthy. The triple is (stripped subject text, verb lemma, stripped object text). |
| RelationScan.Relations | app/rag-setup/graph-rag.py:43-53 | At most one triple per sentence. |
| RelationScan.RelationsAppend | app/rag-setup/graph-rag.py:43-53 | Triples come out in sentence order: the relations of two runs of sentences concatenate. |
| RelationScan.EntityNamesStripped | app/rag-setup/graph-rag.py:40 | Every entity name written to the graph is already stripped: stripping it again changes nothing. |
| Ingestion.IsReadOnlyRejection | app/rag-setup/graph-rag.py:73-77 | Definition: a client error whose message contains `WriteOnReadOnlyAccessDatabase`. |
| Ingestion.Apply | app/rag-setup/graph-rag.py:55-71 | Definition of one write's effect: the entity merge or the relation merge. |
| Ingestion.ApplyAll | app/rag-setup/graph-rag.py:55-71 | Definition: writes applied in order; ApplyAllExtends states that they only add. |
| Ingestion.EntityWritesStoreNames | app/rag-setup/graph-rag.py:56-62 | After the entity writes, every entity name is a node whose provenance holds the source id. |
| Ingestion.RelationWritesStoreEdges | app/rag-setup/graph-rag.py:64-71 | After the relation writes, every triple is an edge from its subject to its object, keyed by its verb lemma, whose provenance holds the source id; both endpoints are nodes. |
| Ingestion.Writes | app/rag-setup/graph-rag.py:55-71 | A document's writes are its entity writes followed by its relation writes. |
| Ingestion.ApplyAllExtends | app/rag-setup/graph-rag.py:55-71 | Any sequence of writes only adds to the graph and keeps it well formed. |
| Ingestion.FirstFailing | app/rag-setup/graph-rag.py:55-71 | The writes before the returned index succeed; the one at the index, if any, fails. |
| Ingestion.RunWrites | app/rag-setup/graph-rag.py:55-77 | The writes take effect up to the first failing one. The outcome is normal completion, a swallowed read-only rejection, or the raised fault. |
| Ingestion.OutcomeOf | app/rag-setup/graph-rag.py:73-77 | Definition: a read-only rejection is swallowed, and any other fault is raised. |
| Ingestion.ExtractAndStore | app/rag-setup/graph-rag.py:38-77 | The same for a whole document. The run ends normally exactly when no write fails, and the writes already done are kept. |
| Ingestion.ExtractAndStoreExtends | app/rag-setup/graph-rag.py:38-77 | Whatever fails, storing a document only adds to the graph. |
| Ingestion.RelationWritesKeepUploaded | app/rag-setup/graph-rag.py:64-71 | Relation writes alone never make any source id count as uploaded. |
| Ingestion.EntityFirstUploads | app/rag-setup/graph-rag.py:56-62 | Writes that begin with an entity write leave their source id uploaded. |
| Ingestion.StoreMarksUploaded | app/rag-setup/graph-rag.py:29-71 | After storing, a document counts as uploaded exactly when it already did, or when it has an entity mention and the first write succeeded. A document without entity mentions is never marked. |
| Ingestion.GeneratedIdsDistinct | app/rag-setup/graph-rag.py:83 | Documents without a URL at different positions get different source ids. |
| Ingestion.StoreDocument | app/rag-setup/graph-rag.py:87 | Storing a loaded document parses its text, or `""` when the text is missing. It only adds to the graph, and a fault it raises is never a read-only rejection. |
| Ingestion.ProgressSkip | app/rag-setup/graph-rag.py:84-86 | Skipping an uploaded document keeps the run's invariant. |
| Ingestion.ProgressStore | app/rag-setup/graph-rag.py:87 | Storing a document that was not uploaded keeps the run's invariant. |
| Ingestion.Run | app/rag-setup/graph-rag.py:82-87 | Reference definition of the loop: a document is skipped when its id is uploaded in the graph of that turn, and stored otherwise; a raised fault ends the run. |
| Ingestion.IngestOne | app/rag-setup/graph-rag.py:82-87 | One loop turn. A document is skipped exactly when its id is uploaded, and a skip changes nothing. A document that is not skipped is stored: the graph and outcome are those of `extract_and_store` on its parsed text and source id. |
| Ingestion.Ingest | app/rag-setup/graph-rag.py:82-87 | The loop. Its graph, skip flags and raised fault are exactly those of the reference run. The graph only grows, and every skipped document was uploaded. No processed document was uploaded when the run began. A run without a raised fault reaches every document; a raised fault ends it at a processed document and is not a read-only rejection. |
| Ingestion.RerunWithoutMentions | app/rag-setup/graph-rag.py:82-87 | A document with no entity mentions is processed, and a second run over the same data processes it again, whatever failed the first time. |
| RagContext.LookupPassages | app/services/llm_service.py:57 | The lookup succeeds exactly when every neighbour id has a passage, and the passages come in neighbour order. Otherwise it fails on the first id that has none. |
| RagContext.EntitySet | app/services/llm_service.py:60-63 | A string is an entity exactly when the recogniser finds it in some passage. |
| RagContext.RelationLine | app/services/llm_service.py:71-75 | Definition of one relation line. |
| RagContext.RelationLineIgnoresPredicate | app/services/llm_service.py:71-75 | A line is `source -[RELATION]-> target` whatever predicate the edge stores. |
| RagContext.RelationContextListsEdges | app/services/llm_service.py:66-78 | For records that enumerate a set of edges, the relation context contains the line of every edge of the set. |
| RagContext.RowsEnumerateEdges | app/services/llm_service.py:66-75 | The records of all distinct entities together list every edge leaving any of them, each exactly once. |
| RagContext.QueryEntities | app/services/llm_service.py:66-75 | One query per entity, each listing exactly that entity's outgoing edges. |
| RagContext.BuildRagContext | app/services/llm_service.py:15-80 | A failed search is re-raised, and a missing passage raises; in both cases no entity is queried. Otherwise the passage context is the passages joined by newlines in neighbour order. Every entity of the passages is queried once, and the relation context lists every outgoing edge of those entities once. |
| RagContext.RelationsEmptyIffNoRecords | app/services/llm_service.py:78 | The relation context is empty exactly when no record came back. |
| RagContext.PromptHead | app/services/llm_service.py:86-94 | The prompt head is, in order and nothing else, the fixed instruction, the information header, the passage context and the relations header. |
| RagContext.BuildPrompt | app/services/llm_service.py:91-96 | The prompt is the head, then the relation context, then the query header, then the query and a newline. |
| RagContext.BuildPromptInjective | app/services/llm_service.py:91-96 | Different queries give different prompts. |
| RagContext.GetChatResponse | app/services/llm_service.py:107-112 | A failed search and a missing passage are raised as such, with no records. Otherwise the records list every outgoing edge of the passages' entities once, and the answer is the model's reply to the prompt built from the query, the joined passages and the lines of those records. |
| Text.ContainsStep | app/rag-setup/graph-rag.py:74 | Python's `sub in s` (an occurrence at some offset) agrees with the left-to-right search: found at the front, or further on. |
| Text.Join | app/services/llm_service.py:78 | Definition of `sep.join(parts)`; JoinEmpty and JoinContainsParts state its properties. |
| Text.JoinContainsParts | app/services/llm_service.py:78-80 | Every part occurs in the joined string. |
| Text.JoinEmpty | app/services/llm_service.py:78 | Joining non-empty lines gives `""` exactly when there are none. |
| Text.Strip | app/web-scraping/index-creation.py:35 | `strip()` removes exactly the leading and trailing whitespace. |
| Text.StripUnchanged | app/web-scraping/index-creation.py:35 | Text without whitespace at its ends strips to itself. |
| Text.StripIdempotent | app/web-scraping/index-creation.py:35 | Stripping twice is stripping once. |
| Text.Words | app/web-scraping/index-creation.py:39 | `split()` yields non-empty words without whitespace; with WordsOfJoin and Cleaning.CleanWordsJoin it is the inverse of joining with single spaces. |
| Text.WordsOfJoin | app/web-scraping/index-creation.py:39-40 | Splitting words joined by single spaces gives the words back. |
| Text.NatToStringInjective | app/rag-setup/graph-rag.py:83 | Different indices print differently. |
| Cleaning.RemoveEscapes | app/web-scraping/index-creation.py:31 | After the escape pass, no backslash is followed by an ASCII letter or digit. An escape at the start becomes a space. |
| Cleaning.EscapeRemovedAsUnit | app/web-scraping/index-creation.py:31 | A backslash with its whole run of letters and digits becomes one space. |
| Cleaning.RemoveEscapesNoBackslash | app/web-scraping/index-creation.py:31 | Text without backslashes is unchanged by the escape pass. |
| Cleaning.CollapseRuns | app/web-scraping/index-creation.py:32-34 | After a run-collapsing pass, every remaining character is a space or outside the class. If the class holds the space, no two spaces are adjacent. |
| Cleaning.CollapseAbsorbed | app/web-scraping/index-creation.py:32-34 | Collapsing a class and then a wider class that contains the space equals collapsing the wider class alone. |
| Cleaning.CollapseSplit | app/web-scraping/index-creation.py:32-34 | Collapsing distributes over a split that does not cut a run. |
| Cleaning.CollapseUnchanged | app/web-scraping/index-creation.py:34 | Text whose class characters are isolated spaces is left as it is. |
| Cleaning.StripIsClean | app/web-scraping/index-creation.py:35 | Stripping text of kept characters and single spaces leaves clean text. |
| Cleaning.CleanText | app/web-scraping/index-creation.py:30-35 | Cleaned text holds only the kept ASCII characters and single spaces, with no space at either end. |
| Cleaning.CleanTextLastPassSuffices | app/web-scraping/index-creation.py:31-35 | The newline and whitespace passes make no difference. Escapes then the last pass then strip give the same result. |
| Cleaning.CleanFixpoint | app/web-scraping/index-creation.py:30-35 | Clean text cleans to itself. |
| Cleaning.CleanIdempotent | app/web-scraping/index-creation.py:30-35 | Cleaning twice is cleaning once. |
| Cleaning.CleanWordsJoin | app/web-scraping/index-creation.py:35-40 | Clean text is its words joined by single spaces, so splitting it for chunking loses nothing. |
| Chunking.Range | app/web-scraping/index-creation.py:40 | `range(0, n, step)` stays in [0, n) and is empty exactly when n is 0. |
| Chunking.RangeShape | app/web-scraping/index-creation.py:40 | Element j is start + j*step, and there are as many elements as the ceiling of n/step. |
| Chunking.Chunks | app/web-scraping/index-creation.py:39-40 | Definition: one chunk per start of the range. ChunkWords (the exact text of each chunk), ChunksWindowed and ChunksOverlap state what each holds. |
| Chunking.ChunkText | app/web-scraping/index-creation.py:37-40 | Definition of `chunk_text`: a `max_words` of 100 raises (a zero range step), below 100 there are no chunks, and above 100 the chunks are those of the cleaned words. ChunkTextWindows, ChunkTextShort, ChunkCount, ChunkWords and ChunksOverlap state what those chunks are. |
| Chunking.ChunksWindowed | app/web-scraping/index-creation.py:39-40 | The chunks of any list of words are its windows of `max_words` words at a step of `max_words - 100`: the ceiling of the word count over the step many, and chunk j the single-space join of the words from j*step up to j*step + `max_words` (or the end). |
| Chunking.ChunkTextWindows | app/web-scraping/index-creation.py:37-40 | For `max_words` above 100, `chunk_text` succeeds and its chunks are the windows of the cleaned text's words: none for an empty text, the ceiling of the word count over the step many, and chunk j the single-space join of the words from j*step up to j*step + `max_words` (or the end). |
| Chunking.ChunksOfFew | app/web-scraping/index-creation.py:39-40 | Words that fit in one step give exactly one chunk: all of them joined by spaces. |
| Chunking.ChunkTextShort | app/web-scraping/index-creation.py:37-40 | With the default size, a text of at most 300 words after cleaning gives no chunk when it is empty and otherwise one chunk, the cleaned text itself. |
| Chunking.ChunkCount | app/web-scraping/index-creation.py:40 | For n words there are c chunks with (c-1)*step < n <= c*step. |
| Chunking.ChunkWords | app/web-scraping/index-creation.py:39-40 | Chunk j is the words from j*step up to j*step + `max_words` (or the end) joined by single spaces; it splits back into exactly those words, at least one and at most `max_words` of them. |
| Chunking.ChunksCoverWords | app/web-scraping/index-creation.py:40 | Every word lies in some chunk's window. |
| Chunking.ChunksOverlap | app/web-scraping/index-creation.py:40 | Chunk j after its first `max_words - 100` words is a prefix of chunk j+1, and it is exactly 100 words when chunk j is full. |
| Chunking.RecordLists | app/web-scraping/index-creation.py:47-53 | Definition: the records of each document, one list per document, in document order. It is the reference for GenerateFrom's and GenerateEmbeddings' result, and RecordsCarryUrls states which chunk and URL each record holds. |
| Chunking.GenerateFrom | app/web-scraping/index-creation.py:43-53 | The loop succeeds exactly when no remaining document has chunks but no URL; otherwise it fails on the first such document. On success the records are each document's chunks with that document's URL, in document and chunk order. |
| Chunking.GenerateEmbeddings | app/web-scraping/index-creation.py:42-54 | The same for all loaded documents, with missing text read as `""`: it fails on the first document with chunks but no URL, and otherwise gives every document's records in order. |
| Chunking.RecordsCarryUrls | app/web-scraping/index-creation.py:47-53 | Record m is chunk c of document j, where m counts the chunks of the documents before j plus c, and it carries document j's own URL. |
| DynamicCrawl.BeforeHash | app/web-scraping/dynamic-content-scraping.py:20 | `split('#')[0]` is the prefix before the first `#`, and it holds no `#`. |
| DynamicCrawl.NormalizeUrl | app/web-scraping/dynamic-content-scraping.py:19-20 | Definition of `normalize_url`: join the link's part before `#` to the base. |
| DynamicCrawl.FragmentIgnored | app/web-scraping/dynamic-content-scraping.py:19-20 | Links that differ only in their fragment normalize to the same URL. |
| DynamicCrawl.IsInternalLink | app/web-scraping/dynamic-content-scraping.py:16-17 | Definition: the host is empty or the site's own. |
| DynamicCrawl.ScrapedPageNormal | app/web-scraping/dynamic-content-scraping.py:22-39 | A scraped page's text is already stripped, and each link is the page's own URL joined with a `#`-free prefix of the matching `href`. |
| DynamicCrawl.Pushed | app/web-scraping/dynamic-content-scraping.py:81-83 | The pushed links are exactly the page's internal links that are not visited. |
| DynamicCrawl.PushedAppend | app/web-scraping/dynamic-content-scraping.py:81-83 | Pushes follow the page's link order: the pushes of two link lists concatenate. |
| DynamicCrawl.PushedInPlace | app/web-scraping/dynamic-content-scraping.py:81-83 | Each link is pushed in its own place, once per occurrence, exactly when it is internal and unvisited. |
| DynamicCrawl.Step | app/web-scraping/dynamic-content-scraping.py:64-87 | One loop turn pops the top of the stack. A visited or non-http URL is dropped. A URL that fails is visited and recorded as failed. A URL that loads is visited, and its unvisited internal links go on top of the stack. |
| DynamicCrawl.SkipKeepsInv | app/web-scraping/dynamic-content-scraping.py:65-67 | Dropping a URL keeps the crawl invariant. |
| DynamicCrawl.FailKeepsInv | app/web-scraping/dynamic-content-scraping.py:85-87 | Recording a failure keeps the crawl invariant. |
| DynamicCrawl.ScrapeAppends | app/web-scraping/dynamic-content-scraping.py:72-78 | A scraped page is appended to all pages so far, whether or not a batch of 20 is saved. The batches stay numbered from 1 and full. |
| DynamicCrawl.ScrapeKeepsInv | app/web-scraping/dynamic-content-scraping.py:68-83 | Scraping a URL keeps the crawl invariant. |
| DynamicCrawl.StepKeepsInv | app/web-scraping/dynamic-content-scraping.py:64-87 | Every loop turn keeps the crawl invariant. |
| DynamicCrawl.StepProgress | app/web-scraping/dynamic-content-scraping.py:64-68 | Every turn visits a new loadable URL or shrinks the stack. |
| DynamicCrawl.StepKeepsSound | app/web-scraping/dynamic-content-scraping.py:64-83 | Every turn keeps the crawl sound: each visited or stacked URL is the start or an internal link of a scraped page. |
| DynamicCrawl.FinalBatches | app/web-scraping/dynamic-content-scraping.py:91-93 | The batches saved during the loop are kept, as a prefix of the final list; FinalBatchesOk states what the whole list holds. |
| DynamicCrawl.FinalBatchesOk | app/web-scraping/dynamic-content-scraping.py:74-93 | The saved batches plus the final partial one hold every scraped page. They are numbered from 1 and hold 1 to 20 pages, and all but the last hold 20. |
| DynamicCrawl.CrawlSite | app/web-scraping/dynamic-content-scraping.py:53-99 | The crawl ends. Each scraped page is a distinct http URL that loaded, and each failed URL is a distinct http URL that did not. Visited is exactly scraped plus failed. Every internal http link of a scraped page was visited, and an http start URL is visited. Conversely, every visited or failed URL is the start or an internal link of a scraped page. The batches, failed list and visited set are those of the reference traversal CrawlFrom from the start URL, so the depth-first order of Step fixes the order of the pages and of the failed URLs. |
| DynamicCrawl.CrawlFrom | app/web-scraping/dynamic-content-scraping.py:64-87 | Definition: Step repeated until the stack is empty, a depth-first traversal that ends with an empty stack and never forgets a visited URL. It is the reference CrawlSite's result equals. |
| DynamicCrawl.CrawlFromStart | app/web-scraping/dynamic-content-scraping.py:101-102 | A crawl from the site's home page visits it; the home page is scraped when it loads and failed otherwise, and everything visited was reached from it. |
| StaticCrawl.StaticPage | app/web-scraping/static-data-scraping.py:22-27 | Definition of the record: the unstripped text and the links. |
| StaticCrawl.StaticLinksAsFromBase | app/web-scraping/static-data-scraping.py:19 | Links are resolved against `BASE_URL`, not against the page's URL: for fragment-free `href`s, whatever page they are on, they are the links the dynamic crawler finds on the base page. |
| StaticCrawl.VisitKeepsAccounted | app/web-scraping/static-data-scraping.py:10-27 | Visiting a new URL under `BASE_URL`, with its record when it loads, keeps the accounting. |
| StaticCrawl.ScrapeStatic | app/web-scraping/static-data-scraping.py:9-33 | A visited URL or one outside `BASE_URL` changes nothing. A URL that fails is only marked visited. A URL that loads has its record appended first. Every new record is of a newly visited URL that loaded, and every in-site link of a new record is visited. |
| StaticCrawl.ScrapeLinks | app/web-scraping/static-data-scraping.py:29-30 | After the link loop, every in-site link of the list is visited and the records stay accounted. |
| StaticCrawl.ScrapeStaticSound | app/web-scraping/static-data-scraping.py:9-30 | A URL newly visited by one call is that call's URL or a link on a page it recorded. |
| StaticCrawl.ScrapeLinksSound | app/web-scraping/static-data-scraping.py:29-30 | A URL newly visited by the link loop is one of its links or a link on a page recorded meanwhile. |
| StaticCrawl.ScrapeSite | app/web-scraping/static-data-scraping.py:9-35 | A crawl from `BASE_URL` always visits the base URL. There is a record exactly when the base page loaded, and the first record is then the base page's. Every visited URL is under `BASE_URL` and has a record exactly when it loaded, and no URL is recorded twice. Every record matches what its URL loaded, and every in-site link of a record is visited. Conversely, every visited URL is the base URL or a link on a recorded page. |

## Left out

- The sentence encoder, the vector index, spaCy, the language model and the HTTP/browser stack are
  oracles (`search`, `ner`, `parse`, `llm`, the `web` map). Their internals and the configuration
  they read are not modelled. Of the oracles, only the vector search, a page load and a graph
  write can fail in the model. The encoder, the recogniser, the language model and the graph reads
  at answer time always succeed. The model's own error paths are those of the code: a neighbour id
  without a passage, a chunk size of 100, and a document with chunks but no URL.
- Vectors, random record ids (`uuid4`) and `images` lists are not modelled; they are never read
  again by the modelled code.
- File I/O is not modelled: loading the JSON folders, writing batches, failed URLs and
  `embeddings.jsonl`, and uploading to cloud storage. The index and endpoint creation are not
  modelled either. The loaded documents are a parameter.
- The crawler's `page.goto` timeout, `wait_for_load_state` and `time.sleep(3)` are timing only.
- DynamicCrawl.Step: an exception raised after a page was appended is not modelled. One example is
  `urlparse` rejecting a link while links are queued; that page would be both scraped and failed.
  In the model a URL fails only when it does not load.
- StaticCrawl.ScrapeStatic: Python's recursion limit is not modelled. A deep site would raise
  `RecursionError`, and the enclosing `try` would report it as a failure of the calling page.
- Chunking.GenerateEmbeddings: JSON `null` text is read as a missing key (`""`). In the script,
  `chunk_text(None)` would raise. Likewise a JSON `null` URL is read as a missing key and the model
  fails with MissingUrl, while the script writes `"source_url": None` and goes on.
- Ingestion.SourceId: a JSON `null` URL is read as a missing key and gives `doc_<i>`. In the
  script the source id would be `None`.
- Ingestion.Ingest: a failure of the `already_uploaded` query itself is not modelled; only writes
  fail.
- RagContext.BuildRagContext: entity strings from the recogniser are used as they are, and graph
  names are stripped. Whether an entity finds its node therefore depends on the oracle. The model
  keeps that exact-match behaviour and does not normalize.
- How `id_to_text` (`bucket_data`) is built at start-up is not part of this model.
- `main.py`, `api.py` and `openai_service.py` are the web wiring and are not part of this model.
  The chat route in `api.py` calls `openai_service.get_chat_response`, which returns the message
  unchanged. `RagContext.GetChatResponse` models the `llm_service` function of the same name,
  which that route does not reach.
- Concurrency of requests and the Neo4j driver's sessions and transactions are not modelled; each
  `session.run` is one atomic step.
