/** `extract_and_store` and the ingestion loop of graph-rag.py: the writes one document produces,
    how a failing write ends them, and which documents a run skips. spaCy is the oracle `parse`;
    which Neo4j write fails, and how, is the oracle `faults`. */
module Ingestion {
  import opened Common
  import opened Text
  import opened GraphStore
  import opened RelationScan
  import opened Scraped

  /** One `session.run` of lines 57-62 or 65-71. */
  datatype Write = EntityWrite(name: string, typ: string) | RelationWrite(s: string, r: string, o: string)

  /** An exception raised by `session.run`: a driver `ClientError` with its message, or anything else. */
  datatype Fault = ClientError(message: string) | OtherError(message: string)

  /** Lines 73-77: a `ClientError` whose text mentions a write on a read-only database. */
  predicate IsReadOnlyRejection(f: Fault) {
    f.ClientError? && Contains(f.message, "WriteOnReadOnlyAccessDatabase")
  }

  /** How `extract_and_store` returns: normally, after swallowing a read-only rejection, or by raising. */
  datatype StoreOutcome = Stored | SkippedReadOnly | Raised(fault: Fault)

  /** One entity write per `(name, type)` pair, in order (lines 56-62). */
  function EntityWrites(pairs: seq<(string, string)>): (ws: seq<Write>)
    ensures |ws| == |pairs|
    ensures forall i :: 0 <= i < |pairs| ==> ws[i] == EntityWrite(pairs[i].0, pairs[i].1)
  {
    seq(|pairs|, i requires 0 <= i < |pairs| => EntityWrite(pairs[i].0, pairs[i].1))
  }

  /** One relation write per triple, in order (lines 64-71). */
  function RelationWrites(rels: seq<Triple>): (ws: seq<Write>)
    ensures |ws| == |rels|
    ensures forall j :: 0 <= j < |rels| ==> ws[j] == RelationWrite(rels[j].subj, rels[j].rel, rels[j].obj)
  {
    seq(|rels|, j requires 0 <= j < |rels| => RelationWrite(rels[j].subj, rels[j].rel, rels[j].obj))
  }

  /** The writes of one document, in the order they are run: every entity mention, then every
      relation triple (lines 56-71). */
  function Writes(doc: ParsedDoc): (ws: seq<Write>)
    ensures |ws| == |doc.ents| + |Relations(doc.sents)|
    ensures ws[..|doc.ents|] == EntityWrites(EntityPairs(doc.ents))
    ensures ws[|doc.ents|..] == RelationWrites(Relations(doc.sents))
  {
    var a := EntityWrites(EntityPairs(doc.ents));
    var b := RelationWrites(Relations(doc.sents));
    assert (a + b)[..|a|] == a && (a + b)[|a|..] == b;
    a + b
  }

  function Apply(g: Graph, w: Write, sid: string): Graph {
    match w
    case EntityWrite(name, typ) => UpsertEntity(g, name, typ, sid)
    case RelationWrite(s, r, o) => UpsertRelation(g, s, o, r, sid)
  }

  /** The graph after the writes `ws` all succeed, in order. */
  function ApplyAll(g: Graph, ws: seq<Write>, sid: string): Graph
    decreases |ws|
  {
    if |ws| == 0 then g else ApplyAll(Apply(g, ws[0], sid), ws[1..], sid)
  }

  lemma {:induction false} ApplyAllSnoc(g: Graph, ws: seq<Write>, w: Write, sid: string)
    ensures ApplyAll(g, ws + [w], sid) == Apply(ApplyAll(g, ws, sid), w, sid)
    decreases |ws|
  {
    if |ws| == 0 {
      assert ws + [w] == [w];
    } else {
      assert (ws + [w])[1..] == ws[1..] + [w];
      ApplyAllSnoc(Apply(g, ws[0], sid), ws[1..], w, sid);
    }
  }

  /** Writes only add to the graph and keep it well formed. */
  lemma {:induction false} ApplyAllExtends(g: Graph, ws: seq<Write>, sid: string)
    ensures Extends(g, ApplyAll(g, ws, sid))
    ensures WellFormed(g) ==> WellFormed(ApplyAll(g, ws, sid))
    decreases |ws|
  {
    if |ws| > 0 {
      var g1 := Apply(g, ws[0], sid);
      if ws[0].EntityWrite? {
        UpsertEntityExtends(g, ws[0].name, ws[0].typ, sid);
      } else {
        UpsertRelationExtends(g, ws[0].s, ws[0].o, ws[0].r, sid);
      }
      ApplyAllExtends(g1, ws[1..], sid);
      ExtendsTransitive(g, g1, ApplyAll(g1, ws[1..], sid));
    }
  }

  /** Every entity mention of a document becomes a node that lists the document's source id. */
  lemma {:induction false} EntityWritesStoreNames(g: Graph, pairs: seq<(string, string)>, sid: string)
    ensures var h := ApplyAll(g, EntityWrites(pairs), sid);
      forall i :: 0 <= i < |pairs| ==> pairs[i].0 in h.nodes && sid in NodeSources(h, pairs[i].0)
    decreases |pairs|
  {
    if |pairs| > 0 {
      var ws := EntityWrites(pairs);
      assert ws[1..] == EntityWrites(pairs[1..]);
      var g1 := UpsertEntity(g, pairs[0].0, pairs[0].1, sid);
      assert Apply(g, ws[0], sid) == g1;
      var h := ApplyAll(g1, ws[1..], sid);
      EntityWritesStoreNames(g1, pairs[1..], sid);
      ApplyAllExtends(g1, ws[1..], sid);
      assert sid in NodeSources(g1, pairs[0].0);
      forall i | 0 <= i < |pairs|
        ensures pairs[i].0 in h.nodes && sid in NodeSources(h, pairs[i].0)
      {
        if i > 0 {
          assert pairs[1..][i - 1] == pairs[i];
        }
      }
    }
  }

  /** The edge a triple is written as: subject to object, keyed by the verb. */
  function TripleKey(t: Triple): EdgeKey {
    EdgeKey(t.subj, t.obj, t.rel)
  }

  /** Every relation triple of a document becomes an edge between two existing nodes that lists the
      document's source id. */
  lemma {:induction false} RelationWritesStoreEdges(g: Graph, rels: seq<Triple>, sid: string)
    ensures var h := ApplyAll(g, RelationWrites(rels), sid);
      forall j :: 0 <= j < |rels| ==>
        && TripleKey(rels[j]) in h.edges && sid in h.edges[TripleKey(rels[j])]
        && rels[j].subj in h.nodes && rels[j].obj in h.nodes
    decreases |rels|
  {
    if |rels| > 0 {
      var ws := RelationWrites(rels);
      assert ws[1..] == RelationWrites(rels[1..]);
      var t := rels[0];
      var g1 := UpsertRelation(g, t.subj, t.obj, t.rel, sid);
      assert Apply(g, ws[0], sid) == g1;
      var h := ApplyAll(g1, ws[1..], sid);
      RelationWritesStoreEdges(g1, rels[1..], sid);
      ApplyAllExtends(g1, ws[1..], sid);
      assert sid in g1.edges[TripleKey(t)];
      forall j | 0 <= j < |rels|
        ensures TripleKey(rels[j]) in h.edges && sid in h.edges[TripleKey(rels[j])]
          && rels[j].subj in h.nodes && rels[j].obj in h.nodes
      {
        if j > 0 {
          assert rels[1..][j - 1] == rels[j];
        }
      }
    }
  }

  /** The index of the first write in `i..n` that fails, or `n` when none does. */
  function FirstFailing(faults: nat -> Option<Fault>, i: nat, n: nat): (k: nat)
    requires i <= n
    ensures i <= k <= n
    ensures forall j :: i <= j < k ==> faults(j).None?
    ensures k < n ==> faults(k).Some?
    decreases n - i
  {
    if i == n || faults(i).Some? then i else FirstFailing(faults, i + 1, n)
  }

  function OutcomeOf(f: Fault): StoreOutcome {
    if IsReadOnlyRejection(f) then SkippedReadOnly else Raised(f)
  }

  /** The writes from index `i` on, run one `session.run` at a time until one fails. */
  function RunWrites(g: Graph, ws: seq<Write>, i: nat, sid: string, faults: nat -> Option<Fault>): (r: (Graph, StoreOutcome))
    requires i <= |ws|
    ensures var k := FirstFailing(faults, i, |ws|);
      && r.0 == ApplyAll(g, ws[i..k], sid)
      && r.1 == (if k == |ws| then Stored else OutcomeOf(faults(k).value))
    decreases |ws| - i
  {
    if i == |ws| then (g, Stored)
    else match faults(i)
      case Some(f) =>
        assert ws[i..i] == [];
        (g, OutcomeOf(f))
      case None =>
        var k := FirstFailing(faults, i + 1, |ws|);
        assert ws[i..k][0] == ws[i] && ws[i..k][1..] == ws[i + 1..k];
        RunWrites(Apply(g, ws[i], sid), ws, i + 1, sid, faults)
  }

  /** `extract_and_store(text, source_id)` (lines 38-77) on the parse of `text`: the writes run in
      order up to the first failing one; a read-only rejection ends them quietly, any other failure
      ends them and propagates. Either way the writes already done stay in the graph. */
  function ExtractAndStore(g: Graph, doc: ParsedDoc, sid: string, faults: nat -> Option<Fault>): (r: (Graph, StoreOutcome))
    ensures var ws := Writes(doc);
      var k := FirstFailing(faults, 0, |ws|);
      && r.0 == ApplyAll(g, ws[..k], sid)
      && (r.1 == Stored <==> k == |ws|)
      && (r.1 != Stored ==> r.1 == OutcomeOf(faults(k).value))
  {
    var ws := Writes(doc);
    assert ws[0..FirstFailing(faults, 0, |ws|)] == ws[..FirstFailing(faults, 0, |ws|)];
    RunWrites(g, ws, 0, sid, faults)
  }

  /** Whatever happens to its writes, `extract_and_store` only adds to the graph. */
  lemma ExtractAndStoreExtends(g: Graph, doc: ParsedDoc, sid: string, faults: nat -> Option<Fault>)
    ensures Extends(g, ExtractAndStore(g, doc, sid, faults).0)
    ensures WellFormed(g) ==> WellFormed(ExtractAndStore(g, doc, sid, faults).0)
  {
    var ws := Writes(doc);
    ApplyAllExtends(g, ws[..FirstFailing(faults, 0, |ws|)], sid);
  }

  /** Relation writes never change which source ids are uploaded. */
  lemma {:induction false} RelationWritesKeepUploaded(g: Graph, ws: seq<Write>, sid: string, x: string)
    requires forall i :: 0 <= i < |ws| ==> ws[i].RelationWrite?
    ensures AlreadyUploaded(ApplyAll(g, ws, sid), x) <==> AlreadyUploaded(g, x)
    decreases |ws|
  {
    if |ws| > 0 {
      UpsertRelationKeepsUploaded(g, ws[0].s, ws[0].o, ws[0].r, sid, x);
      RelationWritesKeepUploaded(Apply(g, ws[0], sid), ws[1..], sid, x);
    }
  }

  /** After `extract_and_store`, the document counts as uploaded exactly when it already did or one
      of its entity writes went through. A document whose parse has no entity mentions therefore
      never counts as uploaded and is processed again by every later run. */
  lemma StoreMarksUploaded(g: Graph, doc: ParsedDoc, sid: string, faults: nat -> Option<Fault>)
    ensures var r := ExtractAndStore(g, doc, sid, faults);
      AlreadyUploaded(r.0, sid) <==> AlreadyUploaded(g, sid) || (|doc.ents| > 0 && faults(0).None?)
  {
    var ws := Writes(doc);
    var n := FirstFailing(faults, 0, |ws|);
    var done := ws[..n];
    var h := ApplyAll(g, done, sid);
    assert ExtractAndStore(g, doc, sid, faults).0 == h;
    if |doc.ents| > 0 && n > 0 {
      EntityFirstUploads(g, done, sid);
    } else if |doc.ents| > 0 {
      assert done == [];
    } else {
      assert ws[|doc.ents|..] == ws;
      RelationWritesKeepUploaded(g, done, sid, sid);
    }
  }

  /** A run of writes that begins with an entity write leaves its source id uploaded. */
  lemma EntityFirstUploads(g: Graph, ws: seq<Write>, sid: string)
    requires |ws| > 0 && ws[0].EntityWrite?
    ensures AlreadyUploaded(ApplyAll(g, ws, sid), sid)
  {
    var g1 := Apply(g, ws[0], sid);
    UpsertEntityUploads(g, ws[0].name, ws[0].typ, sid);
    ApplyAllExtends(g1, ws[1..], sid);
    AlreadyUploadedPersists(g1, ApplyAll(g1, ws[1..], sid), sid);
  }

  /** `doc.get("url", f"doc_{i}")` (line 83). */
  function SourceId(doc: RawDoc, i: nat): (sid: string)
    ensures doc.url.None? ==> sid == "doc_" + NatToString(i)
    ensures doc.url.Some? ==> sid == doc.url.value
  {
    doc.url.GetOr("doc_" + NatToString(i))
  }

  /** Documents without a URL get pairwise different source ids. */
  lemma GeneratedIdsDistinct(d1: RawDoc, d2: RawDoc, i: nat, j: nat)
    requires d1.url.None? && d2.url.None? && i != j
    ensures SourceId(d1, i) != SourceId(d2, j)
  {
    if SourceId(d1, i) == SourceId(d2, j) {
      assert ("doc_" + NatToString(i))[4..] == NatToString(i);
      assert ("doc_" + NatToString(j))[4..] == NatToString(j);
      NatToStringInjective(i, j);
    }
  }

  /** One call of `extract_and_store(doc.get("text", ""), source_id)` inside the loop. */
  method StoreDocument(g: Graph, doc: RawDoc, sid: string, parse: string -> ParsedDoc, faults: nat -> Option<Fault>)
    returns (h: Graph, outcome: StoreOutcome)
    ensures (h, outcome) == ExtractAndStore(g, parse(doc.text.GetOr("")), sid, faults)
    ensures Extends(g, h)
    ensures WellFormed(g) ==> WellFormed(h)
    ensures outcome.Raised? ==> !IsReadOnlyRejection(outcome.fault)
  {
    var parsed := parse(doc.text.GetOr(""));
    ExtractAndStoreExtends(g, parsed, sid, faults);
    var r := ExtractAndStore(g, parsed, sid, faults);
    h, outcome := r.0, r.1;
  }

  /** What a run has established after reaching `|skipped|` documents from the graph `g0`: the
      graph only grew, every skipped document is uploaded, and every processed one was not uploaded
      when the run began. */
  predicate Progress(docs: seq<RawDoc>, g0: Graph, g: Graph, skipped: seq<bool>) {
    && |skipped| <= |docs|
    && Extends(g0, g)
    && (WellFormed(g0) ==> WellFormed(g))
    && (forall j :: 0 <= j < |skipped| && skipped[j] ==> AlreadyUploaded(g, SourceId(docs[j], j)))
    && (forall j :: 0 <= j < |skipped| && !skipped[j] ==> !AlreadyUploaded(g0, SourceId(docs[j], j)))
  }

  /** Skipping an uploaded document keeps the run's progress. */
  lemma ProgressSkip(docs: seq<RawDoc>, g0: Graph, g: Graph, skipped: seq<bool>)
    requires |skipped| < |docs| && Progress(docs, g0, g, skipped)
    requires AlreadyUploaded(g, SourceId(docs[|skipped|], |skipped|))
    ensures Progress(docs, g0, g, skipped + [true])
  {
    var s := skipped + [true];
    forall j | 0 <= j < |s| && s[j]
      ensures AlreadyUploaded(g, SourceId(docs[j], j))
    {
      if j < |skipped| {
        assert skipped[j];
      }
    }
    forall j | 0 <= j < |s| && !s[j]
      ensures !AlreadyUploaded(g0, SourceId(docs[j], j))
    {
      assert j < |skipped| && !skipped[j];
    }
  }

  /** Storing a document that was not uploaded keeps the run's progress, whatever the store did. */
  lemma ProgressStore(docs: seq<RawDoc>, g0: Graph, g: Graph, h: Graph, skipped: seq<bool>)
    requires |skipped| < |docs| && Progress(docs, g0, g, skipped)
    requires !AlreadyUploaded(g, SourceId(docs[|skipped|], |skipped|))
    requires Extends(g, h) && (WellFormed(g) ==> WellFormed(h))
    ensures Progress(docs, g0, h, skipped + [false])
  {
    var i := |skipped|;
    var s := skipped + [false];
    ExtendsTransitive(g0, g, h);
    if AlreadyUploaded(g0, SourceId(docs[i], i)) {
      AlreadyUploadedPersists(g0, g, SourceId(docs[i], i));
    }
    forall j | 0 <= j < |s| && s[j]
      ensures AlreadyUploaded(h, SourceId(docs[j], j))
    {
      assert j < i && skipped[j];
      AlreadyUploadedPersists(g, h, SourceId(docs[j], j));
    }
    forall j | 0 <= j < |s| && !s[j]
      ensures !AlreadyUploaded(g0, SourceId(docs[j], j))
    {
      if j < i {
        assert !skipped[j];
      }
    }
  }

  /** What a run of the loop leaves: the graph, one flag per document reached telling whether it
      was skipped, and the failure that ended the run, if any. */
  datatype RunResult = RunResult(graph: Graph, skipped: seq<bool>, raised: Option<Fault>)

  /** Reference definition of the loop of lines 82-87, continued from the graph `g` after the
      documents flagged in `skipped`: each document is skipped when its source id is uploaded in
      the graph as it stands at that turn, and stored otherwise; a raised failure ends the run. */
  function Run(docs: seq<RawDoc>, g: Graph, skipped: seq<bool>, parse: string -> ParsedDoc,
               faults: nat -> nat -> Option<Fault>): RunResult
    requires |skipped| <= |docs|
    decreases |docs| - |skipped|
  {
    if |skipped| == |docs| then RunResult(g, skipped, None)
    else
      var i := |skipped|;
      var sid := SourceId(docs[i], i);
      if AlreadyUploaded(g, sid) then Run(docs, g, skipped + [true], parse, faults)
      else
        var r := ExtractAndStore(g, parse(docs[i].text.GetOr("")), sid, faults(i));
        if r.1.Raised? then RunResult(r.0, skipped + [false], Some(r.1.fault))
        else Run(docs, r.0, skipped + [false], parse, faults)
  }

  /** A document without entity mentions is never marked uploaded, so a second run over the same
      data processes it again. */
  lemma RerunWithoutMentions(d: RawDoc, g: Graph, parse: string -> ParsedDoc,
                             f1: nat -> nat -> Option<Fault>, f2: nat -> nat -> Option<Fault>)
    requires !AlreadyUploaded(g, SourceId(d, 0))
    requires |parse(d.text.GetOr("")).ents| == 0
    ensures var first := Run([d], g, [], parse, f1);
      && first.skipped == [false]
      && Run([d], first.graph, [], parse, f2).skipped == [false]
  {
    var sid := SourceId(d, 0);
    var doc := parse(d.text.GetOr(""));
    StoreMarksUploaded(g, doc, sid, f1(0));
    var r := ExtractAndStore(g, doc, sid, f1(0));
    assert Run([d], g, [], parse, f1).graph == r.0;
    var r2 := ExtractAndStore(r.0, doc, sid, f2(0));
    assert Run([d], r.0, [], parse, f2).skipped == [false];
  }

  /** A turn that skips or stores document `|skipped|` as the loop does continues the reference
      run, or ends it when the store raised. */
  lemma RunAfterTurn(docs: seq<RawDoc>, g: Graph, skipped: seq<bool>, parse: string -> ParsedDoc,
                     faults: nat -> nat -> Option<Fault>, h: Graph, skipped': seq<bool>, outcome: StoreOutcome)
    requires |skipped| < |docs|
    requires skipped' == skipped + [AlreadyUploaded(g, SourceId(docs[|skipped|], |skipped|))]
    requires skipped'[|skipped|] ==> h == g && outcome == Stored
    requires !skipped'[|skipped|] ==> ((h, outcome) ==
      ExtractAndStore(g, parse(docs[|skipped|].text.GetOr("")), SourceId(docs[|skipped|], |skipped|), faults(|skipped|)))
    ensures !outcome.Raised? ==> Run(docs, h, skipped', parse, faults) == Run(docs, g, skipped, parse, faults)
    ensures outcome.Raised? ==> RunResult(h, skipped', Some(outcome.fault)) == Run(docs, g, skipped, parse, faults)
  {
  }

  /** One turn of the loop: document `|skipped|` is skipped if its source id is uploaded, and stored
      otherwise. */
  method IngestOne(docs: seq<RawDoc>, g0: Graph, g: Graph, skipped: seq<bool>, parse: string -> ParsedDoc,
                   faults: nat -> Option<Fault>)
    returns (h: Graph, skipped': seq<bool>, outcome: StoreOutcome)
    requires |skipped| < |docs|
    requires Progress(docs, g0, g, skipped)
    ensures Progress(docs, g0, h, skipped')
    ensures skipped' == skipped + [AlreadyUploaded(g, SourceId(docs[|skipped|], |skipped|))]
    ensures skipped'[|skipped|] ==> h == g && outcome == Stored
    ensures !skipped'[|skipped|] ==> ((h, outcome) ==
      ExtractAndStore(g, parse(docs[|skipped|].text.GetOr("")), SourceId(docs[|skipped|], |skipped|), faults))
    ensures outcome.Raised? ==> !IsReadOnlyRejection(outcome.fault)
  {
    var i := |skipped|;
    var sid := SourceId(docs[i], i);
    if AlreadyUploaded(g, sid) {
      ProgressSkip(docs, g0, g, skipped);
      h, skipped', outcome := g, skipped + [true], Stored;
    } else {
      h, outcome := StoreDocument(g, docs[i], sid, parse, faults);
      ProgressStore(docs, g0, g, h, skipped);
      skipped' := skipped + [false];
    }
  }

  /** The loop of lines 82-87 over the loaded documents. A document whose source id is already
      uploaded is skipped; every other one is parsed and stored. A failure other than a read-only
      rejection ends the script. Returns the graph, one flag per document reached telling whether it
      was skipped, and the failure that ended the run, if any. */
  method Ingest(docs: seq<RawDoc>, g0: Graph, parse: string -> ParsedDoc, faults: nat -> nat -> Option<Fault>)
    returns (g: Graph, skipped: seq<bool>, raised: Option<Fault>)
    ensures RunResult(g, skipped, raised) == Run(docs, g0, [], parse, faults)
    ensures Progress(docs, g0, g, skipped)
    ensures raised.None? ==> |skipped| == |docs|
    ensures raised.Some? ==> 0 < |skipped| && !skipped[|skipped| - 1] && !IsReadOnlyRejection(raised.value)
  {
    g := g0;
    skipped := [];
    while |skipped| < |docs|
      invariant Progress(docs, g0, g, skipped)
      invariant Run(docs, g, skipped, parse, faults) == Run(docs, g0, [], parse, faults)
      decreases |docs| - |skipped|
    {
      var g', skipped', outcome := IngestOne(docs, g0, g, skipped, parse, faults(|skipped|));
      RunAfterTurn(docs, g, skipped, parse, faults, g', skipped', outcome);
      if outcome.Raised? {
        g, skipped, raised := g', skipped', Some(outcome.fault);
        return;
      }
      g, skipped := g', skipped';
    }
    raised := None;
  }
}
