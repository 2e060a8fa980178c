/** The shallow relation heuristic of the ingestion script (graph-rag.py, lines 38-53). spaCy is an
    oracle: a parsed document is given as its entity mentions and its sentences of tokens. */
module RelationScan {
  import opened Common
  import opened Text

  /** A spaCy token: its text, dependency label (`dep_`), part of speech (`pos_`) and lemma (`lemma_`, here `lemmaForm`). */
  datatype Token = Token(text: string, dep: string, pos: string, lemmaForm: string)

  type Sentence = seq<Token>

  /** A named-entity mention: its text and label (`label_`, here `entityLabel`). */
  datatype Mention = Mention(text: string, entityLabel: string)

  /** What `nlp(text)` yields for the heuristic: `doc.ents` and `doc.sents`. */
  datatype ParsedDoc = ParsedDoc(ents: seq<Mention>, sents: seq<Sentence>)

  datatype Triple = Triple(subj: string, rel: string, obj: string)

  /** The three role slots of one sentence after the scan. */
  datatype Roles = Roles(subj: Option<Token>, verb: Option<Token>, obj: Option<Token>)

  predicate IsSubj(t: Token) { Contains(t.dep, "subj") }
  predicate IsObj(t: Token) { Contains(t.dep, "obj") }
  predicate IsVerb(t: Token) { t.pos == "VERB" }

  /** One iteration of the token loop: every matching role is overwritten by the current token. */
  function Visit(r: Roles, t: Token): Roles {
    Roles(if IsSubj(t) then Some(t) else r.subj,
          if IsVerb(t) then Some(t) else r.verb,
          if IsObj(t) then Some(t) else r.obj)
  }

  /** The loop over `sent` from index `i` on, starting from the role slots `acc`. */
  function ScanFrom(sent: Sentence, i: nat, acc: Roles): Roles
    requires i <= |sent|
    decreases |sent| - i
  {
    if i == |sent| then acc else ScanFrom(sent, i + 1, Visit(acc, sent[i]))
  }

  /** The role slots after the whole loop, starting from `None, None, None`. */
  function ScanRoles(sent: Sentence): Roles {
    ScanFrom(sent, 0, Roles(None, None, None))
  }

  /** Index `i` holds the last token of `sent` that satisfies `p`. */
  predicate IsLastMatch(sent: Sentence, p: Token -> bool, i: int) {
    0 <= i < |sent| && p(sent[i]) && forall j :: i < j < |sent| ==> !p(sent[j])
  }

  /** Reference definition: the last token of `sent` satisfying `p`, looked for from the end. */
  function LastWhere(sent: Sentence, p: Token -> bool): (r: Option<Token>)
    ensures r.None? <==> forall i :: 0 <= i < |sent| ==> !p(sent[i])
    ensures r.Some? ==> exists i :: IsLastMatch(sent, p, i) && sent[i] == r.value
  {
    if |sent| == 0 then None
    else if p(sent[|sent| - 1]) then
      assert IsLastMatch(sent, p, |sent| - 1);
      Some(sent[|sent| - 1])
    else
      var r := LastWhere(sent[..|sent| - 1], p);
      assert forall i :: 0 <= i < |sent| - 1 ==> sent[..|sent| - 1][i] == sent[i];
      assert forall i :: IsLastMatch(sent[..|sent| - 1], p, i) ==> IsLastMatch(sent, p, i);
      r
  }

  function Prefer(later: Option<Token>, earlier: Option<Token>): Option<Token> {
    if later.Some? then later else earlier
  }

  /** The scan from `i` keeps, per role, the last match in `sent[i..]`, falling back to `acc`. */
  lemma {:induction false} ScanFromIsLastMatch(sent: Sentence, i: nat, acc: Roles)
    requires i <= |sent|
    ensures ScanFrom(sent, i, acc) == Roles(Prefer(LastWhere(sent[i..], IsSubj), acc.subj),
                                            Prefer(LastWhere(sent[i..], IsVerb), acc.verb),
                                            Prefer(LastWhere(sent[i..], IsObj), acc.obj))
    decreases |sent| - i
  {
    if i < |sent| {
      var t, rest := sent[i], sent[i + 1..];
      assert sent[i..] == [t] + rest;
      ScanFromIsLastMatch(sent, i + 1, Visit(acc, t));
      LastWhereCons(t, rest, IsSubj);
      LastWhereCons(t, rest, IsVerb);
      LastWhereCons(t, rest, IsObj);
    }
  }

  /** Looking at a sentence from its front: the last match is in the tail if there is one there. */
  lemma {:induction false} LastWhereCons(t: Token, rest: Sentence, p: Token -> bool)
    ensures LastWhere([t] + rest, p) == Prefer(LastWhere(rest, p), if p(t) then Some(t) else None)
    decreases |rest|
  {
    var s := [t] + rest;
    if |rest| > 0 && !p(rest[|rest| - 1]) {
      assert s[..|s| - 1] == [t] + rest[..|rest| - 1];
      LastWhereCons(t, rest[..|rest| - 1], p);
    }
  }

  /** The token loop of lines 46-51 leaves in each slot the LAST token with that role: the last
      token whose `dep_` contains "subj", the last with `pos_` "VERB", the last whose `dep_`
      contains "obj". */
  lemma ScanIsLastMatch(sent: Sentence)
    ensures ScanRoles(sent) == Roles(LastWhere(sent, IsSubj), LastWhere(sent, IsVerb), LastWhere(sent, IsObj))
  {
    ScanFromIsLastMatch(sent, 0, Roles(None, None, None));
    assert sent[0..] == sent;
  }

  /** Truth value of an optional spaCy token in `if subj and verb and obj`: `None` is false, and a
      token is true exactly when its text is non-empty (a token's length is its text's length). */
  predicate Truthy(t: Option<Token>) {
    t.Some? && |t.value.text| > 0
  }

  /** The triple one sentence contributes, if any (lines 52-53). */
  function SentenceTriple(sent: Sentence): (r: Option<Triple>)
    ensures var s, v, o := LastWhere(sent, IsSubj), LastWhere(sent, IsVerb), LastWhere(sent, IsObj);
      && (r.Some? <==> Truthy(s) && Truthy(v) && Truthy(o))
      && (r.Some? ==> r.value == Triple(Strip(s.value.text), v.value.lemmaForm, Strip(o.value.text)))
  {
    ScanIsLastMatch(sent);
    var roles := ScanRoles(sent);
    if Truthy(roles.subj) && Truthy(roles.verb) && Truthy(roles.obj) then
      Some(Triple(Strip(roles.subj.value.text), roles.verb.value.lemmaForm, Strip(roles.obj.value.text)))
    else None
  }

  /** The `relations` list: the sentences' triples, in sentence order. */
  function Relations(sents: seq<Sentence>): (r: seq<Triple>)
    ensures |r| <= |sents|
  {
    if |sents| == 0 then []
    else match SentenceTriple(sents[0])
      case Some(t) => [t] + Relations(sents[1..])
      case None => Relations(sents[1..])
  }

  /** Triples come out in sentence order: the relations of two runs of sentences are the relations
      of the first followed by those of the second. */
  lemma {:induction false} RelationsAppend(a: seq<Sentence>, b: seq<Sentence>)
    ensures Relations(a + b) == Relations(a) + Relations(b)
    decreases |a|
  {
    if |a| > 0 {
      assert (a + b)[1..] == a[1..] + b;
      RelationsAppend(a[1..], b);
    } else {
      assert a + b == b;
    }
  }

  /** `[(ent.text.strip(), ent.label_) for ent in doc.ents]` (line 40). */
  function EntityPairs(ents: seq<Mention>): (r: seq<(string, string)>)
    ensures |r| == |ents|
    ensures forall i :: 0 <= i < |ents| ==> r[i] == (Strip(ents[i].text), ents[i].entityLabel)
  {
    seq(|ents|, i requires 0 <= i < |ents| => (Strip(ents[i].text), ents[i].entityLabel))
  }

  /** Entity names carry no whitespace at either end: stripping a name again changes nothing, so
      the same mention always yields the same node name. */
  lemma EntityNamesStripped(ents: seq<Mention>)
    ensures forall i :: 0 <= i < |ents| ==> Strip(EntityPairs(ents)[i].0) == EntityPairs(ents)[i].0
  {
    forall i | 0 <= i < |ents|
      ensures Strip(EntityPairs(ents)[i].0) == EntityPairs(ents)[i].0
    {
      StripIdempotent(ents[i].text);
    }
  }
}
