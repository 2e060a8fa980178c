/** `chunk_text` and the record shaping of `generate_embeddings` (index-creation.py, lines 37-54).
    The sentence encoder, the vectors and the random record ids are not modelled. */
module Chunking {
  import opened Common
  import opened Text
  import opened Cleaning
  import opened Scraped

  /** The default `max_words`, the only value the script uses. */
  const DefaultMaxWords := 400

  /** How many words consecutive windows share: the window step is `max_words - 100`. */
  const Overlap := 100

  /** `range()` raises `ValueError` when its step is zero, that is when `max_words` is 100. */
  datatype ChunkError = ZeroStep

  function Min(a: int, b: int): int {
    if a <= b then a else b
  }

  /** Python's `range(start, stop, step)` for a positive step. */
  function Range(start: nat, stop: nat, step: nat): (r: seq<nat>)
    requires step > 0
    ensures forall j :: 0 <= j < |r| ==> start <= r[j] < stop
    ensures |r| > 0 <==> start < stop
    decreases stop - start
  {
    if start >= stop then [] else [start] + Range(start + step, stop, step)
  }

  lemma MulSucc(j: nat, step: nat)
    ensures (j + 1) * step == j * step + step
  {
  }

  /** `range(start, stop, step)` is `start, start + step, start + 2*step, ...`, and its length `c`
      is the ceiling of `(stop - start) / step`: the last element is below `stop`, the next one
      would not be. */
  lemma {:induction false} RangeShape(start: nat, stop: nat, step: nat)
    requires step > 0
    ensures var r := Range(start, stop, step);
      && (forall j :: 0 <= j < |r| ==> r[j] == start + j * step)
      && (start < stop ==> start + (|r| - 1) * step < stop <= start + |r| * step)
    decreases stop - start
  {
    if start < stop {
      var r := Range(start, stop, step);
      var r' := Range(start + step, stop, step);
      RangeShape(start + step, stop, step);
      assert r == [start] + r';
      forall j | 1 <= j < |r|
        ensures r[j] == start + j * step
      {
        assert r[j] == r'[j - 1] == (start + step) + (j - 1) * step;
        MulSucc(j - 1, step);
      }
      MulSucc(|r'|, step);
      if |r'| > 0 {
        MulSucc(|r'| - 1, step);
      }
    }
  }

  /** `words[start:start + max_words]`: the window of at most `max_words` words from `start`. */
  function Window(words: seq<string>, start: nat, maxWords: nat): seq<string>
    requires start <= |words|
  {
    words[start..Min(start + maxWords, |words|)]
  }

  /** The chunks of a list of words for a window of `maxWords` words and a step of
      `maxWords - 100`: one space-joined window per start in `range(0, len(words), step)`. */
  function Chunks(words: seq<string>, maxWords: nat): (cs: seq<string>)
    requires maxWords > Overlap
    ensures |cs| == |Range(0, |words|, maxWords - Overlap)|
  {
    var starts := Range(0, |words|, maxWords - Overlap);
    seq(|starts|, j requires 0 <= j < |starts| => Join(Window(words, starts[j], maxWords), " "))
  }

  /** `chunk_text(text, max_words)` (lines 37-40). A step of zero raises, a negative step gives an
      empty range. */
  function ChunkText(text: string, maxWords: int): (r: Result<seq<string>, ChunkError>)
    ensures r.Err? <==> maxWords == Overlap
    ensures maxWords < Overlap ==> r == Ok([])
    ensures maxWords > Overlap ==> r == Ok(Chunks(Words(CleanText(text)), maxWords))
  {
    if maxWords == Overlap then Err(ZeroStep)
    else if maxWords < Overlap then Ok([])
    else Ok(Chunks(Words(CleanText(text)), maxWords))
  }

  /** At most `max_words - 100` words make a single chunk: all of them, joined. */
  lemma ChunksOfFew(words: seq<string>, maxWords: nat)
    requires maxWords > Overlap && 0 < |words| <= maxWords - Overlap
    ensures Chunks(words, maxWords) == [Join(words, " ")]
  {
    var step := maxWords - Overlap;
    assert Range(step, |words|, step) == [];
    assert Range(0, |words|, step) == [0];
    assert Window(words, 0, maxWords) == words;
  }

  /** A text of at most `max_words - 100` words after cleaning is one chunk, the cleaned text
      itself, and a text with no words gives no chunks. */
  lemma ChunkTextShort(text: string)
    requires |Words(CleanText(text))| <= DefaultMaxWords - Overlap
    ensures ChunkText(text, DefaultMaxWords) == if CleanText(text) == "" then Ok([]) else Ok([CleanText(text)])
  {
    var clean := CleanText(text);
    var ws := Words(clean);
    CleanWordsJoin(clean);
    JoinEmpty(ws, " ");
    if |ws| > 0 {
      ChunksOfFew(ws, DefaultMaxWords);
    } else {
      assert Range(0, |ws|, DefaultMaxWords - Overlap) == [];
    }
  }

  /** There are `c` chunks of `n` words with `(c - 1) * step < n <= c * step`, the ceiling of
      `n / step`, where `step` is `max_words - 100`. */
  lemma ChunkCount(words: seq<string>, maxWords: nat)
    requires maxWords > Overlap
    ensures var c := |Chunks(words, maxWords)|;
      0 < |words| ==> (c - 1) * (maxWords - Overlap) < |words| <= c * (maxWords - Overlap)
  {
    RangeShape(0, |words|, maxWords - Overlap);
  }

  /** `cs` cuts `ws` into windows of `size` words at a distance of `step`: no windows for no
      words, else `c` of them with `(c - 1) * step < n <= c * step` for `n` words, and window `j`
      is the words from `j * step` up to `j * step + size` (or the end) joined by single spaces. */
  ghost predicate Windowed(ws: seq<string>, cs: seq<string>, step: nat, size: nat)
  {
    && (|ws| == 0 <==> |cs| == 0)
    && (0 < |ws| ==> (|cs| - 1) * step < |ws| <= |cs| * step)
    && WindowsAt(ws, cs, step, size)
  }

  /** Window `j` of `cs` is the words of `ws` from `j * step` up to `j * step + size` (or the
      end), joined by single spaces. */
  ghost predicate WindowsAt(ws: seq<string>, cs: seq<string>, step: nat, size: nat)
  {
    forall j :: 0 <= j < |cs| ==>
      && j * step < |ws|
      && cs[j] == Join(ws[j * step..Min(j * step + size, |ws|)], " ")
      && Words(cs[j]) == ws[j * step..Min(j * step + size, |ws|)]
  }

  /** Every chunk of a list of words is its window. */
  lemma ChunksAt(words: seq<string>, maxWords: nat)
    requires forall i :: 0 <= i < |words| ==> IsWord(words[i])
    requires maxWords > Overlap
    ensures WindowsAt(words, Chunks(words, maxWords), maxWords - Overlap, maxWords)
  {
    var cs := Chunks(words, maxWords);
    var step: nat := maxWords - Overlap;
    forall j | 0 <= j < |cs|
      ensures j * step < |words|
      ensures cs[j] == Join(words[j * step..Min(j * step + maxWords, |words|)], " ")
      ensures Words(cs[j]) == words[j * step..Min(j * step + maxWords, |words|)]
    {
      ChunkWords(words, maxWords, j);
    }
  }

  /** The chunks of a list of words are its windows. */
  lemma ChunksWindowed(words: seq<string>, maxWords: nat)
    requires forall i :: 0 <= i < |words| ==> IsWord(words[i])
    requires maxWords > Overlap
    ensures Windowed(words, Chunks(words, maxWords), maxWords - Overlap, maxWords)
  {
    ChunkCount(words, maxWords);
    ChunksAt(words, maxWords);
  }

  /** `chunk_text` with a positive step succeeds, and its chunks are the windows of the cleaned
      text's words. */
  lemma ChunkTextWindows(text: string, maxWords: int)
    requires maxWords > Overlap
    ensures ChunkText(text, maxWords).Ok?
    ensures Windowed(Words(CleanText(text)), ChunkText(text, maxWords).value, maxWords - Overlap, maxWords)
  {
    ChunksWindowed(Words(CleanText(text)), maxWords);
  }

  /** Chunk `j` is the words from `j * step` up to `j * step + max_words` (or the end), at least
      one and at most `max_words` of them, joined by single spaces. */
  lemma ChunkWords(words: seq<string>, maxWords: nat, j: nat)
    requires forall i :: 0 <= i < |words| ==> IsWord(words[i])
    requires maxWords > Overlap
    requires j < |Chunks(words, maxWords)|
    ensures j * (maxWords - Overlap) < |words|
    ensures Chunks(words, maxWords)[j] ==
      Join(words[j * (maxWords - Overlap)..Min(j * (maxWords - Overlap) + maxWords, |words|)], " ")
    ensures Words(Chunks(words, maxWords)[j]) ==
      words[j * (maxWords - Overlap)..Min(j * (maxWords - Overlap) + maxWords, |words|)]
    ensures 1 <= |Words(Chunks(words, maxWords)[j])| <= maxWords
  {
    var step := maxWords - Overlap;
    var a := Range(0, |words|, step)[j];
    RangeShape(0, |words|, step);
    assert a == j * step;
    var w := Window(words, a, maxWords);
    assert forall i :: 0 <= i < |w| ==> IsWord(w[i]);
    WordsOfJoin(w);
  }

  /** A start whose window holds word `k`. */
  lemma {:induction false} RangeCovers(start: nat, stop: nat, step: nat, maxWords: nat, k: nat)
    requires 0 < step <= maxWords
    requires start <= k < stop
    ensures exists j :: (0 <= j < |Range(start, stop, step)| &&
      Range(start, stop, step)[j] <= k < Range(start, stop, step)[j] + maxWords)
    decreases stop - start
  {
    var r := Range(start, stop, step);
    var r' := Range(start + step, stop, step);
    assert r == [start] + r';
    if k < start + step {
      assert r[0] <= k < r[0] + maxWords;
    } else {
      RangeCovers(start + step, stop, step, maxWords, k);
      var j :| 0 <= j < |r'| && r'[j] <= k < r'[j] + maxWords;
      assert r[j + 1] == r'[j];
    }
  }

  /** No word is lost: every word lies in the window of some chunk. */
  lemma ChunksCoverWords(words: seq<string>, maxWords: nat, k: nat)
    requires maxWords > Overlap
    requires k < |words|
    ensures var starts := Range(0, |words|, maxWords - Overlap);
      exists j :: 0 <= j < |starts| && starts[j] <= k < Min(starts[j] + maxWords, |words|)
  {
    RangeCovers(0, |words|, maxWords - Overlap, maxWords, k);
  }

  /** Consecutive chunks overlap: the words of chunk `j` after its first `max_words - 100` begin
      chunk `j + 1`, and when chunk `j` is full they are exactly 100 words. */
  lemma ChunksOverlap(words: seq<string>, maxWords: nat, j: nat)
    requires forall i :: 0 <= i < |words| ==> IsWord(words[i])
    requires maxWords > Overlap
    requires j + 1 < |Chunks(words, maxWords)|
    ensures var c := Chunks(words, maxWords);
      var step := maxWords - Overlap;
      && step <= |Words(c[j])|
      && Words(c[j])[step..] <= Words(c[j + 1])
      && (|Words(c[j])| == maxWords ==> |Words(c[j])[step..]| == Overlap)
  {
    var step := maxWords - Overlap;
    var n := |words|;
    var a := j * step;
    MulSucc(j, step);
    ChunkWindow(words, maxWords, j, a);
    ChunkWindow(words, maxWords, j + 1, a + step);
    var w0 := Words(Chunks(words, maxWords)[j]);
    var e0 := Min(a + maxWords, n);
    assert w0 == words[a..e0] && a + step <= e0;
    SliceOverlap(words, a, step, e0, Min(a + step + maxWords, n));
    assert w0[step..] == words[a + step..e0];
  }

  /** Chunk `j`, which starts at word `a`, holds the words from `a` up to its window's end. */
  lemma ChunkWindow(words: seq<string>, maxWords: nat, j: nat, a: nat)
    requires forall i :: 0 <= i < |words| ==> IsWord(words[i])
    requires maxWords > Overlap
    requires j < |Chunks(words, maxWords)| && a == j * (maxWords - Overlap)
    ensures a < |words|
    ensures Words(Chunks(words, maxWords)[j]) == words[a..Min(a + maxWords, |words|)]
  {
    ChunkWords(words, maxWords, j);
  }

  /** Dropping the first `d` elements of `s[a..e1]` leaves a prefix of `s[a + d..e2]`. */
  lemma SliceOverlap<T>(s: seq<T>, a: nat, d: nat, e1: nat, e2: nat)
    requires a + d <= e1 <= e2 <= |s|
    ensures s[a..e1][d..] == s[a + d..e1] <= s[a + d..e2]
  {
  }

  /** One record of `embeddings`: the chunk and `metadata.source_url`. */
  datatype PassageRecord = PassageRecord(text: string, sourceUrl: string)

  /** `doc["url"]` raised `KeyError` for the document at this index. */
  datatype EmbedError = MissingUrl(index: nat)

  /** `chunk_text(doc.get("text", ""))`, which cannot fail with the default `max_words`. */
  function DocChunks(doc: RawDoc): seq<string> {
    ChunkText(doc.text.GetOr(""), DefaultMaxWords).value
  }

  /** A document once chunked: its `url` key, if present, and its chunks. */
  datatype Chunked = Chunked(url: Option<string>, chunks: seq<string>)

  /** `doc["url"]` is only evaluated for a chunk, so a document without a URL fails only when it
      has chunks. */
  predicate Embeddable(d: Chunked) {
    d.url.Some? || |d.chunks| == 0
  }

  /** A loaded document that chunking and embedding accept: it has a URL or no chunks. */
  predicate DocEmbeddable(doc: RawDoc) {
    doc.url.Some? || |DocChunks(doc)| == 0
  }

  function Prepare(docs: seq<RawDoc>): (ds: seq<Chunked>)
    ensures |ds| == |docs|
    ensures forall i :: 0 <= i < |docs| ==> ds[i] == Chunked(docs[i].url, DocChunks(docs[i]))
    ensures forall i :: 0 <= i < |docs| ==> (Embeddable(ds[i]) <==> DocEmbeddable(docs[i]))
  {
    seq(|docs|, i requires 0 <= i < |docs| => Chunked(docs[i].url, DocChunks(docs[i])))
  }

  /** The records of one document, one per chunk, in chunk order (lines 47-53). */
  function DocRecords(d: Chunked): (rs: seq<PassageRecord>)
    requires Embeddable(d)
    ensures |rs| == |d.chunks|
    ensures forall k :: 0 <= k < |rs| ==> rs[k] == PassageRecord(d.chunks[k], d.url.value)
  {
    seq(|d.chunks|, k requires 0 <= k < |d.chunks| => PassageRecord(d.chunks[k], d.url.value))
  }

  function Texts(rs: seq<PassageRecord>): (ts: seq<string>)
    ensures |ts| == |rs|
    ensures forall k :: 0 <= k < |rs| ==> ts[k] == rs[k].text
  {
    seq(|rs|, k requires 0 <= k < |rs| => rs[k].text)
  }

  /** The chunk lists of documents, in document order. */
  function ChunkLists(ds: seq<Chunked>): (css: seq<seq<string>>)
    ensures |css| == |ds|
    ensures forall i :: 0 <= i < |ds| ==> css[i] == ds[i].chunks
  {
    seq(|ds|, i requires 0 <= i < |ds| => ds[i].chunks)
  }

  lemma ChunkListsCons(ds: seq<Chunked>, i: nat)
    requires i < |ds|
    ensures ChunkLists(ds[i..]) == [ds[i].chunks] + ChunkLists(ds[i + 1..])
  {
    assert ChunkLists(ds[i..])[1..] == ChunkLists(ds[i + 1..]);
  }

  /** The record lists of documents none of which lacks a needed URL, in document order. */
  function RecordLists(ds: seq<Chunked>): (rss: seq<seq<PassageRecord>>)
    requires forall j :: 0 <= j < |ds| ==> Embeddable(ds[j])
    ensures |rss| == |ds|
    ensures forall j :: 0 <= j < |ds| ==> rss[j] == DocRecords(ds[j])
  {
    seq(|ds|, j requires 0 <= j < |ds| && Embeddable(ds[j]) => DocRecords(ds[j]))
  }

  lemma RecordListsCons(ds: seq<Chunked>, i: nat)
    requires i < |ds| && forall j :: i <= j < |ds| ==> Embeddable(ds[j])
    ensures RecordLists(ds[i..]) == [DocRecords(ds[i])] + RecordLists(ds[i + 1..])
  {
    assert RecordLists(ds[i..])[1..] == RecordLists(ds[i + 1..]);
  }

  lemma TextsAppend(a: seq<PassageRecord>, b: seq<PassageRecord>)
    ensures Texts(a + b) == Texts(a) + Texts(b)
  {
  }

  /** The loop of lines 44-53 from document `i` on: the records of each document in turn, or the
      first document whose missing URL raised. */
  function GenerateFrom(ds: seq<Chunked>, i: nat): (r: Result<seq<PassageRecord>, EmbedError>)
    requires i <= |ds|
    ensures r.Ok? <==> forall j :: i <= j < |ds| ==> Embeddable(ds[j])
    ensures r.Err? ==> (i <= r.error.index < |ds| && !Embeddable(ds[r.error.index])
      && forall j :: i <= j < r.error.index ==> Embeddable(ds[j]))
    ensures r.Ok? ==> Texts(r.value) == Flatten(ChunkLists(ds[i..]))
    ensures r.Ok? ==> r.value == Flatten(RecordLists(ds[i..]))
    decreases |ds| - i
  {
    if i == |ds| then
      assert ChunkLists(ds[i..]) == [];
      assert RecordLists(ds[i..]) == [];
      Ok([])
    else if !Embeddable(ds[i]) then Err(MissingUrl(i))
    else
      match GenerateFrom(ds, i + 1)
      case Err(e) => Err(e)
      case Ok(rest) =>
        ChunkListsCons(ds, i);
        RecordListsCons(ds, i);
        TextsAppend(DocRecords(ds[i]), rest);
        assert Texts(DocRecords(ds[i])) == ds[i].chunks;
        Ok(DocRecords(ds[i]) + rest)
  }

  /** `generate_embeddings(data)` (lines 42-54): one record per chunk, documents and chunks in
      order, each record carrying its own document's URL. The first document that has chunks but
      no URL raises. */
  function GenerateEmbeddings(docs: seq<RawDoc>): (r: Result<seq<PassageRecord>, EmbedError>)
    ensures r.Ok? <==> forall j :: 0 <= j < |docs| ==> DocEmbeddable(docs[j])
    ensures r.Err? ==> (r.error.index < |docs| && !DocEmbeddable(docs[r.error.index])
      && forall j :: 0 <= j < r.error.index ==> DocEmbeddable(docs[j]))
    ensures r.Ok? ==> Texts(r.value) == Flatten(ChunkLists(Prepare(docs)))
    ensures r.Ok? ==> r.value == Flatten(RecordLists(Prepare(docs)))
  {
    var ds := Prepare(docs);
    assert ds[0..] == ds;
    GenerateFrom(ds, 0)
  }

  /** Record `m` is chunk `c` of some document `j`, paired with that document's own URL, and it
      sits after the chunks of the documents before `j`. */
  lemma {:induction false} RecordsCarryUrls(ds: seq<Chunked>, i: nat, m: nat)
    requires i <= |ds|
    requires GenerateFrom(ds, i).Ok? && m < |GenerateFrom(ds, i).value|
    ensures exists j, c :: (i <= j < |ds| && 0 <= c < |ds[j].chunks| && ds[j].url.Some?
      && m == |Flatten(ChunkLists(ds[i..j]))| + c
      && GenerateFrom(ds, i).value[m] == PassageRecord(ds[j].chunks[c], ds[j].url.value))
    decreases |ds| - i
  {
    var rs := DocRecords(ds[i]);
    if m < |rs| {
      assert GenerateFrom(ds, i).value[m] == rs[m];
      assert ds[i..i] == [];
      assert ChunkLists(ds[i..i]) == [];
      assert m == |Flatten(ChunkLists(ds[i..i]))| + m;
    } else {
      RecordsCarryUrls(ds, i + 1, m - |rs|);
      var j, c :| i + 1 <= j < |ds| && 0 <= c < |ds[j].chunks| && ds[j].url.Some?
        && m - |rs| == |Flatten(ChunkLists(ds[i + 1..j]))| + c
        && GenerateFrom(ds, i + 1).value[m - |rs|] == PassageRecord(ds[j].chunks[c], ds[j].url.value);
      assert GenerateFrom(ds, i).value[m] == GenerateFrom(ds, i + 1).value[m - |rs|];
      var pre := ds[..j];
      ChunkListsCons(pre, i);
      assert pre[i..] == ds[i..j] && pre[i + 1..] == ds[i + 1..j];
      var tail := ChunkLists(ds[i + 1..j]);
      assert ([ds[i].chunks] + tail)[1..] == tail;
      assert Flatten(ChunkLists(ds[i..j])) == ds[i].chunks + Flatten(tail);
    }
  }
}
