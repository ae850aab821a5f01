/**
 * Query-time retrieval (rag/rag_core.py): the single-slot cache of the loaded
 * index and metadata, the nearest-neighbour lookup that turns search ids back
 * into chunks, and the composition of a context of bounded length for the
 * chat provider.
 */
module RagCore {
  import opened Wrappers
  import opened Strings
  import opened Store

  /** A chunk found for a question, with its similarity score (opaque here). */
  datatype RetrievedChunk = RetrievedChunk(text: string, source: string, score: real)

  /** One `(score, id)` pair of the search's answer; FAISS pads a short answer with id -1. */
  datatype Hit = Hit(score: real, id: int)

  /** What `faiss.read_index` and `json.loads` make of the two files. */
  datatype Loaded = Loaded(index: FlatIndex, chunks: seq<ChunkRecord>)

  /** The cache key: the two files' modification times (the f-string of them is injective). */
  type CacheKey = (int, int)

  datatype CacheError = IndexNotFound   // "Index not found. Build index first."

  const IndexNotFoundMessage: string := "Index not found. Build index first."

  /** Both files exist, so a query can be served. */
  predicate Present(s: Storage) {
    s.index.Some? && s.meta.Some?
  }

  function KeyOf(s: Storage): CacheKey
    requires Present(s)
  {
    (s.index.value.mtime, s.meta.value.mtime)
  }

  /** What reading the two files gives. */
  function ReadFiles(s: Storage): Loaded
    requires Present(s)
  {
    Loaded(s.index.value.content, s.meta.value.content)
  }

  // ---------------------------------------------------------------------------
  // The index cache
  // ---------------------------------------------------------------------------

  /**
   * The module-level dictionary `_INDEX_CACHE`: `keys` is its key order (a
   * Python dict remembers insertion order), `entries` its contents.
   */
  class IndexCache {
    var keys: seq<CacheKey>
    var entries: map<CacheKey, Loaded>

    /** The key order lists exactly the dictionary's keys, each once. */
    ghost predicate Valid()
      reads this
    {
      Distinct(keys) && forall k :: k in entries <==> k in keys
    }

    /** The single-slot policy: at most one index is ever held. */
    ghost predicate SingleSlot()
      reads this
    {
      |keys| <= 1
    }

    /** The pair a call for the storage directory `s` returns: the cached one if its key is present, else the files. */
    ghost function Lookup(s: Storage): Loaded
      reads this
      requires Present(s)
    {
      if KeyOf(s) in entries then entries[KeyOf(s)] else ReadFiles(s)
    }

    constructor ()
      ensures Valid() && SingleSlot()
      ensures keys == [] && entries == map[]
    {
      keys := [];
      entries := map[];
    }

    /**
     * `_load_index_cached` (and `get_cached_index`, which only calls it).
     * `loaded` tells whether the files were read.
     */
    method LoadIndexCached(s: Storage) returns (r: Result<Loaded, CacheError>, loaded: bool)
      requires Valid()
      modifies this
      ensures Valid()
      ensures !Present(s) ==> r == Err(IndexNotFound) && !loaded && unchanged(this)
      ensures Present(s) && KeyOf(s) in old(entries) ==>
        r == Ok(old(entries)[KeyOf(s)]) && !loaded && unchanged(this)
      ensures Present(s) && KeyOf(s) !in old(entries) ==>
        && loaded
        && keys == [KeyOf(s)]
        && entries == map[KeyOf(s) := ReadFiles(s)]
        && r == Ok(ReadFiles(s))
      ensures Present(s) ==> r == Ok(old(Lookup(s))) && KeyOf(s) in entries && entries[KeyOf(s)] == r.value
      ensures old(SingleSlot()) ==> SingleSlot()
    {
      if !Present(s) {
        return Err(IndexNotFound), false;
      }
      var key := KeyOf(s);
      loaded := false;
      if key !in entries {
        Insert(key, ReadFiles(s));
        loaded := true;
      }
      r := Ok(entries[key]);
    }

    /** The miss path of `_load_index_cached`: store the new pair, then delete every older key. */
    method Insert(key: CacheKey, value: Loaded)
      requires Valid() && key !in entries
      modifies this
      ensures Valid()
      ensures keys == [key] && entries == map[key := value]
    {
      ghost var before := keys;
      entries := entries[key := value];
      keys := keys + [key];
      if |keys| > 1 {
        var oldKeys := keys[..|keys| - 1];
        assert oldKeys == before;
        var i := 0;
        while i < |oldKeys|
          invariant 0 <= i <= |oldKeys|
          invariant Distinct(oldKeys) && key !in oldKeys
          invariant keys == oldKeys[i..] + [key]
          invariant forall k :: k in entries <==> k in oldKeys[i..] || k == key
          invariant key in entries && entries[key] == value
        {
          assert oldKeys[i..] == [oldKeys[i]] + oldKeys[i + 1..];
          assert oldKeys[i] !in oldKeys[i + 1..];
          entries := entries - {oldKeys[i]};
          keys := keys[1..];
          assert keys == oldKeys[i + 1..] + [key];
          i := i + 1;
        }
      }
      assert keys == [key];
      assert entries.Keys == {key};
      assert entries == map[key := value];
    }
  }

  // ---------------------------------------------------------------------------
  // Retrieval
  // ---------------------------------------------------------------------------

  /** The chunk a metadata record stands for; a record without a source is attributed to "unknown". */
  function ToRetrieved(rec: ChunkRecord, score: real): (c: RetrievedChunk)
    ensures c.text == rec.text && c.score == score
    ensures c.source == (if rec.source.Some? then rec.source.value else "unknown")
  {
    RetrievedChunk(rec.text, rec.source.GetOr("unknown"), score)
  }

  predicate InRange(h: Hit, n: nat) {
    0 <= h.id < n
  }

  /** The results the loop of `retrieve` builds from the search's pairs. */
  function Collected(hits: seq<Hit>, chunks: seq<ChunkRecord>): seq<RetrievedChunk>
    decreases |hits|
  {
    if hits == [] then []
    else
      var h := hits[|hits| - 1];
      Collected(hits[..|hits| - 1], chunks) + (if InRange(h, |chunks|) then [ToRetrieved(chunks[h.id], h.score)] else [])
  }

  predicate StrictlyIncreasing(pos: seq<nat>) {
    forall i, j :: 0 <= i < j < |pos| ==> pos[i] < pos[j]
  }

  /**
   * `pos` lists, ascending, the positions of exactly the pairs whose id is a
   * metadata position, and result `i` is the chunk of pair `pos[i]`.
   */
  ghost predicate PicksInRange(hits: seq<Hit>, chunks: seq<ChunkRecord>, rs: seq<RetrievedChunk>, pos: seq<nat>) {
    && |pos| == |rs|
    && StrictlyIncreasing(pos)
    && (forall i :: 0 <= i < |pos| ==> pos[i] < |hits| && InRange(hits[pos[i]], |chunks|))
    && (forall i :: 0 <= i < |pos| ==> pos[i] < |hits| && rs[i] == ToRetrieved(chunks[hits[pos[i]].id], hits[pos[i]].score))
    && (forall j :: 0 <= j < |hits| && InRange(hits[j], |chunks|) ==> j in pos)
  }

  /** The results are the in-range pairs' chunks, in search order. */
  lemma {:induction false} CollectedSpec(hits: seq<Hit>, chunks: seq<ChunkRecord>) returns (pos: seq<nat>)
    ensures PicksInRange(hits, chunks, Collected(hits, chunks), pos)
    ensures |Collected(hits, chunks)| <= |hits|
    decreases |hits|
  {
    if hits == [] {
      pos := [];
    } else {
      var n := |hits| - 1;
      var init := hits[..n];
      var p := CollectedSpec(init, chunks);
      var prev := Collected(init, chunks);
      var rs := Collected(hits, chunks);
      var h := hits[n];
      if InRange(h, |chunks|) {
        pos := p + [n];
        assert rs == prev + [ToRetrieved(chunks[h.id], h.score)];
        PicksKeep(hits, chunks, prev, p);
      } else {
        pos := p;
        assert rs == prev;
        PicksSkip(hits, chunks, prev, p);
      }
    }
  }

  /** An in-range last pair adds its chunk, at position `|hits| - 1`. */
  lemma PicksKeep(hits: seq<Hit>, chunks: seq<ChunkRecord>, prev: seq<RetrievedChunk>, p: seq<nat>)
    requires hits != [] && InRange(hits[|hits| - 1], |chunks|)
    requires PicksInRange(hits[..|hits| - 1], chunks, prev, p)
    ensures var h := hits[|hits| - 1];
      PicksInRange(hits, chunks, prev + [ToRetrieved(chunks[h.id], h.score)], p + [|hits| - 1])
  {
    var n := |hits| - 1;
    var init, h := hits[..n], hits[n];
    var rs, pos := prev + [ToRetrieved(chunks[h.id], h.score)], p + [n];
    forall i | 0 <= i < |pos| ensures pos[i] < |hits| && InRange(hits[pos[i]], |chunks|)
      && rs[i] == ToRetrieved(chunks[hits[pos[i]].id], hits[pos[i]].score)
    {
      if i < |p| {
        assert pos[i] == p[i] && rs[i] == prev[i] && init[p[i]] == hits[p[i]];
      }
    }
    forall j | 0 <= j < |hits| && InRange(hits[j], |chunks|) ensures j in pos {
      if j < n {
        assert init[j] == hits[j];
        assert j in p;
      }
    }
  }

  /** An out-of-range last pair adds nothing. */
  lemma PicksSkip(hits: seq<Hit>, chunks: seq<ChunkRecord>, prev: seq<RetrievedChunk>, p: seq<nat>)
    requires hits != [] && !InRange(hits[|hits| - 1], |chunks|)
    requires PicksInRange(hits[..|hits| - 1], chunks, prev, p)
    ensures PicksInRange(hits, chunks, prev, p)
  {
    var n := |hits| - 1;
    var init := hits[..n];
    forall i | 0 <= i < |p| ensures p[i] < |hits| && InRange(hits[p[i]], |chunks|)
      && prev[i] == ToRetrieved(chunks[hits[p[i]].id], hits[p[i]].score)
    {
      assert init[p[i]] == hits[p[i]];
    }
    forall j | 0 <= j < |hits| && InRange(hits[j], |chunks|) ensures j in p {
      assert j < n && init[j] == hits[j];
    }
  }

  /** The loop of `retrieve`: keep the pairs whose id is a metadata position, in order. */
  method CollectResults(hits: seq<Hit>, chunks: seq<ChunkRecord>) returns (results: seq<RetrievedChunk>)
    ensures results == Collected(hits, chunks)
    ensures |results| <= |hits|
    ensures forall c :: c in results ==> exists j :: 0 <= j < |hits| && InRange(hits[j], |chunks|) && c == ToRetrieved(chunks[hits[j].id], hits[j].score)
  {
    results := [];
    var i := 0;
    while i < |hits|
      invariant 0 <= i <= |hits|
      invariant results == Collected(hits[..i], chunks)
    {
      assert hits[..i + 1][..i] == hits[..i];
      var h := hits[i];
      if 0 <= h.id < |chunks| {
        var chunk := chunks[h.id];
        results := results + [ToRetrieved(chunk, h.score)];
      }
      i := i + 1;
    }
    assert hits[..i] == hits;
    var pos := CollectedSpec(hits, chunks);
    assert PicksInRange(hits, chunks, results, pos);
    forall c | c in results
      ensures exists j :: 0 <= j < |hits| && InRange(hits[j], |chunks|) && c == ToRetrieved(chunks[hits[j].id], hits[j].score)
    {
      var i :| 0 <= i < |results| && results[i] == c;
      var j := pos[i];
      assert InRange(hits[j], |chunks|) && c == ToRetrieved(chunks[hits[j].id], hits[j].score);
    }
  }

  /** The search's side of the FAISS contract: never more pairs than asked for. */
  ghost predicate SearchBounded(search: (FlatIndex, seq<Vector>, int) -> seq<Hit>) {
    forall ix, q, k :: |search(ix, q, k)| <= Max(k, 0)
  }

  /**
   * `retrieve` once the loader has given `loaded`: embed the question, ask for
   * `min(top_k, len(chunks))` neighbours, keep the in-range ids. `embed` is the
   * embedding provider, `search` the index's `search` (row 0 of its answer).
   */
  method RetrieveLoaded(loaded: Loaded, question: string, topK: int,
                        embed: seq<string> -> seq<Vector>,
                        search: (FlatIndex, seq<Vector>, int) -> seq<Hit>)
    returns (results: seq<RetrievedChunk>)
    ensures var k := Min(topK, |loaded.chunks|);
      results == Collected(search(loaded.index, embed([question]), k), loaded.chunks)
    ensures SearchBounded(search) ==> |results| <= Max(0, Min(topK, |loaded.chunks|))
    ensures forall c :: c in results ==> exists i :: 0 <= i < |loaded.chunks| && c.text == loaded.chunks[i].text
  {
    var qVec := embed([question]);
    var k := Min(topK, |loaded.chunks|);
    var hits := search(loaded.index, qVec, k);
    results := CollectResults(hits, loaded.chunks);
  }

  /** `retrieve` with the module's cache as the loader. */
  method Retrieve(cache: IndexCache, s: Storage, question: string, topK: int,
                  embed: seq<string> -> seq<Vector>,
                  search: (FlatIndex, seq<Vector>, int) -> seq<Hit>)
    returns (r: Result<seq<RetrievedChunk>, CacheError>)
    requires cache.Valid()
    modifies cache
    ensures cache.Valid()
    ensures !Present(s) ==> r == Err(IndexNotFound) && unchanged(cache)
    ensures Present(s) ==>
      var loaded := old(cache.Lookup(s));
      r == Ok(Collected(search(loaded.index, embed([question]), Min(topK, |loaded.chunks|)), loaded.chunks))
    ensures Present(s) ==> KeyOf(s) in cache.entries && cache.entries[KeyOf(s)] == old(cache.Lookup(s))
    ensures old(cache.SingleSlot()) ==> cache.SingleSlot()
  {
    var got, _ := cache.LoadIndexCached(s);
    if got.Err? {
      return Err(got.error);
    }
    var results := RetrieveLoaded(got.value, question, topK, embed, search);
    r := Ok(results);
  }

  // ---------------------------------------------------------------------------
  // Composing the context
  // ---------------------------------------------------------------------------

  const MaxContext: nat := 800
  const MinTail: nat := 50
  const Ellipsis: string := "..."
  const NoInformation: string := "No relevant information found in the documents."

  /** The context part of one chunk: `[source] text`. */
  function Tag(c: RetrievedChunk): string {
    "[" + c.source + "] " + c.text
  }

  function Tags(cs: seq<RetrievedChunk>): (ps: seq<string>)
    ensures |ps| == |cs| && forall i :: 0 <= i < |cs| ==> ps[i] == Tag(cs[i])
  {
    seq(|cs|, i requires 0 <= i < |cs| => Tag(cs[i]))
  }

  /** The total length of some strings. */
  function SumLen(ps: seq<string>): nat
    decreases |ps|
  {
    if ps == [] then 0 else |ps[0]| + SumLen(ps[1..])
  }

  /** The parts the loop of `answer_with_rag` appends to the parts `ps`, having used `total` characters. */
  function ContextFrom(ps: seq<string>, total: int): seq<string>
    decreases |ps|
  {
    if ps == [] then []
    else if total + |ps[0]| > MaxContext then
      var remaining := MaxContext - total;
      if remaining > MinTail then [ps[0][..remaining] + Ellipsis] else []
    else [ps[0]] + ContextFrom(ps[1..], total + |ps[0]|)
  }

  /** The part at the first overflow, cut to the budget left and marked, when more than 50 characters are left. */
  function TailPart(p: string, remaining: int): seq<string> {
    if remaining > MinTail && remaining <= |p| then [p[..remaining] + Ellipsis] else []
  }

  /**
   * The greedy budget, stated without the loop: the composition is the longest
   * prefix of the parts whose lengths fit in what is left of the 800
   * characters, followed by the next part cut to the budget left when more
   * than 50 characters of it are left.
   */
  lemma {:induction false} ContextFromSpec(ps: seq<string>, total: int) returns (m: nat)
    requires 0 <= total <= MaxContext
    ensures m <= |ps|
    ensures total + SumLen(ps[..m]) <= MaxContext
    ensures m < |ps| ==> total + SumLen(ps[..m]) + |ps[m]| > MaxContext
    ensures m < |ps| ==> ContextFrom(ps, total) == ps[..m] + TailPart(ps[m], MaxContext - total - SumLen(ps[..m]))
    ensures m == |ps| ==> ContextFrom(ps, total) == ps
    decreases |ps|
  {
    if ps == [] {
      m := 0;
    } else if total + |ps[0]| > MaxContext {
      m := 0;
      assert ps[..0] == [];
    } else {
      var m' := ContextFromSpec(ps[1..], total + |ps[0]|);
      m := m' + 1;
      assert ps[..m][1..] == ps[1..][..m'];
      assert ps[..m] == [ps[0]] + ps[1..][..m'];
      assert SumLen(ps[..m]) == |ps[0]| + SumLen(ps[1..][..m']);
      assert ContextFrom(ps, total) == [ps[0]] + ContextFrom(ps[1..], total + |ps[0]|);
      if m < |ps| {
        assert ps[m] == ps[1..][m'];
      } else {
        assert ps[1..][..m'] == ps[1..];
      }
    }
  }

  lemma {:induction false} SumLenAppend(a: seq<string>, b: seq<string>)
    ensures SumLen(a + b) == SumLen(a) + SumLen(b)
    decreases |a|
  {
    if a != [] {
      assert (a + b)[1..] == a[1..] + b;
      SumLenAppend(a[1..], b);
    } else {
      assert a + b == b;
    }
  }

  /**
   * The budget holds: at most one part more than the chunks allow, and the
   * parts together exceed 800 characters by at most the three of the ellipsis.
   */
  lemma ContextBudget(cs: seq<RetrievedChunk>)
    ensures var parts := ContextFrom(Tags(cs), 0);
      |parts| <= |cs| && SumLen(parts) <= MaxContext + |Ellipsis|
  {
    var ps := Tags(cs);
    var m := ContextFromSpec(ps, 0);
    if m == |ps| {
      assert ps[..m] == ps;
    } else {
      var tail := TailPart(ps[m], MaxContext - SumLen(ps[..m]));
      SumLenAppend(ps[..m], tail);
      assert SumLen(tail) <= MaxContext - SumLen(ps[..m]) + |Ellipsis| by {
        if tail != [] {
          assert tail[1..] == [];
        }
      }
    }
  }

  /** The loop of `answer_with_rag` over the retrieved chunks. */
  method BuildContext(retrieved: seq<RetrievedChunk>) returns (contextParts: seq<string>)
    ensures contextParts == ContextFrom(Tags(retrieved), 0)
    ensures |contextParts| <= |retrieved|
    ensures forall i :: 0 <= i < |contextParts| - 1 ==> contextParts[i] == Tag(retrieved[i])
  {
    var ps := Tags(retrieved);
    contextParts := [];
    var totalLength := 0;
    var i := 0;
    while i < |retrieved|
      invariant 0 <= i <= |retrieved|
      invariant 0 <= totalLength <= MaxContext
      invariant contextParts == ps[..i]
      invariant contextParts + ContextFrom(ps[i..], totalLength) == ContextFrom(ps, 0)
    {
      var chunkText := Tag(retrieved[i]);
      assert ps[i..][0] == chunkText && ps[i..][1..] == ps[i + 1..];
      if totalLength + |chunkText| > MaxContext {
        var remaining := MaxContext - totalLength;
        if remaining > MinTail {
          chunkText := chunkText[..remaining] + Ellipsis;
          contextParts := contextParts + [chunkText];
        }
        assert contextParts == ContextFrom(ps, 0);
        ContextShape(ps);
        return;
      }
      ghost var rest := ContextFrom(ps[i + 1..], totalLength + |chunkText|);
      assert ContextFrom(ps[i..], totalLength) == [chunkText] + rest;
      AppendAssoc(contextParts, [chunkText], rest);
      assert ps[..i + 1] == ps[..i] + [chunkText];
      contextParts := contextParts + [chunkText];
      totalLength := totalLength + |chunkText|;
      i := i + 1;
    }
    assert ps[i..] == [];
    ContextShape(ps);
  }

  /** Every part but possibly the last is a whole part, in order, and no part is invented. */
  lemma ContextShape(ps: seq<string>)
    ensures var parts := ContextFrom(ps, 0);
      |parts| <= |ps| && forall i :: 0 <= i < |parts| - 1 ==> parts[i] == ps[i]
  {
    var m := ContextFromSpec(ps, 0);
  }

  /** `answer_with_rag`: the answer and the retrieved chunks, or the missing-index failure. */
  method AnswerWithRag(cache: IndexCache, s: Storage, question: string, topK: int,
                       embed: seq<string> -> seq<Vector>,
                       search: (FlatIndex, seq<Vector>, int) -> seq<Hit>,
                       chat: (string, string) -> string)
    returns (r: Result<(string, seq<RetrievedChunk>), CacheError>)
    requires cache.Valid()
    modifies cache
    ensures cache.Valid()
    ensures !Present(s) ==> r == Err(IndexNotFound) && unchanged(cache)
    ensures Present(s) ==> KeyOf(s) in cache.entries && cache.entries[KeyOf(s)] == old(cache.Lookup(s))
    ensures old(cache.SingleSlot()) ==> cache.SingleSlot()
    ensures Present(s) ==>
      var loaded := old(cache.Lookup(s));
      var retrieved := Collected(search(loaded.index, embed([question]), Min(topK, |loaded.chunks|)), loaded.chunks);
      && (retrieved == [] ==> r == Ok((NoInformation, [])))
      && (retrieved != [] ==> r == Ok((chat(question, Join(ContextFrom(Tags(retrieved), 0), "\n\n")), retrieved)))
  {
    var got := Retrieve(cache, s, question, topK, embed, search);
    if got.Err? {
      return Err(got.error);
    }
    var retrieved := got.value;
    if retrieved == [] {
      return Ok((NoInformation, []));
    }
    var contextParts := BuildContext(retrieved);
    var context := Join(contextParts, "\n\n");
    var answer := chat(question, context);
    r := Ok((answer, retrieved));
  }
}
