/**
 * Building the in-browser knowledge index from a list of named texts
 * (web/src/rag/knowledge.ts): every text is cut into chunks, the chunks of all
 * texts are indexed together, and the distinct sources are listed in the order
 * they first appear.
 */
module Knowledge {
  import opened Wrappers
  import opened Strings
  import opened Tfidf

  /** One knowledge file: where it came from and its text. */
  datatype Input = Input(source: string, text: string)

  datatype KnowledgeBuildResult = KnowledgeBuildResult(index: TfidfIndex, sources: seq<string>, chunksCount: nat)

  const DefaultChunkSize: int := 900
  const DefaultOverlap: int := 120

  /** Every input's text can be cut with these settings (see `Tfidf.Terminates`). */
  predicate AllTerminate(inputs: seq<Input>, size: int, overlap: int) {
    forall k :: 0 <= k < |inputs| ==> Terminates(CleanJs(inputs[k].text), size, overlap)
  }

  /** The chunks of all inputs, file after file. */
  function AllChunks(inputs: seq<Input>, size: int, overlap: int): seq<Chunk>
    requires AllTerminate(inputs, size, overlap)
    decreases |inputs|
  {
    if inputs == [] then []
    else
      var n := |inputs| - 1;
      AllChunks(inputs[..n], size, overlap) + JsChunks(inputs[n].source, inputs[n].text, size, overlap)
  }

  /** `allChunks.map((c) => c.source)`. */
  function SourcesOf(chunks: seq<Chunk>): (r: seq<string>)
    ensures |r| == |chunks| && forall k :: 0 <= k < |chunks| ==> r[k] == chunks[k].source
  {
    seq(|chunks|, k requires 0 <= k < |chunks| => chunks[k].source)
  }

  /** `Array.from(new Set(xs))`: each value once, at the place it first occurs. */
  function Dedup(xs: seq<string>): seq<string>
    decreases |xs|
  {
    if xs == [] then []
    else
      var n := |xs| - 1;
      var d := Dedup(xs[..n]);
      if xs[n] in d then d else d + [xs[n]]
  }

  /**
   * `Dedup(xs)` lists exactly the values of `xs`, each once, each taken from
   * its first occurrence (`pos[i]`), in the order of those occurrences.
   */
  lemma {:induction false} DedupSpec(xs: seq<string>) returns (pos: seq<nat>)
    ensures var d := Dedup(xs);
      && Distinct(d)
      && (forall x :: x in d <==> x in xs)
      && |pos| == |d|
      && (forall i :: 0 <= i < |d| ==> pos[i] < |xs| && xs[pos[i]] == d[i] && d[i] !in xs[..pos[i]])
      && (forall i, j :: 0 <= i < j < |d| ==> pos[i] < pos[j])
    decreases |xs|
  {
    if xs == [] {
      pos := [];
    } else {
      var n := |xs| - 1;
      var d0 := Dedup(xs[..n]);
      var p0 := DedupSpec(xs[..n]);
      assert xs == xs[..n] + [xs[n]];
      forall i | 0 <= i < |d0| ensures p0[i] < n && xs[p0[i]] == d0[i] && d0[i] !in xs[..p0[i]] {
        assert xs[..n][..p0[i]] == xs[..p0[i]];
      }
      if xs[n] in d0 {
        pos := p0;
      } else {
        pos := p0 + [n];
        assert xs[n] !in xs[..n];
      }
    }
  }

  /** The chunks `chunkText` cuts from a text are non-empty exactly when the cleaned text is. */
  lemma ChunksExist(source: string, text: string, size: int, overlap: int)
    requires Terminates(CleanJs(text), size, overlap)
    ensures JsChunks(source, text, size, overlap) == [] <==> CleanJs(text) == []
  {
    var clean := CleanJs(text);
    if clean != [] {
      WindowsUnfold(source, clean, size, overlap, JsWindowText(clean, size), 0, 0);
    }
  }

  /** Some chunk of `chunks` carries `source`. */
  predicate HasSource(chunks: seq<Chunk>, source: string) {
    exists m :: 0 <= m < |chunks| && chunks[m].source == source
  }

  /** Whether an input is named `source` and has a text that is not blank, as a predicate on inputs. */
  function Gives(source: string): Input -> bool {
    (input: Input) => input.source == source && CleanJs(input.text) != []
  }

  /** Some input satisfies `p`. */
  predicate SomeInput(inputs: seq<Input>, p: Input -> bool) {
    exists k :: 0 <= k < |inputs| && p(inputs[k])
  }

  /** Some input is named `source` and has a text that is not blank. */
  predicate Contributes(inputs: seq<Input>, source: string) {
    SomeInput(inputs, Gives(source))
  }

  /** Every chunk cut from one text carries that text's source, and a text that is not blank gives one. */
  lemma FileSources(source: string, text: string, size: int, overlap: int)
    requires Terminates(CleanJs(text), size, overlap)
    ensures forall s :: HasSource(JsChunks(source, text, size, overlap), s) <==> s == source && CleanJs(text) != []
  {
    ChunkTextSpec(source, text, size, overlap);
    ChunksExist(source, text, size, overlap);
    var cs := JsChunks(source, text, size, overlap);
    if cs != [] {
      assert cs[0].source == source;
    }
  }

  /** A chunk list concatenated from two carries the sources of both. */
  lemma HasSourceAppend(a: seq<Chunk>, b: seq<Chunk>, s: string)
    ensures HasSource(a + b, s) <==> HasSource(a, s) || HasSource(b, s)
  {
    if HasSource(a + b, s) {
      var m :| 0 <= m < |a + b| && (a + b)[m].source == s;
      if m >= |a| {
        assert b[m - |a|] == (a + b)[m];
      }
    }
    if HasSource(b, s) {
      var m :| 0 <= m < |b| && b[m].source == s;
      assert (a + b)[|a| + m] == b[m];
    }
    if HasSource(a, s) {
      var m :| 0 <= m < |a| && a[m].source == s;
      assert (a + b)[m] == a[m];
    }
  }

  /** Some input of a list satisfies `p` when some input of its prefix or its last input does. */
  lemma SomeInputSnoc(inputs: seq<Input>, p: Input -> bool)
    requires inputs != []
    ensures var n := |inputs| - 1;
      SomeInput(inputs, p) <==> SomeInput(inputs[..n], p) || p(inputs[n])
  {
    var n := |inputs| - 1;
    if SomeInput(inputs, p) {
      var k :| 0 <= k < |inputs| && p(inputs[k]);
      if k < n {
        assert inputs[..n][k] == inputs[k];
      }
    }
    if SomeInput(inputs[..n], p) {
      var k :| 0 <= k < n && p(inputs[..n][k]);
      assert inputs[k] == inputs[..n][k];
    }
  }

  /** Each chunk of the knowledge index comes from one input and carries that input's source. */
  lemma {:induction false} AllChunksSources(inputs: seq<Input>, size: int, overlap: int, s: string)
    requires AllTerminate(inputs, size, overlap)
    ensures HasSource(AllChunks(inputs, size, overlap), s) <==> Contributes(inputs, s)
    decreases |inputs|
  {
    if inputs != [] {
      var n := |inputs| - 1;
      var prefix := inputs[..n];
      assert AllTerminate(prefix, size, overlap) by {
        forall k | 0 <= k < n ensures Terminates(CleanJs(prefix[k].text), size, overlap) {
          assert prefix[k] == inputs[k];
        }
      }
      AllChunksSources(prefix, size, overlap, s);
      assert AllChunks(inputs, size, overlap) == AllChunks(prefix, size, overlap) + JsChunks(inputs[n].source, inputs[n].text, size, overlap);
      FileSources(inputs[n].source, inputs[n].text, size, overlap);
      HasSourceAppend(AllChunks(prefix, size, overlap), JsChunks(inputs[n].source, inputs[n].text, size, overlap), s);
      SomeInputSnoc(inputs, Gives(s));
    }
  }

  /** The sources are the inputs whose text is not blank, each listed once. */
  lemma SourcesSpec(inputs: seq<Input>, size: int, overlap: int)
    requires AllTerminate(inputs, size, overlap)
    ensures var sources := Dedup(SourcesOf(AllChunks(inputs, size, overlap)));
      && Distinct(sources)
      && forall s :: s in sources <==> Contributes(inputs, s)
  {
    var all := AllChunks(inputs, size, overlap);
    var _ := DedupSpec(SourcesOf(all));
    forall s ensures s in SourcesOf(all) <==> Contributes(inputs, s) {
      AllChunksSources(inputs, size, overlap, s);
      if s in SourcesOf(all) {
        var m :| 0 <= m < |all| && SourcesOf(all)[m] == s;
      }
    }
  }

  /** `buildKnowledgeIndexFromTexts`; an absent option takes its default. */
  method BuildKnowledgeIndexFromTexts(inputs: seq<Input>, chunkSize: Option<int>, overlap: Option<int>,
                                      isWord: char -> bool)
    returns (res: KnowledgeBuildResult)
    requires AllTerminate(inputs, chunkSize.GetOr(DefaultChunkSize), overlap.GetOr(DefaultOverlap))
    ensures var all := AllChunks(inputs, chunkSize.GetOr(DefaultChunkSize), overlap.GetOr(DefaultOverlap));
      && IndexOver(res.index, all, isWord)
      && res.sources == Dedup(SourcesOf(all))
      && res.chunksCount == |all|
  {
    var size := chunkSize.GetOr(DefaultChunkSize);
    var ov := overlap.GetOr(DefaultOverlap);
    var allChunks: seq<Chunk> := [];
    for i := 0 to |inputs|
      invariant AllTerminate(inputs[..i], size, ov)
      invariant allChunks == AllChunks(inputs[..i], size, ov)
    {
      assert inputs[..i + 1][..i] == inputs[..i];
      assert inputs[..i + 1][i] == inputs[i];
      var chunks := ChunkText(inputs[i].source, inputs[i].text, size, ov);
      allChunks := allChunks + chunks;
    }
    assert inputs[..|inputs|] == inputs;
    var index := BuildTfidfIndex(allChunks, isWord);
    var sources := Dedup(SourcesOf(allChunks));
    res := KnowledgeBuildResult(index, sources, |allChunks|);
  }
}
