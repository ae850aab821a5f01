/**
 * The browser-side retriever (web/src/rag/tfidf.ts): a tokenizer, term and
 * document frequencies, a second character-window chunker with sequential
 * ids and a cut at paragraph breaks, and the top-k selection over scores.
 * The TF-IDF weights and the cosine similarity are floating point and enter
 * as an opaque similarity function.
 */
module Tfidf {
  import opened Wrappers
  import opened Strings

  /** A chunk of a knowledge file: `source::n` id, the file's name, the text. */
  datatype Chunk = Chunk(id: string, source: string, text: string)

  datatype SearchHit = SearchHit(chunk: Chunk, score: real)

  // ---------------------------------------------------------------------------
  // A JavaScript `Map<string, number>`: keys in insertion order, and the values
  // ---------------------------------------------------------------------------

  datatype OrderedMap = OrderedMap(keys: seq<string>, values: map<string, nat>) {
    /** The keys are listed once each, and they are exactly the map's keys. */
    ghost predicate Wf() {
      Distinct(keys) && forall k :: k in values <==> k in keys
    }

    /** `m.get(k) ?? 0`. */
    function GetOr0(k: string): nat {
      if k in values then values[k] else 0
    }

    /** `m.set(k, v)`: an existing key keeps its place, a new key goes last. */
    function Set(k: string, v: nat): OrderedMap {
      OrderedMap(if k in values then keys else keys + [k], values[k := v])
    }
  }

  const EmptyMap: OrderedMap := OrderedMap([], map[])

  /**
   * `set` keeps every key listed once and the listed keys the map's keys; the
   * old keys keep their places, at most `k` is added after them, `k` maps to
   * `v` and every other key keeps its value.
   */
  lemma SetKeepsWf(m: OrderedMap, k: string, v: nat)
    requires m.Wf()
    ensures var r := m.Set(k, v);
      && r.Wf()
      && m.keys <= r.keys && |r.keys| <= |m.keys| + 1
      && r.GetOr0(k) == v
      && forall j :: j != k ==> r.GetOr0(j) == m.GetOr0(j)
  {
    if k !in m.values {
      var keys := m.keys + [k];
      forall i, j | 0 <= i < j < |keys| ensures keys[i] != keys[j] {
        if j == |m.keys| {
          assert keys[i] in m.keys;
        }
      }
    }
  }

  /** The sum of the values under `keys`. */
  function SumOver(keys: seq<string>, m: map<string, nat>): nat
    requires forall k :: k in keys ==> k in m
    decreases |keys|
  {
    if keys == [] then 0 else m[keys[0]] + SumOver(keys[1..], m)
  }

  lemma {:induction false} SumOverFresh(keys: seq<string>, m: map<string, nat>, t: string, v: nat)
    requires forall k :: k in keys ==> k in m
    requires t !in keys
    ensures SumOver(keys, m[t := v]) == SumOver(keys, m)
    decreases |keys|
  {
    if keys != [] {
      SumOverFresh(keys[1..], m, t, v);
    }
  }

  lemma {:induction false} SumOverUpdate(keys: seq<string>, m: map<string, nat>, t: string, v: nat)
    requires forall k :: k in keys ==> k in m
    requires Distinct(keys) && t in keys
    ensures SumOver(keys, m[t := v]) + m[t] == SumOver(keys, m) + v
    decreases |keys|
  {
    if keys[0] == t {
      assert t !in keys[1..];
      SumOverFresh(keys[1..], m, t, v);
    } else {
      SumOverUpdate(keys[1..], m, t, v);
    }
  }

  lemma {:induction false} SumOverSnoc(keys: seq<string>, m: map<string, nat>, t: string)
    requires forall k :: k in keys ==> k in m
    requires t in m
    ensures SumOver(keys + [t], m) == SumOver(keys, m) + m[t]
    decreases |keys|
  {
    if keys == [] {
      assert [] + [t] == [t];
    } else {
      assert (keys + [t])[1..] == keys[1..] + [t];
      SumOverSnoc(keys[1..], m, t);
    }
  }

  // ---------------------------------------------------------------------------
  // Tokenizing
  // ---------------------------------------------------------------------------

  const StopWords: set<string> := {
    "the", "a", "an", "and", "or", "to", "of", "in", "is", "it", "for", "on", "with", "as", "at", "by",
    "be", "are", "was", "were", "this", "that", "these", "those", "you", "your", "we", "our", "i"
  }

  /**
   * The matches of the global word pattern in `s[i..]`: the maximal runs of
   * characters `isWord` accepts (the pattern's letters and numbers).
   */
  function WordsFrom(s: string, isWord: char -> bool, i: nat): seq<string>
    requires i <= |s|
    decreases |s| - i
  {
    if i == |s| then []
    else if !isWord(s[i]) then WordsFrom(s, isWord, i + 1)
    else
      var e := SkipForward(s, isWord, i + 1);
      [s[i..e]] + WordsFrom(s, isWord, e)
  }

  /** Every match is a non-empty run of word characters of `s`. */
  lemma {:induction false} WordsFromSpec(s: string, isWord: char -> bool, i: nat)
    requires i <= |s|
    ensures forall w :: w in WordsFrom(s, isWord, i) ==>
      w != [] && (forall c :: c in w ==> isWord(c) && c in s)
    decreases |s| - i
  {
    if i < |s| {
      if !isWord(s[i]) {
        WordsFromSpec(s, isWord, i + 1);
      } else {
        var e := SkipForward(s, isWord, i + 1);
        SkipForwardSpec(s, isWord, i + 1);
        WordsFromSpec(s, isWord, e);
        var w := s[i..e];
        forall c | c in w ensures isWord(c) && c in s {
          var k :| 0 <= k < |w| && w[k] == c;
          assert s[i + k] == c;
        }
      }
    }
  }

  /** `s[a..b]` is a run of word characters that cannot be extended within `s[lo..]`. */
  predicate MaximalRun(s: string, isWord: char -> bool, lo: nat, a: nat, b: nat)
    requires lo <= a <= b <= |s|
  {
    && (forall k :: a <= k < b ==> isWord(s[k]))
    && (a == lo || !isWord(s[a - 1]))
    && (b == |s| || !isWord(s[b]))
  }

  /** Every match is a maximal run of word characters of `s[i..]`, taken contiguously. */
  lemma {:induction false} WordsFromRuns(s: string, isWord: char -> bool, i: nat)
    requires i <= |s|
    ensures forall w :: w in WordsFrom(s, isWord, i) ==>
      exists a, b :: i <= a < b <= |s| && w == s[a..b] && MaximalRun(s, isWord, i, a, b)
    decreases |s| - i
  {
    if i < |s| {
      if !isWord(s[i]) {
        WordsFromRuns(s, isWord, i + 1);
        assert WordsFrom(s, isWord, i) == WordsFrom(s, isWord, i + 1);
        forall w | w in WordsFrom(s, isWord, i)
          ensures exists a, b :: i <= a < b <= |s| && w == s[a..b] && MaximalRun(s, isWord, i, a, b)
        {
          var a, b :| i + 1 <= a < b <= |s| && w == s[a..b] && MaximalRun(s, isWord, i + 1, a, b);
          assert MaximalRun(s, isWord, i, a, b);
        }
      } else {
        var e := SkipForward(s, isWord, i + 1);
        SkipForwardSpec(s, isWord, i + 1);
        WordsFromRuns(s, isWord, e);
        assert MaximalRun(s, isWord, i, i, e);
        forall w | w in WordsFrom(s, isWord, i)
          ensures exists a, b :: i <= a < b <= |s| && w == s[a..b] && MaximalRun(s, isWord, i, a, b)
        {
          if w != s[i..e] {
            assert w in WordsFrom(s, isWord, e);
            var a, b :| e <= a < b <= |s| && w == s[a..b] && MaximalRun(s, isWord, e, a, b);
            assert isWord(s[a]);
            assert MaximalRun(s, isWord, i, a, b);
          }
        }
      }
    }
  }

  /** Every word character of `s[i..]` lies in some match. */
  lemma {:induction false} WordsFromCover(s: string, isWord: char -> bool, i: nat, k: nat) returns (a: nat, b: nat)
    requires i <= k < |s| && isWord(s[k])
    ensures i <= a <= k < b <= |s| && s[a..b] in WordsFrom(s, isWord, i)
    decreases |s| - i
  {
    if !isWord(s[i]) {
      a, b := WordsFromCover(s, isWord, i + 1, k);
    } else {
      var e := SkipForward(s, isWord, i + 1);
      SkipForwardSpec(s, isWord, i + 1);
      if k < e {
        a, b := i, e;
      } else {
        a, b := WordsFromCover(s, isWord, e, k);
      }
    }
  }

  /** What the `filter`s of `tokenize` keep: 2 to 40 characters, not a stop word. */
  predicate IsToken(w: string) {
    2 <= |w| <= 40 && w !in StopWords
  }

  /** The `map` and `filter` chain of `tokenize` over the matched words. */
  function KeepTokens(words: seq<string>): seq<string>
    decreases |words|
  {
    if words == [] then []
    else
      var w := JsTrim(words[0]);
      (if IsToken(w) then [w] else []) + KeepTokens(words[1..])
  }

  /** `tokenize`: lower-case, match the words, trim, filter. */
  function Tokenize(text: string, isWord: char -> bool): seq<string> {
    KeepTokens(WordsFrom(AsciiLower(text), isWord, 0))
  }

  /** A token is kept exactly when some matched word trims to it and passes the filters. */
  lemma {:induction false} KeepTokensSpec(words: seq<string>)
    ensures forall t :: t in KeepTokens(words) <==> IsToken(t) && exists w :: w in words && JsTrim(w) == t
    decreases |words|
  {
    if words != [] {
      KeepTokensSpec(words[1..]);
      forall t | IsToken(t) && (exists w :: w in words && JsTrim(w) == t)
        ensures t in KeepTokens(words)
      {
        var w :| w in words && JsTrim(w) == t;
        if w != words[0] {
          assert w in words[1..];
        }
      }
    }
  }

  /**
   * Every token is 2 to 40 characters long, is not a stop word, and is made
   * of word characters of the lower-cased text, so it holds no upper-case
   * letter; and every such trimmed word is a token.
   */
  lemma TokenizeSpec(text: string, isWord: char -> bool)
    ensures forall t :: t in Tokenize(text, isWord) ==>
      && 2 <= |t| <= 40 && t !in StopWords
      && (forall c :: c in t ==> isWord(c) && !IsAsciiUpper(c) && c in AsciiLower(text))
    ensures forall w :: w in WordsFrom(AsciiLower(text), isWord, 0) && IsToken(JsTrim(w)) ==> JsTrim(w) in Tokenize(text, isWord)
  {
    var lower := AsciiLower(text);
    var words := WordsFrom(lower, isWord, 0);
    WordsFromSpec(lower, isWord, 0);
    KeepTokensSpec(words);
    forall t | t in Tokenize(text, isWord)
      ensures forall c :: c in t ==> isWord(c) && !IsAsciiUpper(c) && c in lower
    {
      var w :| w in words && JsTrim(w) == t;
      TrimSpec(w, IsJsSpace);
      forall c | c in t ensures isWord(c) && !IsAsciiUpper(c) && c in lower {
        var a, b :| 0 <= a <= b <= |w| && t == w[a..b];
        var k :| 0 <= k < |t| && t[k] == c;
        assert w[a + k] == c;
        assert c in w;
        var j :| 0 <= j < |lower| && lower[j] == c;
        assert c == LowerChar(text[j]);
      }
    }
  }

  // ---------------------------------------------------------------------------
  // Term frequencies
  // ---------------------------------------------------------------------------

  /** The map `termFrequencies` has built after the first `n` tokens: one `set` per token, in order. */
  function TermCountsUpTo(tokens: seq<string>, n: nat): OrderedMap
    requires n <= |tokens|
  {
    if n == 0 then EmptyMap
    else
      var prev := TermCountsUpTo(tokens, n - 1);
      var t := tokens[n - 1];
      prev.Set(t, prev.GetOr0(t) + 1)
  }

  /** The map `termFrequencies` returns. */
  function TermCountsOf(tokens: seq<string>): OrderedMap {
    TermCountsUpTo(tokens, |tokens|)
  }

  /** The map stays well formed token after token. */
  lemma {:induction false} TermCountsWf(tokens: seq<string>, n: nat)
    requires n <= |tokens|
    ensures TermCountsUpTo(tokens, n).Wf()
  {
    if n > 0 {
      TermCountsWf(tokens, n - 1);
      var prev := TermCountsUpTo(tokens, n - 1);
      SetKeepsWf(prev, tokens[n - 1], prev.GetOr0(tokens[n - 1]) + 1);
    }
  }

  /** Each key counts its occurrences among the tokens, the keys are the tokens, and the counts add up to the token count. */
  ghost predicate CountsTokens(tf: OrderedMap, tokens: seq<string>) {
    && tf.Wf()
    && (forall t :: t in tf.values <==> t in tokens)
    && (forall t :: t in tf.values ==> tf.values[t] == Count(tokens, t))
    && SumOver(tf.keys, tf.values) == |tokens|
  }

  /** The keys after `n` tokens are those tokens. */
  lemma {:induction false} TermCountsKeys(tokens: seq<string>, n: nat)
    requires n <= |tokens|
    ensures forall t :: t in TermCountsUpTo(tokens, n).values <==> t in tokens[..n]
  {
    if n > 0 {
      TermCountsKeys(tokens, n - 1);
      assert tokens[..n] == tokens[..n - 1] + [tokens[n - 1]];
    }
  }

  /** After `n` tokens every token's count is its number of occurrences among them, and every other text counts 0. */
  lemma {:induction false} TermCountsCounts(tokens: seq<string>, n: nat)
    requires n <= |tokens|
    ensures forall t :: TermCountsUpTo(tokens, n).GetOr0(t) == Count(tokens[..n], t)
  {
    if n > 0 {
      var init, t := tokens[..n - 1], tokens[n - 1];
      TermCountsCounts(tokens, n - 1);
      assert tokens[..n] == init + [t];
      forall u ensures TermCountsUpTo(tokens, n).GetOr0(u) == Count(tokens[..n], u) {
        CountAppend(init, u, t);
      }
    }
  }

  /** After `n` tokens the counts add up to `n`. */
  lemma {:induction false} TermCountsSum(tokens: seq<string>, n: nat)
    requires n <= |tokens|
    ensures var tf := TermCountsUpTo(tokens, n); tf.Wf() && SumOver(tf.keys, tf.values) == n
  {
    TermCountsWf(tokens, n);
    if n > 0 {
      var t := tokens[n - 1];
      var prev := TermCountsUpTo(tokens, n - 1);
      var v := prev.GetOr0(t) + 1;
      TermCountsSum(tokens, n - 1);
      assert TermCountsUpTo(tokens, n) == prev.Set(t, v);
      if t in prev.values {
        SumOverUpdate(prev.keys, prev.values, t, v);
      } else {
        SumOverFresh(prev.keys, prev.values, t, v);
        SumOverSnoc(prev.keys, prev.values[t := v], t);
      }
    }
  }

  /** Each key counts its occurrences among the tokens, the keys are the tokens, and the counts add up to the token count. */
  lemma TermCountsSpec(tokens: seq<string>)
    ensures CountsTokens(TermCountsOf(tokens), tokens)
  {
    var tf := TermCountsOf(tokens);
    assert tokens[..|tokens|] == tokens;
    TermCountsWf(tokens, |tokens|);
    TermCountsKeys(tokens, |tokens|);
    TermCountsCounts(tokens, |tokens|);
    TermCountsSum(tokens, |tokens|);
    assert forall t :: t in tf.values ==> tf.values[t] == tf.GetOr0(t);
  }

  /** `termFrequencies`: the count of every distinct token. */
  method TermFrequencies(tokens: seq<string>) returns (tf: OrderedMap)
    ensures tf == TermCountsOf(tokens) && CountsTokens(tf, tokens)
  {
    tf := EmptyMap;
    for i := 0 to |tokens|
      invariant tf == TermCountsUpTo(tokens, i)
    {
      var t := tokens[i];
      tf := tf.Set(t, tf.GetOr0(t) + 1);
    }
    TermCountsSpec(tokens);
  }

  // ---------------------------------------------------------------------------
  // Chunking
  // ---------------------------------------------------------------------------

  /** `replace(/\r\n/g, '\n')`. */
  function ReplaceCrlf(s: string): string
    decreases |s|
  {
    if s == [] then []
    else if |s| >= 2 && s[0] == '\r' && s[1] == '\n' then "\n" + ReplaceCrlf(s[2..])
    else [s[0]] + ReplaceCrlf(s[1..])
  }

  predicate IsNewline(c: char) { c == '\n' }

  /** `replace(/\n{3,}/g, '\n\n')`: every run of three or more newlines becomes two. */
  function CollapseNewlines(s: string): string
    decreases |s|
  {
    if s == [] then []
    else if s[0] != '\n' then [s[0]] + CollapseNewlines(s[1..])
    else
      var e := SkipForward(s, IsNewline, 1);
      (if e >= 3 then "\n\n" else s[..e]) + CollapseNewlines(s[e..])
  }

  /** The cleaning of `chunkText`. */
  function CleanJs(text: string): string {
    JsTrim(CollapseNewlines(ReplaceCrlf(text)))
  }

  /** `${source}::${chunkIndex}`. */
  function ChunkId(source: string, index: nat): string {
    source + "::" + NatToString(index)
  }

  /** A blank-line break "\n\n" starts at position `j`. */
  predicate BreakAt(s: string, j: int) {
    0 <= j && j + 1 < |s| && s[j] == '\n' && s[j + 1] == '\n'
  }

  /** `lastIndexOf('\n\n')`: the last position where a blank-line break starts, or -1. */
  function LastBreak(s: string): (i: int)
    ensures -1 <= i && (i >= 0 ==> BreakAt(s, i))
    ensures forall j :: i < j ==> !BreakAt(s, j)
    decreases |s|
  {
    if |s| < 2 then -1
    else if s[|s| - 2] == '\n' && s[|s| - 1] == '\n' then |s| - 2
    else
      var i := LastBreak(s[..|s| - 1]);
      assert forall j :: BreakAt(s, j) && j + 2 < |s| ==> BreakAt(s[..|s| - 1], j);
      i
  }

  /** `lastBreak > Math.max(120, slice.length * 0.6)`, in exact arithmetic. */
  predicate LateBreak(lastBreak: int, length: nat) {
    lastBreak as real > 120.0 && lastBreak as real > (length as real) * 0.6
  }

  /** The window `[start, end)` after the paragraph cut: only a window that is not the last is cut, and only at a late break. */
  function CutWindow(clean: string, start: int, end: int): string {
    var slice := Slice(clean, start, end);
    if end < |clean| then
      var lastBreak := LastBreak(slice);
      if LateBreak(lastBreak, |slice|) then JsTrim(Slice(slice, 0, lastBreak))
      else slice
    else slice
  }

  /** The text of the window starting at `start`. */
  function WindowText(clean: string, size: int, start: nat): string {
    JsTrim(CutWindow(clean, start, Min(|clean|, start + size)))
  }

  /** The window texts of `clean`, as a function of the window's start. */
  function JsWindowText(clean: string, size: int): nat -> string {
    (start: nat) => WindowText(clean, size, start)
  }

  /** The loop of `chunkText` returns only when it advances, or when the first window already reaches the end. */
  predicate Terminates(clean: string, size: int, overlap: int) {
    clean == [] || overlap < size || |clean| <= size
  }

  /**
   * The chunks the loop of `chunkText` pushes from window `start`, numbered
   * from `index`, where `text` gives the text of the window at a start; the
   * lemmas about the loop hold for any `text`, and `chunkText` uses
   * `JsWindowText(clean, size)`.
   */
  function Windows(source: string, clean: string, size: int, overlap: int, text: nat -> string, start: nat, index: nat): seq<Chunk>
    requires Terminates(clean, size, overlap)
    decreases |clean| - start
  {
    if start >= |clean| then []
    else
      var end := Min(|clean|, start + size);
      var c := Chunk(ChunkId(source, index), source, text(start));
      if end >= |clean| then [c]
      else [c] + Windows(source, clean, size, overlap, text, Max(0, start + size - overlap), index + 1)
  }

  /** What `chunkText(source, text, chunkSize, overlap)` returns. */
  function JsChunks(source: string, text: string, size: int, overlap: int): seq<Chunk>
    requires Terminates(CleanJs(text), size, overlap)
  {
    var clean := CleanJs(text);
    if clean == [] then [] else Windows(source, clean, size, overlap, JsWindowText(clean, size), 0, 0)
  }

  /** `chunkText`; it returns only for the arguments `Terminates` admits. */
  method ChunkText(source: string, text: string, chunkSize: int, overlap: int) returns (chunks: seq<Chunk>)
    requires Terminates(CleanJs(text), chunkSize, overlap)
    ensures chunks == JsChunks(source, text, chunkSize, overlap)
  {
    var clean := CleanJs(text);
    if clean == [] {
      return [];
    }
    chunks := SlideJsWindows(source, clean, chunkSize, overlap);
  }

  /** The loop of `chunkText` over the cleaned text. */
  method SlideJsWindows(source: string, clean: string, chunkSize: int, overlap: int) returns (chunks: seq<Chunk>)
    requires Terminates(clean, chunkSize, overlap)
    ensures chunks == Windows(source, clean, chunkSize, overlap, JsWindowText(clean, chunkSize), 0, 0)
  {
    chunks := [];
    var start: nat := 0;
    var chunkIndex: nat := 0;
    ghost var windowText := JsWindowText(clean, chunkSize);
    ghost var all := Windows(source, clean, chunkSize, overlap, windowText, 0, 0);
    while start < |clean|
      invariant chunks + Windows(source, clean, chunkSize, overlap, windowText, start, chunkIndex) == all
      decreases |clean| - start
    {
      var end := Min(|clean|, start + chunkSize);
      var piece := WindowPiece(clean, chunkSize, start);
      WindowsUnfold(source, clean, chunkSize, overlap, windowText, start, chunkIndex);
      var chunk := Chunk(ChunkId(source, chunkIndex), source, piece);
      if end >= |clean| {
        chunks := chunks + [chunk];
        break;
      }
      var next := Max(0, start + chunkSize - overlap);
      AppendAssoc(chunks, [chunk], Windows(source, clean, chunkSize, overlap, windowText, next, chunkIndex + 1));
      chunks := chunks + [chunk];
      chunkIndex := chunkIndex + 1;
      start := next;
    }
  }

  /** The body of the loop of `chunkText`: the window at `start`, cut at a late paragraph break unless it is the last, trimmed. */
  method WindowPiece(clean: string, chunkSize: int, start: nat) returns (piece: string)
    ensures piece == JsWindowText(clean, chunkSize)(start)
  {
    var end := Min(|clean|, start + chunkSize);
    var slice := Slice(clean, start, end);
    if end < |clean| {
      var lastBreak := LastBreak(slice);
      if LateBreak(lastBreak, |slice|) {
        slice := JsTrim(Slice(slice, 0, lastBreak));
      }
    }
    piece := JsTrim(slice);
  }

  /** Text that cleans to nothing gives no chunk. */
  lemma EmptyCleanNoChunks(source: string, text: string, size: int, overlap: int)
    requires CleanJs(text) == []
    ensures JsChunks(source, text, size, overlap) == []
  {
  }

  /** With `overlap >= chunkSize` the next start is never after the current one, so a text longer than a window keeps the loop going. */
  lemma StalledStart(clean: string, size: int, overlap: int, start: nat)
    requires overlap >= size
    ensures Max(0, start + size - overlap) <= start
    ensures start == 0 && |clean| > size ==> Min(|clean|, start + size) < |clean|
  {
  }

  /** Trimming a piece of the text gives a piece of that piece. */
  lemma TrimmedPiece(clean: string, a: nat, b: nat)
    requires a <= b <= |clean|
    ensures exists c, d :: a <= c <= d <= b && JsTrim(clean[a..b]) == clean[c..d]
  {
    var p := clean[a..b];
    TrimSpec(p, IsJsSpace);
    var i, j :| 0 <= i <= j <= |p| && JsTrim(p) == p[i..j];
    assert |p| == b - a;
    forall k | 0 <= k < j - i ensures p[i..j][k] == clean[a + i..a + j][k] {
      assert p[i..j][k] == p[i + k] == clean[a + i + k];
    }
    assert p[i..j] == clean[a + i..a + j];
    assert a <= a + i <= a + j <= b && JsTrim(clean[a..b]) == clean[a + i..a + j];
  }

  /** The text of a window is a piece of the window. */
  lemma CutWithin(clean: string, start: nat, end: int)
    requires start <= end <= |clean|
    ensures exists a, b :: start <= a <= b <= end && JsTrim(CutWindow(clean, start, end)) == clean[a..b]
  {
    var slice := Slice(clean, start, end);
    assert slice == clean[start..end];
    var w := CutWindow(clean, start, end);
    if w == slice {
      TrimmedPiece(clean, start, end);
    } else {
      var lb := LastBreak(slice);
      assert Slice(slice, 0, lb) == clean[start..start + lb];
      TrimmedPiece(clean, start, start + lb);
      var c, d :| start <= c <= d <= start + lb && w == clean[c..d];
      TrimmedPiece(clean, c, d);
    }
  }

  /**
   * The text of the window at `start`: a window that is not the last and has a
   * blank-line break past both 120 and 60% of its length is cut before the last
   * such break and trimmed; any other window is only trimmed.
   */
  lemma WindowCut(clean: string, size: int, start: nat)
    ensures var end := Min(|clean|, start + size);
      var slice := Slice(clean, start, end);
      var lb := LastBreak(slice);
      && (end < |clean| && LateBreak(lb, |slice|) ==>
          && 120 < lb < |slice|
          && BreakAt(slice, lb) && (forall j :: lb < j ==> !BreakAt(slice, j))
          && WindowText(clean, size, start) == JsTrim(slice[..lb]))
      && (!(end < |clean| && LateBreak(lb, |slice|)) ==> WindowText(clean, size, start) == JsTrim(slice))
  {
    var end := Min(|clean|, start + size);
    var slice := Slice(clean, start, end);
    var lb := LastBreak(slice);
    if end < |clean| && LateBreak(lb, |slice|) {
      assert Slice(slice, 0, lb) == slice[..lb];
      TrimTwice(slice[..lb], IsJsSpace);
    }
  }

  /** The first window's chunk, then the chunks of the windows after it. */
  lemma WindowsUnfold(source: string, clean: string, size: int, overlap: int, text: nat -> string, start: nat, index: nat)
    requires Terminates(clean, size, overlap) && start < |clean|
    ensures var cs := Windows(source, clean, size, overlap, text, start, index);
      var c := Chunk(ChunkId(source, index), source, text(start));
      && (Min(|clean|, start + size) >= |clean| ==> cs == [c])
      && (Min(|clean|, start + size) < |clean| ==> cs == [c] + Windows(source, clean, size, overlap, text, Max(0, start + size - overlap), index + 1))
  {
  }

  /** The chunks of the windows from `start` are numbered from `index` and carry `source`. */
  lemma {:induction false} WindowsIds(source: string, clean: string, size: int, overlap: int, text: nat -> string, start: nat, index: nat)
    requires Terminates(clean, size, overlap)
    ensures var cs := Windows(source, clean, size, overlap, text, start, index);
      forall k :: 0 <= k < |cs| ==> cs[k].id == ChunkId(source, index + k) && cs[k].source == source
    decreases |clean| - start
  {
    if start < |clean| && Min(|clean|, start + size) < |clean| {
      var next := Max(0, start + size - overlap);
      WindowsIds(source, clean, size, overlap, text, next, index + 1);
      WindowsUnfold(source, clean, size, overlap, text, start, index);
      var cs := Windows(source, clean, size, overlap, text, start, index);
      var rest := Windows(source, clean, size, overlap, text, next, index + 1);
      forall k | 1 <= k < |cs| ensures cs[k].id == ChunkId(source, index + k) && cs[k].source == source {
        assert cs[k] == rest[k - 1];
        assert (index + 1) + (k - 1) == index + k;
      }
    }
  }

  /** With a positive size every chunk text is a piece of the cleaned text at most `size` long. */
  lemma {:induction false} WindowsTexts(source: string, clean: string, size: int, overlap: int, start: nat, index: nat)
    requires Terminates(clean, size, overlap) && 0 < size
    ensures var cs := Windows(source, clean, size, overlap, JsWindowText(clean, size), start, index);
      forall k :: 0 <= k < |cs| ==> |cs[k].text| <= size && exists a, b :: 0 <= a <= b <= |clean| && cs[k].text == clean[a..b]
    decreases |clean| - start
  {
    if start < |clean| {
      var end := Min(|clean|, start + size);
      var text := JsWindowText(clean, size);
      var cs := Windows(source, clean, size, overlap, text, start, index);
      WindowsUnfold(source, clean, size, overlap, text, start, index);
      CutWithin(clean, start, end);
      assert cs[0].text == JsTrim(CutWindow(clean, start, end));
      if end < |clean| {
        var next := Max(0, start + size - overlap);
        WindowsTexts(source, clean, size, overlap, next, index + 1);
        var rest := Windows(source, clean, size, overlap, text, next, index + 1);
        assert forall k :: 1 <= k < |cs| ==> cs[k] == rest[k - 1];
      }
    }
  }

  /** The chunks of a whole text are numbered from 0, carry `source`, and have distinct ids. */
  lemma WindowsNumbered(source: string, clean: string, size: int, overlap: int, text: nat -> string)
    requires Terminates(clean, size, overlap)
    ensures var cs := Windows(source, clean, size, overlap, text, 0, 0);
      && (forall k :: 0 <= k < |cs| ==> cs[k].id == ChunkId(source, k) && cs[k].source == source)
      && (forall j, k :: 0 <= j < k < |cs| ==> cs[j].id != cs[k].id)
  {
    var cs := Windows(source, clean, size, overlap, text, 0, 0);
    WindowsIds(source, clean, size, overlap, text, 0, 0);
    forall j, k | 0 <= j < k < |cs| ensures cs[j].id != cs[k].id {
      if cs[j].id == cs[k].id {
        assert ChunkId(source, j) == ChunkId(source, k);
        ChunkIdInjective(source, j, k);
      }
    }
  }

  /** `chunkText` numbers its chunks `source::0`, `source::1`, ... with distinct ids, tags them with `source`, and keeps each text within `size`. */
  lemma ChunkTextSpec(source: string, text: string, size: int, overlap: int)
    requires Terminates(CleanJs(text), size, overlap)
    ensures var cs := JsChunks(source, text, size, overlap);
      && (forall k :: 0 <= k < |cs| ==> cs[k].id == ChunkId(source, k) && cs[k].source == source)
      && (forall j, k :: 0 <= j < k < |cs| ==> cs[j].id != cs[k].id)
      && (0 < size ==> forall k :: 0 <= k < |cs| ==> |cs[k].text| <= size)
  {
    var clean := CleanJs(text);
    if clean != [] {
      var windowText := JsWindowText(clean, size);
      assert JsChunks(source, text, size, overlap) == Windows(source, clean, size, overlap, windowText, 0, 0);
      WindowsNumbered(source, clean, size, overlap, windowText);
      if 0 < size {
        WindowsTexts(source, clean, size, overlap, 0, 0);
      }
    }
  }

  /** Distinct positions give distinct ids. */
  lemma ChunkIdInjective(source: string, j: nat, k: nat)
    requires ChunkId(source, j) == ChunkId(source, k)
    ensures j == k
  {
    var n := |source| + 2;
    assert ChunkId(source, j)[n..] == NatToString(j);
    assert ChunkId(source, k)[n..] == NatToString(k);
    NatToStringInjective(j, k);
  }

  // ---------------------------------------------------------------------------
  // The index
  // ---------------------------------------------------------------------------

  /**
   * The index over `chunks`: the term counts of each chunk (from which the
   * source computes its weight vectors) and the document frequencies.
   */
  datatype TfidfIndex = TfidfIndex(chunks: seq<Chunk>, termFreqs: seq<OrderedMap>, docFreq: OrderedMap)

  /** Whether the tokens of a chunk include `t`, as a predicate on chunks. */
  function Mentions(isWord: char -> bool, t: string): Chunk -> bool {
    (c: Chunk) => t in Tokenize(c.text, isWord)
  }

  /** The number of chunks among `chunks` that satisfy `holds`; the document frequency of `t` with `holds := Mentions(isWord, t)`. */
  function DocCount(chunks: seq<Chunk>, holds: Chunk -> bool): nat
    decreases |chunks|
  {
    if chunks == [] then 0
    else
      var n := |chunks| - 1;
      DocCount(chunks[..n], holds) + (if holds(chunks[n]) then 1 else 0)
  }

  /** A count never exceeds the chunk count, and it is positive exactly when some chunk satisfies the predicate. */
  lemma {:induction false} DocCountBounded(chunks: seq<Chunk>, holds: Chunk -> bool)
    ensures DocCount(chunks, holds) <= |chunks|
    ensures DocCount(chunks, holds) > 0 <==> exists i :: 0 <= i < |chunks| && holds(chunks[i])
    decreases |chunks|
  {
    if chunks != [] {
      var n := |chunks| - 1;
      var init := chunks[..n];
      DocCountBounded(init, holds);
      if DocCount(chunks, holds) > 0 && !holds(chunks[n]) {
        var i :| 0 <= i < n && holds(init[i]);
        assert init[i] == chunks[i];
      }
      if exists i :: 0 <= i < |chunks| && holds(chunks[i]) {
        var i :| 0 <= i < |chunks| && holds(chunks[i]);
        if i < n {
          assert init[i] == chunks[i];
        }
      }
    }
  }

  /** One more chunk adds one to the count exactly when it satisfies the predicate. */
  lemma DocCountStep(chunks: seq<Chunk>, i: nat, holds: Chunk -> bool)
    requires i < |chunks|
    ensures DocCount(chunks[..i + 1], holds) == DocCount(chunks[..i], holds) + (if holds(chunks[i]) then 1 else 0)
  {
    assert chunks[..i + 1][..i] == chunks[..i];
  }

  /** The document frequencies agree with `DocCount` on `chunks`. */
  ghost predicate DocFreqOf(docFreq: OrderedMap, chunks: seq<Chunk>, isWord: char -> bool) {
    && docFreq.Wf()
    && forall t :: (t in docFreq.values <==> DocCount(chunks, Mentions(isWord, t)) > 0)
                && (t in docFreq.values ==> docFreq.values[t] == DocCount(chunks, Mentions(isWord, t)))
  }

  /** The term counts of a chunk's tokens, as a function of the chunk. */
  function ChunkTerms(isWord: char -> bool): Chunk -> OrderedMap {
    (c: Chunk) => TermCountsOf(Tokenize(c.text, isWord))
  }

  /** What `buildTfidfIndex` guarantees of the index it returns for `chunks`. */
  ghost predicate IndexOver(index: TfidfIndex, chunks: seq<Chunk>, isWord: char -> bool) {
    && index.chunks == chunks
    && |index.termFreqs| == |chunks|
    && (forall i :: 0 <= i < |chunks| ==> index.termFreqs[i] == ChunkTerms(isWord)(chunks[i]))
    && DocFreqOf(index.docFreq, chunks, isWord)
  }

  /** The inner loop of `buildTfidfIndex`: `df.set(term, (df.get(term) ?? 0) + 1)` for each of `terms`. */
  method IncrementAll(df: OrderedMap, terms: seq<string>) returns (df': OrderedMap)
    requires df.Wf() && Distinct(terms)
    ensures df'.Wf()
    ensures forall t :: t in terms ==> t in df'.values && df'.values[t] == df.GetOr0(t) + 1
    ensures forall t :: t !in terms ==> (t in df'.values <==> t in df.values) && (t in df.values ==> df'.values[t] == df.values[t])
  {
    df' := df;
    for j := 0 to |terms|
      invariant df'.Wf()
      invariant forall t :: t in terms[..j] ==> t in df'.values && df'.values[t] == df.GetOr0(t) + 1
      invariant forall t :: t !in terms[..j] ==> (t in df'.values <==> t in df.values) && (t in df.values ==> df'.values[t] == df.values[t])
    {
      var term := terms[j];
      assert term !in terms[..j];
      assert terms[..j + 1] == terms[..j] + [term];
      SetKeepsWf(df', term, df'.GetOr0(term) + 1);
      df' := df'.Set(term, df'.GetOr0(term) + 1);
    }
    assert terms[..|terms|] == terms;
  }

  /** One more document for each key of its term counts. */
  method CountDocument(docFreq: OrderedMap, chunks: seq<Chunk>, i: nat, tf: OrderedMap, isWord: char -> bool)
    returns (df: OrderedMap)
    requires i < |chunks| && DocFreqOf(docFreq, chunks[..i], isWord)
    requires tf.Wf() && forall t :: t in tf.values <==> Mentions(isWord, t)(chunks[i])
    ensures DocFreqOf(df, chunks[..i + 1], isWord)
  {
    df := IncrementAll(docFreq, tf.keys);
    forall t ensures DocCount(chunks[..i + 1], Mentions(isWord, t)) == DocCount(chunks[..i], Mentions(isWord, t)) + (if t in tf.keys then 1 else 0) {
      DocCountStep(chunks, i, Mentions(isWord, t));
    }
  }

  /** The term counts of one chunk, as the first statements of the loop of `buildTfidfIndex` compute them. */
  method CountTerms(c: Chunk, isWord: char -> bool) returns (tf: OrderedMap)
    ensures tf == ChunkTerms(isWord)(c)
    ensures tf.Wf() && forall t :: t in tf.values <==> Mentions(isWord, t)(c)
  {
    var tokens := Tokenize(c.text, isWord);
    tf := TermFrequencies(tokens);
  }

  /** What the loop of `buildTfidfIndex` has built after the first `i` chunks. */
  ghost predicate BuiltUpTo(docTfs: seq<OrderedMap>, docFreq: OrderedMap, chunks: seq<Chunk>, i: nat, isWord: char -> bool)
    requires i <= |chunks|
  {
    && |docTfs| == i
    && (forall k :: 0 <= k < i ==> docTfs[k] == ChunkTerms(isWord)(chunks[k]))
    && DocFreqOf(docFreq, chunks[..i], isWord)
  }

  /** One round of the loop of `buildTfidfIndex`: the term counts of chunk `i`, and its terms counted once more. */
  method IndexChunk(docTfs: seq<OrderedMap>, docFreq: OrderedMap, chunks: seq<Chunk>, i: nat, isWord: char -> bool)
    returns (docTfs': seq<OrderedMap>, docFreq': OrderedMap)
    requires i < |chunks| && BuiltUpTo(docTfs, docFreq, chunks, i, isWord)
    ensures BuiltUpTo(docTfs', docFreq', chunks, i + 1, isWord)
  {
    var tf := CountTerms(chunks[i], isWord);
    docTfs' := docTfs + [tf];
    docFreq' := CountDocument(docFreq, chunks, i, tf, isWord);
    BuiltStep(docTfs, docFreq, chunks, i, isWord, tf, docFreq');
  }

  /** The term counts of chunk `i` and the frequencies over the first `i + 1` chunks extend what was built for the first `i`. */
  lemma BuiltStep(docTfs: seq<OrderedMap>, docFreq: OrderedMap, chunks: seq<Chunk>, i: nat, isWord: char -> bool,
                  tf: OrderedMap, docFreq': OrderedMap)
    requires i < |chunks| && BuiltUpTo(docTfs, docFreq, chunks, i, isWord)
    requires tf == ChunkTerms(isWord)(chunks[i]) && DocFreqOf(docFreq', chunks[..i + 1], isWord)
    ensures BuiltUpTo(docTfs + [tf], docFreq', chunks, i + 1, isWord)
  {
    var next := docTfs + [tf];
    assert forall k :: 0 <= k < i ==> next[k] == docTfs[k];
  }

  /** `buildTfidfIndex`, up to the float weights: the per-chunk term counts and the document frequencies. */
  method BuildTfidfIndex(chunks: seq<Chunk>, isWord: char -> bool) returns (index: TfidfIndex)
    ensures IndexOver(index, chunks, isWord)
    ensures forall t :: t in index.docFreq.values ==> 1 <= index.docFreq.values[t] <= |chunks|
  {
    var docFreq := EmptyMap;
    var docTfs: seq<OrderedMap> := [];
    for i := 0 to |chunks|
      invariant BuiltUpTo(docTfs, docFreq, chunks, i, isWord)
    {
      docTfs, docFreq := IndexChunk(docTfs, docFreq, chunks, i, isWord);
    }
    assert chunks[..|chunks|] == chunks;
    index := TfidfIndex(chunks, docTfs, docFreq);
    DocFreqBounded(docFreq, chunks, isWord);
  }

  /** Every document frequency lies between 1 and the number of chunks. */
  lemma DocFreqBounded(docFreq: OrderedMap, chunks: seq<Chunk>, isWord: char -> bool)
    requires DocFreqOf(docFreq, chunks, isWord)
    ensures forall t :: t in docFreq.values ==> 1 <= docFreq.values[t] <= |chunks|
  {
    forall t | t in docFreq.values ensures 1 <= docFreq.values[t] <= |chunks| {
      DocCountBounded(chunks, Mentions(isWord, t));
    }
  }

  // ---------------------------------------------------------------------------
  // Querying
  // ---------------------------------------------------------------------------

  /**
   * The hits the loop of `queryIndex` pushes: the chunks whose score `sim(qTf, i)`
   * is positive, in chunk order.
   */
  function Positives(chunks: seq<Chunk>, sim: (OrderedMap, nat) -> real, qTf: OrderedMap): seq<SearchHit>
    decreases |chunks|
  {
    if chunks == [] then []
    else
      var n := |chunks| - 1;
      Positives(chunks[..n], sim, qTf) + (if sim(qTf, n) > 0.0 then [SearchHit(chunks[n], sim(qTf, n))] else [])
  }

  /** A hit is kept exactly when it is some chunk with its positive score. */
  lemma {:induction false} PositivesSpec(chunks: seq<Chunk>, sim: (OrderedMap, nat) -> real, qTf: OrderedMap)
    ensures forall h :: h in Positives(chunks, sim, qTf) <==>
      exists i :: 0 <= i < |chunks| && sim(qTf, i) > 0.0 && h == SearchHit(chunks[i], sim(qTf, i))
    decreases |chunks|
  {
    if chunks != [] {
      var n := |chunks| - 1;
      PositivesSpec(chunks[..n], sim, qTf);
      forall h ensures h in Positives(chunks, sim, qTf) <==>
        exists i :: 0 <= i < |chunks| && sim(qTf, i) > 0.0 && h == SearchHit(chunks[i], sim(qTf, i))
      {
        if exists i :: 0 <= i < |chunks| && sim(qTf, i) > 0.0 && h == SearchHit(chunks[i], sim(qTf, i)) {
          var i :| 0 <= i < |chunks| && sim(qTf, i) > 0.0 && h == SearchHit(chunks[i], sim(qTf, i));
          if i < n {
            assert chunks[..n][i] == chunks[i];
          }
        }
        if h in Positives(chunks[..n], sim, qTf) {
          var i :| 0 <= i < n && sim(qTf, i) > 0.0 && h == SearchHit(chunks[..n][i], sim(qTf, i));
          assert chunks[..n][i] == chunks[i];
        }
      }
    }
  }

  predicate NonIncreasing(hits: seq<SearchHit>) {
    forall i, j :: 0 <= i < j < |hits| ==> hits[i].score >= hits[j].score
  }

  /** Inserting before the first hit with a lower score keeps earlier equal hits first. */
  function Insert(h: SearchHit, sorted: seq<SearchHit>): seq<SearchHit>
    decreases |sorted|
  {
    if sorted == [] || h.score >= sorted[0].score then [h] + sorted
    else [sorted[0]] + Insert(h, sorted[1..])
  }

  /** `hits.sort((a, b) => b.score - a.score)`: a stable sort by descending score. */
  function SortByScore(hits: seq<SearchHit>): seq<SearchHit>
    decreases |hits|
  {
    if hits == [] then [] else Insert(hits[0], SortByScore(hits[1..]))
  }

  /** Inserting adds `h` and nothing else. */
  lemma {:induction false} InsertPerm(h: SearchHit, sorted: seq<SearchHit>)
    ensures multiset(Insert(h, sorted)) == multiset(sorted) + multiset{h}
    decreases |sorted|
  {
    if sorted != [] && h.score < sorted[0].score {
      InsertPerm(h, sorted[1..]);
      assert sorted == [sorted[0]] + sorted[1..];
    }
  }

  /** A hit scoring at least as high as every hit of a sorted list can go in front of it. */
  lemma ConsSorted(x: SearchHit, rest: seq<SearchHit>)
    requires NonIncreasing(rest) && forall y :: y in rest ==> y.score <= x.score
    ensures NonIncreasing([x] + rest)
  {
    var r := [x] + rest;
    forall i, j | 0 <= i < j < |r| ensures r[i].score >= r[j].score {
      assert r[j] == rest[j - 1];
      if i > 0 {
        assert r[i] == rest[i - 1];
      } else {
        assert rest[j - 1] in rest;
      }
    }
  }

  /** A bound on the scores of `h` and of a list bounds the scores after inserting. */
  lemma {:induction false} InsertBelow(h: SearchHit, sorted: seq<SearchHit>, bound: real)
    requires h.score <= bound && forall y :: y in sorted ==> y.score <= bound
    ensures forall y :: y in Insert(h, sorted) ==> y.score <= bound
    decreases |sorted|
  {
    if sorted != [] && h.score < sorted[0].score {
      assert forall y :: y in sorted[1..] ==> y in sorted;
      InsertBelow(h, sorted[1..], bound);
    }
  }

  /** Inserting into a list sorted by descending score keeps it sorted. */
  lemma {:induction false} InsertSorted(h: SearchHit, sorted: seq<SearchHit>)
    requires NonIncreasing(sorted)
    ensures NonIncreasing(Insert(h, sorted))
    decreases |sorted|
  {
    if sorted == [] || h.score >= sorted[0].score {
      forall y | y in sorted ensures y.score <= h.score {
        var k :| 0 <= k < |sorted| && sorted[k] == y;
        assert sorted[0].score >= sorted[k].score;
      }
      ConsSorted(h, sorted);
    } else {
      var tail := sorted[1..];
      assert NonIncreasing(tail) by {
        forall i, j | 0 <= i < j < |tail| ensures tail[i].score >= tail[j].score {
          assert tail[i] == sorted[i + 1] && tail[j] == sorted[j + 1];
        }
      }
      InsertSorted(h, tail);
      forall y | y in tail ensures y.score <= sorted[0].score {
        var k :| 0 <= k < |tail| && tail[k] == y;
        assert sorted[k + 1] == y;
      }
      InsertBelow(h, tail, sorted[0].score);
      ConsSorted(sorted[0], Insert(h, tail));
    }
  }

  /** Insertion keeps the order by descending score and adds exactly `h`. */
  lemma InsertSpec(h: SearchHit, sorted: seq<SearchHit>)
    requires NonIncreasing(sorted)
    ensures NonIncreasing(Insert(h, sorted))
    ensures multiset(Insert(h, sorted)) == multiset(sorted) + multiset{h}
  {
    InsertSorted(h, sorted);
    InsertPerm(h, sorted);
  }

  /** The sort orders by descending score. */
  lemma {:induction false} SortByScoreSorted(hits: seq<SearchHit>)
    ensures NonIncreasing(SortByScore(hits))
    decreases |hits|
  {
    if hits != [] {
      SortByScoreSorted(hits[1..]);
      InsertSorted(hits[0], SortByScore(hits[1..]));
    }
  }

  /** The sort loses or adds nothing. */
  lemma {:induction false} SortByScorePerm(hits: seq<SearchHit>)
    ensures multiset(SortByScore(hits)) == multiset(hits)
    decreases |hits|
  {
    if hits != [] {
      var rest := hits[1..];
      SortByScorePerm(rest);
      InsertPerm(hits[0], SortByScore(rest));
      assert hits == [hits[0]] + rest;
      assert multiset(hits) == multiset(rest) + multiset{hits[0]};
    }
  }

  /** The sort orders by descending score and loses or adds nothing. */
  lemma SortByScoreSpec(hits: seq<SearchHit>)
    ensures NonIncreasing(SortByScore(hits))
    ensures multiset(SortByScore(hits)) == multiset(hits)
  {
    SortByScoreSorted(hits);
    SortByScorePerm(hits);
  }

  /** The hits scoring exactly `x`, in their order. */
  function WithScore(hits: seq<SearchHit>, x: real): seq<SearchHit>
    decreases |hits|
  {
    if hits == [] then []
    else (if hits[0].score == x then [hits[0]] else []) + WithScore(hits[1..], x)
  }

  /** Filtering a list that starts with `y`. */
  lemma WithScoreCons(y: SearchHit, rest: seq<SearchHit>, x: real)
    ensures WithScore([y] + rest, x) == (if y.score == x then [y] else []) + WithScore(rest, x)
  {
    assert ([y] + rest)[1..] == rest;
  }

  /** An inserted hit goes before every hit of equal score and leaves their order alone. */
  lemma {:induction false} InsertWithScore(h: SearchHit, sorted: seq<SearchHit>, x: real)
    ensures WithScore(Insert(h, sorted), x) == (if h.score == x then [h] else []) + WithScore(sorted, x)
    decreases |sorted|
  {
    if sorted == [] || h.score >= sorted[0].score {
      WithScoreCons(h, sorted, x);
    } else {
      var y, tail := sorted[0], sorted[1..];
      InsertWithScore(h, tail, x);
      WithScoreCons(y, Insert(h, tail), x);
      WithScoreCons(y, tail, x);
      assert sorted == [y] + tail;
      var first := if y.score == x then [y] else [];
      var hx := if h.score == x then [h] else [];
      assert hx == [] || first == [];
      assert first + (hx + WithScore(tail, x)) == hx + (first + WithScore(tail, x));
    }
  }

  /**
   * The sort is stable: for every score, the hits with that score come out in
   * the order they went in.
   */
  lemma {:induction false} SortByScoreStable(hits: seq<SearchHit>, x: real)
    ensures WithScore(SortByScore(hits), x) == WithScore(hits, x)
    decreases |hits|
  {
    if hits != [] {
      SortByScoreStable(hits[1..], x);
      InsertWithScore(hits[0], SortByScore(hits[1..]), x);
    }
  }

  /** The positive hits, best first. */
  function Ranked(chunks: seq<Chunk>, sim: (OrderedMap, nat) -> real, qTf: OrderedMap): seq<SearchHit> {
    SortByScore(Positives(chunks, sim, qTf))
  }

  /**
   * The first `n` ranked hits (`slice(0, n)`) are at most `n` positive hits of
   * chunks taken from the index, best first, and no hit left out
   * scores higher than one kept.
   */
  lemma TopHits(chunks: seq<Chunk>, sim: (OrderedMap, nat) -> real, qTf: OrderedMap, n: nat)
    ensures var ranked := Ranked(chunks, sim, qTf);
      var top := ranked[..Min(|ranked|, n)];
      && |top| == Min(|Positives(chunks, sim, qTf)|, n)
      && NonIncreasing(top)
      && (forall h :: h in top ==> h.score > 0.0 && exists i :: 0 <= i < |chunks| && h == SearchHit(chunks[i], sim(qTf, i)))
      && (forall i, j :: 0 <= i < |top| <= j < |ranked| ==> ranked[j].score <= top[i].score)
      && multiset(ranked) == multiset(Positives(chunks, sim, qTf))
  {
    var ranked := Ranked(chunks, sim, qTf);
    RankedMembers(chunks, sim, qTf);
    SortedPrefix(ranked, Min(|ranked|, n));
    var top := ranked[..Min(|ranked|, n)];
    assert forall h :: h in top ==> h in ranked;
  }

  /** The ranked hits are the positive hits, reordered: each is some chunk with its positive score. */
  lemma RankedMembers(chunks: seq<Chunk>, sim: (OrderedMap, nat) -> real, qTf: OrderedMap)
    ensures var ranked := Ranked(chunks, sim, qTf);
      && NonIncreasing(ranked)
      && multiset(ranked) == multiset(Positives(chunks, sim, qTf))
      && |ranked| == |Positives(chunks, sim, qTf)|
      && (forall h :: h in ranked ==> h.score > 0.0 && exists i :: 0 <= i < |chunks| && h == SearchHit(chunks[i], sim(qTf, i)))
  {
    var hits := Positives(chunks, sim, qTf);
    var ranked := Ranked(chunks, sim, qTf);
    SortByScoreSpec(hits);
    PositivesSpec(chunks, sim, qTf);
    assert |ranked| == |multiset(ranked)| == |hits|;
    forall h | h in ranked
      ensures h.score > 0.0 && exists i :: 0 <= i < |chunks| && h == SearchHit(chunks[i], sim(qTf, i))
    {
      assert h in multiset(ranked);
      assert h in hits;
    }
  }

  /** A prefix of a list sorted by descending score is sorted, and nothing after it scores higher than anything in it. */
  lemma SortedPrefix(ranked: seq<SearchHit>, m: nat)
    requires NonIncreasing(ranked) && m <= |ranked|
    ensures NonIncreasing(ranked[..m])
    ensures forall i, j :: 0 <= i < m <= j < |ranked| ==> ranked[j].score <= ranked[..m][i].score
  {
    var top := ranked[..m];
    forall i, j | 0 <= i < j < |top| ensures top[i].score >= top[j].score {
      assert top[i] == ranked[i] && top[j] == ranked[j];
    }
    forall i, j | 0 <= i < m <= j < |ranked| ensures ranked[j].score <= top[i].score {
      assert top[i] == ranked[i];
    }
  }

  /**
   * `queryIndex`, with `sim(qTf, i)` standing for the cosine similarity of the
   * query's weighted vector (computed from its term counts `qTf`) with chunk `i`'s.
   */
  method QueryIndex(index: TfidfIndex, query: string, topK: int, isWord: char -> bool,
                    sim: (OrderedMap, nat) -> real)
    returns (result: seq<SearchHit>)
    ensures var ranked := Ranked(index.chunks, sim, TermCountsOf(Tokenize(query, isWord)));
      result == ranked[..Min(|ranked|, Max(1, topK))]
  {
    var qTokens := Tokenize(query, isWord);
    var qTf := TermFrequencies(qTokens);
    var hits: seq<SearchHit> := [];
    for i := 0 to |index.chunks|
      invariant hits == Positives(index.chunks[..i], sim, qTf)
    {
      assert index.chunks[..i + 1][..i] == index.chunks[..i];
      var s := sim(qTf, i);
      if s > 0.0 {
        hits := hits + [SearchHit(index.chunks[i], s)];
      }
    }
    assert index.chunks[..|index.chunks|] == index.chunks;
    var sorted := SortByScore(hits);
    result := sorted[..Min(|sorted|, Max(1, topK))];
  }
}
