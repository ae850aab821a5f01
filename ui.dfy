/**
 * The pure helpers of the browser page (web/src/ui.ts): HTML escaping of
 * user-visible text, the numbered source list shown under an answer, and the
 * prompt sent to the text-generation model.
 */
module Ui {
  import opened Strings
  import opened Tfidf

  // ---------------------------------------------------------------------------
  // escapeHtml
  // ---------------------------------------------------------------------------

  /** The five characters `escapeHtml` replaces. */
  predicate IsSpecial(c: char) {
    c == '&' || c == '<' || c == '>' || c == '"' || c == '\''
  }

  /** The characters that would open a tag or end an attribute value. */
  predicate IsMarkup(c: char) {
    c == '<' || c == '>' || c == '"' || c == '\''
  }

  function EscapeChar(c: char): string {
    match c
    case '&' => "&amp;"
    case '<' => "&lt;"
    case '>' => "&gt;"
    case '"' => "&quot;"
    case '\'' => "&#39;"
    case _ => [c]
  }

  /** `escapeHtml(s)`: every special character becomes its entity, every other stays. */
  function EscapeHtml(s: string): string
    decreases |s|
  {
    if s == [] then [] else EscapeChar(s[0]) + EscapeHtml(s[1..])
  }

  /** Decoding of the five entities `escapeHtml` writes; every other character stays. */
  function UnescapeHtml(s: string): string
    decreases |s|
  {
    if s == [] then []
    else if "&amp;" <= s then "&" + UnescapeHtml(s[5..])
    else if "&lt;" <= s then "<" + UnescapeHtml(s[4..])
    else if "&gt;" <= s then ">" + UnescapeHtml(s[4..])
    else if "&quot;" <= s then "\"" + UnescapeHtml(s[6..])
    else if "&#39;" <= s then "'" + UnescapeHtml(s[5..])
    else [s[0]] + UnescapeHtml(s[1..])
  }

  /** Decoding reads one escaped character back from the front of the text. */
  lemma UnescapeStep(c: char, rest: string)
    ensures UnescapeHtml(EscapeChar(c) + rest) == [c] + UnescapeHtml(rest)
  {
    var e := EscapeChar(c) + rest;
    assert e[|EscapeChar(c)|..] == rest;
    assert e[..|EscapeChar(c)|] == EscapeChar(c);
    if !IsSpecial(c) {
      assert e[0] == c;
      assert !("&amp;" <= e) && !("&lt;" <= e) && !("&gt;" <= e) && !("&quot;" <= e) && !("&#39;" <= e);
    } else if c == '&' {
      assert "&amp;" <= e;
    } else if c == '<' {
      assert e[1] == 'l' && !("&amp;" <= e) && "&lt;" <= e;
    } else if c == '>' {
      assert e[1] == 'g' && !("&amp;" <= e) && !("&lt;" <= e) && "&gt;" <= e;
    } else if c == '"' {
      assert e[1] == 'q' && !("&amp;" <= e) && !("&lt;" <= e) && !("&gt;" <= e) && "&quot;" <= e;
    } else {
      assert e[1] == '#' && !("&amp;" <= e) && !("&lt;" <= e) && !("&gt;" <= e) && !("&quot;" <= e) && "&#39;" <= e;
    }
  }

  /** Escaping loses nothing: decoding the escaped text gives the text back. */
  lemma {:induction false} EscapeRoundTrip(s: string)
    ensures UnescapeHtml(EscapeHtml(s)) == s
    decreases |s|
  {
    if s != [] {
      EscapeRoundTrip(s[1..]);
      UnescapeStep(s[0], EscapeHtml(s[1..]));
      assert s == [s[0]] + s[1..];
    }
  }

  /** Two texts escape to the same HTML only if they are equal. */
  lemma EscapeInjective(s: string, t: string)
    requires EscapeHtml(s) == EscapeHtml(t)
    ensures s == t
  {
    EscapeRoundTrip(s);
    EscapeRoundTrip(t);
  }

  /** Escaping works character by character: the escape of a concatenation is the concatenation of the escapes. */
  lemma {:induction false} EscapeConcat(a: string, b: string)
    ensures EscapeHtml(a + b) == EscapeHtml(a) + EscapeHtml(b)
    decreases |a|
  {
    if a != [] {
      assert (a + b)[0] == a[0];
      assert (a + b)[1..] == a[1..] + b;
      EscapeConcat(a[1..], b);
      var x, y, z := EscapeChar(a[0]), EscapeHtml(a[1..]), EscapeHtml(b);
      assert EscapeHtml(a + b) == x + (y + z);
      assert x + (y + z) == (x + y) + z;
    } else {
      assert a + b == b;
    }
  }

  /** Escaped text holds no character that could open a tag or close an attribute value. */
  lemma {:induction false} EscapeNoMarkup(s: string)
    ensures forall c :: c in EscapeHtml(s) ==> !IsMarkup(c)
    decreases |s|
  {
    if s != [] {
      EscapeNoMarkup(s[1..]);
      assert forall c :: c in EscapeChar(s[0]) ==> !IsMarkup(c);
    }
  }

  /** Text without any of the five special characters is left as it is. */
  lemma {:induction false} EscapePlain(s: string)
    requires forall c :: c in s ==> !IsSpecial(c)
    ensures EscapeHtml(s) == s
    decreases |s|
  {
    if s != [] {
      assert s[0] in s;
      assert forall c :: c in s[1..] ==> c in s;
      EscapePlain(s[1..]);
      assert s == [s[0]] + s[1..];
    }
  }

  // ---------------------------------------------------------------------------
  // formatSources
  // ---------------------------------------------------------------------------

  const SnippetLimit: nat := 240
  const Ellipsis: string := "\U{2026}"

  /** A chunk's text cut to 240 characters, with an ellipsis when it was longer. */
  function Snippet(text: string): (r: string)
    ensures |r| <= SnippetLimit + |Ellipsis|
    ensures |text| <= SnippetLimit ==> r == text
    ensures |text| > SnippetLimit ==> |r| == SnippetLimit + |Ellipsis| && r[..SnippetLimit] == text[..SnippetLimit] && r[SnippetLimit..] == Ellipsis
  {
    if |text| > SnippetLimit then Slice(text, 0, SnippetLimit) + Ellipsis else text
  }

  /** `[#k] source (score s)` and the snippet below it; `fmt` stands for `toFixed(3)`. */
  function Entry(i: nat, h: SearchHit, fmt: real -> string): string {
    "[#" + NatToString(i + 1) + "] " + h.chunk.source + " (score " + fmt(h.score) + ")\n" + Snippet(h.chunk.text)
  }

  function Entries(hits: seq<SearchHit>, fmt: real -> string): (r: seq<string>)
    ensures |r| == |hits| && forall k :: 0 <= k < |hits| ==> r[k] == Entry(k, hits[k], fmt)
  {
    seq(|hits|, k requires 0 <= k < |hits| => Entry(k, hits[k], fmt))
  }

  /** `formatSources(hits)`: the entries numbered from 1, separated by blank lines. */
  function FormatSources(hits: seq<SearchHit>, fmt: real -> string): string {
    Join(Entries(hits, fmt), "\n\n")
  }

  /** One more hit adds one more entry, numbered after the others, behind a blank line. */
  lemma FormatSourcesAppend(hits: seq<SearchHit>, h: SearchHit, fmt: real -> string)
    ensures FormatSources(hits + [h], fmt) ==
      if hits == [] then Entry(0, h, fmt) else FormatSources(hits, fmt) + "\n\n" + Entry(|hits|, h, fmt)
  {
    assert Entries(hits + [h], fmt) == Entries(hits, fmt) + [Entry(|hits|, h, fmt)];
    JoinAppend(Entries(hits, fmt), Entry(|hits|, h, fmt), "\n\n");
  }

  /** The list starts with the first hit's entry, which is labelled `[#1]`. */
  lemma FormatSourcesFirst(hits: seq<SearchHit>, fmt: real -> string)
    requires hits != []
    ensures Entry(0, hits[0], fmt) <= FormatSources(hits, fmt)
    ensures "[#1] " <= FormatSources(hits, fmt)
  {
    var es := Entries(hits, fmt);
    assert es[0] == Entry(0, hits[0], fmt);
    assert NatToString(1) == "1";
  }

  // ---------------------------------------------------------------------------
  // buildPrompt
  // ---------------------------------------------------------------------------

  const NoContext: string := "No relevant context found."
  const Guidance: string := "You are a helpful RAG assistant. Use the provided context when relevant."
  const UnknownRule: string := "If the answer is not in the context, say you do not know."
  const AnswerCue: string := "Answer (be concise, cite sources like [#1], [#2] when you use them):"

  /** The context block: the formatted sources, or a fixed notice when there are none. */
  function Context(hits: seq<SearchHit>, fmt: real -> string): string {
    if |hits| > 0 then FormatSources(hits, fmt) else NoContext
  }

  function PromptLines(system: string, question: string, context: string): seq<string> {
    ["System: " + system, "", Guidance, UnknownRule, "", "Context:", context, "", "User question: " + question, "", AnswerCue]
  }

  /** `buildPrompt`: the prompt's lines joined with newlines. */
  function BuildPrompt(system: string, question: string, hits: seq<SearchHit>, fmt: real -> string): string {
    Join(PromptLines(system, question, Context(hits, fmt)), "\n")
  }

  /** The notice stands in for the context exactly when there is no hit. */
  lemma ContextFallback(hits: seq<SearchHit>, fmt: real -> string)
    ensures Context(hits, fmt) == NoContext <==> hits == []
  {
    if hits != [] {
      FormatSourcesFirst(hits, fmt);
      assert Context(hits, fmt)[0] == '[';
    }
  }

  /** The lines before the context block. */
  function HeaderLines(system: string): seq<string> {
    ["System: " + system, "", Guidance, UnknownRule, "", "Context:"]
  }

  /** The lines after the context block. */
  function FooterLines(question: string): seq<string> {
    ["", "User question: " + question, "", AnswerCue]
  }

  /**
   * The context block sits in the prompt verbatim, on its own lines, between
   * the system line with the instructions and the question with the answer cue.
   */
  lemma PromptText(system: string, question: string, hits: seq<SearchHit>, fmt: real -> string)
    ensures BuildPrompt(system, question, hits, fmt) ==
      Join(HeaderLines(system), "\n") + "\n" + Context(hits, fmt) + "\n" + Join(FooterLines(question), "\n")
  {
    var context := Context(hits, fmt);
    var head, foot := HeaderLines(system), FooterLines(question);
    assert PromptLines(system, question, context) == head + ([context] + foot);
    JoinConcat(head, [context] + foot, "\n");
    JoinConcat([context], foot, "\n");
    assert Join([context], "\n") == context;
    var h, f := Join(head, "\n"), Join(foot, "\n");
    AppendAssoc(h + "\n", context + "\n", f);
    AppendAssoc(h + "\n", context, "\n");
  }

  /** Four lines joined with newlines. */
  lemma JoinFour(a: string, b: string, c: string, d: string)
    ensures Join([a, b, c, d], "\n") == a + "\n" + (b + "\n" + (c + "\n" + d))
  {
    var l0, l1, l2, l3 := [a, b, c, d], [b, c, d], [c, d], [d];
    assert l0[1..] == l1 && l1[1..] == l2 && l2[1..] == l3;
    assert Join(l2, "\n") == c + "\n" + d;
    assert Join(l1, "\n") == b + "\n" + Join(l2, "\n");
  }

  /** The question follows `User question: ` verbatim, at position `i`. */
  lemma PromptQuestion(system: string, question: string, hits: seq<SearchHit>, fmt: real -> string) returns (i: nat)
    ensures var p, q := BuildPrompt(system, question, hits, fmt), "User question: " + question;
      i + |q| <= |p| && p[i..i + |q|] == q
  {
    var p, q := BuildPrompt(system, question, hits, fmt), "User question: " + question;
    PromptText(system, question, hits, fmt);
    JoinFour("", q, "", AnswerCue);
    var head := Join(HeaderLines(system), "\n") + "\n" + Context(hits, fmt) + "\n";
    var foot := Join(FooterLines(question), "\n");
    assert p == head + foot;
    i := |head| + 1;
    forall k | 0 <= k < |q| ensures p[i + k] == q[k] {
      assert p[i + k] == foot[1 + k];
    }
    assert p[i..i + |q|] == q;
  }

  /** The prompt opens with the system line and closes with the answer cue. */
  lemma PromptEnds(system: string, question: string, hits: seq<SearchHit>, fmt: real -> string)
    ensures "System: " + system <= BuildPrompt(system, question, hits, fmt)
    ensures var p := BuildPrompt(system, question, hits, fmt);
      |p| >= |AnswerCue| && p[|p| - |AnswerCue|..] == AnswerCue
  {
    var lines := PromptLines(system, question, Context(hits, fmt));
    assert lines == lines[..10] + [AnswerCue];
    JoinAppend(lines[..10], AnswerCue, "\n");
  }
}
