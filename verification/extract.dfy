/** Context-window extraction (`line_contexts_iter` and `_join` in
    scripts/extract_contexts.py): for every analyzed token whose first lemma is a
    target word, the surrounding text of at most `window` tokens on each side. */
module Extract {
  import opened Wrappers
  import opened PyText

  /** One analysis of a token; only its dictionary form (`lex`) is used. */
  datatype Analysis = Analysis(lex: string)

  /** An analyzed token: the surface text exactly as it occurred (spaces and
      punctuation are tokens too) and the analyses, most likely first. A token the
      analyzer could not analyze, or whose `analysis` key is missing, has none. */
  datatype Token = Token(text: string, analysis: seq<Analysis>)

  /** The analyzer's output for one corpus line. */
  type Line = seq<Token>

  /** A context: the text before the match, the match itself, the text after it. */
  datatype Window = Window(before: string, matched: string, after: string)

  /** What the generator yields: the matched lemma and its context. */
  datatype Pair = Pair(word: string, window: Window)

  /** The lemma a token is matched on: the `lex` of its first analysis, if any. */
  function HeadLemma(t: Token): (r: Option<string>)
    ensures r.Some? <==> |t.analysis| > 0
    ensures r.Some? ==> r.value == t.analysis[0].lex
  {
    if |t.analysis| > 0 then Some(t.analysis[0].lex) else None
  }

  /** The token is analyzed and its first lemma is one of `words`. */
  predicate Matches(t: Token, words: set<string>) {
    HeadLemma(t).Some? && HeadLemma(t).value in words
  }

  /** The surface texts of the tokens, concatenated in order. */
  function Concat(tokens: seq<Token>): (r: string)
    ensures |tokens| == 0 ==> r == ""
  {
    if |tokens| == 0 then "" else tokens[0].text + Concat(tokens[1..])
  }

  /** Joining splits at token boundaries: the text of two runs of tokens is the text
      of the first followed by the text of the second. */
  lemma {:induction false} ConcatAppend(a: seq<Token>, b: seq<Token>)
    ensures Concat(a + b) == Concat(a) + Concat(b)
  {
    if |a| > 0 {
      assert (a + b)[1..] == a[1..] + b;
      ConcatAppend(a[1..], b);
    } else {
      assert a + b == b;
    }
  }

  /** `_join`: the surface texts concatenated, then stripped. */
  function Join(tokens: seq<Token>): (r: string)
    ensures Trimmed(r)
    ensures |tokens| == 0 ==> r == ""
  {
    Strip(Concat(tokens))
  }

  /** `_join` removes the whitespace at both ends of the concatenated text and nothing
      else: the result is the infix of the concatenation that starts right after its
      leading whitespace, and every character cut off on either side is whitespace. */
  lemma JoinKeepsInnerText(tokens: seq<Token>)
    ensures var c := Concat(tokens);
            var r := Join(tokens);
            && LeadingSpace(c) + |r| <= |c|
            && r == c[LeadingSpace(c)..LeadingSpace(c) + |r|]
            && (forall i :: 0 <= i < LeadingSpace(c) ==> IsSpace(c[i]))
            && (forall i :: LeadingSpace(c) + |r| <= i < |c| ==> IsSpace(c[i]))
  {
  }

  function Max0(n: int): nat {
    if n < 0 then 0 else n
  }

  /** The (up to) `window` tokens right before position `idx`, clipped at the start of the line; none for a window <= 0. */
  function BeforeTokens(chunk: Line, idx: nat, window: int): (r: seq<Token>)
    requires idx <= |chunk|
    ensures |r| == if window <= 0 then 0 else if idx < window then idx else window
    ensures r == chunk[idx - |r|..idx]
  {
    Slice(chunk, Max0(idx - window), idx)
  }

  /** The tokens right after position `idx`,
      clipped at the end of the line. For a window >= 0 these are at most `window`
      tokens; a negative window makes the upper bound count from the end of the
      line, as Python slicing does. */
  function AfterTokens(chunk: Line, idx: nat, window: int): (r: seq<Token>)
    requires idx < |chunk|
    ensures idx + 1 + |r| <= |chunk| && r == chunk[idx + 1..idx + 1 + |r|]
    ensures window >= 0 ==> |r| == if |chunk| - idx - 1 < window then |chunk| - idx - 1 else window
    ensures window < 0 && idx + window + 1 >= 0 ==> r == []
  {
    Slice(chunk, idx + 1, idx + window + 1)
  }

  /** The context of the token at `idx`: stripped text before and after, and the
      token's own text unstripped. */
  function WindowAt(chunk: Line, idx: nat, window: int): (r: Window)
    requires idx < |chunk|
    ensures r.matched == chunk[idx].text
    ensures Trimmed(r.before) && Trimmed(r.after)
    ensures idx == 0 ==> r.before == ""
    ensures idx == |chunk| - 1 ==> r.after == ""
  {
    Window(Join(BeforeTokens(chunk, idx, window)), chunk[idx].text, Join(AfterTokens(chunk, idx, window)))
  }

  /** The record kept for a context: its three fields separated by tab characters. */
  function Render(w: Window): string {
    w.before + "\t" + w.matched + "\t" + w.after
  }

  /** A record splits back into its three fields when none of them holds a tab. */
  lemma RenderRoundTrip(w: Window)
    requires '\t' !in w.before && '\t' !in w.matched && '\t' !in w.after
    ensures Split(Render(w), '\t') == [w.before, w.matched, w.after]
  {
    assert Render(w) == w.before + ['\t'] + (w.matched + ['\t'] + w.after);
    SplitAtSeparator(w.before, '\t', w.matched + ['\t'] + w.after);
    SplitAtSeparator(w.matched, '\t', w.after);
    SplitWithoutSeparator(w.after, '\t');
  }

  /** The pair yielded for the matching token at `idx`. */
  function PairAt(chunk: Line, idx: nat, window: int): (r: Pair)
    requires idx < |chunk| && |chunk[idx].analysis| > 0
    ensures r.word == chunk[idx].analysis[0].lex
    ensures r.window.matched == chunk[idx].text
  {
    Pair(chunk[idx].analysis[0].lex, WindowAt(chunk, idx, window))
  }

  /** Positions `start..` of the line whose token matches `words`, in increasing order. */
  function MatchIndices(chunk: Line, words: set<string>, start: nat): (r: seq<nat>)
    requires start <= |chunk|
    ensures forall k :: 0 <= k < |r| ==> start <= r[k] < |chunk| && Matches(chunk[r[k]], words)
    ensures forall k, l :: 0 <= k < l < |r| ==> r[k] < r[l]
    ensures forall i :: start <= i < |chunk| && Matches(chunk[i], words) ==> i in r
    decreases |chunk| - start
  {
    if start == |chunk| then []
    else if Matches(chunk[start], words) then [start] + MatchIndices(chunk, words, start + 1)
    else MatchIndices(chunk, words, start + 1)
  }

  /** The pairs the generator yields for one line from position `start` on, when the
      word set stays `words` throughout the line. */
  function LineContextsFrom(chunk: Line, words: set<string>, window: int, start: nat): (r: seq<Pair>)
    requires start <= |chunk|
    ensures forall k :: 0 <= k < |r| ==> r[k].word in words
    decreases |chunk| - start
  {
    if start == |chunk| then []
    else if Matches(chunk[start], words) then
      [PairAt(chunk, start, window)] + LineContextsFrom(chunk, words, window, start + 1)
    else
      LineContextsFrom(chunk, words, window, start + 1)
  }

  function LineContexts(chunk: Line, words: set<string>, window: int): seq<Pair> {
    LineContextsFrom(chunk, words, window, 0)
  }

  /** The k-th pair of a line comes from the k-th matching token: exactly the matching
      tokens emit, one pair each, in token order. */
  lemma {:induction false} EmissionOrder(chunk: Line, words: set<string>, window: int, start: nat)
    requires start <= |chunk|
    ensures |LineContextsFrom(chunk, words, window, start)| == |MatchIndices(chunk, words, start)|
    ensures forall k :: 0 <= k < |MatchIndices(chunk, words, start)| ==>
      LineContextsFrom(chunk, words, window, start)[k] == PairAt(chunk, MatchIndices(chunk, words, start)[k], window)
    decreases |chunk| - start
  {
    if start < |chunk| {
      EmissionOrder(chunk, words, window, start + 1);
      var m := MatchIndices(chunk, words, start + 1);
      var r := LineContextsFrom(chunk, words, window, start + 1);
      if Matches(chunk[start], words) {
        assert MatchIndices(chunk, words, start) == [start] + m;
        assert LineContextsFrom(chunk, words, window, start) == [PairAt(chunk, start, window)] + r;
      } else {
        assert MatchIndices(chunk, words, start) == m;
        assert LineContextsFrom(chunk, words, window, start) == r;
      }
    }
  }

  /** The pairs for a whole corpus with a fixed word set: line after line. */
  function CorpusContexts(lines: seq<Line>, words: set<string>, window: int): (r: seq<Pair>)
    ensures forall k :: 0 <= k < |r| ==> r[k].word in words
  {
    if |lines| == 0 then [] else LineContexts(lines[0], words, window) + CorpusContexts(lines[1..], words, window)
  }

  /** A line without any matching token contributes nothing. */
  lemma {:induction false} NoMatchNoPairs(chunk: Line, words: set<string>, window: int, start: nat)
    requires start <= |chunk|
    requires forall i :: start <= i < |chunk| ==> !Matches(chunk[i], words)
    ensures LineContextsFrom(chunk, words, window, start) == []
    decreases |chunk| - start
  {
    if start < |chunk| {
      NoMatchNoPairs(chunk, words, window, start + 1);
    }
  }

  function ExampleLine(): Line {
    [Token("A ", [Analysis("A")]), Token("B ", [Analysis("B")]), Token("C ", [Analysis("C")]),
     Token("D ", [Analysis("D")]), Token("E", [Analysis("E")])]
  }

  /** An example: tokens "A ", "B ", "C ", "D ", "E", target word "C",
      window 1. The match keeps its trailing space; its neighbours are stripped. */
  lemma WindowExample()
    ensures LineContexts(ExampleLine(), {"C"}, 1) == [Pair("C", Window("B", "C ", "D"))]
  {
    var chunk := ExampleLine();
    var words: set<string> := {"C"};
    NoMatchNoPairs(chunk, words, 1, 3);
    assert !Matches(chunk[0], words) && !Matches(chunk[1], words) && Matches(chunk[2], words);
    assert LineContextsFrom(chunk, words, 1, 0) == LineContextsFrom(chunk, words, 1, 2);
    ExampleWindow();
  }

  lemma ExampleWindow()
    ensures WindowAt(ExampleLine(), 2, 1) == Window("B", "C ", "D")
  {
    ExampleBefore();
    ExampleAfter();
  }

  lemma ExampleBefore()
    ensures Join(BeforeTokens(ExampleLine(), 2, 1)) == "B"
  {
    var chunk := ExampleLine();
    assert BeforeTokens(chunk, 2, 1) == [chunk[1]];
    JoinOfOne(chunk[1], 'B');
  }

  lemma ExampleAfter()
    ensures Join(AfterTokens(ExampleLine(), 2, 1)) == "D"
  {
    var chunk := ExampleLine();
    assert AfterTokens(chunk, 2, 1) == [chunk[3]];
    JoinOfOne(chunk[3], 'D');
  }

  lemma JoinOfOne(t: Token, c: char)
    requires t.text == [c, ' '] && !IsSpace(c)
    ensures Join([t]) == [c]
  {
    assert Concat([t]) == t.text by { assert Concat([t][1..]) == ""; }
    assert LeadingSpace(t.text) == 0;
    assert TrailingSpace(t.text[..1]) == 0;
  }

  /** A target word that is the only token of its line gets empty context on both sides. */
  lemma LoneToken(t: Token, words: set<string>, window: int)
    requires Matches(t, words)
    ensures LineContexts([t], words, window) == [Pair(t.analysis[0].lex, Window("", t.text, ""))]
  {
    assert LineContextsFrom([t], words, window, 1) == [];
  }
}
