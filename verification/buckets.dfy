/** The bucketing loop of `main` in scripts/extract_contexts.py: a fold over the
    stream of pairs that appends each context to its word's bucket and finalizes a
    bucket (drops the word from the pending set and hands the bucket to the writer)
    as soon as it holds the word's capacity. */
module Buckets {
  import opened Wrappers
  import opened PyText
  import opened Extract

  /** The popular tier is the first 500 words of the model's vocabulary. */
  const PopularTierSize: nat := 500
  /** Capacity factors applied to `--max` for popular and for other words. */
  const PopularFactor: int := 50
  const NormalFactor: int := 2

  /** The quota policy: the popular tier and the `--max` argument. */
  datatype Policy = Policy(popular: set<string>, maxContexts: int)

  /** A call of `write_contexts(word, contexts, ...)`. */
  datatype Flush = Flush(word: string, contexts: seq<string>)

  /** The loop's state: the shared `words` set (the words still collected), the
      `contexts_by_w` buckets, and the writes issued so far. */
  datatype Scan = Scan(pending: set<string>, buckets: map<string, seq<string>>, flushed: seq<Flush>)

  function VocabSet(vocab: seq<string>): set<string> {
    set w | w in vocab
  }

  /** The policy for a vocabulary list: its first 500 words form the popular tier;
      `maxContexts` is the `--max` argument. */
  function PolicyOf(vocab: seq<string>, maxContexts: int): (p: Policy)
    ensures p.maxContexts == maxContexts
    ensures forall i :: 0 <= i < |vocab| && i < PopularTierSize ==> vocab[i] in p.popular
    ensures forall w :: w in p.popular ==> exists i :: 0 <= i < |vocab| && i < PopularTierSize && vocab[i] == w
  {
    var top := Prefix(vocab, PopularTierSize);
    assert forall i :: 0 <= i < |vocab| && i < PopularTierSize ==> vocab[i] == top[i];
    Policy((set w | w in top), maxContexts)
  }

  /** The bucket size at which the loop writes a word: `--max` times the factor of the
      word's tier. */
  function Capacity(p: Policy, w: string): int {
    p.maxContexts * (if w in p.popular then PopularFactor else NormalFactor)
  }

  /** The bucket size at which a word is finalized: its capacity, but at least one,
      since the test runs right after an append. */
  function Quota(p: Policy, w: string): nat {
    var c := Capacity(p, w);
    if c >= 1 then c else 1
  }

  /** A word's capacity follows its rank: `50 * max` among the first 500 words,
      `2 * max` for every other word. */
  lemma CapacityByRank(vocab: seq<string>, maxContexts: int, i: nat)
    requires i < |vocab|
    ensures i < PopularTierSize ==> Capacity(PolicyOf(vocab, maxContexts), vocab[i]) == 50 * maxContexts
    ensures (forall j :: 0 <= j < |vocab| && vocab[j] == vocab[i] ==> j >= PopularTierSize) ==>
      Capacity(PolicyOf(vocab, maxContexts), vocab[i]) == 2 * maxContexts
  {
  }

  /** Every word keeps its bucket while pending, and only then. */
  predicate WellFormed(sc: Scan) {
    sc.pending == sc.buckets.Keys
  }

  /** No pending bucket has reached its quota yet. */
  predicate BelowQuota(p: Policy, sc: Scan) {
    forall w :: w in sc.buckets ==> |sc.buckets[w]| < Quota(p, w)
  }

  function FlushedWords(fs: seq<Flush>): set<string> {
    set i | 0 <= i < |fs| :: fs[i].word
  }

  predicate DistinctWords(fs: seq<Flush>) {
    forall i, j :: 0 <= i < j < |fs| ==> fs[i].word != fs[j].word
  }

  /** The loop invariant: every vocabulary word is either pending, with a bucket below
      its quota, or was written exactly once, with a full quota of contexts. */
  ghost predicate Inv(p: Policy, vocab: set<string>, sc: Scan) {
    && WellFormed(sc)
    && BelowQuota(p, sc)
    && (forall i :: 0 <= i < |sc.flushed| ==>
          && sc.flushed[i].word !in sc.pending
          && |sc.flushed[i].contexts| == Quota(p, sc.flushed[i].word))
    && DistinctWords(sc.flushed)
    && vocab == sc.pending + FlushedWords(sc.flushed)
  }

  /** The state before the first line: every vocabulary word pending, each with an
      empty bucket, and nothing written. */
  function Start(vocab: seq<string>): (sc: Scan)
    ensures forall p :: Inv(p, VocabSet(vocab), sc)
  {
    Scan(VocabSet(vocab), map w | w in VocabSet(vocab) :: [], [])
  }

  /** One iteration of the loop body for a pending word: append, and finalize when
      the bucket reaches the word's capacity (`>=`). */
  function Step(p: Policy, sc: Scan, w: string, rec: string): (r: Scan)
    requires WellFormed(sc) && w in sc.pending
    ensures WellFormed(r)
    ensures w !in r.pending <==> |sc.buckets[w]| + 1 >= Capacity(p, w)
    ensures w in r.pending ==> r.buckets[w] == sc.buckets[w] + [rec] && r.flushed == sc.flushed
    ensures w !in r.pending ==> r.flushed == sc.flushed + [Flush(w, sc.buckets[w] + [rec])]
    ensures r.pending == sc.pending || r.pending == sc.pending - {w}
    ensures forall v :: v in r.buckets && v != w ==> r.buckets[v] == sc.buckets[v]
  {
    var contexts := sc.buckets[w] + [rec];
    if |contexts| >= Capacity(p, w) then
      Scan(sc.pending - {w}, sc.buckets - {w}, sc.flushed + [Flush(w, contexts)])
    else
      Scan(sc.pending, sc.buckets[w := contexts], sc.flushed)
  }

  lemma StepKeepsInv(p: Policy, vocab: set<string>, sc: Scan, w: string, rec: string)
    requires Inv(p, vocab, sc) && w in sc.pending
    ensures Inv(p, vocab, Step(p, sc, w, rec))
  {
    var r := Step(p, sc, w, rec);
    if w !in r.pending {
      assert |sc.buckets[w] + [rec]| == Quota(p, w);
      assert r.flushed[|sc.flushed|].word == w;
      assert FlushedWords(r.flushed) == FlushedWords(sc.flushed) + {w} by {
        assert forall i :: 0 <= i < |sc.flushed| ==> r.flushed[i] == sc.flushed[i];
      }
    }
  }

  /** `r` is a later state of the loop than `sc`: no word became pending again, earlier
      writes stay as they were, and every new write is of a word that was pending. */
  predicate Extends(sc: Scan, r: Scan) {
    && r.pending <= sc.pending
    && |sc.flushed| <= |r.flushed| && r.flushed[..|sc.flushed|] == sc.flushed
    && forall i :: |sc.flushed| <= i < |r.flushed| ==> r.flushed[i].word in sc.pending
  }

  lemma ExtendsTransitive(a: Scan, b: Scan, c: Scan)
    requires Extends(a, b) && Extends(b, c)
    ensures Extends(a, c)
  {
    assert c.flushed[..|a.flushed|] == b.flushed[..|a.flushed|];
    forall i | |a.flushed| <= i < |c.flushed|
      ensures c.flushed[i].word in a.pending
    {
      if i < |b.flushed| {
        assert c.flushed[i] == b.flushed[i];
      }
    }
  }

  lemma StepExtends(p: Policy, sc: Scan, w: string, rec: string)
    requires WellFormed(sc) && w in sc.pending
    ensures Extends(sc, Step(p, sc, w, rec))
  {
  }

  /** The pairs that `line_contexts_iter` yields while the loop consumes them, for one
      line from token `idx` on. The generator is lazy and tests the shared, shrinking
      `words` set, so membership is checked against the current state token by token. */
  function FeedLineFrom(p: Policy, sc: Scan, chunk: Line, window: int, idx: nat): (r: Scan)
    requires WellFormed(sc) && idx <= |chunk|
    ensures WellFormed(r) && Extends(sc, r)
    decreases |chunk| - idx
  {
    if idx == |chunk| then sc
    else if Matches(chunk[idx], sc.pending) then
      var sc' := Step(p, sc, chunk[idx].analysis[0].lex, Render(WindowAt(chunk, idx, window)));
      var r := FeedLineFrom(p, sc', chunk, window, idx + 1);
      StepExtends(p, sc, chunk[idx].analysis[0].lex, Render(WindowAt(chunk, idx, window)));
      ExtendsTransitive(sc, sc', r);
      r
    else
      FeedLineFrom(p, sc, chunk, window, idx + 1)
  }

  /** The whole loop over the corpus: every line is read, none skipped. */
  function FeedCorpus(p: Policy, sc: Scan, lines: seq<Line>, window: int): (r: Scan)
    requires WellFormed(sc)
    ensures WellFormed(r) && Extends(sc, r)
    decreases |lines|
  {
    if |lines| == 0 then sc
    else
      var sc' := FeedLineFrom(p, sc, lines[0], window, 0);
      var r := FeedCorpus(p, sc', lines[1..], window);
      ExtendsTransitive(sc, sc', r);
      r
  }

  /** The loop body applied to one pair, ignoring a word that is no longer pending. */
  function Accept(p: Policy, sc: Scan, pr: Pair): (r: Scan)
    requires WellFormed(sc)
    ensures WellFormed(r) && Extends(sc, r)
  {
    if pr.word in sc.pending then
      StepExtends(p, sc, pr.word, Render(pr.window));
      Step(p, sc, pr.word, Render(pr.window))
    else
      sc
  }

  /** The loop body folded over a fixed stream of pairs. */
  function FeedPairs(p: Policy, sc: Scan, ps: seq<Pair>): (r: Scan)
    requires WellFormed(sc)
    ensures WellFormed(r) && Extends(sc, r)
    decreases |ps|
  {
    if |ps| == 0 then sc
    else
      var sc' := Accept(p, sc, ps[0]);
      var r := FeedPairs(p, sc', ps[1..]);
      ExtendsTransitive(sc, sc', r);
      r
  }

  lemma {:induction false} FeedPairsAppend(p: Policy, sc: Scan, a: seq<Pair>, b: seq<Pair>)
    requires WellFormed(sc)
    ensures FeedPairs(p, sc, a + b) == FeedPairs(p, FeedPairs(p, sc, a), b)
    decreases |a|
  {
    if |a| > 0 {
      assert (a + b)[0] == a[0];
      assert (a + b)[1..] == a[1..] + b;
      FeedPairsAppend(p, Accept(p, sc, a[0]), a[1..], b);
    } else {
      assert a + b == b;
    }
  }

  lemma {:induction false} FeedPairsKeepsInv(p: Policy, vocab: set<string>, sc: Scan, ps: seq<Pair>)
    requires Inv(p, vocab, sc)
    ensures Inv(p, vocab, FeedPairs(p, sc, ps))
    decreases |ps|
  {
    if |ps| > 0 {
      if ps[0].word in sc.pending {
        StepKeepsInv(p, vocab, sc, ps[0].word, Render(ps[0].window));
      }
      FeedPairsKeepsInv(p, vocab, Accept(p, sc, ps[0]), ps[1..]);
    }
  }

  /** The lazy generator interleaved with the loop behaves exactly like feeding the
      loop the line's pairs for any fixed superset of the pending words, skipping
      pairs whose word has meanwhile been finalized. */
  lemma {:induction false} LazyLineIsFiltered(p: Policy, sc: Scan, chunk: Line, window: int, words: set<string>, idx: nat)
    requires WellFormed(sc) && sc.pending <= words && idx <= |chunk|
    ensures FeedLineFrom(p, sc, chunk, window, idx) == FeedPairs(p, sc, LineContextsFrom(chunk, words, window, idx))
    decreases |chunk| - idx
  {
    if idx < |chunk| {
      var rest := LineContextsFrom(chunk, words, window, idx + 1);
      if Matches(chunk[idx], words) {
        var pr := PairAt(chunk, idx, window);
        assert LineContextsFrom(chunk, words, window, idx) == [pr] + rest;
        FeedPairsCons(p, sc, pr, rest);
        LazyStep(p, sc, chunk, window, words, idx);
        LazyLineIsFiltered(p, Accept(p, sc, pr), chunk, window, words, idx + 1);
      } else {
        assert !Matches(chunk[idx], sc.pending);
        LazyLineIsFiltered(p, sc, chunk, window, words, idx + 1);
      }
    }
  }

  lemma FeedPairsCons(p: Policy, sc: Scan, pr: Pair, rest: seq<Pair>)
    requires WellFormed(sc)
    ensures FeedPairs(p, sc, [pr] + rest) == FeedPairs(p, Accept(p, sc, pr), rest)
  {
    assert ([pr] + rest)[0] == pr;
    assert ([pr] + rest)[1..] == rest;
  }

  /** A token matching the fixed word set is consumed by the lazy loop exactly as
      `Accept` consumes its pair: a step when its word is still pending, nothing
      otherwise. */
  lemma LazyStep(p: Policy, sc: Scan, chunk: Line, window: int, words: set<string>, idx: nat)
    requires WellFormed(sc) && sc.pending <= words && idx < |chunk| && Matches(chunk[idx], words)
    ensures FeedLineFrom(p, sc, chunk, window, idx) == FeedLineFrom(p, Accept(p, sc, PairAt(chunk, idx, window)), chunk, window, idx + 1)
  {
    var pr := PairAt(chunk, idx, window);
    var rec := Render(WindowAt(chunk, idx, window));
    assert pr.word == chunk[idx].analysis[0].lex && Render(pr.window) == rec;
    if Matches(chunk[idx], sc.pending) {
      assert FeedLineFrom(p, sc, chunk, window, idx) == FeedLineFrom(p, Step(p, sc, pr.word, rec), chunk, window, idx + 1);
      assert Accept(p, sc, pr) == Step(p, sc, pr.word, rec);
    } else {
      assert FeedLineFrom(p, sc, chunk, window, idx) == FeedLineFrom(p, sc, chunk, window, idx + 1);
      assert Accept(p, sc, pr) == sc;
    }
  }

  lemma {:induction false} LazyCorpusIsFiltered(p: Policy, sc: Scan, lines: seq<Line>, window: int, words: set<string>)
    requires WellFormed(sc) && sc.pending <= words
    ensures FeedCorpus(p, sc, lines, window) == FeedPairs(p, sc, CorpusContexts(lines, words, window))
    decreases |lines|
  {
    if |lines| > 0 {
      var sc' := FeedLineFrom(p, sc, lines[0], window, 0);
      LazyLineIsFiltered(p, sc, lines[0], window, words, 0);
      LazyCorpusIsFiltered(p, sc', lines[1..], window, words);
      FeedPairsAppend(p, sc, LineContexts(lines[0], words, window), CorpusContexts(lines[1..], words, window));
    }
  }

  /** The records of `word`'s contexts in a stream of pairs, in stream order. */
  function Records(ps: seq<Pair>, word: string): (r: seq<string>)
    ensures |r| <= |ps|
  {
    if |ps| == 0 then []
    else (if ps[0].word == word then [Render(ps[0].window)] else []) + Records(ps[1..], word)
  }

  /** What happens to one pending word over a stream: its bucket grows by exactly
      that word's records, in order; once it holds its quota it is written with the
      first quota-many of them and collects nothing more. */
  lemma {:induction false} FeedPairsPerWord(p: Policy, sc: Scan, ps: seq<Pair>, w: string)
    requires WellFormed(sc) && BelowQuota(p, sc) && w in sc.pending
    ensures var r := FeedPairs(p, sc, ps);
            var all := sc.buckets[w] + Records(ps, w);
            && (|all| >= Quota(p, w) ==> w !in r.pending && Flush(w, all[..Quota(p, w)]) in r.flushed)
            && (|all| < Quota(p, w) ==> w in r.pending && r.buckets[w] == all)
    decreases |ps|
  {
    var r := FeedPairs(p, sc, ps);
    var all := sc.buckets[w] + Records(ps, w);
    if |ps| == 0 {
      assert all == sc.buckets[w];
    } else {
      var pr := ps[0];
      var sc' := Accept(p, sc, pr);
      assert r == FeedPairs(p, sc', ps[1..]);
      assert BelowQuota(p, sc') by {
        if pr.word in sc.pending {
          StepBelowQuota(p, sc, pr.word, Render(pr.window));
        }
      }
      if pr.word == w {
        var b := sc.buckets[w] + [Render(pr.window)];
        assert all == b + Records(ps[1..], w);
        if w in sc'.pending {
          FeedPairsPerWord(p, sc', ps[1..], w);
        } else {
          assert |b| == Quota(p, w);
          assert all[..Quota(p, w)] == b;
          assert sc'.flushed[|sc.flushed|] == Flush(w, b);
          assert r.flushed[..|sc'.flushed|] == sc'.flushed;
          assert r.flushed[|sc.flushed|] == Flush(w, b);
        }
      } else {
        assert all == sc'.buckets[w] + Records(ps[1..], w);
        FeedPairsPerWord(p, sc', ps[1..], w);
      }
    }
  }

  lemma StepBelowQuota(p: Policy, sc: Scan, w: string, rec: string)
    requires WellFormed(sc) && BelowQuota(p, sc) && w in sc.pending
    ensures BelowQuota(p, Step(p, sc, w, rec))
  {
  }

  /** The streaming phase: the whole corpus fed through the loop from the initial state. */
  function Stream(vocab: seq<string>, maxContexts: int, window: int, lines: seq<Line>): (sc: Scan)
    ensures WellFormed(sc) && sc.pending <= VocabSet(vocab)
    ensures forall i :: 0 <= i < |sc.flushed| ==> sc.flushed[i].word in vocab
  {
    FeedCorpus(PolicyOf(vocab, maxContexts), Start(vocab), lines, window)
  }

  lemma StreamInv(vocab: seq<string>, maxContexts: int, window: int, lines: seq<Line>)
    ensures Inv(PolicyOf(vocab, maxContexts), VocabSet(vocab), Stream(vocab, maxContexts, window, lines))
  {
    var p := PolicyOf(vocab, maxContexts);
    LazyCorpusIsFiltered(p, Start(vocab), lines, window, VocabSet(vocab));
    FeedPairsKeepsInv(p, VocabSet(vocab), Start(vocab), CorpusContexts(lines, VocabSet(vocab), window));
  }

  /** With `--max` >= 1 a bucket never exceeds its capacity: a pending bucket is below
      it and a written one holds exactly the capacity. */
  lemma BucketsWithinCapacity(vocab: seq<string>, maxContexts: int, window: int, lines: seq<Line>)
    requires maxContexts >= 1
    ensures var sc := Stream(vocab, maxContexts, window, lines);
            var p := PolicyOf(vocab, maxContexts);
            && (forall w :: w in sc.buckets ==> |sc.buckets[w]| < Capacity(p, w))
            && (forall i :: 0 <= i < |sc.flushed| ==> |sc.flushed[i].contexts| == Capacity(p, sc.flushed[i].word))
  {
    StreamInv(vocab, maxContexts, window, lines);
  }

  /** Each vocabulary word collects exactly its own records of the corpus, in corpus
      order (line by line, token by token): a word with at least its quota of records
      is written once with the first quota-many of them; any other word is still
      pending with all of them. */
  lemma StreamCollectsFirstRecords(vocab: seq<string>, maxContexts: int, window: int, lines: seq<Line>, w: string)
    requires w in vocab
    ensures var sc := Stream(vocab, maxContexts, window, lines);
            var all := Records(CorpusContexts(lines, VocabSet(vocab), window), w);
            var q := Quota(PolicyOf(vocab, maxContexts), w);
            && (|all| >= q ==> w !in sc.pending && Flush(w, all[..q]) in sc.flushed)
            && (|all| < q ==> w in sc.pending && sc.buckets[w] == all)
  {
    var p := PolicyOf(vocab, maxContexts);
    var ps := CorpusContexts(lines, VocabSet(vocab), window);
    LazyCorpusIsFiltered(p, Start(vocab), lines, window, VocabSet(vocab));
    FeedPairsPerWord(p, Start(vocab), ps, w);
    assert Start(vocab).buckets[w] + Records(ps, w) == Records(ps, w);
  }

  /** `order` lists the words of `s`, each once. It stands for the iteration order of
      the `words` set when `contexts_by_w` was built, which fixes the dict's key order. */
  predicate Enumerates(order: seq<string>, s: set<string>) {
    && s == (set w | w in order)
    && (forall i, j :: 0 <= i < j < |order| ==> order[i] != order[j])
  }

  /** The final loop as evidently intended: every bucket still present is written,
      whatever its size, in the dict's key order. */
  function Drain(sc: Scan, order: seq<string>): (r: seq<Flush>)
    ensures forall i :: 0 <= i < |r| ==>
      r[i].word in sc.buckets && r[i].word in order && r[i].contexts == sc.buckets[r[i].word]
  {
    if |order| == 0 then []
    else
      var rest := Drain(sc, order[1..]);
      assert forall i :: 0 <= i < |rest| ==> rest[i].word in order[1..];
      (if order[0] in sc.buckets then [Flush(order[0], sc.buckets[order[0]])] else []) + rest
  }

  /** Every bucket whose word is listed is written, with its full contents. */
  lemma {:induction false} DrainWritesEveryBucket(sc: Scan, order: seq<string>, w: string)
    requires w in sc.buckets && w in order
    ensures Flush(w, sc.buckets[w]) in Drain(sc, order)
  {
    if order[0] != w {
      DrainWritesEveryBucket(sc, order[1..], w);
    }
  }

  /** Listing each word once, the drain writes each word once. */
  lemma {:induction false} DrainWritesEachWordOnce(sc: Scan, order: seq<string>)
    requires forall i, j :: 0 <= i < j < |order| ==> order[i] != order[j]
    ensures DistinctWords(Drain(sc, order))
  {
    if |order| > 0 {
      var rest := Drain(sc, order[1..]);
      DrainWritesEachWordOnce(sc, order[1..]);
      assert order[0] !in order[1..];
      assert forall i :: 0 <= i < |rest| ==> rest[i].word != order[0];
    }
  }

  /** The whole run with the final loop as intended: the writes issued while
      streaming, then one write per word still pending. */
  function Run(vocab: seq<string>, maxContexts: int, window: int, lines: seq<Line>, order: seq<string>): seq<Flush> {
    var sc := Stream(vocab, maxContexts, window, lines);
    sc.flushed + Drain(sc, order)
  }

  lemma DistinctAppend(a: seq<Flush>, b: seq<Flush>, s: set<string>)
    requires DistinctWords(a) && DistinctWords(b)
    requires forall i :: 0 <= i < |a| ==> a[i].word !in s
    requires forall j :: 0 <= j < |b| ==> b[j].word in s
    ensures DistinctWords(a + b)
  {
    var r := a + b;
    forall i, j | 0 <= i < j < |r|
      ensures r[i].word != r[j].word
    {
      if j >= |a| && i < |a| {
        assert r[i] == a[i] && r[j] == b[j - |a|];
      } else if i >= |a| {
        assert r[i] == b[i - |a|] && r[j] == b[j - |a|];
      } else {
        assert r[i] == a[i] && r[j] == a[j];
      }
    }
  }

  /** No word is written twice over the run. */
  lemma RunWritesEachWordOnce(vocab: seq<string>, maxContexts: int, window: int, lines: seq<Line>, order: seq<string>)
    requires Enumerates(order, VocabSet(vocab))
    ensures DistinctWords(Run(vocab, maxContexts, window, lines, order))
  {
    var sc := Stream(vocab, maxContexts, window, lines);
    var d := Drain(sc, order);
    StreamInv(vocab, maxContexts, window, lines);
    assert DistinctWords(sc.flushed);
    assert forall i :: 0 <= i < |sc.flushed| ==> sc.flushed[i].word !in sc.pending;
    assert forall j :: 0 <= j < |d| ==> d[j].word in sc.pending;
    DrainWritesEachWordOnce(sc, order);
    DistinctAppend(sc.flushed, d, sc.pending);
  }

  /** The run writes every vocabulary word and no other word. */
  lemma RunCoversVocabulary(vocab: seq<string>, maxContexts: int, window: int, lines: seq<Line>, order: seq<string>)
    requires Enumerates(order, VocabSet(vocab))
    ensures FlushedWords(Run(vocab, maxContexts, window, lines, order)) == VocabSet(vocab)
  {
    var sc := Stream(vocab, maxContexts, window, lines);
    StreamInv(vocab, maxContexts, window, lines);
    FlushedWordsAppend(sc.flushed, Drain(sc, order));
    DrainWritesPending(sc, order);
  }

  lemma FlushedWordsAppend(a: seq<Flush>, b: seq<Flush>)
    ensures FlushedWords(a + b) == FlushedWords(a) + FlushedWords(b)
  {
    forall w | w in FlushedWords(a + b)
      ensures w in FlushedWords(a) + FlushedWords(b)
    {
      var k :| 0 <= k < |a + b| && (a + b)[k].word == w;
      if k < |a| {
        assert a[k].word == w;
      } else {
        assert b[k - |a|].word == w;
      }
    }
    forall w | w in FlushedWords(a) + FlushedWords(b)
      ensures w in FlushedWords(a + b)
    {
      if w in FlushedWords(a) {
        var k :| 0 <= k < |a| && a[k].word == w;
        assert (a + b)[k].word == w;
      } else {
        var k :| 0 <= k < |b| && b[k].word == w;
        assert (a + b)[|a| + k].word == w;
      }
    }
  }

  /** The corrected final loop writes exactly the words still pending. */
  lemma DrainWritesPending(sc: Scan, order: seq<string>)
    requires WellFormed(sc) && sc.pending <= (set w | w in order)
    ensures FlushedWords(Drain(sc, order)) == sc.pending
  {
    var d := Drain(sc, order);
    forall w | w in sc.pending
      ensures w in FlushedWords(d)
    {
      assert w in order;
      DrainWritesEveryBucket(sc, order, w);
      var k :| 0 <= k < |d| && d[k] == Flush(w, sc.buckets[w]);
    }
  }

  /** What each word's single write holds: its first records of the corpus in corpus
      order, as many as its quota allows. */
  lemma RunWritesFirstRecords(vocab: seq<string>, maxContexts: int, window: int, lines: seq<Line>, order: seq<string>, w: string)
    requires Enumerates(order, VocabSet(vocab)) && w in vocab
    ensures Flush(w, Prefix(Records(CorpusContexts(lines, VocabSet(vocab), window), w), Quota(PolicyOf(vocab, maxContexts), w)))
            in Run(vocab, maxContexts, window, lines, order)
  {
    var sc := Stream(vocab, maxContexts, window, lines);
    var all := Records(CorpusContexts(lines, VocabSet(vocab), window), w);
    var q := Quota(PolicyOf(vocab, maxContexts), w);
    StreamCollectsFirstRecords(vocab, maxContexts, window, lines, w);
    var d := Drain(sc, order);
    if |all| >= q {
      var k :| 0 <= k < |sc.flushed| && sc.flushed[k] == Flush(w, all[..q]);
      assert (sc.flushed + d)[k] == Flush(w, Prefix(all, q));
    } else {
      assert w in vocab && VocabSet(vocab) == (set v | v in order);
      DrainWritesEveryBucket(sc, order, w);
      var k :| 0 <= k < |d| && d[k] == Flush(w, all);
      assert (sc.flushed + d)[|sc.flushed| + k] == Flush(w, Prefix(all, q));
    }
  }

  /** Unpacking a dict key into `w, contexts` fails unless the key has exactly two
      characters (`ValueError`). */
  datatype DrainError = UnpackError

  /** The writes of the final loop and the exception that ended it, if any. */
  datatype Drained = Drained(flushes: seq<Flush>, failure: Option<DrainError>)

  /** The final loop as written: `for w, contexts in contexts_by_w` iterates the keys
      and unpacks each key string, so a two-character key `k` becomes the call
      `write_contexts(k[0], k[1], ...)` (one record, the second character), and any
      other key raises before anything more is written. */
  function DrainAsWritten(sc: Scan, order: seq<string>): (r: Drained)
    ensures r.failure.None? <==> forall w :: w in sc.buckets && w in order ==> |w| == 2
    ensures forall i :: 0 <= i < |r.flushes| ==>
      |r.flushes[i].word| == 1 && |r.flushes[i].contexts| == 1 && |r.flushes[i].contexts[0]| == 1
  {
    if |order| == 0 then Drained([], None)
    else if order[0] !in sc.buckets then DrainAsWritten(sc, order[1..])
    else if |order[0]| != 2 then Drained([], Some(UnpackError))
    else
      var rest := DrainAsWritten(sc, order[1..]);
      Drained([Flush(order[0][..1], [order[0][1..]])] + rest.flushes, rest.failure)
  }

  /** A word still pending at the end of the corpus is lost as written: the vocabulary
      ["cat"] with an empty corpus ends in an exception instead of writing "cat"'s
      (empty) bucket. */
  lemma AsWrittenLosesPendingWord()
    ensures DrainAsWritten(Stream(["cat"], 1000, 25, []), ["cat"]) == Drained([], Some(UnpackError))
    ensures Drain(Stream(["cat"], 1000, 25, []), ["cat"]) == [Flush("cat", [])]
  {
    var sc := Stream(["cat"], 1000, 25, []);
    assert sc == Start(["cat"]);
    assert VocabSet(["cat"]) == {"cat"};
    assert "cat" in sc.buckets && sc.buckets["cat"] == [];
  }

  /** A two-letter word still pending is written under the wrong name with a bogus
      record: "он" becomes a file for "о" holding the single line "н". */
  lemma AsWrittenMisreadsTwoLetterWord()
    ensures DrainAsWritten(Stream(["он"], 1000, 25, []), ["он"]) == Drained([Flush("о", ["н"])], None)
    ensures Drain(Stream(["он"], 1000, 25, []), ["он"]) == [Flush("он", [])]
  {
    var sc := Stream(["он"], 1000, 25, []);
    assert sc == Start(["он"]);
    assert VocabSet(["он"]) == {"он"};
    assert "он" in sc.buckets && sc.buckets["он"] == [];
    assert "он"[..1] == "о" && "он"[1..] == "н";
    assert DrainAsWritten(sc, ["он"][1..]) == Drained([], None);
  }

  /** Two two-letter words with the same first letter are both written under that
      letter, so the file for "о" is written twice, while the corrected loop writes
      each word once. */
  lemma AsWrittenWritesWordTwice()
    ensures DrainAsWritten(Stream(["он", "оа"], 1000, 25, []), ["он", "оа"])
         == Drained([Flush("о", ["н"]), Flush("о", ["а"])], None)
    ensures Drain(Stream(["он", "оа"], 1000, 25, []), ["он", "оа"]) == [Flush("он", []), Flush("оа", [])]
  {
    var sc := Stream(["он", "оа"], 1000, 25, []);
    assert sc == Start(["он", "оа"]);
    assert VocabSet(["он", "оа"]) == {"он", "оа"};
    assert "он" in sc.buckets && sc.buckets["он"] == [];
    assert "оа" in sc.buckets && sc.buckets["оа"] == [];
    assert "он"[..1] == "о" && "он"[1..] == "н";
    assert "оа"[..1] == "о" && "оа"[1..] == "а";
    assert ["он", "оа"][1..] == ["оа"];
    assert DrainAsWritten(sc, ["оа"][1..]) == Drained([], None);
    assert Drain(sc, ["оа"][1..]) == [];
  }
}
