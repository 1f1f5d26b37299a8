# Sense-context extraction and sense-delta pairs, modelled in Dafny

This project models two pieces of a word-sense exploration tool:

- `scripts/extract_contexts.py` is a batch script. It reads a corpus line by line and runs each line through a morphological analyzer. Wherever a token's first lemma is a vocabulary word, it records a context `before \t token \t after`. The `before` and `after` parts hold at most `--window` tokens each. Contexts are collected in one bucket per word. A bucket is written out as soon as it reaches the word's capacity, which is `--max × 50` for the 500 most frequent words and `--max × 2` for every other word. When the corpus ends, the remaining buckets are meant to be written; the final loop as written does not do this (see "## Findings"). Each file keeps at most `--max` randomly sampled contexts and goes to `<output>/<md5(word)[:2]>/<word>.txt.gz`.
- `SimDeltaHandler.find_similar_pairs` in `simdelta.py` takes the neighbour lists of two senses of a word and groups them by neighbour word. Each same-word pair of entries with different sense indices becomes a candidate, scored by the smaller similarity. The function returns the 30 best candidates, best first.

Modules:

- `Wrappers`: `Option` and `Result`.
- `PyText`: the Python semantics the code relies on. These are `str.strip()` with the full `isspace` set, clipping and negative slice bounds, `s[:k]`, and `str.split`.
- `Extract`: the context generator `line_contexts_iter` and `_join`, on an analyzed token sequence.
- `Buckets`: the driver loop of `main`, modelled as a fold over the pair stream. Its state is a pending-word set, a bucket map and the writes issued so far. It also holds the final loop, both as written and as intended.
- `Writer`: `write_contexts` and `word_folder`, and the end-to-end pipeline.
- `SimDelta`: `find_similar_pairs`.

How the model treats each external dependency:

- **Analyzer.** Its output is an input: a `Line` is a sequence of `Token(text, analysis)`.
- **Vocabulary.** The model's word list, `id2word`, is an input `vocab`.
- **Set iteration order.** The order in which the `words` set was enumerated fixes the key order of `contexts_by_w`. It is an input `order`, constrained by `Enumerates`.
- **MD5.** The UTF-8 MD5 hex digest is an input function `digest`.
- **Randomness.** `random.sample` takes an input function `rng(call, draw)`. Draw `i` picks the element at `rng % |pool|` of the remaining pool.
- **Similarities.** Neighbour similarities are `real`. They are only compared and `min`-ed.

Behaviour of the code that the model keeps:

- **Capacity.** The capacity factors are 50 and 2; `--max` defaults to 1000.
- **Whole corpus.** The driver reads the whole corpus, even after every word has been written.
- **Stripped neighbours.** The before- and after-texts are stripped and the matched token is not: tokens `A␠`, `B␠`, `C␠`, `D␠`, `E` with window 1 and target `C` give (`B`, `C␠`, `D`), as `Extract.WindowExample` proves.
- **Generator laziness.** The generator is lazy and shares the `words` set that the driver shrinks. A token of a word finalized earlier is therefore never matched again. `Buckets.FeedLineFrom` models this token by token. `Buckets.LazyLineIsFiltered` shows that this is the same as extracting eagerly with a fixed set and skipping pairs whose word is no longer pending.
- **Quota.** The size test comes right after each append, so with `--max <= 0` a word is finalized after its first context. `Buckets.Quota` is `max(1, capacity)`.
- **Negative `--max`.** `random.sample` raises `ValueError` whenever a bucket holds more than `--max` contexts, so with a negative `--max` every write raises (`Writer.Kept`, `Writer.WriteAll`).
- **Negative `--window`.** Python slicing is modelled exactly (`PyText.Slice`). The before-part is then empty. The after-part's upper bound lies below its start, so it is empty too, unless that bound is negative; then Python counts it from the line's end (`Extract.AfterTokens`).

## Model

| member | source | states |
|---|---|---|
| Extract.HeadLemma | scripts/extract_contexts.py:71-73 | a token has a lemma exactly when its analysis list is non-empty, and that lemma is the `lex` of the first analysis |
| Extract.MatchIndices | scripts/extract_contexts.py:70-74 | the positions considered are exactly the tokens whose first lemma is a target word, each once, in increasing order |
| Extract.LineContextsFrom | scripts/extract_contexts.py:70-77 | every yielded pair is for a target word |
| Extract.EmissionOrder | scripts/extract_contexts.py:70-77 | the k-th pair of a line is built from the k-th matching token, and there are as many pairs as matching tokens |
| Extract.NoMatchNoPairs | scripts/extract_contexts.py:70-74 | a line with no matching token yields nothing |
| Extract.CorpusContexts | scripts/extract_contexts.py:66-77 | over a whole corpus, every pair is for a target word |
| Extract.BeforeTokens | scripts/extract_contexts.py:75 | the before-window is the contiguous run of tokens ending just before the match, of length min(idx, window), and empty for window <= 0; the start is clipped at 0 without error |
| Extract.AfterTokens | scripts/extract_contexts.py:76 | the after-window is a contiguous run starting right after the match, of length min(tokens left, window) for window >= 0, clipped at the line end; a negative window gives an empty run when the bound stays inside the line |
| Extract.WindowAt | scripts/extract_contexts.py:75-77 | the middle field is the token's own text, unstripped; before and after are stripped; the first token has empty before-text and the last one empty after-text |
| Extract.Join | scripts/extract_contexts.py:80-81 | the joined text has no whitespace at either end, and joining no tokens gives the empty string |
| Extract.JoinKeepsInnerText | scripts/extract_contexts.py:80-81 | the joined text is the infix of the concatenated token texts that starts right after their leading whitespace; every character cut off on either side is whitespace, so nothing else is removed |
| Extract.RenderRoundTrip | scripts/extract_contexts.py:77 | a record splits back on tabs into exactly (before, token, after) when none contains a tab |
| Extract.WindowExample | scripts/extract_contexts.py:75-81 | tokens `A␠`, `B␠`, `C␠`, `D␠`, `E` with target `C` and window 1 yield exactly one pair: `C` with context (`B`, `C␠`, `D`) |
| Extract.LoneToken | scripts/extract_contexts.py:75-77 | a target word alone on its line gets empty before- and after-text |
| PyText.Strip | scripts/extract_contexts.py:81 | `strip()` returns the contiguous middle of its argument; everything cut off on either side is whitespace, and the result neither starts nor ends with whitespace |
| PyText.Slice | scripts/extract_contexts.py:75-76 | Python slicing with any integer bounds: the ordinary slice for in-range bounds, empty for crossed bounds, clipped at the end |
| Buckets.PolicyOf | scripts/extract_contexts.py:29-31 | the popular words are exactly the words among the first 500 of the vocabulary list (both directions) |
| Buckets.CapacityByRank | scripts/extract_contexts.py:31-40 | a word ranked below 500 has capacity 50·max; a word occurring only at ranks >= 500 has capacity 2·max |
| Buckets.Start | scripts/extract_contexts.py:32-34 | the initial state, every word pending with an empty bucket, satisfies the loop invariant |
| Buckets.Step | scripts/extract_contexts.py:38-44 | an append finalizes the word if and only if the bucket reaches its capacity (`>=`); then the word leaves the pending set and the full bucket is written; otherwise the bucket grows by the one record; no other bucket changes |
| Buckets.StepKeepsInv | scripts/extract_contexts.py:38-44 | every loop iteration preserves the invariant: pending words equal the dict keys, pending buckets are below quota, written words are not pending and were written once with a full quota, and pending plus written is the vocabulary |
| Buckets.FeedPairsKeepsInv | scripts/extract_contexts.py:35-44 | the invariant holds after any stream of pairs |
| Buckets.LazyLineIsFiltered | scripts/extract_contexts.py:36-43 | the lazy generator, which reads the shrinking word set token by token, yields the same loop outcome as the eager extraction with any superset of the pending words, skipping pairs of finalized words |
| Buckets.LazyCorpusIsFiltered | scripts/extract_contexts.py:35-43 | the same equivalence over a whole corpus |
| Buckets.LazyStep | scripts/extract_contexts.py:36-43 | a token matching the fixed word set is consumed by the lazy loop exactly as its pair is by the eager loop: appended when its word is still pending, ignored otherwise |
| Buckets.FeedPairsPerWord | scripts/extract_contexts.py:38-44 | a pending word's bucket grows by exactly its own records in stream order; on reaching its quota it is written once with the first quota-many; otherwise it stays pending holding all of them |
| Buckets.Stream | scripts/extract_contexts.py:34-44 | after the corpus, the pending set equals the bucket keys and lies within the vocabulary, and every word written is a vocabulary word |
| Buckets.StreamInv | scripts/extract_contexts.py:34-44 | the loop invariant holds at the end of the corpus |
| Buckets.BucketsWithinCapacity | scripts/extract_contexts.py:38-42 | with `--max` >= 1, a pending bucket stays below its capacity and a written one holds exactly its capacity |
| Buckets.StreamCollectsFirstRecords | scripts/extract_contexts.py:34-44 | a word with at least its quota of records in the corpus is written with its first quota-many in corpus order; any other word is still pending with all its records |
| Buckets.Drain | scripts/extract_contexts.py:46-47 | the corrected final loop writes only listed words that still have a bucket, each with that bucket's full contents |
| Buckets.DrainWritesEveryBucket | scripts/extract_contexts.py:46-47 | every remaining bucket is written by the corrected final loop, with its full contents |
| Buckets.DrainWritesEachWordOnce | scripts/extract_contexts.py:46-47 | the corrected final loop writes no word twice |
| Buckets.DrainWritesPending | scripts/extract_contexts.py:46-47 | the words the corrected final loop writes are exactly the words still pending |
| Buckets.RunWritesEachWordOnce | scripts/extract_contexts.py:34-47 | with the corrected final loop, over the whole run no word is written twice |
| Buckets.RunCoversVocabulary | scripts/extract_contexts.py:34-47 | with the corrected final loop, the run writes every vocabulary word and nothing else |
| Buckets.RunWritesFirstRecords | scripts/extract_contexts.py:34-47 | with the corrected final loop, each word's write holds its first min(quota, count) records of the corpus in corpus order |
| Buckets.DrainAsWritten | scripts/extract_contexts.py:46-47 | the final loop as written ends without an exception exactly when every remaining key has two characters, and each write it makes is of a one-character word holding one one-character record |
| Buckets.AsWrittenLosesPendingWord | scripts/extract_contexts.py:46-47 | with vocabulary `cat` and an empty corpus, the loop as written raises and writes nothing, while the corrected loop writes `cat` |
| Buckets.AsWrittenMisreadsTwoLetterWord | scripts/extract_contexts.py:46-47 | with vocabulary `он` the loop as written writes a file for `о` holding `н`, while the corrected loop writes `он` with no records |
| Buckets.AsWrittenWritesWordTwice | scripts/extract_contexts.py:46-47 | with vocabulary `он`, `оа` the loop as written writes a file for `о` twice, holding `н` and then `а`, while the corrected loop writes each word once with no records |
| Writer.Sample | scripts/extract_contexts.py:52 | a sample has exactly the requested size and is a sub-multiset of the pool |
| Writer.SampleReachesEveryElement | scripts/extract_contexts.py:52 | every element of the pool can be drawn |
| Writer.Kept | scripts/extract_contexts.py:51-52 | writing fails exactly for a negative `--max`; otherwise the kept records are a sub-multiset of the bucket, exactly `--max` of them when the bucket is larger, and the bucket unchanged when it fits |
| Writer.WordFolder | scripts/extract_contexts.py:61-62 | the folder is the output root plus one component: the first two characters of the word's digest, which are hex digits for a hex digest |
| Writer.BodyRoundTrip | scripts/extract_contexts.py:55-58 | reading the written text back line by line gives exactly the records written, in order, when no record contains a newline |
| Writer.WriteContexts | scripts/extract_contexts.py:50-58 | a write fails exactly for a negative `--max`, and goes to `<word>.txt.gz` in the word's folder |
| Writer.WrittenRecords | scripts/extract_contexts.py:50-58 | a written file, read back, holds at most `--max` records, a sub-multiset of the bucket, exactly `--max` when the bucket is larger and the whole bucket in order when it fits |
| Writer.WriteAll | scripts/extract_contexts.py:44-47 | all writes of a run succeed, one file per write in order, unless `--max` is negative (then the first write raises) |
| Writer.WrittenFile | scripts/extract_contexts.py:44-58 | the k-th file of a run has the k-th word's folder and name and, read back, holds at most `--max` records, a sub-multiset of the k-th bucket, and the whole bucket in order when it fits |
| Writer.PipelineWritesWord | scripts/extract_contexts.py:17-58 | with the corrected final loop, end to end, every vocabulary word gets a file in its folder that holds at most `--max` of its corpus records, and all of them in corpus order when there are at most `--max` |
| SimDelta.Min | simdelta.py:44 | the score is one of the two similarities and is no larger than either |
| SimDelta.Keys | simdelta.py:39-45 | the grouping dict has one key per neighbour word of either list, and no other keys |
| SimDelta.KeysInFirstAppearanceOrder | simdelta.py:39-45 | the keys are iterated in the order in which their words first occur, the first sense's list before the second's |
| SimDelta.EntriesMembership | simdelta.py:40-43 | an entry on one side of a word's group is exactly a neighbour of that word in the corresponding list |
| SimDelta.RowMembership | simdelta.py:44-48 | a word's candidates are exactly its (first-side, second-side) entry pairs with different sense indices, scored by the smaller similarity |
| SimDelta.CandidatesAreProduct | simdelta.py:39-48 | a tuple is a candidate if and only if it comes from an entry of the first list and an entry of the second list for the same word, with `s1 != s2` and score `min(sim1, sim2)` |
| SimDelta.OneSidedWordContributesNothing | simdelta.py:39-48 | a neighbour word found for only one of the two senses yields no candidate |
| SimDelta.Insert | simdelta.py:49 | inserting into a list sorted by descending score keeps it sorted |
| SimDelta.InsertIsPermutation | simdelta.py:49 | insertion adds exactly the new element |
| SimDelta.Sort | simdelta.py:49 | the sorted list is a permutation of the candidates, in non-increasing score order |
| SimDelta.SortIsStable | simdelta.py:49 | for every score, the candidates with that score keep their generation order (the sort is stable) |
| SimDelta.TopOfSorted | simdelta.py:49-50 | the first n of a sorted permutation are all from the input, and anything left out scores no higher than the last one kept |
| SimDelta.FindSimilarPairs | simdelta.py:38-50 | the result has min(30, #candidates) entries, sorted best first, and is a sub-multiset of the candidates; a candidate left out means 30 were returned and it scores no higher than the 30th; for every score, the returned entries with that score are the earliest generated candidates with that score (stable sort) |
| SimDelta.TopKeepsEarliestTies | simdelta.py:49-50 | the first n of the stably sorted candidates are a sub-multiset of them and, for each score, the earliest generated candidates with that score |
| SimDelta.ReturnedPairsAreProductEntries | simdelta.py:44-50 | every returned tuple has `s1 != s2` and is the min-scored pairing of two entries for the same neighbour word |

## Left out

- The morphological analyzer (`mystem.analyze`) is a foreign call. The analyzed token sequence of each line is an input.
- The model loading in `main` (`VectorModel.load`, `id2word`) is left out; the vocabulary list is an input.
- Argument parsing and its defaults (`--window 25`, `--max 1000`) are left out; both are plain integer parameters.
- File I/O is left out: opening the corpus, `mkdir`, gzip compression and the file handle. A write is a value `FileWrite(folder, name, text)`, and reading back is splitting that text on newlines.
- Progress printing every 10000 lines is left out; it has no effect on the result.
- MD5 itself is left out. The hex digest of the UTF-8 encoding is an input function.
- Python's own `random.sample` algorithm is left out. The draws are an arbitrary input function, so every property proved holds for every sequence of random choices.
- The hash-dependent iteration order of the `words` set is an input order, which is all that decides the order of the final writes.
- Words containing `/` or `..` are left out: the model treats the file name as an opaque string.
- `Writer.Sample`: the contract states size and sub-multiset, not the distribution of samples.
- `SimDelta.CandidatesAreProduct`: it states membership in both directions, not multiplicity. That each pair of entries gives exactly one candidate, so duplicate entries give duplicate candidates, is not stated.
- `SimDeltaHandler.get` is left out: HTTP argument parsing, the sense-probability lookup, the numpy dot product and the ipm arithmetic.
- The neighbour search `vm.sense_neighbors`, with its limits of 5000 neighbours and closeness 0.35, is left out; its two result lists are inputs.
- Floating-point similarities are modelled as `real`, so NaN is not modelled; with NaN, Python's `min` and `sort` are not total orders.
- `senses.py` and `app.py` are not part of this model.

## Findings

| source | as written | input that shows it | evidently intended | confidence | as-written member | corrected member |
|---|---|---|---|---|---|---|
| scripts/extract_contexts.py:46-47 | `for w, contexts in contexts_by_w:` iterates the dict's keys and unpacks each key string into two names. | Vocabulary `["cat"]` with an empty corpus raises `ValueError`, so `cat` is never written. Vocabulary `["он"]` writes a file for `о` holding the line `н`. Vocabulary `["он", "оа"]` writes the file for `о` twice. | Iterate `contexts_by_w.items()` and write every bucket still pending, under its own word, with its full contents. | not executed | Buckets.DrainAsWritten (shown by Buckets.AsWrittenLosesPendingWord, Buckets.AsWrittenMisreadsTwoLetterWord and Buckets.AsWrittenWritesWordTwice) | Buckets.Drain (used by Buckets.Run; proved by Buckets.RunCoversVocabulary and Buckets.RunWritesFirstRecords) |
