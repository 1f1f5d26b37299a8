/** `write_contexts` and `word_folder` in scripts/extract_contexts.py: down-sample a
    bucket to `--max` contexts, and write them one per line into
    `<output>/<first two hex digits of md5(word)>/<word>.txt.gz`. */
module Writer {
  import opened Wrappers
  import opened PyText
  import opened Extract
  import opened Buckets

  /** One written file: its directory as path components, its name, and the text
      written into it (before gzip compression). */
  datatype FileWrite = FileWrite(folder: seq<string>, name: string, body: string)

  /** `random.sample` raises `ValueError` for a negative sample size. */
  datatype WriteError = NegativeSampleSize

  /** `random.sample(pool, k)` in write call `n`: selection without replacement, where
      draw `i` takes position `rng(n, i) % |pool|` of what is left of the pool. The
      randomness is the arbitrary function `rng`. */
  function Sample(pool: seq<string>, k: nat, rng: (nat, nat) -> nat, n: nat, i: nat): (r: seq<string>)
    requires k <= |pool|
    ensures |r| == k
    ensures multiset(r) <= multiset(pool)
    decreases k
  {
    if k == 0 then []
    else
      var j := rng(n, i) % |pool|;
      var rest := pool[..j] + pool[j + 1..];
      assert pool == pool[..j] + [pool[j]] + pool[j + 1..];
      [pool[j]] + Sample(rest, k - 1, rng, n, i + 1)
  }

  /** The contexts `write_contexts` keeps: a random sample of exactly `maxContexts`
      of them when there are more, otherwise all of them unchanged. */
  function Kept(contexts: seq<string>, maxContexts: int, rng: (nat, nat) -> nat, n: nat): (r: Result<seq<string>, WriteError>)
    ensures r.Success? <==> maxContexts >= 0
    ensures r.Success? ==> |r.value| <= maxContexts && multiset(r.value) <= multiset(contexts)
    ensures r.Success? && |contexts| > maxContexts ==> |r.value| == maxContexts
    ensures |contexts| <= maxContexts ==> r == Success(contexts)
  {
    if |contexts| > maxContexts then
      if maxContexts < 0 then Failure(NegativeSampleSize)
      else Success(Sample(contexts, maxContexts, rng, n, 0))
    else
      Success(contexts)
  }

  /** The model does not restrict which sample is drawn: any element of the pool can
      be the first one picked. */
  lemma SampleReachesEveryElement(pool: seq<string>, j: nat, rng: (nat, nat) -> nat, n: nat)
    requires j < |pool| && rng(n, 0) == j
    ensures Sample(pool, 1, rng, n, 0) == [pool[j]]
  {
    var rest := pool[..j] + pool[j + 1..];
    assert rng(n, 0) % |pool| == j;
    assert Sample(rest, 0, rng, n, 1) == [];
  }

  /** A lowercase hexadecimal MD5 digest. */
  predicate IsHexDigest(h: string) {
    |h| == 32 && forall i :: 0 <= i < |h| ==> h[i] in "0123456789abcdef"
  }

  /** The shard folder of a word: the output root plus the first two characters of the
      word's digest; `digest` stands for the MD5 hex digest of the UTF-8 encoding. The folder depends on the
      word alone, never on when or in which order words are written. */
  function WordFolder(root: seq<string>, word: string, digest: string -> string): (r: seq<string>)
    ensures |r| == |root| + 1 && r[..|root|] == root
    ensures |r[|root|]| == if |digest(word)| < 2 then |digest(word)| else 2
    ensures r[|root|] == digest(word)[..|r[|root|]|]
    ensures IsHexDigest(digest(word)) ==> forall i :: 0 <= i < |r[|root|]| ==> r[|root|][i] in "0123456789abcdef"
  {
    root + [Prefix(digest(word), 2)]
  }

  /** The file text: each record followed by a newline. */
  function Body(records: seq<string>): string {
    if |records| == 0 then "" else records[0] + "\n" + Body(records[1..])
  }

  /** The records a reader gets back from a file text, one per line. */
  function ReadLines(body: string): seq<string> {
    var parts := Split(body, '\n');
    parts[..|parts| - 1]
  }

  predicate NoNewlines(records: seq<string>) {
    forall k :: 0 <= k < |records| ==> '\n' !in records[k]
  }

  /** Reading a written file back yields exactly the records written, in order, as
      long as no record contains a newline. */
  lemma {:induction false} BodyRoundTrip(records: seq<string>)
    requires NoNewlines(records)
    ensures Split(Body(records), '\n') == records + [""]
    ensures ReadLines(Body(records)) == records
  {
    if |records| > 0 {
      assert Body(records) == records[0] + ['\n'] + Body(records[1..]);
      SplitAtSeparator(records[0], '\n', Body(records[1..]));
      BodyRoundTrip(records[1..]);
      assert [records[0]] + (records[1..] + [""]) == records + [""];
    }
    assert (records + [""])[..|records|] == records;
  }

  lemma SubMultisetNoNewlines(a: seq<string>, b: seq<string>)
    requires multiset(a) <= multiset(b) && NoNewlines(b)
    ensures NoNewlines(a)
  {
    forall k | 0 <= k < |a|
      ensures '\n' !in a[k]
    {
      assert a[k] in multiset(a);
    }
  }

  /** `write_contexts(w, contexts, output, max)`: the file goes into the word's shard
      folder under the name `<word>.txt.gz`; it fails only for a negative `--max`. */
  function WriteContexts(root: seq<string>, digest: string -> string, maxContexts: int, f: Flush, rng: (nat, nat) -> nat, n: nat): (r: Result<FileWrite, WriteError>)
    ensures r.Success? <==> maxContexts >= 0
    ensures r.Success? ==> r.value.folder == WordFolder(root, f.word, digest) && r.value.name == f.word + ".txt.gz"
  {
    match Kept(f.contexts, maxContexts, rng, n)
    case Failure(e) => Failure(e)
    case Success(kept) => Success(FileWrite(WordFolder(root, f.word, digest), f.word + ".txt.gz", Body(kept)))
  }

  /** A file written by `write_contexts`, read back, holds at most `maxContexts`
      records, all from the bucket (none invented, none repeated beyond its count
      there), exactly `maxContexts` of them when the bucket is larger, and the whole
      bucket in order when it fits. */
  lemma WrittenRecords(root: seq<string>, digest: string -> string, maxContexts: int, f: Flush, rng: (nat, nat) -> nat, n: nat)
    requires maxContexts >= 0 && NoNewlines(f.contexts)
    ensures var lines := ReadLines(WriteContexts(root, digest, maxContexts, f, rng, n).value.body);
            && |lines| <= maxContexts
            && multiset(lines) <= multiset(f.contexts)
            && (|f.contexts| > maxContexts ==> |lines| == maxContexts)
            && (|f.contexts| <= maxContexts ==> lines == f.contexts)
  {
    var kept := Kept(f.contexts, maxContexts, rng, n).value;
    SubMultisetNoNewlines(kept, f.contexts);
    BodyRoundTrip(kept);
  }

  /** The writes of a run, call `i` writing flush `i`. Since `write_contexts` fails
      exactly for a negative `--max`, either every call succeeds or the very first
      one raises and nothing is written. */
  function WriteAll(root: seq<string>, digest: string -> string, maxContexts: int, fs: seq<Flush>, rng: (nat, nat) -> nat): (r: Result<seq<FileWrite>, WriteError>)
    ensures r.Success? <==> maxContexts >= 0 || |fs| == 0
    ensures r.Success? ==> |r.value| == |fs|
    ensures r.Success? ==> forall i :: 0 <= i < |fs| ==>
      r.value[i].folder == WordFolder(root, fs[i].word, digest) && r.value[i].name == fs[i].word + ".txt.gz"
  {
    if |fs| > 0 && WriteContexts(root, digest, maxContexts, fs[0], rng, 0).Failure? then
      Failure(WriteContexts(root, digest, maxContexts, fs[0], rng, 0).error)
    else
      Success(seq(|fs|, i requires 0 <= i < |fs| => WriteContexts(root, digest, maxContexts, fs[i], rng, i).value))
  }

  /** The whole pipeline: scan the corpus, flush what is left, write every flush. */
  function Pipeline(vocab: seq<string>, maxContexts: int, window: int, lines: seq<Line>, order: seq<string>,
                    root: seq<string>, digest: string -> string, rng: (nat, nat) -> nat): Result<seq<FileWrite>, WriteError> {
    WriteAll(root, digest, maxContexts, Run(vocab, maxContexts, window, lines, order), rng)
  }

  /** The file of call `k` in a run, read back, against the flush it wrote. */
  lemma WrittenFile(root: seq<string>, digest: string -> string, maxContexts: int, fs: seq<Flush>, rng: (nat, nat) -> nat, k: nat)
    requires maxContexts >= 0 && k < |fs| && NoNewlines(fs[k].contexts)
    ensures var file := WriteAll(root, digest, maxContexts, fs, rng).value[k];
            var lines := ReadLines(file.body);
            && file.folder == WordFolder(root, fs[k].word, digest) && file.name == fs[k].word + ".txt.gz"
            && |lines| <= maxContexts
            && multiset(lines) <= multiset(fs[k].contexts)
            && (|fs[k].contexts| <= maxContexts ==> lines == fs[k].contexts)
  {
    assert WriteAll(root, digest, maxContexts, fs, rng).value[k] == WriteContexts(root, digest, maxContexts, fs[k], rng, k).value;
    WrittenRecords(root, digest, maxContexts, fs[k], rng, k);
  }

  /** End to end, for every vocabulary word: its file sits in the word's shard folder
      and, read back, holds at most `--max` of the word's records from the corpus;
      when the corpus has at most `--max` of them, the file holds all of them in
      corpus order. */
  lemma PipelineWritesWord(vocab: seq<string>, maxContexts: int, window: int, lines: seq<Line>, order: seq<string>,
                           root: seq<string>, digest: string -> string, rng: (nat, nat) -> nat, w: string)
    requires Enumerates(order, VocabSet(vocab)) && w in vocab && maxContexts >= 0
    requires NoNewlines(Records(CorpusContexts(lines, VocabSet(vocab), window), w))
    ensures Pipeline(vocab, maxContexts, window, lines, order, root, digest, rng).Success?
    ensures var files := Pipeline(vocab, maxContexts, window, lines, order, root, digest, rng).value;
            var all := Records(CorpusContexts(lines, VocabSet(vocab), window), w);
            exists i :: 0 <= i < |files| && files[i].folder == WordFolder(root, w, digest)
                     && files[i].name == w + ".txt.gz"
                     && |ReadLines(files[i].body)| <= maxContexts
                     && multiset(ReadLines(files[i].body)) <= multiset(all)
                     && (|all| <= maxContexts ==> ReadLines(files[i].body) == all)
  {
    var fs := Run(vocab, maxContexts, window, lines, order);
    var all := Records(CorpusContexts(lines, VocabSet(vocab), window), w);
    var q := Quota(PolicyOf(vocab, maxContexts), w);
    assert Pipeline(vocab, maxContexts, window, lines, order, root, digest, rng) == WriteAll(root, digest, maxContexts, fs, rng);
    var files := WriteAll(root, digest, maxContexts, fs, rng).value;
    RunWritesFirstRecords(vocab, maxContexts, window, lines, order, w);
    var k :| 0 <= k < |fs| && fs[k] == Flush(w, Prefix(all, q));
    var kept := Prefix(all, q);
    PrefixSubMultiset(all, q);
    SubMultisetNoNewlines(kept, all);
    WrittenFile(root, digest, maxContexts, fs, rng, k);
    var got := ReadLines(files[k].body);
    assert multiset(got) <= multiset(all);
    if |all| <= maxContexts {
      assert kept == all;
    }
    assert files[k].folder == WordFolder(root, w, digest) && files[k].name == w + ".txt.gz";
  }

  lemma PrefixSubMultiset(s: seq<string>, k: nat)
    ensures multiset(Prefix(s, k)) <= multiset(s)
  {
    assert s == Prefix(s, k) + s[|Prefix(s, k)|..];
  }
}
