/** `SimDeltaHandler.find_similar_pairs` in simdelta.py: words close to two senses
    of one word. The neighbour lists of the two senses are grouped by neighbour
    word; every pair of entries for the same word with different sense indices
    becomes a candidate scored by the smaller similarity; the 30 best candidates
    are returned, best first. */
module SimDelta {
  import opened PyText

  /** One neighbour `(w, s, sim)`: sense `s` of word `w` at similarity `sim`. */
  datatype Neighbor = Neighbor(word: string, sense: int, sim: real)

  /** An entry `(s, sim)` of one side of a `by_word` bucket. */
  datatype SenseSim = SenseSim(sense: int, sim: real)

  /** A tuple `(word, s1, s2, min(sim1, sim2))` of the result. */
  datatype Candidate = Candidate(word: string, s1: int, s2: int, score: real)

  /** The number of pairs returned. */
  const TopPairs: nat := 30

  /** Python's `min(a, b)`: the first argument unless the second is smaller. */
  function Min(a: real, b: real): (r: real)
    ensures r <= a && r <= b
    ensures r == a || r == b
  {
    if b < a then b else a
  }

  function WordsOf(ns: seq<Neighbor>): (r: seq<string>)
    ensures |r| == |ns|
    ensures forall i :: 0 <= i < |ns| ==> r[i] == ns[i].word
  {
    seq(|ns|, i requires 0 <= i < |ns| => ns[i].word)
  }

  predicate Distinct(s: seq<string>) {
    forall i, j :: 0 <= i < j < |s| ==> s[i] != s[j]
  }

  /** The position where `x` first occurs in `ws`. */
  function FirstIndex(ws: seq<string>, x: string): (i: nat)
    requires x in ws
    ensures i < |ws| && ws[i] == x && x !in ws[..i]
  {
    if ws[0] == x then 0
    else
      var i := 1 + FirstIndex(ws[1..], x);
      assert ws[..i] == [ws[0]] + ws[1..][..i - 1];
      i
  }

  /** The keys of the `defaultdict` after the words `ws` were looked up in turn: every
      word once, in the order of its first lookup (dicts keep insertion order). */
  function Keys(ws: seq<string>): (r: seq<string>)
    ensures forall x :: x in r <==> x in ws
    ensures Distinct(r)
  {
    if |ws| == 0 then []
    else
      var init := ws[..|ws| - 1];
      var d := Keys(init);
      assert ws == init + [ws[|ws| - 1]];
      if ws[|ws| - 1] in d then d else d + [ws[|ws| - 1]]
  }

  /** A first occurrence in a prefix is the first occurrence in the whole sequence. */
  lemma FirstIndexOfPrefix(ws: seq<string>, n: nat, x: string)
    requires n <= |ws| && x in ws[..n]
    ensures FirstIndex(ws, x) == FirstIndex(ws[..n], x)
  {
    var i := FirstIndex(ws[..n], x);
    var j := FirstIndex(ws, x);
    assert ws[i] == x;
  }

  /** The keys come in the order in which their words first occur. */
  predicate InFirstAppearanceOrder(ws: seq<string>) {
    forall i, j :: 0 <= i < j < |Keys(ws)| ==> FirstIndex(ws, Keys(ws)[i]) < FirstIndex(ws, Keys(ws)[j])
  }

  lemma {:induction false} KeysInFirstAppearanceOrder(ws: seq<string>)
    ensures InFirstAppearanceOrder(ws)
  {
    if |ws| > 0 {
      KeysInFirstAppearanceOrder(ws[..|ws| - 1]);
      KeysOrderExtends(ws);
    }
  }

  /** Looking up one more word keeps the keys in first-appearance order. */
  lemma KeysOrderExtends(ws: seq<string>)
    requires |ws| > 0 && InFirstAppearanceOrder(ws[..|ws| - 1])
    ensures InFirstAppearanceOrder(ws)
  {
    var n := |ws| - 1;
    var init := ws[..n];
    var d := Keys(init);
    forall x | x in d
      ensures FirstIndex(ws, x) == FirstIndex(init, x) < n
    {
      FirstIndexOfPrefix(ws, n, x);
    }
    if ws[n] in d {
      assert Keys(ws) == d;
    } else {
      assert ws[n] !in init;
      assert Keys(ws) == d + [ws[n]];
      forall i, j | 0 <= i < j < |Keys(ws)|
        ensures FirstIndex(ws, Keys(ws)[i]) < FirstIndex(ws, Keys(ws)[j])
      {
        assert Keys(ws)[i] == d[i];
        if j < |d| {
          assert Keys(ws)[j] == d[j];
        }
      }
    }
  }

  /** One side of the bucket of word `w`: the `(s, sim)` of its neighbours, in order. */
  function Entries(ns: seq<Neighbor>, w: string): (r: seq<SenseSim>)
    ensures |r| <= |ns|
  {
    if |ns| == 0 then []
    else (if ns[0].word == w then [SenseSim(ns[0].sense, ns[0].sim)] else []) + Entries(ns[1..], w)
  }

  /** An entry of a bucket side is exactly a neighbour of that word. */
  lemma {:induction false} EntriesMembership(ns: seq<Neighbor>, w: string, e: SenseSim)
    ensures e in Entries(ns, w) <==> exists i :: 0 <= i < |ns| && ns[i].word == w && e == SenseSim(ns[i].sense, ns[i].sim)
  {
    if |ns| > 0 {
      EntriesMembership(ns[1..], w, e);
      if e in Entries(ns[1..], w) {
        var i :| 0 <= i < |ns[1..]| && ns[1..][i].word == w && e == SenseSim(ns[1..][i].sense, ns[1..][i].sim);
        assert ns[i + 1] == ns[1..][i];
      }
      if exists i :: 0 <= i < |ns| && ns[i].word == w && e == SenseSim(ns[i].sense, ns[i].sim) {
        var i :| 0 <= i < |ns| && ns[i].word == w && e == SenseSim(ns[i].sense, ns[i].sim);
        if i > 0 {
          assert ns[1..][i - 1] == ns[i];
        }
      }
    }
  }

  /** The candidates that one fixed entry `a` of the first side forms with the entries
      of the second side, in order, skipping those with the same sense index. */
  function PairsWith(w: string, a: SenseSim, e2: seq<SenseSim>): (r: seq<Candidate>)
    ensures |r| <= |e2|
  {
    if |e2| == 0 then []
    else
      (if a.sense != e2[0].sense then [Candidate(w, a.sense, e2[0].sense, Min(a.sim, e2[0].sim))] else [])
      + PairsWith(w, a, e2[1..])
  }

  /** All candidates of one bucket: first-side entries outer, second-side entries inner. */
  function Row(w: string, e1: seq<SenseSim>, e2: seq<SenseSim>): (r: seq<Candidate>)
    ensures |r| <= |e1| * |e2|
  {
    if |e1| == 0 then [] else PairsWith(w, e1[0], e2) + Row(w, e1[1..], e2)
  }

  /** The candidates of the buckets of `keys`, bucket after bucket. */
  function RowsOf(keys: seq<string>, n1: seq<Neighbor>, n2: seq<Neighbor>): seq<Candidate> {
    if |keys| == 0 then []
    else Row(keys[0], Entries(n1, keys[0]), Entries(n2, keys[0])) + RowsOf(keys[1..], n1, n2)
  }

  /** The list `pairs` before sorting, for the neighbour lists of `sense_1` and `sense_2`. */
  function Candidates(n1: seq<Neighbor>, n2: seq<Neighbor>): seq<Candidate> {
    RowsOf(Keys(WordsOf(n1) + WordsOf(n2)), n1, n2)
  }

  lemma {:induction false} PairsWithMembership(w: string, a: SenseSim, e2: seq<SenseSim>, c: Candidate)
    ensures c in PairsWith(w, a, e2) <==>
      exists b :: b in e2 && a.sense != b.sense && c == Candidate(w, a.sense, b.sense, Min(a.sim, b.sim))
  {
    if |e2| > 0 {
      PairsWithMembership(w, a, e2[1..], c);
      assert forall b :: b in e2 <==> b == e2[0] || b in e2[1..];
    }
  }

  lemma {:induction false} RowMembership(w: string, e1: seq<SenseSim>, e2: seq<SenseSim>, c: Candidate)
    ensures c in Row(w, e1, e2) <==>
      exists a, b :: a in e1 && b in e2 && a.sense != b.sense && c == Candidate(w, a.sense, b.sense, Min(a.sim, b.sim))
  {
    if |e1| > 0 {
      RowMembership(w, e1[1..], e2, c);
      PairsWithMembership(w, e1[0], e2, c);
      assert forall a :: a in e1 <==> a == e1[0] || a in e1[1..];
    }
  }

  lemma {:induction false} RowsOfMembership(keys: seq<string>, n1: seq<Neighbor>, n2: seq<Neighbor>, c: Candidate)
    ensures c in RowsOf(keys, n1, n2) <==> c.word in keys && c in Row(c.word, Entries(n1, c.word), Entries(n2, c.word))
  {
    if |keys| > 0 {
      RowsOfMembership(keys[1..], n1, n2, c);
      RowMembership(keys[0], Entries(n1, keys[0]), Entries(n2, keys[0]), c);
      assert forall x :: x in keys <==> x == keys[0] || x in keys[1..];
    }
  }

  /** A candidate is exactly an entry `i` of the first list and an entry `j` of the
      second list for the same neighbour word, with different sense indices, scored
      by the smaller of their similarities. */
  predicate ProductEntry(n1: seq<Neighbor>, n2: seq<Neighbor>, c: Candidate) {
    exists i, j :: 0 <= i < |n1| && 0 <= j < |n2| && n1[i].word == c.word && n2[j].word == c.word
      && n1[i].sense != n2[j].sense
      && c == Candidate(c.word, n1[i].sense, n2[j].sense, Min(n1[i].sim, n2[j].sim))
  }

  /** Every element of the filtered product is a candidate, and nothing else is. */
  lemma CandidatesAreProduct(n1: seq<Neighbor>, n2: seq<Neighbor>, c: Candidate)
    ensures c in Candidates(n1, n2) <==> ProductEntry(n1, n2, c)
  {
    if c in Candidates(n1, n2) {
      CandidateIsProductEntry(n1, n2, c);
    }
    if ProductEntry(n1, n2, c) {
      ProductEntryIsCandidate(n1, n2, c);
    }
  }

  lemma CandidateIsProductEntry(n1: seq<Neighbor>, n2: seq<Neighbor>, c: Candidate)
    requires c in Candidates(n1, n2)
    ensures ProductEntry(n1, n2, c)
  {
    var w := c.word;
    RowsOfMembership(Keys(WordsOf(n1) + WordsOf(n2)), n1, n2, c);
    RowMembership(w, Entries(n1, w), Entries(n2, w), c);
    var a, b :| a in Entries(n1, w) && b in Entries(n2, w) && a.sense != b.sense
      && c == Candidate(w, a.sense, b.sense, Min(a.sim, b.sim));
    EntriesMembership(n1, w, a);
    EntriesMembership(n2, w, b);
    var i :| 0 <= i < |n1| && n1[i].word == w && a == SenseSim(n1[i].sense, n1[i].sim);
    var j :| 0 <= j < |n2| && n2[j].word == w && b == SenseSim(n2[j].sense, n2[j].sim);
    assert n1[i].sense != n2[j].sense;
  }

  lemma ProductEntryIsCandidate(n1: seq<Neighbor>, n2: seq<Neighbor>, c: Candidate)
    requires ProductEntry(n1, n2, c)
    ensures c in Candidates(n1, n2)
  {
    var w := c.word;
    var i, j :| 0 <= i < |n1| && 0 <= j < |n2| && n1[i].word == w && n2[j].word == w
      && n1[i].sense != n2[j].sense
      && c == Candidate(w, n1[i].sense, n2[j].sense, Min(n1[i].sim, n2[j].sim));
    var a := SenseSim(n1[i].sense, n1[i].sim);
    var b := SenseSim(n2[j].sense, n2[j].sim);
    EntriesMembership(n1, w, a);
    EntriesMembership(n2, w, b);
    RowMembership(w, Entries(n1, w), Entries(n2, w), c);
    assert (WordsOf(n1) + WordsOf(n2))[i] == w;
    RowsOfMembership(Keys(WordsOf(n1) + WordsOf(n2)), n1, n2, c);
  }

  /** A neighbour word found for only one of the two senses contributes no pairs. */
  lemma OneSidedWordContributesNothing(n1: seq<Neighbor>, n2: seq<Neighbor>, w: string)
    requires (forall i :: 0 <= i < |n1| ==> n1[i].word != w) || (forall j :: 0 <= j < |n2| ==> n2[j].word != w)
    ensures forall c :: c in Candidates(n1, n2) ==> c.word != w
  {
    forall c | c in Candidates(n1, n2)
      ensures c.word != w
    {
      CandidatesAreProduct(n1, n2, c);
    }
  }

  /** Non-increasing in score: `reverse=True` order. */
  predicate SortedDesc(s: seq<Candidate>) {
    forall i, j :: 0 <= i < j < |s| ==> s[i].score >= s[j].score
  }

  /** Insert `x`, which came before every element of `t`, into the sorted `t`: ahead
      of the first element with a score no higher, hence ahead of its ties. */
  function Insert(x: Candidate, t: seq<Candidate>): (r: seq<Candidate>)
    ensures |r| == |t| + 1
    ensures r[0] == x || (|t| > 0 && r[0] == t[0])
    ensures SortedDesc(t) ==> SortedDesc(r)
  {
    if |t| == 0 || x.score >= t[0].score then [x] + t
    else
      var rest := Insert(x, t[1..]);
      assert SortedDesc(t) ==> rest[0].score <= t[0].score by {
        if SortedDesc(t) && rest[0] != x {
          assert rest[0] == t[1..][0] == t[1];
        }
      }
      [t[0]] + rest
  }

  /** Inserting adds exactly `x`: nothing is lost or duplicated. */
  lemma {:induction false} InsertIsPermutation(x: Candidate, t: seq<Candidate>)
    ensures multiset(Insert(x, t)) == multiset([x] + t)
  {
    if |t| > 0 && x.score < t[0].score {
      InsertIsPermutation(x, t[1..]);
      assert t == [t[0]] + t[1..];
    }
  }

  /** The candidates sorted by score, highest first; the sort is stable, so equal
      scores keep their order. */
  function Sort(s: seq<Candidate>): (r: seq<Candidate>)
    ensures |r| == |s|
    ensures multiset(r) == multiset(s)
    ensures SortedDesc(r)
  {
    if |s| == 0 then []
    else
      assert s == [s[0]] + s[1..];
      InsertIsPermutation(s[0], Sort(s[1..]));
      Insert(s[0], Sort(s[1..]))
  }

  /** The candidates with score `v`, in order. */
  function WithScore(s: seq<Candidate>, v: real): (r: seq<Candidate>)
    ensures |r| <= |s|
  {
    if |s| == 0 then []
    else (if s[0].score == v then [s[0]] else []) + WithScore(s[1..], v)
  }

  lemma WithScoreCons(x: Candidate, t: seq<Candidate>, v: real)
    ensures WithScore([x] + t, v) == (if x.score == v then [x] else []) + WithScore(t, v)
  {
    assert ([x] + t)[1..] == t;
  }

  lemma {:induction false} InsertKeepsTies(x: Candidate, t: seq<Candidate>, v: real)
    ensures WithScore(Insert(x, t), v) == WithScore([x] + t, v)
  {
    if |t| > 0 && x.score < t[0].score {
      var rest := Insert(x, t[1..]);
      var head := if t[0].score == v then [t[0]] else [];
      var mine := if x.score == v then [x] else [];
      assert head == [] || mine == [];
      calc {
        WithScore(Insert(x, t), v);
      == { assert Insert(x, t) == [t[0]] + rest; WithScoreCons(t[0], rest, v); }
        head + WithScore(rest, v);
      == { InsertKeepsTies(x, t[1..], v); WithScoreCons(x, t[1..], v); }
        head + (mine + WithScore(t[1..], v));
      == { assert head == [] || mine == []; }
        mine + (head + WithScore(t[1..], v));
      == { assert [t[0]] + t[1..] == t; WithScoreCons(t[0], t[1..], v); }
        mine + WithScore(t, v);
      == { WithScoreCons(x, t, v); }
        WithScore([x] + t, v);
      }
    }
  }

  /** The sort is stable: candidates with equal scores keep their generation order. */
  lemma {:induction false} SortIsStable(s: seq<Candidate>, v: real)
    ensures WithScore(Sort(s), v) == WithScore(s, v)
  {
    if |s| > 0 {
      SortIsStable(s[1..], v);
      InsertKeepsTies(s[0], Sort(s[1..]), v);
      WithScoreCons(s[0], Sort(s[1..]), v);
      WithScoreCons(s[0], s[1..], v);
      assert [s[0]] + s[1..] == s;
    }
  }

  /** `find_similar_pairs`: the first 30 candidates after sorting, so every returned
      entry is a candidate, the entries come best first, and a candidate left out
      scores no higher than the last entry kept. */
  function FindSimilarPairs(n1: seq<Neighbor>, n2: seq<Neighbor>): (r: seq<Candidate>)
    ensures |r| == if |Candidates(n1, n2)| < TopPairs then |Candidates(n1, n2)| else TopPairs
    ensures SortedDesc(r)
    ensures forall k :: 0 <= k < |r| ==> r[k] in Candidates(n1, n2)
    ensures forall c :: c in Candidates(n1, n2) && c !in r ==> |r| == TopPairs && c.score <= r[TopPairs - 1].score
    ensures multiset(r) <= multiset(Candidates(n1, n2))
    ensures forall v :: WithScore(r, v) == Prefix(WithScore(Candidates(n1, n2), v), |WithScore(r, v)|)
  {
    var sorted := Sort(Candidates(n1, n2));
    TopOfSorted(Candidates(n1, n2), sorted, TopPairs);
    TopKeepsEarliestTies(Candidates(n1, n2), TopPairs);
    Prefix(sorted, TopPairs)
  }

  lemma {:induction false} WithScoreAppend(a: seq<Candidate>, b: seq<Candidate>, v: real)
    ensures WithScore(a + b, v) == WithScore(a, v) + WithScore(b, v)
  {
    if |a| > 0 {
      assert (a + b)[1..] == a[1..] + b;
      WithScoreAppend(a[1..], b, v);
    } else {
      assert a + b == b;
    }
  }

  /** The first `n` of the sorted candidates are a sub-multiset of the candidates and,
      among candidates of equal score, the earliest generated ones. */
  lemma TopKeepsEarliestTies(s: seq<Candidate>, n: nat)
    ensures multiset(Prefix(Sort(s), n)) <= multiset(s)
    ensures forall v :: WithScore(Prefix(Sort(s), n), v) == Prefix(WithScore(s, v), |WithScore(Prefix(Sort(s), n), v)|)
  {
    var sorted := Sort(s);
    var r := Prefix(sorted, n);
    assert sorted == r + sorted[|r|..];
    forall v
      ensures WithScore(r, v) == Prefix(WithScore(s, v), |WithScore(r, v)|)
    {
      WithScoreAppend(r, sorted[|r|..], v);
      SortIsStable(s, v);
      assert WithScore(s, v) == WithScore(r, v) + WithScore(sorted[|r|..], v);
    }
  }

  /** The first `n` elements of a sorted permutation of `s`: each is from `s`, and
      anything of `s` left out scores no higher than the last one kept. */
  lemma TopOfSorted(s: seq<Candidate>, sorted: seq<Candidate>, n: nat)
    requires multiset(sorted) == multiset(s) && SortedDesc(sorted)
    ensures var r := Prefix(sorted, n);
            && (forall k :: 0 <= k < |r| ==> r[k] in s)
            && (forall c :: c in s && c !in r ==> |r| == n && (n > 0 ==> c.score <= r[n - 1].score))
  {
    var r := Prefix(sorted, n);
    forall k | 0 <= k < |r|
      ensures r[k] in s
    {
      assert r[k] == sorted[k];
      assert sorted[k] in multiset(sorted);
    }
    forall c | c in s && c !in r
      ensures |r| == n && (n > 0 ==> c.score <= r[n - 1].score)
    {
      assert c in multiset(sorted);
      var i :| 0 <= i < |sorted| && sorted[i] == c;
      if n > 0 {
        assert sorted[n - 1] == r[n - 1];
      }
    }
  }

  /** Every returned pair has two different sense indices, and its score is the
      smaller of the two similarities of one neighbour word. */
  lemma ReturnedPairsAreProductEntries(n1: seq<Neighbor>, n2: seq<Neighbor>)
    ensures forall k :: 0 <= k < |FindSimilarPairs(n1, n2)| ==>
      ProductEntry(n1, n2, FindSimilarPairs(n1, n2)[k]) && FindSimilarPairs(n1, n2)[k].s1 != FindSimilarPairs(n1, n2)[k].s2
  {
    var r := FindSimilarPairs(n1, n2);
    forall k | 0 <= k < |r|
      ensures ProductEntry(n1, n2, r[k]) && r[k].s1 != r[k].s2
    {
      CandidateIsProductEntry(n1, n2, r[k]);
    }
  }
}
