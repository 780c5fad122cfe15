// The lexical-overlap ranker `find_relevant_chunks`: every chunk is scored
// by the number of distinct lower-cased words it shares with the question,
// the (score, chunk) pairs are sorted in descending tuple order, positive
// scores are kept (all chunks when none is positive) and the first `topK`
// chunks are returned.

module Retrieval {
  import opened CharClass
  import opened StringOrder

  const DEFAULT_TOP_K: nat := 3

  // ---------------------------------------------------------------------
  // Words: `re.findall(r'\w+', s)`
  // ---------------------------------------------------------------------

  predicate AllWordChars(t: string)
  {
    forall i :: 0 <= i < |t| ==> IsWordChar(t[i])
  }

  /** The length of the leading run of word characters of `s`. */
  function WordRun(s: string): (n: nat)
    ensures n <= |s|
    ensures forall i :: 0 <= i < n ==> IsWordChar(s[i])
    ensures n < |s| ==> !IsWordChar(s[n])
  {
    if s != [] && IsWordChar(s[0]) then 1 + WordRun(s[1..]) else 0
  }

  /** The matches of `\w+` in `s`, left to right. */
  function Tokens(s: string): (ts: seq<string>)
    ensures forall i :: 0 <= i < |ts| ==> ts[i] != [] && AllWordChars(ts[i])
    decreases |s|
  {
    if s == [] then []
    else if !IsWordChar(s[0]) then Tokens(s[1..])
    else
      var n := WordRun(s);
      [s[..n]] + Tokens(s[n..])
  }

  /** `t` occurs in `s` at offset `p` as a maximal run of word characters. */
  predicate RunAt(s: string, p: nat, t: string)
  {
    t != [] && p + |t| <= |s| && s[p..p + |t|] == t && AllWordChars(t) &&
    (p == 0 || !IsWordChar(s[p - 1])) &&
    (p + |t| == |s| || !IsWordChar(s[p + |t|]))
  }

  /** Cutting `s` just after a non-word character keeps the maximal runs
      that lie after the cut. */
  lemma RunShift(s: string, k: nat, p: nat, t: string)
    requires 0 < k <= |s| && !IsWordChar(s[k - 1]) && k <= p
    ensures RunAt(s, p, t) <==> RunAt(s[k..], p - k, t)
  {
    if p + |t| <= |s| {
      assert s[k..][p - k..p - k + |t|] == s[p..p + |t|];
      if p > k {
        assert s[k..][p - k - 1] == s[p - 1];
      }
      if p + |t| < |s| {
        assert s[k..][p - k + |t|] == s[p + |t|];
      }
    }
  }

  /** A prefix made of word characters lies inside the leading run. */
  lemma {:induction false} WordRunCovers(s: string, k: nat)
    requires k <= |s| && forall i :: 0 <= i < k ==> IsWordChar(s[i])
    ensures k <= WordRun(s)
  {
    if k > 0 {
      WordRunCovers(s[1..], k - 1);
    }
  }

  /** After a leading non-word character the tokens are those of the rest. */
  lemma TokensAfterSeparator(s: string, n: nat)
    requires n < |s| && !IsWordChar(s[n])
    ensures Tokens(s[n..]) == Tokens(s[n + 1..])
  {
    assert s[n..][1..] == s[n + 1..];
  }

  /** Every token is a maximal run of word characters of `s`. */
  lemma {:induction false} TokenRun(s: string, t: string) returns (p: nat)
    requires t in Tokens(s)
    ensures p <= |s| && RunAt(s, p, t)
    decreases |s|
  {
    if !IsWordChar(s[0]) {
      var q := TokenRun(s[1..], t);
      p := q + 1;
      RunShift(s, 1, p, t);
    } else {
      var n := WordRun(s);
      if t == s[..n] {
        p := 0;
      } else {
        assert t in Tokens(s[n..]);
        TokensAfterSeparator(s, n);
        var q := TokenRun(s[n + 1..], t);
        p := q + n + 1;
        RunShift(s, n + 1, p, t);
      }
    }
  }

  /** Every maximal run of word characters of `s` is a token. */
  lemma {:induction false} RunToken(s: string, p: nat, t: string)
    requires RunAt(s, p, t)
    ensures t in Tokens(s)
    decreases |s|
  {
    assert t[0] == s[p];
    if !IsWordChar(s[0]) {
      RunShift(s, 1, p, t);
      RunToken(s[1..], p - 1, t);
    } else {
      var n := WordRun(s);
      if p == 0 {
        WordRunCovers(s, |t|);
        assert |t| == n;
        assert t == s[..n];
      } else {
        assert n < p;
        TokensAfterSeparator(s, n);
        RunShift(s, n + 1, p, t);
        RunToken(s[n + 1..], p - n - 1, t);
      }
    }
  }

  /** The tokens of `s` are exactly its maximal runs of word characters. */
  lemma TokensAreMaximalRuns(s: string, t: string)
    ensures t in Tokens(s) <==> exists p: nat :: p <= |s| && RunAt(s, p, t)
  {
    if t in Tokens(s) {
      var p := TokenRun(s, t);
    }
    forall p: nat | p <= |s| && RunAt(s, p, t)
      ensures t in Tokens(s)
    {
      RunToken(s, p, t);
    }
  }

  /** `set(re.findall(r'\w+', s.lower()))`. */
  function WordSet(s: string): (ws: set<string>)
    ensures forall w :: w in ws ==> w != [] && AllWordChars(w)
  {
    set t | t in Tokens(LowerString(s))
  }

  /** A word belongs to WordSet(s) exactly when it is a maximal run of word
      characters of the lower-cased `s`. */
  lemma WordSetIsMaximalRuns(s: string, w: string)
    ensures w in WordSet(s) <==> exists p: nat :: p <= |s| && RunAt(LowerString(s), p, w)
  {
    TokensAreMaximalRuns(LowerString(s), w);
  }

  /** Lower-casing the input first does not change its word set. */
  lemma WordSetCaseInsensitive(s: string)
    ensures WordSet(LowerString(s)) == WordSet(s)
  {
    LowerStringIdempotent(s);
  }

  // ---------------------------------------------------------------------
  // Scores
  // ---------------------------------------------------------------------

  /** `len(chunk_words & question_words)`: never more than the distinct
      words of either side. */
  function Score(question: string, chunk: string): (n: nat)
    ensures n <= |WordSet(question)| && n <= |WordSet(chunk)|
  {
    var c, q := WordSet(chunk), WordSet(question);
    SubsetCard(c * q, q);
    SubsetCard(c * q, c);
    |c * q|
  }

  /** The score counts shared distinct words: it is symmetric, bounded by the
      number of distinct words of either side, and positive exactly when the
      two share a word. */
  lemma ScoreProperties(question: string, chunk: string)
    ensures Score(question, chunk) == Score(chunk, question)
    ensures Score(question, chunk) <= |WordSet(question)|
    ensures Score(question, chunk) <= |WordSet(chunk)|
    ensures Score(question, chunk) > 0 <==>
            exists w :: w in WordSet(question) && w in WordSet(chunk)
  {
    var q, c := WordSet(question), WordSet(chunk);
    assert c * q == q * c;
    if exists w :: w in q && w in c {
      var w :| w in q && w in c;
      assert w in c * q;
    }
  }

  lemma {:induction false} SubsetCard<T>(a: set<T>, b: set<T>)
    requires a <= b
    ensures |a| <= |b|
    decreases |b|
  {
    if a != {} {
      var x :| x in a;
      SubsetCard(a - {x}, b - {x});
    }
  }

  // ---------------------------------------------------------------------
  // Descending tuple order: `sorted(chunk_scores, reverse=True)`
  // ---------------------------------------------------------------------

  /** One `(score, chunk)` entry of `chunk_scores`. */
  datatype Scored = Scored(score: nat, chunk: string)

  /** `a >= b` on Python tuples: `a` may come before `b` in the descending
      sort. */
  predicate Before(a: Scored, b: Scored)
    ensures a.score != b.score ==> (Before(a, b) <==> a.score > b.score)
    ensures a.score == b.score && a.chunk != [] && b.chunk != [] && a.chunk[0] != b.chunk[0] ==>
              (Before(a, b) <==> a.chunk[0] > b.chunk[0])
    ensures a.score == b.score && |b.chunk| <= |a.chunk| && b.chunk == a.chunk[..|b.chunk|] ==>
              Before(a, b)
  {
    a.score > b.score || (a.score == b.score && LessEq(b.chunk, a.chunk))
  }

  /** On equal scores the first character where the two chunks differ
      decides, the larger first. */
  lemma BeforeFirstDifference(a: Scored, b: Scored, k: nat)
    requires a.score == b.score
    requires k < |a.chunk| && k < |b.chunk| && a.chunk[..k] == b.chunk[..k] && a.chunk[k] != b.chunk[k]
    ensures Before(a, b) <==> a.chunk[k] > b.chunk[k]
  {
    assert b.chunk[..k] == a.chunk[..k];
    assert LessEq(b.chunk, a.chunk) <==> b.chunk[k] < a.chunk[k];
  }

  lemma BeforeReflexive(a: Scored)
    ensures Before(a, a)
  {
    Reflexive(a.chunk);
  }

  lemma BeforeTotal(a: Scored, b: Scored)
    ensures Before(a, b) || Before(b, a)
  {
    Total(a.chunk, b.chunk);
  }

  lemma BeforeAntisymmetric(a: Scored, b: Scored)
    requires Before(a, b) && Before(b, a)
    ensures a == b
  {
    Antisymmetric(a.chunk, b.chunk);
  }

  lemma BeforeTransitive(a: Scored, b: Scored, c: Scored)
    requires Before(a, b) && Before(b, c)
    ensures Before(a, c)
  {
    if a.score == b.score == c.score {
      Transitive(c.chunk, b.chunk, a.chunk);
    }
  }

  predicate SortedDesc(s: seq<Scored>)
  {
    forall i, j :: 0 <= i < j < |s| ==> Before(s[i], s[j])
  }

  /** Inserts `x` into a descending sequence at its place. */
  function Insert(x: Scored, s: seq<Scored>): (r: seq<Scored>)
    requires SortedDesc(s)
    ensures SortedDesc(r)
    ensures multiset(r) == multiset(s) + multiset{x}
  {
    if s == [] then [x]
    else if Before(x, s[0]) then
      InsertFront(x, s);
      [x] + s
    else
      var rest := Insert(x, s[1..]);
      InsertBehind(x, s, rest);
      [s[0]] + rest
  }

  lemma InsertFront(x: Scored, s: seq<Scored>)
    requires SortedDesc(s) && s != [] && Before(x, s[0])
    ensures SortedDesc([x] + s)
  {
    forall j | 0 <= j < |s|
      ensures Before(x, s[j])
    {
      if j > 0 {
        BeforeTransitive(x, s[0], s[j]);
      }
    }
  }

  lemma InsertBehind(x: Scored, s: seq<Scored>, rest: seq<Scored>)
    requires SortedDesc(s) && s != [] && !Before(x, s[0])
    requires SortedDesc(rest) && multiset(rest) == multiset(s[1..]) + multiset{x}
    ensures SortedDesc([s[0]] + rest)
    ensures multiset([s[0]] + rest) == multiset(s) + multiset{x}
  {
    BeforeTotal(x, s[0]);
    forall j | 0 <= j < |rest|
      ensures Before(s[0], rest[j])
    {
      assert rest[j] in multiset(rest);
      if rest[j] != x {
        assert rest[j] in multiset(s[1..]);
        var k :| 0 <= k < |s[1..]| && s[1..][k] == rest[j];
        assert s[k + 1] == rest[j];
      }
    }
    assert s == [s[0]] + s[1..];
  }

  /** Python's `sorted(..., reverse=True)` on the (score, chunk) pairs. */
  function SortDesc(s: seq<Scored>): (r: seq<Scored>)
    ensures SortedDesc(r)
    ensures multiset(r) == multiset(s)
  {
    if s == [] then []
    else
      assert s == [s[0]] + s[1..];
      Insert(s[0], SortDesc(s[1..]))
  }

  /** Two descending arrangements of the same pairs are equal: whatever
      algorithm sorts them, the result is this one. */
  lemma {:induction false} SortedUnique(a: seq<Scored>, b: seq<Scored>)
    requires SortedDesc(a) && SortedDesc(b) && multiset(a) == multiset(b)
    ensures a == b
    decreases |a|
  {
    if a != [] {
      assert a[0] in multiset(b);
      assert b[0] in multiset(a);
      var i :| 0 <= i < |a| && a[i] == b[0];
      var j :| 0 <= j < |b| && b[j] == a[0];
      BeforeReflexive(a[0]);
      BeforeReflexive(b[0]);
      assert Before(a[0], a[i]);
      assert Before(b[0], b[j]);
      BeforeAntisymmetric(a[0], b[0]);
      assert a == [a[0]] + a[1..];
      assert b == [b[0]] + b[1..];
      assert multiset(a) == multiset{a[0]} + multiset(a[1..]);
      assert multiset(b) == multiset{b[0]} + multiset(b[1..]);
      calc {
        multiset(a[1..]);
        multiset(a) - multiset{a[0]};
        multiset(b) - multiset{b[0]};
        multiset(b[1..]);
      }
      SortedUnique(a[1..], b[1..]);
    }
  }

  // ---------------------------------------------------------------------
  // Selection
  // ---------------------------------------------------------------------

  /** `[c for _, c in pairs]`. */
  function Texts(s: seq<Scored>): (r: seq<string>)
    ensures |r| == |s|
    ensures forall i :: 0 <= i < |s| ==> r[i] == s[i].chunk
  {
    if s == [] then [] else [s[0].chunk] + Texts(s[1..])
  }

  /** `[c for s, c in pairs if s > 0]`. */
  function Positives(s: seq<Scored>): (r: seq<string>)
    ensures |r| <= |s|
  {
    if s == [] then []
    else if s[0].score > 0 then [s[0].chunk] + Positives(s[1..])
    else Positives(s[1..])
  }

  /** Python's `s[:k]` for a non-negative `k`. */
  function Take(s: seq<string>, k: nat): (r: seq<string>)
    ensures |r| == if k < |s| then k else |s|
    ensures r == s[..|r|]
    ensures multiset(r) <= multiset(s)
  {
    if k < |s| then
      assert s == s[..k] + s[k..];
      s[..k]
    else s
  }

  /** The positive-score chunks are some of the chunks. */
  lemma {:induction false} PositivesWithin(s: seq<Scored>)
    ensures multiset(Positives(s)) <= multiset(Texts(s))
  {
    if s != [] {
      PositivesWithin(s[1..]);
      assert Texts(s) == [s[0].chunk] + Texts(s[1..]);
    }
  }

  /** The selection step after the sort: keep the positive-score chunks in
      sorted order, fall back to all of them when none is positive, and cut
      to `topK`. The
      result has min(topK, size of the kept list) chunks, all drawn from the
      kept list. */
  function Select(sorted: seq<Scored>, topK: nat): (r: seq<string>)
    ensures var n := if Positives(sorted) != [] then |Positives(sorted)| else |sorted|;
            |r| == (if topK < n then topK else n)
    ensures multiset(r) <= multiset(Texts(sorted))
    ensures Positives(sorted) != [] ==> multiset(r) <= multiset(Positives(sorted))
  {
    var positive := Positives(sorted);
    PositivesWithin(sorted);
    Take(if positive != [] then positive else Texts(sorted), topK)
  }

  /** The pair a chunk contributes to `chunk_scores`. */
  function Key(question: string, chunk: string): Scored
  {
    Scored(Score(question, chunk), chunk)
  }

  /** `chunk_scores` as the scoring loop builds it: one (score, chunk) entry
      per chunk, in chunk order. */
  function ScoreAll(question: string, chunks: seq<string>): (r: seq<Scored>)
    ensures |r| == |chunks|
    ensures forall i :: 0 <= i < |chunks| ==> r[i] == Key(question, chunks[i])
  {
    if chunks == [] then [] else [Key(question, chunks[0])] + ScoreAll(question, chunks[1..])
  }

  /** The result of `find_relevant_chunks(question, chunks, topK)`: at most
      `topK` chunks and at most all of them, each taken from the input as a
      multiset sub-collection; no chunks give no result. */
  function Relevant(question: string, chunks: seq<string>, topK: nat): (r: seq<string>)
    ensures |r| <= topK && |r| <= |chunks|
    ensures multiset(r) <= multiset(chunks)
    ensures chunks == [] ==> r == []
  {
    SortedViews(question, chunks);
    Select(SortDesc(ScoreAll(question, chunks)), topK)
  }

  /** `find_relevant_chunks`: the scoring loop, then sort and selection. */
  method FindRelevantChunks(question: string, chunks: seq<string>, topK: nat)
    returns (relevant: seq<string>)
    ensures relevant == Relevant(question, chunks, topK)
  {
    var questionWords := WordSet(question);
    var chunkScores: seq<Scored> := [];
    for i := 0 to |chunks|
      invariant |chunkScores| == i
      invariant forall j :: 0 <= j < i ==> chunkScores[j] == Key(question, chunks[j])
    {
      var chunkWords := WordSet(chunks[i]);
      var score := |chunkWords * questionWords|;
      chunkScores := chunkScores + [Scored(score, chunks[i])];
    }
    assert chunkScores == ScoreAll(question, chunks);
    relevant := Select(SortDesc(chunkScores), topK);
  }

  // ---------------------------------------------------------------------
  // Properties of the selection
  // ---------------------------------------------------------------------

  /** The chunks of `chunks` that share a word with the question, in order. */
  function PositiveChunks(question: string, chunks: seq<string>): (r: seq<string>)
    ensures |r| <= |chunks|
    ensures forall i :: 0 <= i < |r| ==> Score(question, r[i]) > 0
    ensures forall c :: c in r ==> c in chunks
    ensures forall c :: c in chunks && Score(question, c) > 0 ==> c in r
  {
    if chunks == [] then []
    else if Score(question, chunks[0]) > 0
    then [chunks[0]] + PositiveChunks(question, chunks[1..])
    else PositiveChunks(question, chunks[1..])
  }

  /** In a descending sequence the positive scores form a prefix, so the
      positive chunks are the first ones. */
  lemma {:induction false} PositivesPrefix(s: seq<Scored>)
    requires SortedDesc(s)
    ensures var m := |Positives(s)|;
            Positives(s) == Texts(s)[..m] &&
            (forall i :: 0 <= i < m ==> s[i].score > 0) &&
            (forall i :: m <= i < |s| ==> s[i].score == 0)
  {
    if s != [] {
      PositivesPrefix(s[1..]);
      if s[0].score == 0 {
        assert forall i :: 0 <= i < |s| - 1 ==> s[1..][i].score == 0 by {
          forall i | 0 <= i < |s| - 1
            ensures s[1..][i].score == 0
          {
            assert Before(s[0], s[i + 1]);
          }
        }
        assert Positives(s[1..]) == [];
      }
    }
  }

  lemma {:induction false} TextsInsert(x: Scored, s: seq<Scored>)
    requires SortedDesc(s)
    ensures multiset(Texts(Insert(x, s))) == multiset(Texts(s)) + multiset{x.chunk}
  {
    var r := Insert(x, s);
    if s == [] || Before(x, s[0]) {
      assert r[1..] == s;
    } else {
      assert r[1..] == Insert(x, s[1..]);
      TextsInsert(x, s[1..]);
    }
  }

  lemma {:induction false} PositivesInsert(x: Scored, s: seq<Scored>)
    requires SortedDesc(s)
    ensures multiset(Positives(Insert(x, s))) ==
            multiset(Positives(s)) + (if x.score > 0 then multiset{x.chunk} else multiset{})
  {
    var r := Insert(x, s);
    if s == [] || Before(x, s[0]) {
      assert r[1..] == s;
    } else {
      assert r[1..] == Insert(x, s[1..]);
      PositivesInsert(x, s[1..]);
    }
  }

  /** Sorting moves the pairs around but keeps the multiset of chunks and
      the multiset of positive-score chunks. */
  lemma {:induction false} TextsSortDesc(s: seq<Scored>)
    ensures multiset(Texts(SortDesc(s))) == multiset(Texts(s))
    ensures multiset(Positives(SortDesc(s))) == multiset(Positives(s))
  {
    if s != [] {
      TextsSortDesc(s[1..]);
      TextsInsert(s[0], SortDesc(s[1..]));
      PositivesInsert(s[0], SortDesc(s[1..]));
    }
  }

  lemma {:induction false} ScoreAllViews(question: string, chunks: seq<string>)
    ensures Texts(ScoreAll(question, chunks)) == chunks
    ensures Positives(ScoreAll(question, chunks)) == PositiveChunks(question, chunks)
  {
    if chunks != [] {
      ScoreAllViews(question, chunks[1..]);
      assert ScoreAll(question, chunks)[1..] == ScoreAll(question, chunks[1..]);
    }
  }

  /** The sorted pairs carry the input chunks and the positive-score input
      chunks, each as the same multiset. */
  lemma SortedViews(question: string, chunks: seq<string>)
    ensures var s := SortDesc(ScoreAll(question, chunks));
            |s| == |chunks| &&
            multiset(Texts(s)) == multiset(chunks) &&
            multiset(Positives(s)) == multiset(PositiveChunks(question, chunks)) &&
            |Positives(s)| == |PositiveChunks(question, chunks)|
  {
    var a := ScoreAll(question, chunks);
    var s := SortDesc(a);
    TextsSortDesc(a);
    ScoreAllViews(question, chunks);
    assert |multiset(Positives(s))| == |Positives(s)|;
    assert |multiset(PositiveChunks(question, chunks))| == |PositiveChunks(question, chunks)|;
    assert |multiset(Texts(s))| == |s|;
  }

  /** Every pair in the sorted list is the pair of its chunk. */
  lemma SortedKeys(question: string, chunks: seq<string>, s: seq<Scored>)
    requires s == SortDesc(ScoreAll(question, chunks))
    ensures forall i :: 0 <= i < |s| ==> s[i] == Key(question, s[i].chunk) && s[i].chunk in chunks
  {
    var a := ScoreAll(question, chunks);
    forall i | 0 <= i < |s|
      ensures s[i] == Key(question, s[i].chunk) && s[i].chunk in chunks
    {
      assert s[i] in multiset(a);
      var j :| 0 <= j < |a| && a[j] == s[i];
    }
  }

  /** The pair of every input chunk is somewhere in the sorted list. */
  lemma KeyInSorted(question: string, chunks: seq<string>, c: string) returns (j: nat)
    requires c in chunks
    ensures var s := SortDesc(ScoreAll(question, chunks));
            j < |s| && s[j] == Key(question, c)
  {
    var a := ScoreAll(question, chunks);
    var s := SortDesc(a);
    var k :| 0 <= k < |chunks| && chunks[k] == c;
    assert a[k] in multiset(s);
    j :| 0 <= j < |s| && s[j] == a[k];
  }

  /** On a descending list the selection is a prefix of the list: of its
      positive part when there is one, of the whole list otherwise. */
  lemma SelectPrefix(s: seq<Scored>, topK: nat)
    requires SortedDesc(s)
    ensures var r := Select(s, topK);
            var m := |Positives(s)|;
            r == Texts(s)[..|r|] &&
            (m > 0 ==> |r| == (if topK < m then topK else m) && r == Positives(s)[..|r|]) &&
            (m == 0 ==> |r| == (if topK < |s| then topK else |s|))
  {
    PositivesPrefix(s);
  }

  /** When some chunk shares a word with the question, only such chunks are
      returned: min(topK, their number) of them, and all of them when fewer
      than `topK` exist. */
  lemma RelevantWhenSomeMatch(question: string, chunks: seq<string>, topK: nat)
    requires PositiveChunks(question, chunks) != []
    ensures var r := Relevant(question, chunks, topK);
            var p := PositiveChunks(question, chunks);
            (forall i :: 0 <= i < |r| ==> Score(question, r[i]) > 0) &&
            |r| == (if topK < |p| then topK else |p|) &&
            multiset(r) <= multiset(p) &&
            (|r| < topK ==> multiset(r) == multiset(p))
  {
    var s := SortDesc(ScoreAll(question, chunks));
    var r := Relevant(question, chunks, topK);
    RelevantScoresPositive(question, chunks, topK);
    SortedViews(question, chunks);
    SelectPrefix(s, topK);
    if |r| < topK {
      assert r == Positives(s);
    }
  }

  lemma RelevantScoresPositive(question: string, chunks: seq<string>, topK: nat)
    requires PositiveChunks(question, chunks) != []
    ensures var r := Relevant(question, chunks, topK);
            forall i :: 0 <= i < |r| ==> Score(question, r[i]) > 0
  {
    var s := SortDesc(ScoreAll(question, chunks));
    var r := Relevant(question, chunks, topK);
    SelectPrefix(s, topK);
    SortedViews(question, chunks);
    SortedKeys(question, chunks, s);
    PositivesPrefix(s);
    forall i | 0 <= i < |r|
      ensures Score(question, r[i]) > 0
    {
      assert r[i] == s[i].chunk;
    }
  }

  /** When no chunk shares a word with the question, the fallback returns
      min(topK, |chunks|) chunks, and all of them when fewer than `topK`
      exist. */
  lemma RelevantFallback(question: string, chunks: seq<string>, topK: nat)
    requires forall i :: 0 <= i < |chunks| ==> Score(question, chunks[i]) == 0
    ensures var r := Relevant(question, chunks, topK);
            |r| == (if topK < |chunks| then topK else |chunks|) &&
            (|r| < topK ==> multiset(r) == multiset(chunks))
  {
    var s := SortDesc(ScoreAll(question, chunks));
    NoPositiveChunks(question, chunks);
    SelectPrefix(s, topK);
    SortedViews(question, chunks);
  }

  lemma {:induction false} NoPositiveChunks(question: string, chunks: seq<string>)
    requires forall i :: 0 <= i < |chunks| ==> Score(question, chunks[i]) == 0
    ensures PositiveChunks(question, chunks) == []
  {
    if chunks != [] {
      NoPositiveChunks(question, chunks[1..]);
    }
  }

  /** The result is in descending (score, chunk) order: scores never
      increase, and equal scores come with non-increasing chunk text. */
  lemma RelevantOrdered(question: string, chunks: seq<string>, topK: nat)
    ensures var r := Relevant(question, chunks, topK);
            forall i, j :: 0 <= i < j < |r| ==>
              Score(question, r[i]) > Score(question, r[j]) ||
              (Score(question, r[i]) == Score(question, r[j]) && LessEq(r[j], r[i]))
  {
    var s := SortDesc(ScoreAll(question, chunks));
    SelectPrefix(s, topK);
    SortedKeys(question, chunks, s);
    var r := Relevant(question, chunks, topK);
    forall i, j | 0 <= i < j < |r|
      ensures Before(Key(question, r[i]), Key(question, r[j]))
    {
      assert r[i] == s[i].chunk && r[j] == s[j].chunk;
      assert j < |s|;
      assert s[i] == Key(question, s[i].chunk);
      assert s[j] == Key(question, s[j].chunk);
      assert Before(s[i], s[j]);
    }
  }

  /** No chunk that ranks at least as high as a returned chunk is left out:
      the result holds the top of the ranking. */
  lemma RelevantIsTop(question: string, chunks: seq<string>, topK: nat, i: nat, c: string)
    requires i < |Relevant(question, chunks, topK)| && c in chunks
    requires Before(Key(question, c), Key(question, Relevant(question, chunks, topK)[i]))
    ensures c in Relevant(question, chunks, topK)
  {
    var s := SortDesc(ScoreAll(question, chunks));
    var r := Relevant(question, chunks, topK);
    SelectPrefix(s, topK);
    SortedKeys(question, chunks, s);
    var j := KeyInSorted(question, chunks, c);
    assert r[i] == s[i].chunk;
    assert s[i] == Key(question, r[i]);
    if j <= i {
      assert r[j] == s[j].chunk == c;
    } else {
      assert Before(s[i], s[j]);
      BeforeAntisymmetric(s[i], s[j]);
      assert c == r[i];
    }
  }
}
