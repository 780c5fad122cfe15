// A worked ranking example: the question "Where did the dog go?" against the
// chunks "the cat sat" and "a dog ran fast". Each chunk shares exactly one
// word with the question ("the" and "dog"), so both score 1 and the tie is
// broken by the chunk text in descending order, which puts "the cat sat"
// first.
//
// Several lemmas below take a literal string or word list as a parameter
// pinned by their `requires` (QuestionSplit, QuestionSpaced, the *WordList
// and *Spaced lemmas). This keeps each literal out of sight of its callers, so
// the solver does not unfold the long literals in every proof that uses
// them; with the literals written inline, the callers run out of resource.

module RankingExample {
  import opened CharClass
  import opened StringOrder
  import opened Retrieval

  /** A leading word followed by a separator is the first token. */
  lemma TokensWordFirst(w: string, rest: string)
    requires w != [] && AllWordChars(w) && (rest == [] || !IsWordChar(rest[0]))
    ensures Tokens(w + rest) == [w] + Tokens(rest)
  {
    var s := w + rest;
    WordRunCovers(s, |w|);
    assert s[..|w|] == w;
    assert s[|w|..] == rest;
  }

  /** A leading separator contributes no token. */
  lemma TokensSeparatorFirst(c: char, rest: string)
    requires !IsWordChar(c)
    ensures Tokens([c] + rest) == Tokens(rest)
  {
    assert ([c] + rest)[1..] == rest;
  }

  /** A text without word characters has no token. */
  lemma {:induction false} TokensNoWords(s: string)
    requires forall i :: 0 <= i < |s| ==> !IsWordChar(s[i])
    ensures Tokens(s) == []
  {
    if s != [] {
      TokensNoWords(s[1..]);
    }
  }

  /** The words separated by single spaces, then a tail. */
  function Spaced(ws: seq<string>, tail: string): string
  {
    if ws == [] then tail
    else if |ws| == 1 then ws[0] + tail
    else ws[0] + ([' '] + Spaced(ws[1..], tail))
  }

  /** Words separated by single spaces tokenize back into those words. */
  lemma {:induction false} TokensSpaced(ws: seq<string>, tail: string)
    requires forall i :: 0 <= i < |ws| ==> ws[i] != [] && AllWordChars(ws[i])
    requires forall i :: 0 <= i < |tail| ==> !IsWordChar(tail[i])
    ensures Tokens(Spaced(ws, tail)) == ws
  {
    TokensNoWords(tail);
    if |ws| == 1 {
      TokensWordFirst(ws[0], tail);
    } else if |ws| > 1 {
      var rest := Spaced(ws[1..], tail);
      TokensSpaced(ws[1..], tail);
      TokensSeparatorFirst(' ', rest);
      TokensWordFirst(ws[0], [' '] + rest);
      assert [ws[0]] + ws[1..] == ws;
    }
  }

  /** Lower-case ASCII letters, spaces and question marks. */
  predicate PlainLower(s: string)
  {
    forall i :: 0 <= i < |s| ==> ('a' <= s[i] <= 'z') || s[i] == ' ' || s[i] == '?'
  }

  /** Lowering leaves such a text unchanged. */
  lemma LowerKeepsPlain(s: string)
    requires PlainLower(s)
    ensures LowerString(s) == s
  {
  }

  lemma LowerConcat(a: string, b: string)
    ensures LowerString(a + b) == LowerString(a) + LowerString(b)
  {
  }

  lemma QuestionLower()
    ensures LowerString("Where did the dog go?") == Spaced(["where", "did", "the", "dog", "go"], "?")
  {
    var rest := " did the dog go?";
    QuestionSplit(rest);
    LowerConcat("Where", rest);
    LowerKeepsPlain(rest);
    LowerWhere();
    QuestionSpaced(rest);
  }

  lemma QuestionSplit(rest: string)
    requires rest == " did the dog go?"
    ensures "Where did the dog go?" == "Where" + rest
  {
  }

  lemma LowerWhere()
    ensures LowerString("Where") == "where"
  {
  }

  lemma QuestionSpaced(rest: string)
    requires rest == " did the dog go?"
    ensures Spaced(["where", "did", "the", "dog", "go"], "?") == "where" + rest
  {
    var ws := ["where", "did", "the", "dog", "go"];
    assert Spaced(ws[4..], "?") == "go?";
    assert Spaced(ws[3..], "?") == "dog" + (" " + "go?");
    assert Spaced(ws[2..], "?") == "the" + (" " + ("dog" + (" " + "go?")));
    assert Spaced(ws[1..], "?") == "did" + (" " + ("the" + (" " + ("dog" + (" " + "go?")))));
  }

  /** A non-empty run of lower-case ASCII letters. */
  predicate PlainWord(w: string)
  {
    w != [] && forall i :: 0 <= i < |w| ==> 'a' <= w[i] <= 'z'
  }

  /** The word set of a text whose lowered form is plain words separated by
      single spaces is the set of those words. */
  lemma WordSetOfSpaced(s: string, ws: seq<string>, tail: string)
    requires LowerString(s) == Spaced(ws, tail)
    requires forall i :: 0 <= i < |ws| ==> PlainWord(ws[i])
    requires forall i :: 0 <= i < |tail| ==> !IsWordChar(tail[i])
    ensures WordSet(s) == set t | t in ws
  {
    forall i | 0 <= i < |ws|
      ensures ws[i] != [] && AllWordChars(ws[i])
    {
      assert PlainWord(ws[i]);
    }
    TokensSpaced(ws, tail);
  }

  lemma QuestionWordList(qw: seq<string>)
    requires qw == ["where", "did", "the", "dog", "go"]
    ensures forall i :: 0 <= i < |qw| ==> PlainWord(qw[i])
    ensures (set t | t in qw) == {"where", "did", "the", "dog", "go"}
  {
  }

  lemma QuestionWords()
    ensures WordSet("Where did the dog go?") == {"where", "did", "the", "dog", "go"}
  {
    var qw := ["where", "did", "the", "dog", "go"];
    QuestionLower();
    QuestionWordList(qw);
    WordSetOfSpaced("Where did the dog go?", qw, "?");
  }

  lemma CatWordList(ws: seq<string>)
    requires ws == ["the", "cat", "sat"]
    ensures forall i :: 0 <= i < |ws| ==> PlainWord(ws[i])
    ensures (set t | t in ws) == {"the", "cat", "sat"}
  {
  }

  lemma CatSpaced(ws: seq<string>)
    requires ws == ["the", "cat", "sat"]
    ensures Spaced(ws, "") == "the cat sat"
  {
    assert Spaced(ws[2..], "") == "sat";
    assert Spaced(ws[1..], "") == "cat" + (" " + "sat");
  }

  lemma CatWords()
    ensures WordSet("the cat sat") == {"the", "cat", "sat"}
  {
    var ws := ["the", "cat", "sat"];
    LowerKeepsPlain("the cat sat");
    CatWordList(ws);
    CatSpaced(ws);
    WordSetOfSpaced("the cat sat", ws, "");
  }

  lemma DogWordList(ws: seq<string>)
    requires ws == ["a", "dog", "ran", "fast"]
    ensures forall i :: 0 <= i < |ws| ==> PlainWord(ws[i])
    ensures (set t | t in ws) == {"a", "dog", "ran", "fast"}
  {
  }

  lemma DogSpaced(ws: seq<string>)
    requires ws == ["a", "dog", "ran", "fast"]
    ensures Spaced(ws, "") == "a dog ran fast"
  {
    assert Spaced(ws[3..], "") == "fast";
    assert Spaced(ws[2..], "") == "ran" + (" " + "fast");
    assert Spaced(ws[1..], "") == "dog" + (" " + ("ran" + (" " + "fast")));
  }

  lemma DogWords()
    ensures WordSet("a dog ran fast") == {"a", "dog", "ran", "fast"}
  {
    var ws := ["a", "dog", "ran", "fast"];
    LowerKeepsPlain("a dog ran fast");
    DogWordList(ws);
    DogSpaced(ws);
    WordSetOfSpaced("a dog ran fast", ws, "");
  }

  /** The two chunks each share one word with the question. */
  lemma CatShared()
    ensures |{"the", "cat", "sat"} * {"where", "did", "the", "dog", "go"}| == 1
  {
    var a: set<string> := {"the", "cat", "sat"};
    var b: set<string> := {"where", "did", "the", "dog", "go"};
    assert "cat" !in b && "sat" !in b;
    assert a * b == {"the"};
  }

  lemma DogShared()
    ensures |{"a", "dog", "ran", "fast"} * {"where", "did", "the", "dog", "go"}| == 1
  {
    var a: set<string> := {"a", "dog", "ran", "fast"};
    var b: set<string> := {"where", "did", "the", "dog", "go"};
    assert "a" !in b && "ran" !in b && "fast" !in b;
    assert a * b == {"dog"};
  }

  lemma CatScore()
    ensures Score("Where did the dog go?", "the cat sat") == 1
  {
    QuestionWords();
    CatWords();
    CatShared();
  }

  lemma DogScore()
    ensures Score("Where did the dog go?", "a dog ran fast") == 1
  {
    QuestionWords();
    DogWords();
    DogShared();
  }

  /** Both chunks score 1, and the tie puts "the cat sat" ahead of "a dog
      ran fast" because it is the greater string. */
  lemma Scenario()
    ensures Relevant("Where did the dog go?", ["the cat sat", "a dog ran fast"], 2)
            == ["the cat sat", "a dog ran fast"]
  {
    var q := "Where did the dog go?";
    var c0, c1 := "the cat sat", "a dog ran fast";
    CatScore();
    DogScore();
    var k0, k1 := Scored(1, c0), Scored(1, c1);
    assert ScoreAll(q, [c0, c1]) == [k0, k1];
    assert LessEq(c1, c0);
    assert SortDesc([k1]) == [k1];
    assert SortDesc([k0, k1]) == [k0, k1];
    assert Positives([k0, k1]) == [c0, c1];
  }

  lemma DogWordSets()
    ensures WordSet("Dog") == {"dog"} && WordSet("dog") == {"dog"}
  {
    assert LowerString("Dog") == "dog";
    LowerKeepsPlain("dog");
    assert Spaced(["dog"], "") == "dog";
    WordSetOfSpaced("Dog", ["dog"], "");
    WordSetOfSpaced("dog", ["dog"], "");
  }

  /** Matching ignores case: "Dog" in a question matches "dog" in a chunk. */
  lemma CaseInsensitiveMatch()
    ensures Score("Dog", "dog") == 1
  {
    DogWordSets();
    assert {"dog"} * {"dog"} == {"dog"};
  }
}
