// Whitespace handling: `re.sub(r"\s+", " ", text)`, which the chunker applies
// to the extracted document text, and str.strip(), which the answer step
// applies to the generated completion.

module Whitespace {
  import opened CharClass

  /** No two neighbouring characters are both whitespace. */
  predicate NoAdjacentSpaces(s: string)
  {
    forall i :: 0 <= i < |s| - 1 ==> !(IsSpace(s[i]) && IsSpace(s[i + 1]))
  }

  /** Every whitespace character is a plain space. */
  predicate OnlyPlainSpaces(s: string)
  {
    forall i :: 0 <= i < |s| ==> (IsSpace(s[i]) ==> s[i] == ' ')
  }

  /** The characters of `s` that are not whitespace, in their order. */
  function NonSpace(s: string): (r: string)
    ensures |r| <= |s|
    ensures forall i :: 0 <= i < |r| ==> !IsSpace(r[i])
  {
    if s == [] then []
    else if IsSpace(s[0]) then NonSpace(s[1..])
    else [s[0]] + NonSpace(s[1..])
  }

  /** The length of the leading run of whitespace of `s`. */
  function LeadingSpaces(s: string): (n: nat)
    ensures n <= |s|
    ensures forall i :: 0 <= i < n ==> IsSpace(s[i])
    ensures n < |s| ==> !IsSpace(s[n])
  {
    if s != [] && IsSpace(s[0]) then 1 + LeadingSpaces(s[1..]) else 0
  }

  /** The length of `s` without its trailing run of whitespace. */
  function ContentEnd(s: string): (n: nat)
    ensures n <= |s|
    ensures forall i :: n <= i < |s| ==> IsSpace(s[i])
    ensures 0 < n ==> !IsSpace(s[n - 1])
  {
    if s != [] && IsSpace(s[|s| - 1]) then ContentEnd(s[..|s| - 1]) else |s|
  }

  /** `s` without its leading run of whitespace. */
  function TrimStart(s: string): string
  {
    s[LeadingSpaces(s)..]
  }

  /** str.strip() with no argument: what is left of `s` after dropping the
      leading and the trailing run of whitespace. */
  function Strip(s: string): (r: string)
    ensures |r| <= |s|
    ensures r != [] ==> !IsSpace(r[0]) && !IsSpace(r[|r| - 1])
    ensures var k := LeadingSpaces(s);
            k + |r| <= |s| && s[k..k + |r|] == r &&
            (forall i :: k + |r| <= i < |s| ==> IsSpace(s[i]))
  {
    var t := TrimStart(s);
    t[..ContentEnd(t)]
  }

  /** `re.sub(r"\s+", " ", s)`: every maximal run of whitespace becomes a
      single plain space; everything else is kept. */
  function Normalize(s: string): (r: string)
    ensures |r| <= |s|
    ensures r == [] <==> s == []
    ensures r != [] ==> (IsSpace(r[0]) <==> IsSpace(s[0]))
    ensures r != [] && !IsSpace(s[0]) ==> r[0] == s[0]
    ensures NoAdjacentSpaces(r)
    ensures OnlyPlainSpaces(r)
    decreases |s|
  {
    if s == [] then []
    else if IsSpace(s[0]) then [' '] + Normalize(TrimStart(s[1..]))
    else [s[0]] + Normalize(s[1..])
  }

  /** Normalization keeps every non-whitespace character, in order. */
  lemma {:induction false} NormalizeKeepsNonSpace(s: string)
    ensures NonSpace(Normalize(s)) == NonSpace(s)
    decreases |s|
  {
    if s == [] {
    } else if IsSpace(s[0]) {
      var t := TrimStart(s[1..]);
      NormalizeKeepsNonSpace(t);
      NonSpaceOfSpaces(s[1..], LeadingSpaces(s[1..]));
      assert NonSpace([' '] + Normalize(t)) == NonSpace(Normalize(t));
    } else {
      NormalizeKeepsNonSpace(s[1..]);
      assert ([s[0]] + Normalize(s[1..]))[1..] == Normalize(s[1..]);
    }
  }

  /** Dropping a prefix made only of whitespace does not change NonSpace. */
  lemma {:induction false} NonSpaceOfSpaces(s: string, k: nat)
    requires k <= |s|
    requires forall i :: 0 <= i < k ==> IsSpace(s[i])
    ensures NonSpace(s) == NonSpace(s[k..])
  {
    if k > 0 {
      NonSpaceOfSpaces(s[1..], k - 1);
      assert s[1..][k - 1..] == s[k..];
    }
  }

  /** A text that is already normalized is its own normal form. */
  lemma {:induction false} NormalizeFixesNormal(s: string)
    requires NoAdjacentSpaces(s) && OnlyPlainSpaces(s)
    ensures Normalize(s) == s
    decreases |s|
  {
    if s != [] {
      if IsSpace(s[0]) {
        assert TrimStart(s[1..]) == s[1..];
      }
      NormalizeFixesNormal(s[1..]);
    }
  }

  /** Normalizing twice is the same as normalizing once. */
  lemma NormalizeIdempotent(s: string)
    ensures Normalize(Normalize(s)) == Normalize(s)
  {
    NormalizeFixesNormal(Normalize(s));
  }

  /** Leading whitespace is only searched for up to the first non-whitespace
      character: what follows it is kept as it is. */
  lemma TrimStartConcat(a: string, b: string)
    requires a != [] && !IsSpace(a[|a| - 1])
    ensures TrimStart(a + b) == TrimStart(a) + b
  {
    var n := LeadingSpaces(a);
    var m := LeadingSpaces(a + b);
    assert n < |a|;
    assert (a + b)[n] == a[n];
    assert m == n;
    assert (a + b)[n..] == a[n..] + b;
  }

  /** Normalization works piece by piece once a piece ends in a
      non-whitespace character: no run of whitespace spans the cut. */
  lemma {:induction false} NormalizeConcat(a: string, b: string)
    requires a != [] && !IsSpace(a[|a| - 1])
    ensures Normalize(a + b) == Normalize(a) + Normalize(b)
    decreases |a|, 1
  {
    if IsSpace(a[0]) {
      NormalizeConcatSpace(a, b);
    } else if |a| == 1 {
      assert (a + b)[1..] == b;
    } else {
      assert (a + b)[1..] == a[1..] + b;
      NormalizeConcat(a[1..], b);
    }
  }

  lemma {:induction false} NormalizeConcatSpace(a: string, b: string)
    requires a != [] && !IsSpace(a[|a| - 1]) && IsSpace(a[0])
    ensures Normalize(a + b) == Normalize(a) + Normalize(b)
    decreases |a|, 0
  {
    var s := a + b;
    var t := TrimStart(a[1..]);
    assert s[0] == a[0];
    assert Normalize(a) == [' '] + Normalize(t);
    assert s[1..] == a[1..] + b;
    TrimStartConcat(a[1..], b);
    assert Normalize(s) == [' '] + Normalize(t + b);
    TrimStartKeepsEnd(a[1..]);
    NormalizeConcat(t, b);
    AppendAssoc([' '], Normalize(t), Normalize(b));
  }

  lemma AppendAssoc(x: string, y: string, z: string)
    ensures x + (y + z) == (x + y) + z
  {
  }

  lemma TrimStartKeepsEnd(x: string)
    requires x != [] && !IsSpace(x[|x| - 1])
    ensures var t := TrimStart(x); t != [] && |t| <= |x| && t[|t| - 1] == x[|x| - 1]
  {
  }

  /** A non-empty run of whitespace becomes exactly one plain space. */
  lemma NormalizeSpaceRun(w: string)
    requires w != [] && forall i :: 0 <= i < |w| ==> IsSpace(w[i])
    ensures Normalize(w) == " "
  {
    assert LeadingSpaces(w[1..]) == |w| - 1;
  }

  /** Two words with whitespace between them come out with one space
      between them: the run is neither dropped nor kept as it was. */
  lemma NormalizeSeparates(a: string, w: string, b: string)
    requires a != [] && !IsSpace(a[|a| - 1])
    requires w != [] && forall i :: 0 <= i < |w| ==> IsSpace(w[i])
    requires b != [] && !IsSpace(b[0])
    ensures Normalize(a + w + b) == Normalize(a) + " " + Normalize(b)
  {
    assert a + w + b == a + (w + b);
    NormalizeConcat(a, w + b);
    NormalizeRunBefore(w, b);
  }

  /** A run of whitespace in front of a word becomes one space. */
  lemma NormalizeRunBefore(w: string, b: string)
    requires w != [] && forall i :: 0 <= i < |w| ==> IsSpace(w[i])
    requires b != [] && !IsSpace(b[0])
    ensures Normalize(w + b) == " " + Normalize(b)
  {
    var s := w + b;
    var rest := s[1..];
    assert rest == w[1..] + b;
    assert forall i :: 0 <= i < |w| - 1 ==> IsSpace(rest[i]);
    assert !IsSpace(rest[|w| - 1]);
    assert LeadingSpaces(rest) == |w| - 1;
    assert TrimStart(rest) == b;
  }
}
