// The request handlers `ask` and `get_history` and the error mapping of
// `generate_answer_with_openai`. The completion service is a parameter: a
// function from (question, context) to generated text or a failure reason.
// The history table is the `history` field, kept in insertion (id) order.

module Handler {
  import opened CharClass
  import opened Whitespace
  import opened Retrieval

  const NOT_LOADED_ANSWER: string := "PDF is not loaded or missing."
  const AI_ERROR_PREFIX: string := "AI error: "
  const CONTEXT_SEPARATOR: string := "\n---\n"

  /** What the completion service gives back: the message content, or the
      text of the exception it raised. */
  datatype Completion = Generated(content: string) | Failed(reason: string)

  datatype Option<T> = None | Some(value: T)

  /** One row of the history table. */
  datatype QAPair = QAPair(question: string, answer: string)

  // ---------------------------------------------------------------------
  // Answers
  // ---------------------------------------------------------------------

  /** The answer stored for a completion: the message content stripped of
      surrounding whitespace, or the exception text behind a fixed prefix.
      A generated answer is the content after its leading whitespace, cut
      where only whitespace is left; a failure answer gives its reason
      back. */
  function AnswerText(result: Completion): (answer: string)
    ensures result.Generated? ==>
              |answer| <= |result.content| &&
              (answer != [] ==> !IsSpace(answer[0]) && !IsSpace(answer[|answer| - 1]))
    ensures result.Generated? ==>
              var k := LeadingSpaces(result.content);
              k + |answer| <= |result.content| &&
              result.content[k..k + |answer|] == answer &&
              forall i :: k + |answer| <= i < |result.content| ==> IsSpace(result.content[i])
    ensures result.Failed? ==> ErrorReason(answer) == Some(result.reason)
  {
    match result
    case Generated(content) => Strip(content)
    case Failed(reason) =>
      var answer := AI_ERROR_PREFIX + reason;
      assert answer[..|AI_ERROR_PREFIX|] == AI_ERROR_PREFIX;
      assert answer[|AI_ERROR_PREFIX|..] == reason;
      answer
  }

  /** Reads the failure reason back out of an answer: there is one exactly
      when the answer is the error prefix followed by some text, and it is
      that text. */
  function ErrorReason(answer: string): (r: Option<string>)
    ensures r.Some? ==> answer == AI_ERROR_PREFIX + r.value
    ensures r.Some? <==> exists t :: answer == AI_ERROR_PREFIX + t
  {
    if |AI_ERROR_PREFIX| <= |answer| && answer[..|AI_ERROR_PREFIX|] == AI_ERROR_PREFIX
    then
      assert answer == AI_ERROR_PREFIX + answer[|AI_ERROR_PREFIX|..];
      Some(answer[|AI_ERROR_PREFIX|..])
    else
      None
  }

  /** A failed completion becomes "AI error: " followed by the reason, and
      the reason can be read back from it. */
  lemma FailureAnswerRoundTrip(reason: string)
    ensures AnswerText(Failed(reason)) == AI_ERROR_PREFIX + reason
    ensures ErrorReason(AnswerText(Failed(reason))) == Some(reason)
  {
    var answer := AnswerText(Failed(reason));
    assert answer[..|AI_ERROR_PREFIX|] == AI_ERROR_PREFIX;
    assert answer[|AI_ERROR_PREFIX|..] == reason;
  }

  /** A text without surrounding whitespace is its own strip. */
  lemma StripKeeps(s: string)
    requires s != [] && !IsSpace(s[0]) && !IsSpace(s[|s| - 1])
    ensures Strip(s) == s
  {
    assert LeadingSpaces(s) == 0;
    assert ContentEnd(s) == |s|;
  }

  /** The answer channel cannot tell a failure from a completion whose text
      happens to look like one: both give the same answer string. */
  lemma FailureIndistinguishable(reason: string)
    requires reason != [] && !IsSpace(reason[|reason| - 1])
    ensures AnswerText(Generated(AI_ERROR_PREFIX + reason)) == AnswerText(Failed(reason))
  {
    var s := AI_ERROR_PREFIX + reason;
    assert s[0] == 'A';
    assert s[|s| - 1] == reason[|reason| - 1];
    StripKeeps(s);
  }

  // ---------------------------------------------------------------------
  // Context: `"\n---\n".join(context_chunks)`
  // ---------------------------------------------------------------------

  /** Python's `sep.join(pieces)`: joining nothing gives the empty text,
      and otherwise the joined text ends where the last piece ends. */
  function Join(pieces: seq<string>, sep: string): (r: string)
    ensures pieces == [] ==> r == []
    ensures pieces != [] ==> |r| == JoinOffset(pieces, sep, |pieces| - 1) + |pieces[|pieces| - 1]|
  {
    if pieces == [] then []
    else if |pieces| == 1 then pieces[0]
    else pieces[0] + sep + Join(pieces[1..], sep)
  }

  /** Where piece `i` starts in Join(pieces, sep). */
  function JoinOffset(pieces: seq<string>, sep: string, i: nat): nat
    requires i <= |pieces|
  {
    if i == 0 then 0 else |pieces[0]| + |sep| + JoinOffset(pieces[1..], sep, i - 1)
  }

  lemma SliceAfter(x: string, y: string, a: nat, b: nat)
    requires |x| <= a <= b <= |x| + |y|
    ensures (x + y)[a..b] == y[a - |x|..b - |x|]
  {
  }

  /** Piece `i` sits in the joined text at its offset, followed by the
      separator unless it is the last piece. */
  lemma {:induction false} JoinPieceAt(pieces: seq<string>, sep: string, i: nat)
    requires i < |pieces|
    ensures var r := Join(pieces, sep);
            var off := JoinOffset(pieces, sep, i);
            off + |pieces[i]| <= |r| && r[off..off + |pieces[i]|] == pieces[i] &&
            (i + 1 < |pieces| ==>
              off + |pieces[i]| + |sep| <= |r| &&
              r[off + |pieces[i]|..off + |pieces[i]| + |sep|] == sep)
  {
    if |pieces| > 1 {
      var head := pieces[0] + sep;
      var rest := Join(pieces[1..], sep);
      assert Join(pieces, sep) == head + rest;
      if i == 0 {
        assert (head + rest)[..|pieces[0]|] == pieces[0];
        assert (head + rest)[|pieces[0]|..|pieces[0]| + |sep|] == sep;
      } else {
        JoinPieceAt(pieces[1..], sep, i - 1);
        var off := JoinOffset(pieces[1..], sep, i - 1);
        var len := |pieces[i]|;
        assert pieces[1..][i - 1] == pieces[i];
        SliceAfter(head, rest, |head| + off, |head| + off + len);
        if i + 1 < |pieces| {
          SliceAfter(head, rest, |head| + off + len, |head| + off + len + |sep|);
        }
      }
    }
  }

  /** Piece `i` sits at its offset in `r`; the separator text follows it
      and the next piece starts right after that separator, and nothing
      follows the last piece. */
  predicate PieceAt(pieces: seq<string>, sep: string, r: string, i: nat)
    requires i < |pieces|
  {
    var off := JoinOffset(pieces, sep, i);
    off + |pieces[i]| <= |r| && r[off..off + |pieces[i]|] == pieces[i] &&
    (i + 1 < |pieces| ==>
      JoinOffset(pieces, sep, i + 1) == off + |pieces[i]| + |sep| &&
      off + |pieces[i]| + |sep| <= |r| &&
      r[off + |pieces[i]|..off + |pieces[i]| + |sep|] == sep) &&
    (i + 1 == |pieces| ==> |r| == off + |pieces[i]|)
  }

  /** `r` lays out `pieces` with `sep` between them; no pieces lay out as
      the empty text. */
  predicate LaidOut(pieces: seq<string>, sep: string, r: string)
  {
    (pieces == [] ==> r == []) &&
    forall i :: 0 <= i < |pieces| ==> PieceAt(pieces, sep, r, i)
  }

  /** The joined text lays the pieces out. */
  lemma JoinAllPieces(pieces: seq<string>, sep: string)
    ensures LaidOut(pieces, sep, Join(pieces, sep))
  {
    forall i | 0 <= i < |pieces|
      ensures PieceAt(pieces, sep, Join(pieces, sep), i)
    {
      JoinPieceAt(pieces, sep, i);
      if i + 1 < |pieces| {
        JoinOffsetStep(pieces, sep, i);
      }
    }
  }

  /** The context sent with a question: the relevant chunks, separated.
      Every chunk the ranker selected appears verbatim in it, in ranking
      order, one separator after the previous one, and the context ends with
      the last of them. */
  function Context(question: string, chunks: seq<string>): (ctx: string)
    ensures LaidOut(Relevant(question, chunks, DEFAULT_TOP_K), CONTEXT_SEPARATOR, ctx)
  {
    var rel := Relevant(question, chunks, DEFAULT_TOP_K);
    JoinAllPieces(rel, CONTEXT_SEPARATOR);
    Join(rel, CONTEXT_SEPARATOR)
  }

  lemma {:induction false} JoinOffsetStep(pieces: seq<string>, sep: string, i: nat)
    requires i < |pieces|
    ensures JoinOffset(pieces, sep, i + 1) == JoinOffset(pieces, sep, i) + |pieces[i]| + |sep|
  {
    if i > 0 {
      JoinOffsetStep(pieces[1..], sep, i - 1);
    }
  }

  // ---------------------------------------------------------------------
  // History
  // ---------------------------------------------------------------------

  /** The rows ordered by id, descending: newest first. */
  function NewestFirst(log: seq<QAPair>): (r: seq<QAPair>)
    ensures |r| == |log|
    ensures forall i :: 0 <= i < |log| ==> r[i] == log[|log| - 1 - i]
  {
    if log == [] then [] else [log[|log| - 1]] + NewestFirst(log[..|log| - 1])
  }

  /** Appending a row puts it at the head of the newest-first view and leaves
      the rest of the view as it was. */
  lemma NewestFirstAppend(log: seq<QAPair>, entry: QAPair)
    ensures NewestFirst(log + [entry]) == [entry] + NewestFirst(log)
  {
    assert (log + [entry])[..|log|] == log;
  }

  /** The question-answering service: its state is the history table. */
  class QaService {
    /** The rows of `qa_history`, oldest (lowest id) first. */
    var history: seq<QAPair>

    /** The service over the rows the `qa_history` table already holds. */
    constructor (rows: seq<QAPair>)
      ensures history == rows
    {
      history := rows;
    }

    /** `get_history`: every row, most recent first. */
    function GetHistory(): (h: seq<QAPair>)
      reads this
      ensures |h| == |history|
      ensures forall i :: 0 <= i < |h| ==> h[i] == history[|history| - 1 - i]
    {
      NewestFirst(history)
    }

    /** `ask`: without chunks the fixed sentinel comes back and nothing is
        stored; otherwise the relevant chunks are joined into the context,
        the completion result becomes the answer, and exactly one row
        (question, answer) is appended. */
    method Ask(question: string, chunks: seq<string>, complete: (string, string) -> Completion)
      returns (answer: string)
      modifies this
      ensures chunks == [] ==> answer == NOT_LOADED_ANSWER && history == old(history)
      ensures chunks != [] ==>
                answer == AnswerText(complete(question, Context(question, chunks))) &&
                history == old(history) + [QAPair(question, answer)]
      ensures chunks != [] ==> GetHistory() == [QAPair(question, answer)] + old(GetHistory())
    {
      if chunks == [] {
        return NOT_LOADED_ANSWER;
      }
      var contextChunks := FindRelevantChunks(question, chunks, DEFAULT_TOP_K);
      var context := Join(contextChunks, CONTEXT_SEPARATOR);
      answer := AnswerText(complete(question, context));
      NewestFirstAppend(history, QAPair(question, answer));
      history := history + [QAPair(question, answer)];
    }
  }
}
