# qa_docs backend: chunking, ranking and the ask/history handlers

This project models the logic of `backend/main.py`, a small question-answering
service over one PDF document. It has three parts:

- **Chunking.** The document text is normalized: every run of whitespace
  becomes one space. The text is then cut into windows of `chunk_size`
  characters (default 500), and each window starts `chunk_size - overlap`
  characters after the previous one (the default overlap is 100, so the
  default stride is 400).
- **Ranking.** `find_relevant_chunks` scores every chunk by the number of
  distinct lower-cased `\w+` words it shares with the question. It sorts the
  `(score, chunk)` pairs in descending tuple order and keeps the positive
  scores; when no score is positive it keeps all chunks instead. It then
  returns the first `top_k` chunks (default 3).
- **Handlers.** `ask` answers from the chunk list. With no chunks it returns
  a fixed sentinel and stores nothing. Otherwise it joins the relevant chunks
  with `"\n---\n"` into a context, asks the completion service, and stores
  one (question, answer) row. A failure of the service becomes the answer
  `"AI error: " + reason`. `get_history` returns the stored rows, newest
  first.

Modules, one file each:

- `chars.dfy` (`CharClass`): the character classes `\s` and `\w`, and per-character `lower()`.
- `whitespace.dfy` (`Whitespace`): `re.sub(r"\s+", " ", ...)` and `str.strip()`.
- `chunking.dfy` (`Chunking`): the chunking loop of `extract_pdf_chunks`, as a `while` loop proved against the function `Chunks`.
- `string_order.dfy` (`StringOrder`): Python's code-point ordering of `str`.
- `retrieval.dfy` (`Retrieval`): `find_relevant_chunks`. Its scoring `for` loop is proved against `Relevant`, and the ranking properties are lemmas about `Relevant`.
- `handler.dfy` (`Handler`): the answer mapping and the context join. The class `QaService` holds the history table as a `seq` field and has the methods `Ask` and `GetHistory`.
- `ranking_example.dfy` (`RankingExample`): one ranking worked out in full.

The completion service is a parameter of `Ask`: a function from
(question, context) to `Generated(content)` or `Failed(reason)`. The chunk
list, which the program loads once at start-up, is also a parameter.

The ranking follows the code, not a reading of it by word relevance alone.
For the question "Where did the dog go?" and the chunks "the cat sat" and
"a dog ran fast", both chunks share one word with the question ("the" and
"dog"). Both therefore score 1. The tie is broken by the chunk text in
descending order, so "the cat sat" comes first
(`RankingExample.Scenario`).

## Model

| member | source | states |
|---|---|---|
| CharClass.IsSpace | backend/main.py:38 | `\s` is the str.isspace() set, and no whitespace character is a word character |
| CharClass.IsWordChar | backend/main.py:103 | on ASCII, `\w` is exactly the letters, digits and underscore |
| CharClass.LowerFoldsCase | backend/main.py:103-106 | an upper-case letter and its lower-case partner both lower-case to the lower-case letter: ASCII, Latin-1, basic Cyrillic (U+0400-045F), the paired Cyrillic letters of U+0460-04FF (upper case even, except U+04C1-04CE where it is odd) and U+04C0 with U+04CF |
| CharClass.Lower | backend/main.py:103 | lower-casing one character keeps it a word character, or a non-word character, and keeps it whitespace, or not |
| Whitespace.Normalize | backend/main.py:38 | the normalized text is empty exactly when the input is, is no longer than the input, has no two adjacent whitespace characters, and has only plain spaces as whitespace; it starts with whitespace exactly when the input does |
| Whitespace.NormalizeSpaceRun | backend/main.py:38 | a non-empty run made only of whitespace becomes exactly one plain space |
| Whitespace.NormalizeConcat | backend/main.py:38 | a text cut just after a non-whitespace character normalizes piece by piece: no whitespace run spans the cut |
| Whitespace.NormalizeSeparates | backend/main.py:38 | two words with a whitespace run between them come out with exactly one space between them |
| Whitespace.NormalizeKeepsNonSpace | backend/main.py:38 | the non-whitespace characters of the input survive normalization unchanged and in their order |
| Whitespace.NormalizeIdempotent | backend/main.py:38 | normalizing a normalized text changes nothing |
| Whitespace.NormalizeFixesNormal | backend/main.py:38 | a text with no adjacent whitespace and only plain spaces is its own normal form |
| Whitespace.Strip | backend/main.py:131 | the stripped text neither starts nor ends with whitespace; it is the slice of the input after its leading whitespace, and only whitespace follows it in the input |
| Chunking.ExtractChunks | backend/main.py:38-47 | the loop returns exactly the windows of the normalized text that start at 0, stride, 2*stride, ... while the start is inside the text |
| Chunking.Chunks | backend/main.py:41-46 | the loop's chunks of a normalized text: none exactly when the text is empty, and every chunk non-empty and at most chunk_size long |
| Chunking.ChunkAt | backend/main.py:41-46 | there are ceil(len(text) / stride) chunks, and chunk i is text[i*stride .. min(i*stride + chunk_size, len(text))] |
| Chunking.DefaultChunking | backend/main.py:26-46 | with the defaults chunk_size=500 and overlap=100 the parameters are valid, chunk i is the text from 400*i for up to 500 characters, and every chunk but the last is longer than 400 characters, its part from character 400 on opening the next chunk (100 characters for a full chunk) |
| Chunking.CeilDiv | backend/main.py:42-46 | the chunk count k is the least k with len(text) <= k*stride |
| Chunking.WindowsFromBounds | backend/main.py:42-45 | every window that starts inside the text is non-empty and at most chunk_size long |
| Chunking.LastChunkReachesEnd | backend/main.py:42-46 | with overlap >= 0, the last chunk is the window that starts at its stride offset (len(chunks)-1)*stride and runs to the end of the text |
| Chunking.ChunksReassemble | backend/main.py:40-46 | with overlap >= 0, chunk 0 followed by every later chunk minus its first overlap characters is the normalized text |
| Chunking.JoinTailsOfWindows | backend/main.py:42-46 | the windows from any start, each minus its overlap, continue the text exactly from start + overlap |
| Chunking.BlankDocument | backend/main.py:38-47 | a non-empty document made only of whitespace gives the single chunk " " |
| Chunking.ExtractChunksOfNormalized | backend/main.py:38-47 | a document gives no chunks exactly when it is empty, and chunking its normalized text again gives the same chunks |
| StringOrder.LessEq | backend/main.py:110 | Python's `<=` on strings: the first differing code point decides, a string sorts at or before every string it is a prefix of, and strictly after its proper prefixes |
| StringOrder.Total | backend/main.py:110 | any two strings are comparable under Python's `<=` |
| StringOrder.Antisymmetric | backend/main.py:110 | two strings each `<=` the other are equal |
| StringOrder.Transitive | backend/main.py:110 | Python's `<=` on strings is transitive |
| Retrieval.Tokens | backend/main.py:103 | every match of `\w+` is a non-empty run of word characters |
| Retrieval.TokensAreMaximalRuns | backend/main.py:103 | a string is a match of `\w+` exactly when it is a maximal run of word characters somewhere in the text |
| Retrieval.WordSet | backend/main.py:103-106 | the word set of a text holds only non-empty runs of word characters |
| Retrieval.WordSetIsMaximalRuns | backend/main.py:103-106 | a word is in the word set exactly when it is a maximal run of word characters of the lower-cased text |
| Retrieval.WordSetCaseInsensitive | backend/main.py:103-106 | lower-casing a text first does not change its word set |
| Retrieval.Score | backend/main.py:107 | the score is at most the number of distinct words of the question and of the chunk |
| Retrieval.ScoreProperties | backend/main.py:107 | the score is symmetric, at most the number of distinct words on either side, and positive exactly when a word is shared |
| Retrieval.Before | backend/main.py:110 | the descending tuple order: a higher score comes first; on equal scores, when the first characters of the chunks differ the larger comes first, and a chunk ranks at or before every prefix of itself |
| Retrieval.BeforeFirstDifference | backend/main.py:110 | on equal scores, the first character where the two chunks differ decides, the larger first |
| Retrieval.BeforeTotal | backend/main.py:110 | any two (score, chunk) pairs are ordered by the descending tuple order |
| Retrieval.BeforeAntisymmetric | backend/main.py:110 | two pairs each ranked before the other are equal |
| Retrieval.BeforeTransitive | backend/main.py:110 | the descending tuple order is transitive |
| Retrieval.SortDesc | backend/main.py:110 | the sort returns a permutation of the pairs in descending (score, chunk) order |
| Retrieval.SortedUnique | backend/main.py:110 | two descending arrangements of the same pairs are equal, so any correct sort gives this result |
| Retrieval.ScoreAll | backend/main.py:104-108 | entry i of `chunk_scores` is (score of chunk i, chunk i) |
| Retrieval.Take | backend/main.py:113 | `s[:k]` is the prefix of length min(k, len(s)) |
| Retrieval.PositiveChunks | backend/main.py:110 | the positive-score filter keeps exactly the input chunks that share a word with the question: each kept chunk is an input chunk with a positive score, and every input chunk with a positive score is kept |
| Retrieval.Select | backend/main.py:110-113 | the selection has min(top_k, n) chunks, where n counts the positive-score pairs when there are any and all pairs otherwise; they are drawn from the positive-score chunks when there are any, and from all chunks otherwise |
| Retrieval.FindRelevantChunks | backend/main.py:101-113 | the scoring loop followed by the sort and the selection returns `Relevant(question, chunks, top_k)` |
| Retrieval.Relevant | backend/main.py:104-113 | at most top_k and at most len(chunks) chunks come back, as a multiset sub-collection of the input; no chunks give no result |
| Retrieval.RelevantWhenSomeMatch | backend/main.py:110-113 | when some chunk shares a word, only such chunks come back, min(top_k, their number) of them, and all of them when fewer than top_k exist |
| Retrieval.RelevantFallback | backend/main.py:111-113 | when no chunk shares a word, the fallback returns min(top_k, len(chunks)) chunks, and all of them when fewer than top_k exist |
| Retrieval.RelevantOrdered | backend/main.py:110-113 | returned scores never increase, and equal scores come with non-increasing chunk text |
| Retrieval.RelevantIsTop | backend/main.py:110-113 | any input chunk ranked at least as high as a returned chunk is itself returned |
| RankingExample.CatScore | backend/main.py:103-107 | "the cat sat" scores 1 against "Where did the dog go?" |
| RankingExample.DogScore | backend/main.py:103-107 | "a dog ran fast" scores 1 against "Where did the dog go?" |
| RankingExample.Scenario | backend/main.py:101-113 | with top_k 2 the ranker returns ["the cat sat", "a dog ran fast"]: the tie on score is broken by the text |
| RankingExample.CaseInsensitiveMatch | backend/main.py:103-107 | "Dog" in a question matches "dog" in a chunk: the score is 1 |
| Handler.AnswerText | backend/main.py:131-133 | a generated answer has no surrounding whitespace and is exactly the content after its leading whitespace, cut where only whitespace remains; a failure answer gives its reason back through ErrorReason |
| Handler.FailureAnswerRoundTrip | backend/main.py:132-133 | a failure becomes "AI error: " + reason, and the reason can be read back from the answer |
| Handler.FailureIndistinguishable | backend/main.py:131-133 | for a non-empty reason that does not end in whitespace, a completion whose text is "AI error: " + reason gives the same answer as a failure with that reason |
| Handler.StripKeeps | backend/main.py:131 | a text with no surrounding whitespace is returned unchanged by the strip |
| Handler.ErrorReason | backend/main.py:133 | an answer carries a failure reason exactly when it is "AI error: " followed by some text, and the reason is that text |
| Handler.Join | backend/main.py:140 | `sep.join(pieces)` is empty for no pieces and otherwise ends exactly where the last piece ends |
| Handler.JoinPieceAt | backend/main.py:140 | every piece sits verbatim at its offset in the joined text, followed by the separator unless it is the last |
| Handler.JoinOffsetStep | backend/main.py:140 | each piece starts one piece and one separator after the previous one |
| Handler.JoinAllPieces | backend/main.py:140 | the joined text holds every piece at its offset, the separator text right after every piece but the last, the next piece right after that separator, and nothing after the last piece |
| Handler.Context | backend/main.py:139-140 | the context is the relevant chunks verbatim, in ranking order, with the text "\n---\n" between each two of them and nothing before the first or after the last |
| Handler.NewestFirst | backend/main.py:151 | the view has every row, and row i of the view is row len(log)-1-i of the log |
| Handler.NewestFirstAppend | backend/main.py:143-151 | a newly stored row heads the newest-first view, and the rest of the view is unchanged |
| Handler.QaService.constructor | backend/main.py:57-70 | the service starts from the rows the `qa_history` table already holds, which survive restarts |
| Handler.QaService.GetHistory | backend/main.py:147-152 | every stored row is returned, newest first |
| Handler.QaService.Ask | backend/main.py:135-145 | with no chunks the answer is "PDF is not loaded or missing." and the history is unchanged; otherwise the answer is the mapped completion for the joined context, exactly one row (question, answer) is appended, and it heads the newest-first view |

## Left out

- Reading the PDF (backend/main.py:28-36) is file I/O and a foreign library. The model starts from the extracted `full_text`.
- The OpenAI client and the prompt text (backend/main.py:21-22, 115-131) are a network call. The service is a parameter from (question, context) to content or failure, and the prompt wording, model name, `max_tokens` and `temperature` are not modelled.
- The SQLAlchemy engine, session and table (backend/main.py:57-70, 93-98) are persistence. The table is a sequence in insertion order, and row ids are the positions in it. The rows that `faq.db` holds at start-up are the constructor's argument; reading them from the file and a failing commit are not modelled.
- The FastAPI app, CORS middleware and pydantic schemas (backend/main.py:73-91) are transport wrappers.
- The start-up load of `PDF_CHUNKS` (backend/main.py:50-54) is process initialisation. `Ask` takes the chunk list as a parameter.
- CharClass.IsWordChar: `\w` is exact for ASCII, Latin-1 and Cyrillic only. Word characters of other scripts are treated as separators.
- CharClass.Lower: `lower()` is exact for ASCII, Latin-1 and Cyrillic only, and other characters are left unchanged. It maps one character to one character, so the length changes of real `lower()` (for example on 'İ') are not modelled.
- Chunking.ExtractChunks: requires 0 < chunk_size and overlap < chunk_size. With overlap >= chunk_size the Python loop never ends on a non-empty text (an empty text still gives no chunks). With a chunk size of 0 and a negative overlap, Python's slice `text[start:start]` yields empty chunks; with a negative chunk size the slice end is negative and Python counts it from the end of the text. Neither case is modelled.
- Chunking.LastChunkReachesEnd: stated for overlap >= 0 only. With a negative overlap the windows leave gaps, and the statement does not hold.
- Chunking.ChunksReassemble: stated for overlap >= 0 only, for the same reason.
- Retrieval.FindRelevantChunks: top_k is a natural number. Python's negative `[:top_k]` slicing is not modelled.
- The HTTP-level tests and the frontend are not part of this model.
