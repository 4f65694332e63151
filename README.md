# Clinical decision support: guideline retrieval and front-end logic

This project models, in Dafny, the two pieces of logic at the heart of the
clinical decision support system.

- **The guideline retriever** (`GuidelineRAG` in `backend/rag.py`):
  - Building an index reads a guideline file in text mode, which turns CR LF and lone CR line endings into LF.
  - The text is cut into sections at every `"\n\n"`.
  - Every piece is stripped of surrounding whitespace, and the empty ones are dropped.
  - Building fails when the file is missing, when it yields no section, or when fitting the TF-IDF model to the sections fails.
  - A query returns the section with the highest relevance score, the first one on a tie, together with that score.
  - The empty query returns `("", 0.0)` without scoring.
- **The web front end** (`frontend/streamlit_app.py`):
  - The comma-separated symptom field goes through the same split, strip and filter step.
  - Without a symptom the form shows an error and sends nothing.
  - Otherwise it builds the request payload.
  - The chat view keeps a transcript in the browser session. It creates the transcript when it is absent, then appends the user's prompt and the assistant's reply. The reply is the `answer` field of the response, `""` when that field is missing, or `"Error: "` followed by the error text when the call raised.

The model has four modules:

| module | file | contents |
|---|---|---|
| `Wrappers` | `wrappers.dfy` | `Option` and `Result`, which stand for Python's `None` and for raised exceptions |
| `Text` | `text.dfy` | Python's `str.strip()` (with the exact `str.isspace()` character set), `str.split(sep)`, `sep.join`, `str.count(sep)`, and the comprehension `[p.strip() for p in s.split(sep) if p.strip()]` |
| `Retrieval` | `retrieval.dfy` | the text-mode read, section parsing, the loader and its two failures, first-argmax, and the class `GuidelineRag` |
| `Frontend` | `frontend.dfy` | symptom parsing, form submission, the chat reply text, and the class `SessionState` |

`GuidelineRag` has immutable `sections` and `score` fields. Fitting the TF-IDF model enters as a function from the sections to either a failure or a fitted model, which gives one score per section for each query. `SessionState` holds the chat history in a field that `ChatView` updates in place.

The code's comment calls the section boundaries "blank lines", but the model follows the code:

- **Separator.** Sections are separated by exactly two consecutive newline characters, after reading has turned every CR LF and lone CR into LF:
  - a blank line written as CR LF CR LF, or as two lone CRs, does separate (`CrLfBlankLineSeparates`, `LoneCrBlankLineSeparates`);
  - a line holding only a space does not (`SpaceLineDoesNotSeparate`).
- **No vocabulary overlap.** Only the empty string is answered with `("", 0.0)`. A query that shares no vocabulary with the document scores zero everywhere and gets the first section with score 0 (`NoOverlapPicksFirst`).

## Model

| member | source | states |
|---|---|---|
| Text.TrimStart | backend/rag.py:30 | `lstrip()` never lengthens the text, and what it leaves is empty or starts with a non-whitespace character |
| Text.TrimEnd | backend/rag.py:30 | `rstrip()` never lengthens the text, and what it leaves is empty or ends with a non-whitespace character |
| Text.TrimStartSplits | backend/rag.py:30 | `lstrip()` keeps a suffix of the text and what it drops is all whitespace |
| Text.TrimEndSplits | backend/rag.py:30 | `rstrip()` keeps a prefix of the text and what it drops is all whitespace |
| Text.Strip | backend/rag.py:30 | `strip()` gives the empty string exactly when the text is all whitespace, and otherwise a text that begins and ends with a non-whitespace character |
| Text.StripInfix | backend/rag.py:30 | the stripped text is the contiguous run of the original that starts where the leading whitespace ends, and everything before and after it is whitespace |
| Text.StripKeepsItem | backend/rag.py:30 | a non-empty text with no whitespace at either end is left unchanged by `strip()` |
| Text.StripIdempotent | backend/rag.py:30 | stripping twice is stripping once |
| Text.Split | backend/rag.py:30 | `split(sep)` yields at least one piece, and the text starts with the first piece |
| Text.SplitWithoutSeparator | backend/rag.py:30 | a text in which the separator does not occur is one piece |
| Text.SplitWholeIffAbsent | backend/rag.py:30 | a text is left whole by the split if and only if the separator does not occur in it |
| Text.SplitJoin | backend/rag.py:30 | joining the pieces of a split with the separator gives back the original text |
| Text.SplitCount | backend/rag.py:30 | a split yields exactly one more piece than `count(sep)` |
| Text.SplitPiecesAvoidSeparator | backend/rag.py:30 | no piece of a split contains the separator |
| Text.SplitAfterPiece | backend/rag.py:30 | when no occurrence of the separator starts inside `x`, splitting `x + sep + y` gives `x` and then the pieces of `y` |
| Text.SplitJoinItems | backend/rag.py:30 | splitting items joined with the separator gives the items back |
| Text.Kept | backend/rag.py:30 | one piece contributes at most one entry: nothing exactly when it is all whitespace, otherwise an entry with no surrounding whitespace |
| Text.Clean | backend/rag.py:30 | the comprehension keeps at most as many entries as there are pieces, each non-empty and with no whitespace at either end |
| Text.CleanAppend | backend/rag.py:30 | the comprehension works piece by piece, so the relative order of the pieces is kept |
| Text.CleanItems | backend/rag.py:30 | entries that are already stripped and non-empty are all kept, unchanged and in order |
| Text.CleanEmpty | backend/rag.py:30-31 | the comprehension keeps nothing if and only if every piece is all whitespace |
| Text.SplitBlank | backend/rag.py:30 | for a one-character or all-whitespace separator, every piece is all whitespace if and only if the text holds only whitespace and separator characters |
| Text.Items | backend/rag.py:30 | the split, strip and filter result has at most `count(sep) + 1` entries, each non-empty and with no surrounding whitespace |
| Text.ItemsEmpty | backend/rag.py:30-31 | for a one-character or all-whitespace separator, the result is empty if and only if the text holds only whitespace and separator characters |
| Text.ItemsJoin | backend/rag.py:30 | items free of the separator and of surrounding whitespace, joined with the separator, come back unchanged and in order |
| Retrieval.ReadText | backend/rag.py:27-28 | the text read in text mode holds no CR and is never longer than the stored file |
| Retrieval.ReadTextAppend | backend/rag.py:27-28 | reading a file is reading its parts one after the other, wherever it is cut, as long as the cut does not fall inside a CR LF pair |
| Retrieval.CrLfIsLf | backend/rag.py:27-28 | a CR LF pair reads as one LF, and the text on either side reads as it would alone |
| Retrieval.LoneCrIsLf | backend/rag.py:27-28 | a CR not followed by LF reads as one LF |
| Retrieval.OtherCharKept | backend/rag.py:27-28 | every other character reads as itself, except an LF that completes a CR LF pair |
| Retrieval.ReadTextWithoutCr | backend/rag.py:27-28 | a file without CR reads back as stored |
| Retrieval.ReadTextBlank | backend/rag.py:27-28 | the text read is all whitespace exactly when the stored file is |
| Retrieval.ParseSections | backend/rag.py:30 | the sections are at most one more than the `"\n\n"` occurrences, each non-empty and with no surrounding whitespace, and there are none if and only if the text is all whitespace |
| Retrieval.NoSectionsIffBlank | backend/rag.py:30-32 | a text yields no section if and only if it is all whitespace, so empty, whitespace-only and separator-only files alike raise |
| Retrieval.SectionsRoundTrip | backend/rag.py:30 | sections without a blank line or surrounding whitespace, written out separated by `"\n\n"`, are read back exactly and in order |
| Retrieval.TwoSections | backend/rag.py:30 | `"a\n\nb"` yields the sections `a` and `b` |
| Retrieval.OneSection | backend/rag.py:30 | a text without the separator and without surrounding whitespace is a single section, unchanged |
| Retrieval.SpaceLineDoesNotSeparate | backend/rag.py:30 | a line holding a single space does not separate sections |
| Retrieval.Load | backend/rag.py:25-33 | a missing path fails with "not found" and only then; a present file that is all whitespace fails with "no sections" and only then; a present file that is not all whitespace loads, and only then, as the sections of the text as read, of which there is at least one |
| Retrieval.CrLfBlankLineSeparates | backend/rag.py:27-30 | a file holding `a`, a CR LF CR LF blank line and `b` loads as the two sections `a` and `b` |
| Retrieval.LoneCrBlankLineSeparates | backend/rag.py:27-30 | a file holding `a`, two lone CRs and `b` loads as the two sections `a` and `b` |
| Retrieval.BuildError.Message | backend/rag.py:26-32 | the exception text is "Guidelines file not found: " followed by the path, or "No guideline sections found in the file.", or the fitting failure's own text |
| Retrieval.FirstArgMax | backend/rag.py:47 | `numpy.argmax` returns an index holding the largest score, with every earlier score strictly smaller |
| Retrieval.FirstMaxUnique | backend/rag.py:47 | at most one index is the first maximum, so the choice is determined by the scores |
| Retrieval.GuidelineRag.Fitted | backend/rag.py:33-36 | a built index holds the given non-empty sections and a scoring model giving one score per section |
| Retrieval.GuidelineRag.Open | backend/rag.py:23-36 | construction fails exactly when the loader fails, with the loader's error, or when fitting the model to the loaded sections fails, with that failure; otherwise it gives a fresh valid index whose sections are the loaded ones and whose scoring model is the one fitted to them |
| Retrieval.GuidelineRag.Query | backend/rag.py:38-48 | the empty query gives `("", 0.0)`; any other query gives the first section of highest score with that score; the snippet is empty if and only if the query is |
| Retrieval.GuidelineRag.NoOverlapPicksFirst | backend/rag.py:40-48 | a non-empty query that scores zero on every section gets the first section with score 0 |
| Frontend.ParseSymptoms | frontend/streamlit_app.py:57 | the symptoms are at most one more than the commas, each non-empty and with no surrounding whitespace, and there are none if and only if the field holds only whitespace and commas |
| Frontend.SymptomsRoundTrip | frontend/streamlit_app.py:57 | symptoms without commas or surrounding whitespace, typed separated by commas, are read back as typed and in order |
| Frontend.Submit | frontend/streamlit_app.py:48-66 | the form shows "Please enter at least one symptom." if and only if the field holds only whitespace and commas; otherwise the payload carries the form's patient id, age (0 to 120) and gender unchanged and the non-empty parsed symptom list |
| Frontend.ReplyText | frontend/streamlit_app.py:96-99 | the assistant's reply is the response's `answer` field, the empty string when the field is missing, or `"Error: "` followed by the error text when the call raised |
| Frontend.AnswerOf | frontend/streamlit_app.py:39 | the reply's `answer` field when present, and the empty string when absent |
| Frontend.PromptsAppend | frontend/streamlit_app.py:91-100 | the prompts of a joined transcript are those of its two parts, in order |
| Frontend.ExchangeAddsPrompt | frontend/streamlit_app.py:91-100 | one exchange adds exactly its prompt to the prompts asked so far |
| Frontend.ExchangeAlternates | frontend/streamlit_app.py:91-100 | one exchange on a non-empty prompt keeps the transcript as alternating user and assistant turns |
| Frontend.PromptsCount | frontend/streamlit_app.py:91-100 | a transcript of alternating turns holds one prompt per pair of messages |
| Frontend.SessionState.constructor | frontend/streamlit_app.py:83 | a new browser session has no chat history |
| Frontend.SessionState.ChatView | frontend/streamlit_app.py:77-102 | the history is created when absent and otherwise kept. A non-empty prompt appends the user's turn and then the assistant's reply; no prompt, or an empty one, changes nothing. Alternation of turns is preserved. |

## Left out

- TF-IDF fitting and query transformation (`TfidfVectorizer`, `fit_transform`, `transform` and the matrix product, backend/rag.py:35-36, 42-44) are not modelled. Fitting is a parameter of `GuidelineRag.Open`: a function that either fails with a reason or gives a model, which for each query gives one real score per section. Which corpora make fitting fail is not modelled. scikit-learn fails on an empty vocabulary, which depends on its tokenisation and its English stop list. No property of the scores is relied on (non-negativity, cosine semantics), and floating point is modelled as exact reals with no NaN.
- Retrieval.GuidelineRag.Query: the `scores.size == 0` branch (backend/rag.py:45-46) is not modelled. The index always has at least one section and the scoring model gives one score per section, so that branch cannot be taken.
- File I/O is a map from path to the characters stored in the file. The newline translation of the text-mode read is modelled (`ReadText`). UTF-8 decoding, decoding errors, and read errors other than a missing path are not.
- `load_rag` (backend/rag.py:51-65) only builds a fixed path; the path is a parameter of `Open`. backend/models.py is not part of this model.
- Streamlit rendering is not modelled: page layout, the mode select box, displaying the transcript and the recommendation, the spinners and `st.experimental_rerun()`. The recommendation request (frontend/streamlit_app.py:29-32, 67-74) and its "Error retrieving recommendation" message are left out with it; `Submit` stops at the payload it would send.
- HTTP calls (`requests.post`, timeouts, `raise_for_status`) are not modelled: the result of a chat call is a parameter of `ChatView`, either the decoded JSON object or the text of the raised exception.
- JSON values are modelled as strings: an `answer` field holding another JSON type is not modelled. A reply that is not an object makes `.get` raise, and that is the failed-call case.
- Frontend.Submit: requires the age to be in 0 to 120 and the gender to be one of the three choices, because the widgets (frontend/streamlit_app.py:49-50) only produce such values. The code itself does not check them.
