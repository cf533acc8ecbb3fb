# College feedback classifier, modelled in Dafny

The application is a Streamlit page. It classifies open-ended student feedback into a
small set of categories, such as Academics, Facilities, Administration and Other.
For each row of an uploaded CSV file it asks a hosted chat model for a label.
The question is a few-shot prompt built from one example per category.
The model's free-text reply is reduced to a category name.

This project models the classification pipeline of `main.py`:

- `PyStr` (`pystr.dfy`): the parts of Python's `str` that the pipeline uses.
  These are `strip()` (with the exact `str.isspace()` character set), `split(sep)`, `sep.join(xs)`, `lower()` and the `in` substring test.
- `Prompt` (`prompt.dfy`): the prompt text, and the `+=` loop that builds it.
- `Labels` (`labels.dfy`): cleaning a reply, and the first-match rule for categories.
- `Classifier` (`classifier.dfy`): one call and its `try`/`except`, and the batch loop over the rows.
- `App` (`app.dfy`): collecting the examples from the form, the checks made before any call, and writing the `category` column into the table.

The remote model is an input. `respond(n, request)` is the endpoint's answer to the n-th call of a run.
An answer is either the message contents of the completion choices, where a content may be missing, or the text of a raised exception.
A call that raises, returns no choice, or returns no content becomes the label `"API_EXCEPTION: " + detail`.
For the last two cases the detail is Python's own exception text.

Extraction is not idempotent.
The reply `"foo  \nbar"` is cleaned to `"foo  "`, and cleaning that again gives `"foo"`: the first line is not stripped a second time.
The model follows the code; `Labels.CleanNotIdempotent` proves the counterexample.

## Model

| member | source | states |
|---|---|---|
| `PyStr.IsSpace` | main.py:66-68 | defines the characters for which `str.isspace()` holds, the ones `strip()` removes |
| `PyStr.LeadingSpaces` | main.py:66 | the count is exactly the run of leading whitespace: all counted characters are whitespace and the next one is not |
| `PyStr.TrailingSpaces` | main.py:66 | the count is exactly the run of trailing whitespace |
| `PyStr.Strip` | main.py:66 | `strip()` returns a contiguous part of the input, and every character before and after that part is whitespace. If the part is non-empty, it neither starts nor ends with whitespace. If it is empty, the input was all whitespace |
| `PyStr.StripUnchanged` | main.py:66 | a string with no whitespace at either end is its own strip |
| `PyStr.StripIdempotent` | main.py:66 | stripping twice equals stripping once |
| `PyStr.FindFrom` | main.py:70 | the index returned, from the start index on, is an occurrence, and no occurrence lies between the start and it. None means no occurrence from the start on |
| `PyStr.Find` | main.py:70 | the index returned is an occurrence, and no occurrence comes before it. None means no occurrence at all |
| `PyStr.FindAbsent` | main.py:70 | a needle with some character that is missing from the text is not found |
| `PyStr.Contains` | main.py:70 | defines `sub in s` as `find` returning an index; `ContainsIffOccurs` proves what it means |
| `PyStr.ContainsIffOccurs` | main.py:70 | `sub in s` holds exactly when `sub` occurs at some index of `s` |
| `PyStr.Split` | main.py:68 | `split(sep)` gives at least one piece |
| `PyStr.SplitPiecesFree` | main.py:68 | no piece of `split(sep)` contains the separator |
| `PyStr.BeforeFirst` | main.py:68 | the text before the first occurrence of the separator does not contain it |
| `PyStr.JoinSplit` | main.py:68 | joining the pieces of a split with the same separator gives back the original string |
| `PyStr.LastPiece` | main.py:68 | defines `split(sep)[-1]`; `LastPieceIsSuffix`, `LastPieceFree` and `LastPieceOfRest` prove its properties |
| `PyStr.LastPieceIsSuffix` | main.py:68 | `split(sep)[-1]` is a suffix of the string. Unless it is the whole string, a separator stands right before it |
| `PyStr.LastPieceFree` | main.py:68 | `split(sep)[-1]` does not contain the separator |
| `PyStr.LastPieceOfRest` | main.py:68 | past the first separator, the last piece is the last piece of the rest |
| `PyStr.FirstPieceIsPrefix` | main.py:68 | `split(sep)[0]` is a prefix of the string. Unless it is the whole string, a separator follows it. When the separator occurs, the piece ends exactly at its first occurrence |
| `PyStr.StripKeepsAbsent` | main.py:66-68 | stripping text that does not contain `sub` cannot create an occurrence of `sub` |
| `PyStr.FirstPieceKeepsAbsent` | main.py:68 | the first piece of text that does not contain `sub` does not contain it either |
| `PyStr.ContainsChar` | main.py:68 | for a one-character needle, `in` is membership of that character |
| `PyStr.Join` | main.py:55 | defines `sep.join(xs)`; `JoinPlaces` and `JoinSplit` prove its properties |
| `PyStr.JoinPlaces` | main.py:55 | in `", ".join(cats)`, each element stands verbatim at its offset, and a separator follows every element but the last |
| `PyStr.LowerChar` | main.py:70 | an upper-case ASCII letter maps to its lower-case letter, 32 code points on; every other character is kept |
| `PyStr.Lower` | main.py:70 | lowering keeps the length and folds each character independently |
| `Labels.Clean` | main.py:66-68 | defines the cleaning chain `strip`, `split("Category:")[-1]`, `strip`, `split("\n")[0]`; the next six rows prove what it yields |
| `Labels.CleanIsOneLine` | main.py:66-68 | the cleaned reply contains no line break |
| `Labels.CleanHasNoCue` | main.py:66-68 | the cleaned reply contains no `Category:` |
| `Labels.AfterLastCue` | main.py:68 | the segment kept is the text after the last `Category:`, with no later occurrence. When there is no cue, it is the whole stripped reply |
| `Labels.CleanIsFirstLine` | main.py:68 | the cleaned reply is the stripped segment cut before its first line break |
| `Labels.Matches` | main.py:70 | defines the test `cat.lower() in output.lower()` |
| `Labels.IsFirstMatch` | main.py:69-71 | defines the first-match rule: category i matches, and no earlier category does |
| `Labels.FirstMatch` | main.py:69-71 | the index found is that of the first category, in configured order, whose lower-cased name occurs in the lower-cased text. None means no category occurs |
| `Labels.Label` | main.py:69-72 | the label is the first matching category. If no category matches, it is exactly the cleaned reply |
| `Labels.LabelIsCategoryOrFallback` | main.py:69-72 | a label is a configured category or the cleaned reply. Whenever some category matches, the label is a category |
| `Labels.CueThenWord` | main.py:66-68 | a reply of the form `Category: <word>`, a line break and then any explanation is cleaned to `<word>`. The word must be one line with no whitespace at its ends, and no further `Category:` may follow the echoed one |
| `Labels.AcademicsReply` | main.py:66-72 | the reply `Category: Academics`, a line break and `Because the feedback concerns teaching.` is labelled `Academics` with the default categories |
| `Labels.CleanPlain` | main.py:66-68 | a reply that strips to one line containing no `Category:` is cleaned to that line |
| `Labels.CleanNotIdempotent` | main.py:66-68 | cleaning `"foo  \nbar"` gives `"foo  "`, and cleaning that again gives `"foo"` |
| `Prompt.Header` | main.py:53-56 | defines the instruction line, which lists the categories joined by `", "` |
| `Prompt.Shot` | main.py:58 | defines the block for one example |
| `Prompt.Query` | main.py:59 | defines the closing question about the feedback |
| `Prompt.Shots` | main.py:57-58 | defines the example blocks, one per example in the given order; `ShotsAppend` and `ShotsPlaces` prove how they are laid out |
| `Prompt.PromptText` | main.py:53-59 | defines the prompt as the header, the example blocks, then the question; the lemmas below prove what it shows |
| `Prompt.BuildPrompt` | main.py:53-59 | the `+=` loop builds exactly the prompt text: the header, one block per example in the given order, then the question |
| `Prompt.ShotsAppend` | main.py:57-58 | the blocks for two example lists, one after the other, are the blocks for their concatenation |
| `Prompt.HeaderShowsCategories` | main.py:53-55 | every category stands verbatim in the header line, at its offset in configured order |
| `Prompt.HeaderSeparatesCategories` | main.py:53-55 | in the header line, every category but the last is followed by `", "` |
| `Prompt.PromptShowsCategories` | main.py:53-56 | every category stands verbatim in the prompt, at its offset in configured order |
| `Prompt.PromptSeparatesCategories` | main.py:53-56 | in the prompt, every category but the last is followed by `", "` |
| `Prompt.ShotsPlaces` | main.py:57-58 | each example's block starts where the blocks before it end |
| `Prompt.ShotShows` | main.py:58 | a block shows the example's text after `Feedback: "` and its label after `Category: ` |
| `Prompt.PromptShowsBlocks` | main.py:57-58 | every example's block stands in the prompt in the given order, each right after the previous one |
| `Prompt.ShotsShowExamples` | main.py:57-58 | every example's text and label stand verbatim in its own block |
| `Prompt.PromptShowsExamples` | main.py:57-58 | every example's text stands verbatim in the prompt after `Feedback: "`, and its label after `Category: ` |
| `Prompt.PromptStart` | main.py:53-54 | the prompt starts with the fixed instruction |
| `Prompt.PromptEnd` | main.py:59 | the prompt ends with the closing question. In it the feedback stands verbatim inside quotes, followed by the open `Category:` cue |
| `Classifier.RequestFor` | main.py:53-60 | defines the request for one feedback: a single user message holding the prompt |
| `Classifier.Failed` | main.py:61-66 | defines a failed call: it raised, returned no choice, or its first choice has no content |
| `Classifier.Detail` | main.py:66-74 | defines the exception text of a failed call |
| `Classifier.Outcome` | main.py:61-74 | a failed call becomes `"API_EXCEPTION: "` followed by the exception's text. An answered call becomes the label of its first choice's content |
| `Classifier.OutcomeKinds` | main.py:61-74 | a failure label starts with the error marker and ends with the detail. A success label is a category or the cleaned reply |
| `Classifier.ErrorLookalike` | main.py:66-74 | a reply `"API_EXCEPTION: x"` that matches no category gets the same label as a call that raised `x` |
| `Classifier.Classify` | main.py:52-74 | exactly one request is made, a single user message holding the prompt. The result is that request's outcome |
| `Classifier.PerCall` | main.py:76-81 | there is one value per call, in call order, and value n belongs to call n |
| `Classifier.Requests` | main.py:76-80 | defines the requests of a batch, one per row in row order; `RequestRows` proves what each holds |
| `Classifier.Outcomes` | main.py:76-81 | there is one label per call, and label n is the outcome of the answer to call n |
| `Classifier.RequestRows` | main.py:76-80 | a batch has one request per row, and request i carries row i's feedback |
| `Classifier.BatchClassify` | main.py:76-81 | the calls are the rows' requests, in row order, and the labels are the calls' outcomes, in the same order |
| `App.Collected` | main.py:38-42 | defines the examples of the filled boxes, in category order; the next rows prove what it holds |
| `App.CollectExamples` | main.py:38-42 | the loop collects exactly the examples of the filled boxes, in category order |
| `App.Filled` | main.py:38-42 | the indices of the filled boxes are in range and strictly increasing, and every filled box is listed |
| `App.CollectedInCategoryOrder` | main.py:38-42 | example j is the text of the j-th filled category, labelled with that category |
| `App.CollectedCount` | main.py:38-45 | there is at most one example per category. There is one for every category exactly when no box is empty |
| `App.ColumnIndex` | main.py:89 | the index found holds the column name and is its first position. None means the table has no such column |
| `App.Column` | main.py:78 | a column has one cell per row, and cell r is row r's entry at the first header position holding the name |
| `App.AssignColumn` | main.py:101 | assigning `category` keeps the table rectangular. It replaces an existing `category` column, or otherwise appends one |
| `App.AssignColumnEffect` | main.py:101 | after the assignment the column holds the labels |
| `App.AssignColumnKeepsOthers` | main.py:101 | every other column is passed through unchanged |
| `App.ColumnIndexAfterAppend` | main.py:101 | appending a new column keeps the position of every other column |
| `App.Ready` | main.py:95 | defines the test made before any call: a token, a model id, and one example per category |
| `App.Run` | main.py:87-101 | the warning shows exactly when some example box is empty. A missing file, a missing `feedback` column, an unpressed button or missing settings each end the run with no call made, and missing settings show their error. The run classifies exactly when the token and model id are non-empty and every category has an example. Then there is one call per row, and the `category` column holds the labels |

## Left out

- The Streamlit page is not modelled: page set-up, widgets, the token-reveal checkbox, the spinner, the table view, the bar chart and the download button (main.py:1-36, 47-50, 83-86, 98-121). The values the widgets produce are inputs.
- `InferenceClient` and `client.chat.completions.create` are network code (main.py:62-65, 100). The endpoint's answer is an input. An exception raised while the client is built (main.py:100, outside the `try`) is not modelled.
- `pd.read_csv` is not modelled (main.py:88). The parsed table is an input whose cells are their text. Pandas' typing of cells (numbers, missing cells shown as `nan` in the prompt) is not modelled.
- The counts behind the bar chart (`value_counts`) and the CSV export (`to_csv`) are pandas code (main.py:106, 110). They are not modelled.
- PyStr.Lower: folds only the ASCII letters A-Z. Python's `str.lower()` also maps other Unicode letters, some of them to two characters.
- PyStr.LowerChar: maps only A-Z. Python's `lower()` also maps other capitals, for example `É` to `é`, so a category such as `café` that Python matches in `CAFÉ` is not matched here.
- App.ColumnIndex: takes the first column with the name. Pandas renames duplicate headers when it reads a file, so the two agree on parsed tables.
- App.Run: models one pass of the script. Streamlit re-runs the script on each interaction, and `st.stop()` ends that pass. The model's early return plays the same part.
