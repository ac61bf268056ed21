# SWIFT idea triage: a verified model

SWIFT is a Streamlit page that screens a CSV of sustainability ideas
(problem/solution pairs) with a language model. The user picks a filtering
level and a maximum number of ideas and starts the run. The page then:

- clears two result columns, `isFiltered` and `analysis`;
- walks the rows in order, stopping at the threshold and skipping rows
  without a problem;
- sends every other row to the model, together with a system prompt that
  includes the strictness instruction;
- stores the model's answer in `analysis`, and marks the row `Filter` when
  the lower-cased answer contains `yes` anywhere, or `Keep` otherwise;
- finally shows the removed ideas and the remaining ideas as two tables.

This project models that core in Dafny and proves what the run does to the
table.

Modules, in dependency order:

- `Text`: `str.lower()` on ASCII letters, the substring test `pat in s`,
  and the slice-plus-ellipsis `s[:n] + "..."`.
- `Prompts`: the select-box options and the `filter_prompt` if/elif chain,
  the system prompt the fragment is spliced into, and the assistant message
  `"Problem: " + p + "\n Solution: " + s`.
- `Decision`: the `Filter`/`Keep` decision. It is checked against an
  independent reading: "y, e, s in either case side by side somewhere".
- `Batch`: the table as a sequence of rows, with the placement of missing
  cells. It also holds the specification functions of a run: where the loop
  stops, which rows are processed, the list of message logs sent, the table
  afterwards and how the run ends. Lemmas relate these to each other.
- `Views`: the removed and remaining tables, as pandas boolean selection
  builds them. Each keeps the original index labels and row order.
- `Triage`: the loop itself, as a method over an `array<Row>` that it
  updates in place. It is proved to leave exactly the table `Batch.Triaged`
  describes, to return `Batch.RunOutcome`, and to have sent
  `Batch.Requests`.

The language model is a parameter, a total function `oracle:
seq<Message> -> string`. The model therefore says what is sent and what is
written for any fixed way of answering each message log.

Three behaviours of the code worth knowing:

- Skipped rows count towards the threshold. The loop compares the row
  position `idx` with the threshold, and a skipped row still uses a
  position.
- The `yes` marker is searched for in the whole answer, not only in its
  first point.
- A reached row whose problem is present but whose solution is missing
  (NaN) ends the whole run. Slicing a float at `streamlit_app.py:101`
  raises, so the rows from there on keep empty result columns and no view
  is built. The model records this as `Outcome.Failed(row)` and does not
  carry on past the row.

## Model

| member | source | states |
|---|---|---|
| Text.Lower | streamlit_app.py:125 | the lower-cased text has the same length, maps each character through ASCII lower-casing, and holds no upper-case letter |
| Text.LowerIdempotent | streamlit_app.py:125 | lower-casing twice is lower-casing once |
| Text.Contains | streamlit_app.py:125 | `pat in s` is true exactly when some position of `s` starts an occurrence of `pat` |
| Text.Truncate | streamlit_app.py:100-101 | `s[:n] + "..."` is a prefix of `s` of length min(n, \|s\|) followed by the ellipsis, and the whole of a short string followed by the ellipsis |
| Prompts.OptionText | streamlit_app.py:48 | each option of the select box reads "<level> Filter" |
| Prompts.FilterPrompt | streamlit_app.py:44-59 | the fragment is the loose sentence exactly for "Loose Filter", the strict sentence exactly for "Strict Filter", and empty for every other selection, "Normal Filter" included |
| Prompts.FilterPromptDistinct | streamlit_app.py:46-59 | the three options of the select box give three different fragments |
| Prompts.DefaultLevelNoFragment | streamlit_app.py:49-56 | the option the select box opens on, "Normal Filter", adds no instruction to the system prompt |
| Prompts.SpliceParts | streamlit_app.py:109 | a string spliced from prefix, middle and suffix starts with the prefix, ends with the suffix, has a space right after the prefix and right before the suffix, and gives back the middle |
| Prompts.SystemPrompt | streamlit_app.py:109 | the system prompt starts with the fixed preamble, ends with the fixed output instructions, is two characters longer than the three parts together, has a single space on each side of the fragment, and gives back the fragment between them |
| Prompts.SystemPromptInjective | streamlit_app.py:109 | two system prompts are equal exactly when their fragments are equal |
| Prompts.AssistantContent | streamlit_app.py:113-116 | the assistant message is as long as its labels and cells together, starts with "Problem: " and ends with the solution |
| Prompts.AssistantContentParts | streamlit_app.py:113-116 | the assistant message is "Problem: ", the problem, "\n Solution: " and the solution, in that order and nothing else |
| Prompts.AssistantContentInjective | streamlit_app.py:113-116 | for problems of the same length, equal assistant messages have equal problems and equal solutions, and the converse |
| Prompts.MessageLog | streamlit_app.py:106-118 | the log sent for one idea is two messages: the system prompt with the system role, then the assistant message `AssistantContent(problem, solution)` with the assistant role |
| Prompts.MessageLogInjective | streamlit_app.py:106-118 | for problems of the same length, two logs are equal exactly when their system prompts, problems and solutions are equal |
| Decision.MarkerAt | streamlit_app.py:125 | the lower-cased answer has "yes" at a position exactly when y, e, s stand there in either case |
| Decision.MarkerIffMentionsYes | streamlit_app.py:125 | the substring test on the lower-cased answer agrees with the case-insensitive reference reading |
| Decision.Decide | streamlit_app.py:125-128 | the decision is one of the two labels "Filter" and "Keep" |
| Decision.DecideIff | streamlit_app.py:125-128 | an answer is marked "Filter" exactly when it mentions "yes" in any case, and "Keep" exactly when it does not (fail-open) |
| Decision.DecideIgnoresCase | streamlit_app.py:125 | answers that lower-case to the same text get the same decision |
| Decision.FailOpen | streamlit_app.py:127-128 | an answer without any letter y is kept |
| Decision.MarkerInsideWord | streamlit_app.py:125-126 | "No - keep idea. Eyes." is filtered, because "yes" occurs inside "Eyes" |
| Decision.UpperCaseNoKept | streamlit_app.py:127-128 | "1. NO. Score 80." is kept |
| Batch.Eligible | streamlit_app.py:98-99 | a row is not skipped exactly when its problem is present and not empty |
| Batch.Crashes | streamlit_app.py:101 | a row that is not skipped but has no solution to slice |
| Batch.Limit | streamlit_app.py:95-97 | the loop reaches at most the threshold, never more rows than the table has and none for a threshold of zero or less, and reaches the threshold unless the table ends first |
| Batch.FirstCrashFrom | streamlit_app.py:98-101 | the result is the first reached row whose problem is present and whose solution is missing, or the limit when there is none |
| Batch.Stop | streamlit_app.py:95-101 | the loop ends at or before the threshold and the end of the table |
| Batch.Sendable | streamlit_app.py:98-101 | a row that is not skipped and has a solution to slice, so that it is sent once reached |
| Batch.Processed | streamlit_app.py:95-122 | a row is sent and written exactly when it lies before the stopping index and has a non-empty problem and a solution |
| Batch.Request | streamlit_app.py:106-118 | the message log built from a row: the system prompt, then the row's problem and solution behind their labels |
| Batch.Cleared | streamlit_app.py:91-92 | a row with both result columns set to the empty string and its own cells kept |
| Batch.Judged | streamlit_app.py:122-128 | a row with the model's answer in `analysis` and the decision taken from it in `isFiltered` |
| Batch.RowAfter | streamlit_app.py:91-128 | a row as the run leaves it: judged with the answer to its own request when processed, cleared otherwise |
| Batch.Triaged | streamlit_app.py:91-128 | after a run, every row keeps its problem and solution; a row has a decision exactly when it was processed; a processed row holds the model's answer to its own message log and the decision taken from that answer; every other row holds empty cells |
| Batch.Requests | streamlit_app.py:104-120 | the message logs of the processed rows, one per row in row order |
| Batch.RunOutcome | streamlit_app.py:95-101 | a run fails exactly when some reached row has a problem but no solution, and then at the first such row |
| Batch.ProcessedIff | streamlit_app.py:95-99 | a row is processed exactly when its index is below the threshold, it has a non-empty problem and a solution, and no earlier row stopped the run; a skipped row counts towards the threshold |
| Batch.StopAfter | streamlit_app.py:96-101 | a reached row below the threshold is where the run stops if it has a problem but no solution, and otherwise the loop goes past it |
| Batch.StopAtLimit | streamlit_app.py:95-97 | reaching the threshold or the end of the table without a failure is where the loop stops, and the run completes |
| Batch.ProgressStart | streamlit_app.py:91-92 | the table with both result columns emptied is the loop's starting point |
| Batch.ProgressStep | streamlit_app.py:122-128 | writing one row as the run leaves it advances the loop by one row, and a row the loop does not process is left as it is |
| Batch.ProgressAtStop | streamlit_app.py:95-128 | the table as the loop leaves it at the stopping index is the table after the run |
| Batch.RequestsBelowStable | streamlit_app.py:96-99 | rows that are not processed add no request |
| Batch.RequestsBelowLength | streamlit_app.py:95-104 | at most one request per row, and none from the stopping index on |
| Batch.RequestsBelowShort | streamlit_app.py:98-99 | a skipped row leaves the number of requests short of the number of rows passed |
| Batch.RequestsBelowFull | streamlit_app.py:95-104 | when every row passed is processed, there is one request per row |
| Batch.RequestsBound | streamlit_app.py:88 | the model is called at most min(threshold, row count) times, the number the button announces, and not at all for a threshold of zero or less |
| Batch.RequestsExact | streamlit_app.py:88 | the announced number of calls is reached exactly when every row below min(threshold, row count) has both a problem and a solution |
| Batch.TriageIdempotent | streamlit_app.py:91-92 | running the triage on its own result gives the same table, because the run first empties the two columns it writes |
| Batch.EmptyProblemSkipped | streamlit_app.py:98-99 | a row with an empty problem gets no model call and keeps empty result columns, while the row before it is sent |
| Batch.SkippedRowCountsTowardsThreshold | streamlit_app.py:95-99 | with a threshold of one and an empty first row, nothing is sent and the table keeps empty result columns |
| Batch.MissingSolutionStopsRun | streamlit_app.py:101 | a missing solution on the first row ends the run there, with no call made and later rows left untouched |
| Views.Removed | streamlit_app.py:162 | the removed table holds only rows marked "Filter" |
| Views.Remaining | streamlit_app.py:167 | the remaining table holds only rows marked "Keep" |
| Views.ViewBelow | streamlit_app.py:162-167 | a view holds only rows with its mark, each with its own row and index label, in strictly increasing index order |
| Views.ViewBelowComplete | streamlit_app.py:162-167 | no row with the mark is left out of the view |
| Views.InViewIff | streamlit_app.py:162-167 | a row appears in a view exactly when its isFiltered cell carries the view's mark |
| Views.ViewsDisjoint | streamlit_app.py:162-167 | no row is both removed and remaining |
| Views.ViewsAfterRun | streamlit_app.py:162-167 | after a run, a row is removed exactly when it was processed and the answer mentions "yes", and remaining exactly when it was processed and the answer does not; unprocessed rows are in neither view |
| Views.ViewSizesBelow | streamlit_app.py:162-167 | the rows of both views below a bound are as many as the model calls for those rows |
| Views.ViewSizes | streamlit_app.py:162-167 | the two views together hold one row per model call |
| Triage.ProblemPreview | streamlit_app.py:100 | the card title's problem is a prefix of the problem of length min(80, \|p\|) followed by "..." |
| Triage.SolutionPreview | streamlit_app.py:101 | the solution preview is a prefix of the solution of length min(100, \|s\|) followed by "..." |
| Triage.ClearResults | streamlit_app.py:91-92 | every row keeps its cells and gets empty isFiltered and analysis columns |
| Triage.Consult | streamlit_app.py:101-128 | for a processed row, the message log sent is that row's request, and the row becomes its answer and decision while no other row changes |
| Triage.Run | streamlit_app.py:91-128 | the loop leaves exactly the table `Batch.Triaged` describes, ends as `Batch.RunOutcome` says, and sends exactly `Batch.Requests`, one log per call in row order |
| Triage.TriageUpload | streamlit_app.py:87-128 | a run started by the button sends every row with the system prompt built from the selected option's fragment |

## Left out

- `send_message`, `streamlit_app.py:12-30`: the OpenAI call is not modelled. It is network I/O through a library. The model takes an arbitrary oracle function instead, so the rule that picks the first choice with text is also not modelled.
- The oracle is total and deterministic. The real call on lines 16-22 samples with `temperature=0.7`, so two identical message logs can get different answers, while the model gives them the same one. The real call can also raise (network, quota), and nothing around lines 104-120 catches that, so a failed call ends the run at that row just as a missing solution does. The model has no such failure, and `Batch.RunOutcome` describes only the failure from a missing solution.
- Batch.TriageIdempotent: holds for one fixed oracle used by both runs. Repeated calls to the real model need not answer alike.
- `asyncio.run`: it adds no concurrency, since every call is awaited in turn.
- The threshold is any int. The number input on lines 80-85 caps it at the number of non-missing cells in the first column (line 84), and the model does not use that cap. So some lemmas, such as `Batch.EmptyProblemSkipped` with a threshold of 10 over two rows, run the loop on inputs the page never hands it. No proved statement depends on the cap.
- Streamlit widgets: title, select box messages, button, expander cards with their icons and images, and dataframe rendering. They are presentation only. The card title is kept as far as its truncated problem (`Triage.ProblemPreview`).
- Reading the CSV with `pandas.read_csv` in ISO-8859-1 and the column check on lines 62-77: library I/O. On an invalid file the code sets `df = None` and then dereferences it at line 84.
- `all_ideas = df[df["id"] != None]` on line 171: its result depends on pandas comparing objects with `None`.
- `web-agent/main.py` is not part of this model. It only wires together components whose sources are not shown.
- Cells with other types: every problem and solution cell is a string or missing. `read_csv` picks one type per column, so a cell such as `42` in a column that also holds text stays the string "42" and is sent, as the model does with `Some("42")`. Only a column without any text cell gets a numeric type: a float column makes every problem take the path of a missing one, and an int column raises when sliced. Such columns are not modelled.
- Text.Lower: lower-cases the ASCII letters A-Z only. Python's `str.lower()` also maps non-ASCII letters, and can lengthen a string.
- Batch.RequestsBound: compares with the number of rows. The button announces min(threshold, number of non-missing cells in the first column), which is the same when that column has no missing cell.
- Batch.Triaged: a row's index label is its position. That holds for a table read fresh from a CSV. Other labels, which `df.iterrows()` would hand to the threshold test, are not modelled.
- Triage.Run: takes the system prompt as a parameter, and `Triage.TriageUpload` builds it once before the loop. The source rebuilds the same string in every iteration. The run also writes the two cells of a processed row in one update, where the source writes them one after the other with nothing read between.
