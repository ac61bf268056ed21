/** The batch triage loop: it empties the two result columns, walks the
    rows in order, breaks off at the threshold, skips rows without a
    problem, asks the model about every other row and writes the answer and
    the keep/filter decision into that row. */
module Triage {
  import opened Text
  import opened Prompts
  import opened Decision
  import opened Batch

  const ProblemPreviewLength: nat := 80
  const SolutionPreviewLength: nat := 100

  /** The problem as a card title shows it: its first 80 characters and an
      ellipsis. */
  function ProblemPreview(problem: string): (r: string)
    ensures |r| == (if |problem| < ProblemPreviewLength then |problem| else ProblemPreviewLength) + |Ellipsis|
    ensures r[..|r| - |Ellipsis|] <= problem && r[|r| - |Ellipsis|..] == Ellipsis
  {
    Truncate(problem, ProblemPreviewLength)
  }

  /** The solution cut to its first 100 characters and an ellipsis. */
  function SolutionPreview(solution: string): (r: string)
    ensures |r| == (if |solution| < SolutionPreviewLength then |solution| else SolutionPreviewLength) + |Ellipsis|
    ensures r[..|r| - |Ellipsis|] <= solution && r[|r| - |Ellipsis|..] == Ellipsis
  {
    Truncate(solution, SolutionPreviewLength)
  }

  /** Both result columns are set to the empty string in every row. */
  method ClearResults(table: array<Row>)
    modifies table
    ensures forall j :: 0 <= j < table.Length ==> table[j] == Cleared(old(table[j]).idea)
  {
    forall j | 0 <= j < table.Length {
      table[j] := Cleared(table[j].idea);
    }
  }

  /** The rest of the loop body for a row that is sent: the solution
      preview, the message log, the model's answer, and the two cells written into the
      row. No other row changes. */
  method Consult(table: array<Row>, idx: nat, system: string, oracle: Oracle,
                 ghost ideas: seq<Idea>, ghost threshold: int)
    returns (log: seq<Message>)
    requires idx < table.Length == |ideas| && Processed(ideas, threshold, idx)
    requires table[idx] == Cleared(ideas[idx])
    modifies table
    ensures log == Request(system, ideas[idx])
    ensures table[..] == old(table[..])[idx := RowAfter(ideas, system, threshold, oracle, idx)]
  {
    var row := table[idx];
    var problem := row.idea.problem.value;
    var solution := row.idea.solution.value;
    var solutionPreview := SolutionPreview(solution);
    log := MessageLog(system, problem, solution);
    var analysis := oracle(log);
    table[idx] := row.(analysis := analysis, isFiltered := Decide(analysis));
  }

  /** One run over the table; every row is sent with the same system prompt.
      Returns how the run ended and the message logs it sent, one per model
      call, in the order of the calls. */
  method Run(table: array<Row>, system: string, threshold: int, oracle: Oracle)
    returns (outcome: Outcome, requests: seq<seq<Message>>)
    modifies table
    ensures table[..] == Triaged(old(table[..]), system, threshold, oracle)
    ensures outcome == RunOutcome(Ideas(old(table[..])), threshold)
    ensures requests == Requests(Ideas(old(table[..])), system, threshold)
  {
    ghost var t0 := table[..];
    ghost var ideas := Ideas(t0);
    ClearResults(table);
    ProgressStart(table[..], ideas, system, threshold, oracle);
    outcome, requests := Completed, [];
    var idx := 0;
    while idx < table.Length
      invariant idx <= table.Length == |ideas|
      invariant idx <= Stop(ideas, threshold)
      invariant table[..] == Progress(ideas, system, threshold, oracle, idx)
      invariant requests == RequestsBelow(ideas, system, threshold, idx)
      invariant outcome == Completed
    {
      if idx >= threshold {
        break;
      }
      ProgressStep(ideas, system, threshold, oracle, idx);
      StopAfter(ideas, threshold, idx);
      var row := table[idx];
      var problem := row.idea.problem;
      assert table[idx] == Cleared(ideas[idx]);
      if problem.None? || problem.value == "" {
        idx := idx + 1;
        continue;
      }
      var problemPreview := ProblemPreview(problem.value);
      if row.idea.solution.None? {
        // slicing the missing solution raises, which ends the run here
        outcome := Failed(idx);
        break;
      }
      var log := Consult(table, idx, system, oracle, ideas, threshold);
      requests := requests + [log];
      idx := idx + 1;
    }
    if outcome == Completed {
      StopAtLimit(ideas, threshold, idx);
    }
    RequestsBelowStable(ideas, system, threshold, idx, |ideas|);
    ProgressAtStop(t0, system, threshold, oracle);
  }

  /** A run as the button starts it: the filter fragment of the selected
      option is spliced into the system prompt that each row is sent with. */
  method TriageUpload(table: array<Row>, selection: string, threshold: int, oracle: Oracle)
    returns (outcome: Outcome, requests: seq<seq<Message>>)
    modifies table
    ensures table[..] == Triaged(old(table[..]), SystemPrompt(FilterPrompt(selection)), threshold, oracle)
    ensures outcome == RunOutcome(Ideas(old(table[..])), threshold)
    ensures requests == Requests(Ideas(old(table[..])), SystemPrompt(FilterPrompt(selection)), threshold)
  {
    var system := SystemPrompt(FilterPrompt(selection));
    outcome, requests := Run(table, system, threshold, oracle);
  }
}
