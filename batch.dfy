/** The table the triage run works on and, as functions of the table before
    the run, what the run does to it: which rows the loop reaches, which it
    skips, where it stops, which message logs it sends to the model, and
    what every row holds afterwards. */
module Batch {
  import opened Prompts
  import opened Decision

  datatype Option<T> = None | Some(value: T)

  /** The cells of one CSV row that the loop reads; None is a missing
      (NaN) cell. */
  datatype Idea = Idea(problem: Option<string>, solution: Option<string>)

  /** One row of the table together with the two columns the run writes. */
  datatype Row = Row(idea: Idea, isFiltered: string, analysis: string)

  /** The model: the message log in, the answer text out. */
  type Oracle = seq<Message> -> string

  /** How a run ends: it either goes through the loop, or stops at the row
      whose missing solution cannot be sliced. */
  datatype Outcome = Completed | Failed(row: nat)

  function Ideas(t: seq<Row>): (ideas: seq<Idea>)
    ensures |ideas| == |t|
    ensures forall i :: 0 <= i < |t| ==> ideas[i] == t[i].idea
  {
    seq(|t|, i requires 0 <= i < |t| => t[i].idea)
  }

  /** A row the loop does not skip: its problem is present and not empty. */
  predicate Eligible(idea: Idea) {
    idea.problem.Some? && idea.problem.value != ""
  }

  /** A row the loop does not skip but cannot slice the solution of. */
  predicate Crashes(idea: Idea) {
    Eligible(idea) && idea.solution.None?
  }

  /** A row the loop sends to the model once it reaches it. */
  predicate Sendable(idea: Idea) {
    Eligible(idea) && idea.solution.Some?
  }

  /** The number of leading rows the loop reaches before the threshold
      breaks it off: no more than the table holds, no more than the
      threshold, and the threshold itself unless the table runs out first. */
  function Limit(threshold: int, n: nat): (k: nat)
    ensures k <= n && k <= (if threshold < 0 then 0 else threshold)
    ensures k < n ==> k == (if threshold < 0 then 0 else threshold)
  {
    if threshold <= 0 then 0 else if threshold < n then threshold else n
  }

  /** The first row in [i, limit) that crashes the loop, or `limit`. */
  function FirstCrashFrom(ideas: seq<Idea>, i: nat, limit: nat): (c: nat)
    requires i <= limit <= |ideas|
    ensures i <= c <= limit
    ensures forall j :: i <= j < c ==> !Crashes(ideas[j])
    ensures c < limit ==> Crashes(ideas[c])
    decreases limit - i
  {
    if i == limit then limit
    else if Crashes(ideas[i]) then i
    else FirstCrashFrom(ideas, i + 1, limit)
  }

  /** The index the loop ends at: the threshold, the end of the table, or
      the first row that crashes it, whichever comes first. */
  function Stop(ideas: seq<Idea>, threshold: int): (c: nat)
    ensures c <= Limit(threshold, |ideas|)
  {
    FirstCrashFrom(ideas, 0, Limit(threshold, |ideas|))
  }

  /** Row `i` is sent to the model and gets both columns written. */
  predicate Processed(ideas: seq<Idea>, threshold: int, i: nat)
    requires i < |ideas|
  {
    i < Stop(ideas, threshold) && Sendable(ideas[i])
  }

  /** The message log the loop sends for a row. */
  function Request(system: string, idea: Idea): seq<Message>
    requires Sendable(idea)
  {
    MessageLog(system, idea.problem.value, idea.solution.value)
  }

  /** A row as the column initialisation leaves it. */
  function Cleared(idea: Idea): Row {
    Row(idea, "", "")
  }

  /** A row after the loop has written the answer and the decision. */
  function Judged(idea: Idea, analysis: string): Row {
    Row(idea, Decide(analysis), analysis)
  }

  /** The table after a run: every column but the two result columns is
      unchanged, the processed rows hold the model's answer and the
      decision taken from it, and every other row holds empty cells. */
  function Triaged(t: seq<Row>, system: string, threshold: int, oracle: Oracle): (r: seq<Row>)
    ensures |r| == |t| && Ideas(r) == Ideas(t)
    ensures forall i :: 0 <= i < |t| ==> (r[i].isFiltered != "" <==> Processed(Ideas(t), threshold, i))
    ensures forall i :: 0 <= i < |t| && Processed(Ideas(t), threshold, i) ==>
              r[i].analysis == oracle(Request(system, t[i].idea)) && r[i].isFiltered == Decide(r[i].analysis)
    ensures forall i :: 0 <= i < |t| && !Processed(Ideas(t), threshold, i) ==>
              r[i].isFiltered == "" && r[i].analysis == ""
  {
    var ideas := Ideas(t);
    var r := seq(|t|, i requires 0 <= i < |t| => RowAfter(ideas, system, threshold, oracle, i));
    assert Ideas(r) == ideas;
    r
  }

  /** Row `i` of the table after a run. */
  function RowAfter(ideas: seq<Idea>, system: string, threshold: int, oracle: Oracle, i: nat): Row
    requires i < |ideas|
  {
    if Processed(ideas, threshold, i) then Judged(ideas[i], oracle(Request(system, ideas[i])))
    else Cleared(ideas[i])
  }

  /** The message logs sent for the rows below `k`, in row order. */
  function RequestsBelow(ideas: seq<Idea>, system: string, threshold: int, k: nat): seq<seq<Message>>
    requires k <= |ideas|
  {
    if k == 0 then []
    else RequestsBelow(ideas, system, threshold, k - 1) +
         (if Processed(ideas, threshold, k - 1) then [Request(system, ideas[k - 1])] else [])
  }

  /** Every message log a run sends, one per model call, in row order. */
  function Requests(ideas: seq<Idea>, system: string, threshold: int): seq<seq<Message>> {
    RequestsBelow(ideas, system, threshold, |ideas|)
  }

  /** A run fails exactly when some reached row crashes, and then at the
      first such row. */
  function RunOutcome(ideas: seq<Idea>, threshold: int): (o: Outcome)
    ensures o.Failed? <==> exists j :: 0 <= j < Limit(threshold, |ideas|) && Crashes(ideas[j])
    ensures o.Failed? ==> o.row < Limit(threshold, |ideas|) && Crashes(ideas[o.row]) &&
                          forall j :: 0 <= j < o.row ==> !Crashes(ideas[j])
  {
    var c := Stop(ideas, threshold);
    if c < Limit(threshold, |ideas|) then Failed(c) else Completed
  }

  /** Reference reading of which rows a run processes: a row is processed
      exactly when its index is below the threshold, it has a problem and a
      solution, and no earlier row crashed the loop. Skipped rows still
      count towards the threshold, because the index is the row position. */
  lemma ProcessedIff(ideas: seq<Idea>, threshold: int, i: nat)
    requires i < |ideas|
    ensures Processed(ideas, threshold, i) <==>
              i < threshold && Sendable(ideas[i]) && forall j :: 0 <= j < i ==> !Crashes(ideas[j])
  {
    var k := Limit(threshold, |ideas|);
    var c := Stop(ideas, threshold);
    if i < threshold && Sendable(ideas[i]) && forall j :: 0 <= j < i ==> !Crashes(ideas[j]) {
      assert i < k;
    }
  }

  /** Where the loop goes on from a reached row below the threshold: a row
      that crashes is where it stops, any other row lets it go further. */
  lemma StopAfter(ideas: seq<Idea>, threshold: int, i: nat)
    requires i < |ideas| && i < threshold && i <= Stop(ideas, threshold)
    ensures Crashes(ideas[i]) ==> Stop(ideas, threshold) == i && RunOutcome(ideas, threshold) == Failed(i)
    ensures !Crashes(ideas[i]) ==> i < Stop(ideas, threshold)
  {
    var k := Limit(threshold, |ideas|);
    assert i < k;
  }

  /** Reaching the threshold or the end of the table without a crash is
      where the loop stops, and the run completes. */
  lemma StopAtLimit(ideas: seq<Idea>, threshold: int, i: nat)
    requires i <= Stop(ideas, threshold)
    requires i >= threshold || i == |ideas|
    ensures Stop(ideas, threshold) == i && RunOutcome(ideas, threshold) == Completed
  {
  }

  /** The table once the loop has gone past the rows below `k`: those rows
      as the run leaves them, the others as the initialisation left them. */
  function Progress(ideas: seq<Idea>, system: string, threshold: int, oracle: Oracle, k: nat): seq<Row>
    requires k <= |ideas|
  {
    seq(|ideas|, j requires 0 <= j < |ideas| =>
      if j < k then RowAfter(ideas, system, threshold, oracle, j) else Cleared(ideas[j]))
  }

  /** The initialised table is the loop's starting point. */
  lemma ProgressStart(r: seq<Row>, ideas: seq<Idea>, system: string, threshold: int, oracle: Oracle)
    requires |r| == |ideas|
    requires forall j :: 0 <= j < |r| ==> r[j] == Cleared(ideas[j])
    ensures r == Progress(ideas, system, threshold, oracle, 0)
  {
  }

  /** Writing row `k` as the run leaves it moves the loop one row on; a
      row the run does not process is left as it is. */
  lemma ProgressStep(ideas: seq<Idea>, system: string, threshold: int, oracle: Oracle, k: nat)
    requires k < |ideas|
    ensures Progress(ideas, system, threshold, oracle, k)[k := RowAfter(ideas, system, threshold, oracle, k)] ==
            Progress(ideas, system, threshold, oracle, k + 1)
    ensures Progress(ideas, system, threshold, oracle, k)[k] == Cleared(ideas[k])
    ensures !Processed(ideas, threshold, k) ==>
              Progress(ideas, system, threshold, oracle, k) == Progress(ideas, system, threshold, oracle, k + 1)
  {
    var p := Progress(ideas, system, threshold, oracle, k);
    var q := Progress(ideas, system, threshold, oracle, k + 1);
    assert p[k := RowAfter(ideas, system, threshold, oracle, k)] == q;
  }

  /** Once the loop has reached the stopping index, the table is the table
      after the run. */
  lemma ProgressAtStop(t: seq<Row>, system: string, threshold: int, oracle: Oracle)
    ensures Progress(Ideas(t), system, threshold, oracle, Stop(Ideas(t), threshold)) ==
            Triaged(t, system, threshold, oracle)
  {
    var ideas := Ideas(t);
    var p := Progress(ideas, system, threshold, oracle, Stop(ideas, threshold));
    var f := Triaged(t, system, threshold, oracle);
    forall j | 0 <= j < |t| ensures p[j] == f[j] {
      assert f[j] == RowAfter(ideas, system, threshold, oracle, j);
    }
  }

  /** Rows with no processed row between `k` and `m` add no request. */
  lemma {:induction false} RequestsBelowStable(ideas: seq<Idea>, system: string, threshold: int, k: nat, m: nat)
    requires k <= m <= |ideas|
    requires forall j :: k <= j < m ==> !Processed(ideas, threshold, j)
    ensures RequestsBelow(ideas, system, threshold, m) == RequestsBelow(ideas, system, threshold, k)
    decreases m - k
  {
    if m > k {
      RequestsBelowStable(ideas, system, threshold, k, m - 1);
    }
  }

  /** At most one request per row reached before the loop stops. */
  lemma {:induction false} RequestsBelowLength(ideas: seq<Idea>, system: string, threshold: int, k: nat)
    requires k <= |ideas|
    ensures |RequestsBelow(ideas, system, threshold, k)| <= k
    ensures |RequestsBelow(ideas, system, threshold, k)| <= Stop(ideas, threshold)
  {
    if k > 0 {
      RequestsBelowLength(ideas, system, threshold, k - 1);
    }
  }

  /** A row below `k` that is not processed leaves the count short of `k`. */
  lemma {:induction false} RequestsBelowShort(ideas: seq<Idea>, system: string, threshold: int, k: nat, j: nat)
    requires j < k <= |ideas|
    requires !Processed(ideas, threshold, j)
    ensures |RequestsBelow(ideas, system, threshold, k)| < k
  {
    if j < k - 1 {
      RequestsBelowShort(ideas, system, threshold, k - 1, j);
    } else {
      RequestsBelowLength(ideas, system, threshold, k - 1);
    }
  }

  /** Every row below `k` processed gives exactly `k` requests. */
  lemma {:induction false} RequestsBelowFull(ideas: seq<Idea>, system: string, threshold: int, k: nat)
    requires k <= |ideas|
    requires forall j :: 0 <= j < k ==> Processed(ideas, threshold, j)
    ensures |RequestsBelow(ideas, system, threshold, k)| == k
  {
    if k > 0 {
      RequestsBelowFull(ideas, system, threshold, k - 1);
    }
  }

  /** The model is called at most min(threshold, row count) times, and for a
      negative threshold not at all. */
  lemma RequestsBound(ideas: seq<Idea>, system: string, threshold: int)
    ensures |Requests(ideas, system, threshold)| <= Limit(threshold, |ideas|)
    ensures threshold >= 0 ==> |Requests(ideas, system, threshold)| <= if threshold < |ideas| then threshold else |ideas|
  {
    RequestsBelowLength(ideas, system, threshold, |ideas|);
  }

  /** The number of calls reaches min(threshold, row count) exactly when
      every row below that bound has both a problem and a solution. */
  lemma RequestsExact(ideas: seq<Idea>, system: string, threshold: int)
    ensures |Requests(ideas, system, threshold)| == Limit(threshold, |ideas|) <==>
              forall j :: 0 <= j < Limit(threshold, |ideas|) ==> Sendable(ideas[j])
  {
    var k := Limit(threshold, |ideas|);
    var c := Stop(ideas, threshold);
    var n := |Requests(ideas, system, threshold)|;
    RequestsBelowLength(ideas, system, threshold, |ideas|);
    if forall j :: 0 <= j < k ==> Sendable(ideas[j]) {
      assert c == k;
      RequestsBelowStable(ideas, system, threshold, k, |ideas|);
      RequestsBelowFull(ideas, system, threshold, k);
    }
    if n == k && exists j :: 0 <= j < k && !Sendable(ideas[j]) {
      var j :| 0 <= j < k && !Sendable(ideas[j]);
      assert c == k;
      RequestsBelowStable(ideas, system, threshold, k, |ideas|);
      RequestsBelowShort(ideas, system, threshold, k, j);
      assert false;
    }
  }

  /** Running the triage again on its own result gives the same table: the
      run first empties both result columns and reads nothing else it wrote. */
  lemma TriageIdempotent(t: seq<Row>, system: string, threshold: int, oracle: Oracle)
    ensures Triaged(Triaged(t, system, threshold, oracle), system, threshold, oracle) ==
            Triaged(t, system, threshold, oracle)
  {
  }

  /** Two rows, the second with an empty problem, and a threshold of ten:
      the model is called once, for the first row, and the second row keeps
      empty result columns. */
  lemma EmptyProblemSkipped(system: string, oracle: Oracle)
    ensures var t := [Row(Idea(Some("The usage of plastic bottles"), Some("refill station service")), "x", "x"),
                      Row(Idea(Some(""), Some("n/a")), "x", "x")];
            var r := Triaged(t, system, 10, oracle);
            |Requests(Ideas(t), system, 10)| == 1 && RunOutcome(Ideas(t), 10) == Completed &&
            r[0].analysis == oracle(MessageLog(system, "The usage of plastic bottles", "refill station service")) &&
            r[1] == Row(t[1].idea, "", "")
  {
    var t := [Row(Idea(Some("The usage of plastic bottles"), Some("refill station service")), "x", "x"),
              Row(Idea(Some(""), Some("n/a")), "x", "x")];
    var ideas := Ideas(t);
    var r := Triaged(t, system, 10, oracle);
    assert Stop(ideas, 10) == 2;
    assert Processed(ideas, 10, 0) && !Processed(ideas, 10, 1);
    assert RequestsBelow(ideas, system, 10, 1) == [Request(system, ideas[0])];
    assert r[1] == Cleared(ideas[1]);
  }

  /** A skipped row uses up a place under the threshold: with a threshold of
      one and the empty row first, nothing is sent. */
  lemma SkippedRowCountsTowardsThreshold(system: string, oracle: Oracle)
    ensures var t := [Row(Idea(Some(""), Some("n/a")), "", ""),
                      Row(Idea(Some("The usage of plastic bottles"), Some("refill station service")), "", "")];
            Requests(Ideas(t), system, 1) == [] && Triaged(t, system, 1, oracle) == t
  {
    var t := [Row(Idea(Some(""), Some("n/a")), "", ""),
              Row(Idea(Some("The usage of plastic bottles"), Some("refill station service")), "", "")];
    var r := Triaged(t, system, 1, oracle);
    assert !Processed(Ideas(t), 1, 0) && !Processed(Ideas(t), 1, 1);
    assert RequestsBelow(Ideas(t), system, 1, 1) == [];
    assert r[0] == t[0] && r[1] == t[1];
  }

  /** A missing solution on a reached row ends the run there: the rows from
      it on keep empty result columns and the view tables are never built. */
  lemma MissingSolutionStopsRun(system: string, oracle: Oracle)
    ensures var t := [Row(Idea(Some("p"), None), "", ""), Row(Idea(Some("q"), Some("s")), "", "")];
            RunOutcome(Ideas(t), 10) == Failed(0) && Requests(Ideas(t), system, 10) == [] &&
            Triaged(t, system, 10, oracle) == t
  {
    var t := [Row(Idea(Some("p"), None), "", ""), Row(Idea(Some("q"), Some("s")), "", "")];
    var r := Triaged(t, system, 10, oracle);
    assert Stop(Ideas(t), 10) == 0;
    assert RequestsBelow(Ideas(t), system, 10, 1) == [];
    assert r[0] == t[0] && r[1] == t[1];
  }
}
