/** The two tables shown after a run: the removed ideas (rows marked
    "Filter") and the remaining ideas (rows marked "Keep"). Selecting rows by
    a boolean mask keeps each row's index label and the table's row order. */
module Views {
  import opened Decision
  import opened Batch

  /** A row of a view together with its index in the full table. */
  datatype Entry = Entry(index: nat, row: Row)

  ghost predicate InView(v: seq<Entry>, i: nat) {
    exists m :: 0 <= m < |v| && v[m].index == i
  }

  /** The rows below `k` whose `isFiltered` cell equals `mark`, in table
      order, and nothing else. */
  function ViewBelow(t: seq<Row>, mark: string, k: nat): (v: seq<Entry>)
    requires k <= |t|
    ensures |v| <= k
    ensures forall m :: 0 <= m < |v| ==>
              v[m].index < k && v[m].row == t[v[m].index] && v[m].row.isFiltered == mark
    ensures forall m, m' :: 0 <= m < m' < |v| ==> v[m].index < v[m'].index
  {
    if k == 0 then []
    else
      var v := ViewBelow(t, mark, k - 1);
      if t[k - 1].isFiltered == mark then v + [Entry(k - 1, t[k - 1])] else v
  }

  /** No row below `k` with the mark is left out of the view. */
  lemma {:induction false} ViewBelowComplete(t: seq<Row>, mark: string, k: nat, j: nat)
    requires j < k <= |t| && t[j].isFiltered == mark
    ensures InView(ViewBelow(t, mark, k), j)
  {
    var v := ViewBelow(t, mark, k - 1);
    var w := ViewBelow(t, mark, k);
    if j == k - 1 {
      assert w[|v|].index == j;
    } else {
      ViewBelowComplete(t, mark, k - 1, j);
      var m :| 0 <= m < |v| && v[m].index == j;
      assert w[m] == v[m];
    }
  }

  /** The table the removed ideas are shown in. */
  function Removed(t: seq<Row>): (v: seq<Entry>)
    ensures forall m :: 0 <= m < |v| ==> v[m].row.isFiltered == FilterLabel
  {
    ViewBelow(t, FilterLabel, |t|)
  }

  /** The table the remaining ideas are shown in. */
  function Remaining(t: seq<Row>): (v: seq<Entry>)
    ensures forall m :: 0 <= m < |v| ==> v[m].row.isFiltered == KeepLabel
  {
    ViewBelow(t, KeepLabel, |t|)
  }

  /** A row appears in a view exactly when its `isFiltered` cell carries the
      view's mark. */
  lemma InViewIff(t: seq<Row>, mark: string, i: nat)
    requires i < |t|
    ensures InView(ViewBelow(t, mark, |t|), i) <==> t[i].isFiltered == mark
  {
    var v := ViewBelow(t, mark, |t|);
    if t[i].isFiltered == mark {
      ViewBelowComplete(t, mark, |t|, i);
    }
    if InView(v, i) {
      var m :| 0 <= m < |v| && v[m].index == i;
      assert v[m].row == t[i];
    }
  }

  /** No row is both removed and remaining. */
  lemma ViewsDisjoint(t: seq<Row>, i: nat)
    requires i < |t|
    ensures !(InView(Removed(t), i) && InView(Remaining(t), i))
  {
    InViewIff(t, FilterLabel, i);
    InViewIff(t, KeepLabel, i);
  }

  /** After a run, a row is removed exactly when it was processed and the
      model's answer for it mentions "yes", and remaining exactly when it was
      processed and the answer does not; rows the loop did not process are
      in neither view. After a failed run the page never shows the views,
      so for such a run this is about a table nobody sees. */
  lemma ViewsAfterRun(t: seq<Row>, system: string, threshold: int, oracle: Oracle, i: nat)
    requires i < |t|
    ensures var r := Triaged(t, system, threshold, oracle);
            var ideas := Ideas(t);
            (InView(Removed(r), i) <==>
               Processed(ideas, threshold, i) && MentionsYes(oracle(Request(system, ideas[i])))) &&
            (InView(Remaining(r), i) <==>
               Processed(ideas, threshold, i) && !MentionsYes(oracle(Request(system, ideas[i]))))
  {
    var r := Triaged(t, system, threshold, oracle);
    InViewIff(r, FilterLabel, i);
    InViewIff(r, KeepLabel, i);
    if Processed(Ideas(t), threshold, i) {
      DecideIff(r[i].analysis);
    }
  }

  /** Counting the rows of both views below `k` gives the number of model
      calls for those rows. */
  lemma {:induction false} ViewSizesBelow(t: seq<Row>, system: string, threshold: int, oracle: Oracle, k: nat)
    requires k <= |t|
    ensures var r := Triaged(t, system, threshold, oracle);
            |ViewBelow(r, FilterLabel, k)| + |ViewBelow(r, KeepLabel, k)| ==
            |RequestsBelow(Ideas(t), system, threshold, k)|
  {
    if k > 0 {
      ViewSizesBelow(t, system, threshold, oracle, k - 1);
    }
  }

  /** After a run, the two views together hold exactly one row per model
      call. After a failed run the page never shows the views, so for such
      a run this is about a table nobody sees. */
  lemma ViewSizes(t: seq<Row>, system: string, threshold: int, oracle: Oracle)
    ensures var r := Triaged(t, system, threshold, oracle);
            |Removed(r)| + |Remaining(r)| == |Requests(Ideas(t), system, threshold)|
  {
    ViewSizesBelow(t, system, threshold, oracle, |t|);
  }
}
