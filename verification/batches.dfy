/** Progress accounting (app.py:77-81): a user's labels, counted and split
    into completed batches of `BatchSize` and a position in the current one. */
module Batches {
  import opened Records
  import opened Tables

  /** The boolean-mask selection `rows[rows['email'] == email]`: the rows of
      that user, in table order. */
  function LabelsOf(rows: seq<Label>, email: string): (mine: seq<Label>)
    ensures |mine| <= |rows|
    ensures forall i :: 0 <= i < |mine| ==> mine[i].email == email && mine[i] in rows
    ensures forall j :: 0 <= j < |rows| && rows[j].email == email ==> rows[j] in mine
  {
    if |rows| == 0 then []
    else
      var last := rows[|rows| - 1];
      LabelsOf(rows[..|rows| - 1], email) + (if last.email == email then [last] else [])
  }

  /** Selecting from a concatenation selects from each part, keeping order. */
  lemma {:induction false} LabelsOfConcat(a: seq<Label>, b: seq<Label>, email: string)
    ensures LabelsOf(a + b, email) == LabelsOf(a, email) + LabelsOf(b, email)
    decreases |b|
  {
    if |b| == 0 {
      assert a + b == a;
    } else {
      var last := b[|b| - 1];
      assert (a + b)[..|a + b| - 1] == a + b[..|b| - 1];
      LabelsOfConcat(a, b[..|b| - 1], email);
    }
  }

  /** `user_labels` of app.py:77: an empty frame when the label table is
      empty, otherwise that user's rows. The guard changes nothing. */
  function UserLabels(labels: Table<Label>, email: string): (mine: seq<Label>)
    ensures mine == LabelsOf(labels.Rows(), email)
  {
    if labels.IsEmpty() then [] else LabelsOf(labels.rows, email)
  }

  /** What the app displays as progress. */
  datatype Progress = Progress(completedBatches: nat, currentBatch: nat)

  /** `shape[0] // 30` and `shape[0] % 30` (app.py:78-79). The count is never
      negative, so Python's floor division agrees with Dafny's. */
  function ProgressOf(labels: Table<Label>, email: string): (p: Progress)
    ensures p.currentBatch < BatchSize
    ensures p.completedBatches * BatchSize + p.currentBatch == |UserLabels(labels, email)|
  {
    var n := |UserLabels(labels, email)|;
    Progress(n / BatchSize, n % BatchSize)
  }

  /** The two facts `ProgressOf` promises determine the progress entirely. */
  lemma ProgressUnique(labels: Table<Label>, email: string, q: nat, r: nat)
    requires r < BatchSize
    requires q * BatchSize + r == |UserLabels(labels, email)|
    ensures ProgressOf(labels, email) == Progress(q, r)
  {
    var p := ProgressOf(labels, email);
    var d := q - p.completedBatches;
    assert d * BatchSize == p.currentBatch - r;
  }

  /** An empty label table shows 0 completed batches at position 0. */
  lemma ProgressOfNoLabels(labels: Table<Label>, email: string)
    requires labels.IsEmpty()
    ensures ProgressOf(labels, email) == Progress(0, 0)
  {
  }

  /** One more label for the user advances the position by one, rolling
      over into a new completed batch at the boundary. */
  lemma ProgressStep(before: Table<Label>, after: Table<Label>, email: string)
    requires |UserLabels(after, email)| == |UserLabels(before, email)| + 1
    ensures var p, p' := ProgressOf(before, email), ProgressOf(after, email);
      if p.currentBatch + 1 == BatchSize then p' == Progress(p.completedBatches + 1, 0)
      else p' == Progress(p.completedBatches, p.currentBatch + 1)
  {
    var p := ProgressOf(before, email);
    if p.currentBatch + 1 == BatchSize {
      ProgressUnique(after, email, p.completedBatches + 1, 0);
    } else {
      ProgressUnique(after, email, p.completedBatches, p.currentBatch + 1);
    }
  }
}
