/** Label submission (app.py:105-111): the new row built from the shown
    listing and the session, appended to the label table. */
module Submission {
  import opened Wrappers
  import opened Records
  import opened Tables
  import opened Text
  import opened Batches
  import opened Assignment

  /** The row of app.py:106-108; `now` stands for `datetime.now().isoformat()`. */
  function NewLabel(item: Item, session: Session, score: int, flag: string, now: string): (l: Label)
    ensures ItemOf(l) == item
    ensures l.email == session.email && l.company == session.company
    ensures l.imageFile == ImageName(item.photoUrl) && '/' !in l.imageFile
    ensures l.score == score && l.binaryFlag == flag && l.timestamp == now
  {
    Label(item.listingUrl, item.photoUrl, item.price, item.title, item.location, item.originCityList,
          session.email, session.company, ImageName(item.photoUrl), score, flag, now)
  }

  /** Submitting a label. The row is given the label table's own columns by
      position, so a label table without a header (labels.csv absent) cannot
      take it. Score and flag come from a 1..5 slider and a Yes/No radio. */
  function Submit(labels: Table<Label>, item: Item, session: Session, score: int, flag: string, now: string)
    : (r: Result<Table<Label>, Error>)
    requires ValidScore(score) && ValidFlag(flag)
    ensures r.Failure? <==> labels.NoFile?
    ensures r.Failure? ==> r.error == ColumnCountMismatch
    ensures r.Success? ==> |r.value.Rows()| == |labels.Rows()| + 1
    ensures r.Success? ==> forall i :: 0 <= i < |labels.Rows()| ==> r.value.Rows()[i] == labels.Rows()[i]
    ensures r.Success? ==> var l := r.value.Rows()[|labels.Rows()|];
      ItemOf(l) == item && l.email == session.email && l.score == score && l.binaryFlag == flag
  {
    if labels.NoFile? then Failure(ColumnCountMismatch)
    else Success(Append(labels, NewLabel(item, session, score, flag, now)))
  }

  /** A submission adds exactly one row to the submitter's labels and none
      to anyone else's. */
  lemma SubmitCounts(labels: Table<Label>, item: Item, session: Session, score: int, flag: string, now: string, email: string)
    requires ValidScore(score) && ValidFlag(flag)
    requires Submit(labels, item, session, score, flag, now).Success?
    ensures var after := Submit(labels, item, session, score, flag, now).value;
      UserLabels(after, email) ==
        UserLabels(labels, email) + (if email == session.email then [NewLabel(item, session, score, flag, now)] else [])
  {
    var l := NewLabel(item, session, score, flag, now);
    assert Submit(labels, item, session, score, flag, now).value.Rows() == labels.Rows() + [l];
    LabelsOfConcat(labels.Rows(), [l], email);
  }

  /** The submitter's progress advances by one position (rolling over at a
      batch boundary); every other user's progress is unchanged. */
  lemma SubmitAdvancesProgress(labels: Table<Label>, item: Item, session: Session, score: int, flag: string, now: string)
    requires ValidScore(score) && ValidFlag(flag)
    requires Submit(labels, item, session, score, flag, now).Success?
    ensures var p, p' := ProgressOf(labels, session.email),
                         ProgressOf(Submit(labels, item, session, score, flag, now).value, session.email);
      if p.currentBatch + 1 == BatchSize then p' == Progress(p.completedBatches + 1, 0)
      else p' == Progress(p.completedBatches, p.currentBatch + 1)
    ensures forall e :: e != session.email ==>
      ProgressOf(Submit(labels, item, session, score, flag, now).value, e) == ProgressOf(labels, e)
  {
    var after := Submit(labels, item, session, score, flag, now).value;
    SubmitCounts(labels, item, session, score, flag, now, session.email);
    ProgressStep(labels, after, session.email);
    forall e | e != session.email
      ensures ProgressOf(after, e) == ProgressOf(labels, e)
    {
      SubmitCounts(labels, item, session, score, flag, now, e);
    }
  }

  /** A user with 29 labels who submits one more has completed one batch and
      starts the next at position 0. */
  lemma SubmitCompletesBatch(labels: Table<Label>, item: Item, session: Session, score: int, flag: string, now: string)
    requires ValidScore(score) && ValidFlag(flag)
    requires Submit(labels, item, session, score, flag, now).Success?
    requires |UserLabels(labels, session.email)| == 29
    ensures ProgressOf(Submit(labels, item, session, score, flag, now).value, session.email) == Progress(1, 0)
  {
    SubmitAdvancesProgress(labels, item, session, score, flag, now);
  }

  /** After a submission the submitted listing has left the submitter's
      pool, and nothing else has. */
  lemma SubmitShrinksRemaining(catalog: seq<Item>, labels: Table<Label>, item: Item, session: Session,
                               score: int, flag: string, now: string)
    requires ValidScore(score) && ValidFlag(flag)
    requires Submit(labels, item, session, score, flag, now).Success?
    ensures var after := Submit(labels, item, session, score, flag, now).value;
      RemainingFor(catalog, after, session.email) ==
        Remaining(RemainingFor(catalog, labels, session.email), {item.photoUrl})
    ensures var after := Submit(labels, item, session, score, flag, now).value;
      forall x :: x in RemainingFor(catalog, after, session.email) ==> x.photoUrl != item.photoUrl
  {
    var l := NewLabel(item, session, score, flag, now);
    assert Submit(labels, item, session, score, flag, now).value == Append(labels, l);
    RemainingForOwnLabel(catalog, labels, l);
  }

  /** No user holds two labels for the same listing. */
  ghost predicate OnePerUserAndItem(rows: seq<Label>) {
    forall i, j :: 0 <= i < j < |rows| && rows[i].email == rows[j].email ==> rows[i].photoUrl != rows[j].photoUrl
  }

  /** Submitting a listing drawn from the submitter's remaining pool keeps
      the at-most-one-label-per-user-and-listing invariant. */
  lemma SubmitKeepsOnePerUserAndItem(catalog: seq<Item>, labels: Table<Label>, item: Item, session: Session,
                                     score: int, flag: string, now: string)
    requires ValidScore(score) && ValidFlag(flag)
    requires Submit(labels, item, session, score, flag, now).Success?
    requires OnePerUserAndItem(labels.Rows())
    requires item in RemainingFor(catalog, labels, session.email)
    ensures OnePerUserAndItem(Submit(labels, item, session, score, flag, now).value.Rows())
  {
    var rows := labels.Rows();
    var l := NewLabel(item, session, score, flag, now);
    var rows' := Submit(labels, item, session, score, flag, now).value.Rows();
    assert rows' == rows + [l];
    var mine := UserLabels(labels, session.email);
    var done := if |mine| == 0 then {} else LabelledUrls(mine);
    assert item.photoUrl !in done;
    forall i, j | 0 <= i < j < |rows'| && rows'[i].email == rows'[j].email
      ensures rows'[i].photoUrl != rows'[j].photoUrl
    {
      if j == |rows| {
        assert rows'[i] == rows[i] && rows'[j] == l;
        assert rows[i] in mine;
        assert rows[i].photoUrl in done;
      } else {
        assert rows'[i] == rows[i] && rows'[j] == rows[j];
      }
    }
  }

  /** Every stored row has a score in 1..5 and a Yes/No flag, if the rows
      before the submission did. */
  lemma SubmitKeepsValidJudgements(labels: Table<Label>, item: Item, session: Session, score: int, flag: string, now: string)
    requires ValidScore(score) && ValidFlag(flag)
    requires Submit(labels, item, session, score, flag, now).Success?
    requires forall i :: 0 <= i < |labels.Rows()| ==> ValidScore(labels.Rows()[i].score) && ValidFlag(labels.Rows()[i].binaryFlag)
    ensures var rows' := Submit(labels, item, session, score, flag, now).value.Rows();
      forall i :: 0 <= i < |rows'| ==> ValidScore(rows'[i].score) && ValidFlag(rows'[i].binaryFlag)
  {
  }
}
