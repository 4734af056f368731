/** Which listings a user still has to label, and which one the app shows
    next (app.py:83-91). */
module Assignment {
  import opened Wrappers
  import opened Records
  import opened Tables
  import opened Batches

  /** The photo URLs among some labels. */
  function LabelledUrls(labels: seq<Label>): (urls: set<string>)
    ensures forall l :: l in labels ==> l.photoUrl in urls
    ensures forall u :: u in urls ==> exists l :: l in labels && l.photoUrl == u
  {
    set l | l in labels :: l.photoUrl
  }

  /** `catalog[~catalog['photo_url'].isin(done)]`: the catalog rows whose
      photo URL is not in `done`, in catalog order. */
  function Remaining(catalog: seq<Item>, done: set<string>): (rest: seq<Item>)
    ensures |rest| <= |catalog|
    ensures forall i :: 0 <= i < |rest| ==> rest[i] in catalog && rest[i].photoUrl !in done
    ensures forall j :: 0 <= j < |catalog| && catalog[j].photoUrl !in done ==> catalog[j] in rest
  {
    if |catalog| == 0 then []
    else
      var last := catalog[|catalog| - 1];
      Remaining(catalog[..|catalog| - 1], done) + (if last.photoUrl in done then [] else [last])
  }

  /** `remaining` of app.py:83 for the session user: the catalog minus
      the photo URLs that user has labelled (an empty list when they have
      no labels). The empty-frame guard changes nothing. */
  function RemainingFor(catalog: seq<Item>, labels: Table<Label>, email: string): (rest: seq<Item>)
    ensures rest == Remaining(catalog, LabelledUrls(UserLabels(labels, email)))
  {
    var mine := UserLabels(labels, email);
    assert (if |mine| == 0 then {} else LabelledUrls(mine)) == LabelledUrls(mine);
    Remaining(catalog, if |mine| == 0 then {} else LabelledUrls(mine))
  }

  /** Nothing in the user's pool carries a URL the user has labelled. */
  lemma RemainingForExcludesLabelled(catalog: seq<Item>, labels: Table<Label>, email: string)
    ensures forall x :: x in RemainingFor(catalog, labels, email) ==>
      x in catalog && x.photoUrl !in LabelledUrls(UserLabels(labels, email))
  {
    var mine := UserLabels(labels, email);
    assert (if |mine| == 0 then {} else LabelledUrls(mine)) == LabelledUrls(mine);
  }

  /** Filtering a concatenation filters each part: `Remaining` keeps the
      catalog's order. */
  lemma {:induction false} RemainingConcat(a: seq<Item>, b: seq<Item>, done: set<string>)
    ensures Remaining(a + b, done) == Remaining(a, done) + Remaining(b, done)
    decreases |b|
  {
    if |b| == 0 {
      assert a + b == a;
    } else {
      assert (a + b)[..|a + b| - 1] == a + b[..|b| - 1];
      RemainingConcat(a, b[..|b| - 1], done);
    }
  }

  /** With nothing labelled, everything remains. */
  lemma {:induction false} RemainingNothingDone(catalog: seq<Item>)
    ensures Remaining(catalog, {}) == catalog
    decreases |catalog|
  {
    if |catalog| > 0 {
      var init, last := catalog[..|catalog| - 1], catalog[|catalog| - 1];
      RemainingNothingDone(init);
      assert last.photoUrl !in {};
      assert Remaining(catalog, {}) == init + [last];
      assert catalog == init + [last];
    }
  }

  /** Filtering twice is filtering once by both URL sets. */
  lemma {:induction false} RemainingTwice(catalog: seq<Item>, d1: set<string>, d2: set<string>)
    ensures Remaining(Remaining(catalog, d1), d2) == Remaining(catalog, d1 + d2)
    decreases |catalog|
  {
    if |catalog| > 0 {
      var init, last := catalog[..|catalog| - 1], catalog[|catalog| - 1];
      RemainingTwice(init, d1, d2);
      RemainingConcat(Remaining(init, d1), if last.photoUrl in d1 then [] else [last], d2);
      if last.photoUrl !in d1 {
        assert Remaining([last], d2) == Remaining([], d2) + (if last.photoUrl in d2 then [] else [last]);
      }
    }
  }

  /** A user who has labelled nothing has the whole catalog left. */
  lemma RemainingForNewUser(catalog: seq<Item>, labels: Table<Label>, email: string)
    requires |UserLabels(labels, email)| == 0
    ensures RemainingFor(catalog, labels, email) == catalog
  {
    RemainingNothingDone(catalog);
  }

  /** A label written by someone else leaves the user's remaining items as
      they were. */
  lemma OtherUsersIrrelevant(catalog: seq<Item>, labels: Table<Label>, other: Label, email: string)
    requires other.email != email
    ensures RemainingFor(catalog, Append(labels, other), email) == RemainingFor(catalog, labels, email)
  {
    var after := Append(labels, other);
    assert after.Rows() == labels.Rows() + [other];
    LabelsOfConcat(labels.Rows(), [other], email);
    assert LabelsOf([other], email) == [];
    assert UserLabels(after, email) == UserLabels(labels, email);
  }

  /** One more label adds exactly its photo URL. */
  lemma LabelledUrlsAppend(labels: seq<Label>, l: Label)
    ensures LabelledUrls(labels + [l]) == LabelledUrls(labels) + {l.photoUrl}
  {
    forall u | u in LabelledUrls(labels + [l])
      ensures u in LabelledUrls(labels) + {l.photoUrl}
    {
      var x :| x in labels + [l] && x.photoUrl == u;
      if x != l {
        assert x in labels;
      }
    }
  }

  /** The user's own new label removes its photo URL from their pool. */
  lemma RemainingForOwnLabel(catalog: seq<Item>, labels: Table<Label>, l: Label)
    ensures RemainingFor(catalog, Append(labels, l), l.email) ==
      Remaining(RemainingFor(catalog, labels, l.email), {l.photoUrl})
  {
    var mine := UserLabels(labels, l.email);
    var after := Append(labels, l);
    assert after.Rows() == labels.Rows() + [l];
    LabelsOfConcat(labels.Rows(), [l], l.email);
    assert LabelsOf([l], l.email) == [l];
    assert UserLabels(after, l.email) == mine + [l];
    var done := if |mine| == 0 then {} else LabelledUrls(mine);
    assert done == LabelledUrls(mine);
    LabelledUrlsAppend(mine, l);
    RemainingTwice(catalog, done, {l.photoUrl});
  }

  /** Of a two-listing catalog where the user has labelled the first, only
      the second remains, so it is the one shown. */
  lemma OnlyUnlabelledRemains(p1: Item, p2: Item, labels: Table<Label>, email: string)
    requires p1.photoUrl != p2.photoUrl
    requires LabelledUrls(UserLabels(labels, email)) == {p1.photoUrl}
    ensures RemainingFor([p1, p2], labels, email) == [p2]
  {
    var done := {p1.photoUrl};
    assert |UserLabels(labels, email)| > 0;
    assert [p1, p2][..1] == [p1];
    assert [p1][..0] == [];
    assert Remaining([p1], done) == [];
    assert Remaining([p1, p2], done) == [p2];
  }

  /** Page logic of app.py:84-91 for one rerun: compute progress and the
      remaining pool, and present one listing picked from the pool (the
      `sample(1)` draw is an arbitrary choice here). The "start new batch"
      gate never holds, since the position is always below the batch size. */
  method NextItem(catalog: seq<Item>, labels: Table<Label>, session: Session) returns (shown: Option<Item>)
    ensures var rest := RemainingFor(catalog, labels, session.email);
      shown.Some? <==> |rest| > 0
    ensures shown.Some? ==> shown.value in RemainingFor(catalog, labels, session.email)
    ensures shown.Some? ==> shown.value.photoUrl !in LabelledUrls(UserLabels(labels, session.email))
    ensures var rest := RemainingFor(catalog, labels, session.email);
      |rest| == 1 ==> shown == Some(rest[0])
  {
    var progress := ProgressOf(labels, session.email);
    var remaining := RemainingFor(catalog, labels, session.email);
    RemainingForExcludesLabelled(catalog, labels, session.email);
    if progress.currentBatch < BatchSize && |remaining| > 0 {
      var i :| 0 <= i < |remaining|;
      assert |remaining| == 1 ==> i == 0;
      shown := Some(remaining[i]);
      assert shown.value in remaining;
    } else {
      shown := None;
    }
  }
}
