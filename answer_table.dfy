/**
 * The answer table is a sequence of rows in insertion order. These functions are the
 * repository's queries over it (findByParticipantId and the delete of those rows).
 */
module AnswerTable {
  import opened Entities

  /** The rows of one participant, in table order (findByParticipantId). */
  function AnswersOf(answers: seq<Answer>, pid: int): (r: seq<Answer>)
    ensures |r| <= |answers|
    ensures forall a :: a in r <==> a in answers && a.participantId == pid
    decreases |answers|
  {
    if answers == [] then []
    else
      var rest := AnswersOf(answers[..|answers| - 1], pid);
      var last := answers[|answers| - 1];
      assert answers == answers[..|answers| - 1] + [last];
      if last.participantId == pid then rest + [last] else rest
  }

  /** The table after deleting one participant's rows. */
  function WithoutParticipant(answers: seq<Answer>, pid: int): (r: seq<Answer>)
    ensures |r| <= |answers|
    ensures forall a :: a in r <==> a in answers && a.participantId != pid
    decreases |answers|
  {
    if answers == [] then []
    else
      var rest := WithoutParticipant(answers[..|answers| - 1], pid);
      var last := answers[|answers| - 1];
      assert answers == answers[..|answers| - 1] + [last];
      if last.participantId != pid then rest + [last] else rest
  }

  /** Every row of xs belongs to participant pid. */
  predicate AllOf(xs: seq<Answer>, pid: int)
  {
    forall i :: 0 <= i < |xs| ==> xs[i].participantId == pid
  }

  /** Every row's question and choice are stored (the rows' foreign keys). */
  predicate Resolvable(rows: seq<Answer>, qs: map<int, Question>, cs: map<int, Choice>)
  {
    forall i :: 0 <= i < |rows| ==> rows[i].questionId in qs && rows[i].choiceId in cs
  }

  lemma {:induction false} AnswersOfAppend(xs: seq<Answer>, ys: seq<Answer>, pid: int)
    ensures AnswersOf(xs + ys, pid) == AnswersOf(xs, pid) + AnswersOf(ys, pid)
    decreases |ys|
  {
    if ys == [] {
      assert xs + ys == xs;
    } else {
      var n := |ys| - 1;
      assert (xs + ys)[..|xs + ys| - 1] == xs + ys[..n];
      assert (xs + ys)[|xs + ys| - 1] == ys[n];
      AnswersOfAppend(xs, ys[..n], pid);
    }
  }

  lemma {:induction false} WithoutParticipantAppend(xs: seq<Answer>, ys: seq<Answer>, pid: int)
    ensures WithoutParticipant(xs + ys, pid) == WithoutParticipant(xs, pid) + WithoutParticipant(ys, pid)
    decreases |ys|
  {
    if ys == [] {
      assert xs + ys == xs;
    } else {
      var n := |ys| - 1;
      assert (xs + ys)[..|xs + ys| - 1] == xs + ys[..n];
      assert (xs + ys)[|xs + ys| - 1] == ys[n];
      WithoutParticipantAppend(xs, ys[..n], pid);
    }
  }

  /** Filtering rows that all belong to pid keeps all of them. */
  lemma {:induction false} AnswersOfAllOf(xs: seq<Answer>, pid: int)
    requires AllOf(xs, pid)
    ensures AnswersOf(xs, pid) == xs
    ensures forall q :: q != pid ==> AnswersOf(xs, q) == []
    ensures WithoutParticipant(xs, pid) == []
    decreases |xs|
  {
    if xs != [] {
      AnswersOfAllOf(xs[..|xs| - 1], pid);
      assert xs == xs[..|xs| - 1] + [xs[|xs| - 1]];
    }
  }

  lemma AnswersOfSnoc(xs: seq<Answer>, a: Answer, pid: int)
    ensures AnswersOf(xs + [a], pid) == if a.participantId == pid then AnswersOf(xs, pid) + [a] else AnswersOf(xs, pid)
  {
    assert (xs + [a])[..|xs|] == xs;
  }

  lemma WithoutParticipantSnoc(xs: seq<Answer>, a: Answer, pid: int)
    ensures WithoutParticipant(xs + [a], pid) == if a.participantId != pid then WithoutParticipant(xs, pid) + [a] else WithoutParticipant(xs, pid)
  {
    assert (xs + [a])[..|xs|] == xs;
  }

  /** After deleting pid's rows, none of pid's rows remain and nobody else's are touched. */
  lemma {:induction false} WithoutParticipantRows(xs: seq<Answer>, pid: int)
    ensures AnswersOf(WithoutParticipant(xs, pid), pid) == []
    ensures forall q :: q != pid ==> AnswersOf(WithoutParticipant(xs, pid), q) == AnswersOf(xs, q)
    ensures WithoutParticipant(WithoutParticipant(xs, pid), pid) == WithoutParticipant(xs, pid)
    decreases |xs|
  {
    if xs != [] {
      var n := |xs| - 1;
      var init, last := xs[..n], xs[n];
      assert xs == init + [last];
      WithoutParticipantRows(init, pid);
      var w := WithoutParticipant(init, pid);
      WithoutParticipantSnoc(init, last, pid);
      if last.participantId != pid {
        assert WithoutParticipant(xs, pid) == w + [last];
        AnswersOfSnoc(w, last, pid);
        WithoutParticipantSnoc(w, last, pid);
        forall q | q != pid
          ensures AnswersOf(w + [last], q) == AnswersOf(xs, q)
        {
          AnswersOfSnoc(w, last, q);
          AnswersOfSnoc(init, last, q);
        }
      } else {
        assert WithoutParticipant(xs, pid) == w;
        forall q | q != pid
          ensures AnswersOf(w, q) == AnswersOf(xs, q)
        {
          AnswersOfSnoc(init, last, q);
        }
      }
    }
  }
}
