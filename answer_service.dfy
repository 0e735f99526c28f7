/**
 * Answer submission: a participant's whole answer set is replaced in one transaction, and
 * the participant's (or a matching's) answers are read back.
 */
module AnswerService {
  import opened Wrappers
  import opened Errors
  import opened Entities
  import opened AnswerTable
  import opened Database

  /** One submitted answer: the chosen choice of a question. */
  datatype AnswerCreateDto = AnswerCreateDto(questionId: int, choiceId: int)

  /** The rows a submission saves for participant pid: one per DTO, in submission order. */
  function RowsFor(pid: int, dtos: seq<AnswerCreateDto>): (rows: seq<Answer>)
    ensures |rows| == |dtos|
    ensures forall k :: 0 <= k < |dtos| ==> rows[k] == Answer(pid, dtos[k].questionId, dtos[k].choiceId)
  {
    seq(|dtos|, k requires 0 <= k < |dtos| => Answer(pid, dtos[k].questionId, dtos[k].choiceId))
  }

  /**
   * The validation of the submission loop: the error of the first DTO whose question (checked
   * first) or choice is not stored, or None when every DTO resolves.
   */
  function FirstUnresolved(dtos: seq<AnswerCreateDto>, qs: map<int, Question>, cs: map<int, Choice>): (r: Option<Error>)
    ensures r.None? <==> AllResolve(dtos, qs, cs)
    ensures r.Some? ==> r.value == NotFound(QuestionEntity) || r.value == NotFound(ChoiceEntity)
    ensures r == Some(NotFound(QuestionEntity)) ==> exists k :: 0 <= k < |dtos| && dtos[k].questionId !in qs
    ensures r == Some(NotFound(ChoiceEntity)) ==> exists k :: 0 <= k < |dtos| && dtos[k].choiceId !in cs
    ensures r.Some? ==> exists k :: 0 <= k < |dtos| && FailsFirstAt(dtos, qs, cs, k) && r.value == ErrorAt(dtos[k], qs)
  {
    if dtos == [] then None
    else if dtos[0].questionId !in qs then
      assert FailsFirstAt(dtos, qs, cs, 0);
      Some(NotFound(QuestionEntity))
    else if dtos[0].choiceId !in cs then
      assert FailsFirstAt(dtos, qs, cs, 0);
      Some(NotFound(ChoiceEntity))
    else
      var r := FirstUnresolved(dtos[1..], qs, cs);
      assert forall k :: 1 <= k < |dtos| ==> dtos[k] == dtos[1..][k - 1];
      if r.Some? then
        var k :| 0 <= k < |dtos| - 1 && FailsFirstAt(dtos[1..], qs, cs, k) && r.value == ErrorAt(dtos[1..][k], qs);
        assert dtos[..k + 1] == [dtos[0]] + dtos[1..][..k];
        assert FailsFirstAt(dtos, qs, cs, k + 1);
        r
      else
        r
  }

  /** With a first DTO missing its choice and a second missing its question, the choice is reported. */
  lemma FirstUnresolvedExample(qs: map<int, Question>, cs: map<int, Choice>)
    requires 1 in qs && 10 !in cs && 2 !in qs
    ensures FirstUnresolved([AnswerCreateDto(1, 10), AnswerCreateDto(2, 20)], qs, cs) == Some(NotFound(ChoiceEntity))
  {
  }

  /** The question and the choice of the DTO are both stored. */
  predicate Resolves(d: AnswerCreateDto, qs: map<int, Question>, cs: map<int, Choice>)
  {
    d.questionId in qs && d.choiceId in cs
  }

  /** Every DTO of the list resolves. */
  predicate AllResolve(dtos: seq<AnswerCreateDto>, qs: map<int, Question>, cs: map<int, Choice>)
  {
    forall k :: 0 <= k < |dtos| ==> Resolves(dtos[k], qs, cs)
  }

  /** The DTO at k is the first one that does not resolve. */
  predicate FailsFirstAt(dtos: seq<AnswerCreateDto>, qs: map<int, Question>, cs: map<int, Choice>, k: int)
    requires 0 <= k < |dtos|
  {
    AllResolve(dtos[..k], qs, cs) && !Resolves(dtos[k], qs, cs)
  }

  /** The exception of an unresolved DTO: the question is checked before the choice. */
  function ErrorAt(d: AnswerCreateDto, qs: map<int, Question>): Error
  {
    if d.questionId !in qs then NotFound(QuestionEntity) else NotFound(ChoiceEntity)
  }

  /** The answer table after participant pid's rows are deleted and `rows` are saved. */
  function ReplaceAnswers(answers: seq<Answer>, pid: int, rows: seq<Answer>): (r: seq<Answer>)
    ensures forall a :: a in r <==> (a in answers && a.participantId != pid) || a in rows
    ensures |rows| <= |r| && r[|r| - |rows|..] == rows
  {
    WithoutParticipant(answers, pid) + rows
  }

  /**
   * After a replace the participant's answers are exactly the new rows, and every other
   * participant's answers are what they were.
   */
  lemma ReplaceAnswersRows(answers: seq<Answer>, pid: int, rows: seq<Answer>)
    requires AllOf(rows, pid)
    ensures AnswersOf(ReplaceAnswers(answers, pid, rows), pid) == rows
    ensures forall q :: q != pid ==> AnswersOf(ReplaceAnswers(answers, pid, rows), q) == AnswersOf(answers, q)
  {
    AnswersOfAppend(WithoutParticipant(answers, pid), rows, pid);
    WithoutParticipantRows(answers, pid);
    AnswersOfAllOf(rows, pid);
    forall q | q != pid
      ensures AnswersOf(ReplaceAnswers(answers, pid, rows), q) == AnswersOf(answers, q)
    {
      AnswersOfAppend(WithoutParticipant(answers, pid), rows, q);
    }
  }

  /** Replacing with the same rows twice leaves the table of a single replace. */
  lemma ReplaceAnswersIdempotent(answers: seq<Answer>, pid: int, rows: seq<Answer>)
    requires AllOf(rows, pid)
    ensures ReplaceAnswers(ReplaceAnswers(answers, pid, rows), pid, rows) == ReplaceAnswers(answers, pid, rows)
  {
    var w := WithoutParticipant(answers, pid);
    WithoutParticipantAppend(w, rows, pid);
    WithoutParticipantRows(answers, pid);
    AnswersOfAllOf(rows, pid);
    assert WithoutParticipant(w + rows, pid) == w + [];
    assert w + [] == w;
  }

  lemma RowsForAllOf(pid: int, dtos: seq<AnswerCreateDto>)
    ensures AllOf(RowsFor(pid, dtos), pid)
  {
  }

  /**
   * A successful submission leaves the participant exactly one stored answer per submitted
   * DTO, with that DTO's question and choice.
   */
  lemma SubmissionSavesEveryDto(answers: seq<Answer>, pid: int, dtos: seq<AnswerCreateDto>)
    ensures var saved := AnswersOf(ReplaceAnswers(answers, pid, RowsFor(pid, dtos)), pid);
      |saved| == |dtos| &&
      forall k :: 0 <= k < |dtos| ==> saved[k].questionId == dtos[k].questionId && saved[k].choiceId == dtos[k].choiceId
  {
    RowsForAllOf(pid, dtos);
    ReplaceAnswersRows(answers, pid, RowsFor(pid, dtos));
  }

  /** The rows saved by a replace still reference stored participants, questions and choices. */
  lemma ReplaceKeepsReferences(answers: seq<Answer>, pid: int, rows: seq<Answer>,
                               ps: map<int, Participant>, qs: map<int, Question>, cs: map<int, Choice>)
    requires AnswersReferTo(answers, ps, qs, cs) && AnswersReferTo(rows, ps, qs, cs)
    ensures AnswersReferTo(ReplaceAnswers(answers, pid, rows), ps, qs, cs)
  {
    var kept := WithoutParticipant(answers, pid);
    forall i | 0 <= i < |kept|
      ensures kept[i].participantId in ps && kept[i].questionId in qs && kept[i].choiceId in cs
    {
      assert kept[i] in answers;
    }
  }

  /** The store right after the deleted rows were replaced by the submitted ones. */
  lemma SubmittedStore(db: Db, answers: seq<Answer>, pid: int, dtos: seq<AnswerCreateDto>)
    requires TablesValid(db.matchings, db.participants, answers, db.questions, db.choices, db.records, db.users,
                         db.nextMatchingId, db.nextParticipantId, db.nextQuestionId, db.nextChoiceId, db.nextUserId)
    requires pid in db.participants && FirstUnresolved(dtos, db.questions, db.choices).None?
    requires db.answers == ReplaceAnswers(answers, pid, RowsFor(pid, dtos))
    ensures db.Valid()
  {
    ReplaceKeepsReferences(answers, pid, RowsFor(pid, dtos), db.participants, db.questions, db.choices);
  }

  /**
   * The for loop of submitAnswers over the batch-resolved maps: one row per DTO in order, or
   * the NotFound of the first DTO that does not resolve.
   */
  method BuildAnswers(pid: int, dtos: seq<AnswerCreateDto>, qs: map<int, Question>, cs: map<int, Choice>)
    returns (answersToSave: seq<Answer>, failure: Option<Error>)
    ensures failure == FirstUnresolved(dtos, qs, cs)
    ensures failure.None? ==> answersToSave == RowsFor(pid, dtos)
  {
    answersToSave := [];
    failure := None;
    var i := 0;
    while i < |dtos|
      invariant 0 <= i <= |dtos|
      invariant FirstUnresolved(dtos[i..], qs, cs) == FirstUnresolved(dtos, qs, cs)
      invariant answersToSave == RowsFor(pid, dtos[..i])
    {
      assert dtos[i..][0] == dtos[i] && dtos[i..][1..] == dtos[i + 1..];
      if dtos[i].questionId !in qs {
        failure := Some(NotFound(QuestionEntity));
        assert failure == FirstUnresolved(dtos[i..], qs, cs);
        return;
      }
      if dtos[i].choiceId !in cs {
        failure := Some(NotFound(ChoiceEntity));
        assert failure == FirstUnresolved(dtos[i..], qs, cs);
        return;
      }
      assert FirstUnresolved(dtos[i..], qs, cs) == FirstUnresolved(dtos[i + 1..], qs, cs);
      assert RowsFor(pid, dtos[..i + 1]) == RowsFor(pid, dtos[..i]) + [Answer(pid, dtos[i].questionId, dtos[i].choiceId)];
      answersToSave := answersToSave + [Answer(pid, dtos[i].questionId, dtos[i].choiceId)];
      i := i + 1;
    }
    assert dtos[..i] == dtos;
    assert dtos[i..] == [];
  }

  /**
   * submitAnswers: deletes the participant's stored answers, resolves every submitted
   * question and choice, and saves one row per DTO. An unknown participant, question or choice
   * is NotFound and the transaction leaves the store as it was.
   */
  method SubmitAnswers(db: Db, participantCode: string, dtos: seq<AnswerCreateDto>) returns (r: Result<(), Error>)
    requires db.Valid()
    modifies db
    ensures db.Valid()
    ensures !old(ParticipantCodeTaken(db.participants, participantCode)) ==>
      r == Failure(NotFound(ParticipantEntity)) && unchanged(db)
    ensures old(ParticipantCodeTaken(db.participants, participantCode)) ==>
      var unresolved := FirstUnresolved(dtos, old(db.questions), old(db.choices));
      (unresolved.Some? ==> r == Failure(unresolved.value) && unchanged(db)) &&
      (unresolved.None? ==>
        var pid := ParticipantWithCode(old(db.participants), participantCode);
        r == Success(()) &&
        db.answers == ReplaceAnswers(old(db.answers), pid, RowsFor(pid, dtos)) &&
        db.matchings == old(db.matchings) && db.participants == old(db.participants) &&
        db.questions == old(db.questions) && db.choices == old(db.choices) &&
        db.records == old(db.records) && db.users == old(db.users) &&
        db.nextMatchingId == old(db.nextMatchingId) && db.nextParticipantId == old(db.nextParticipantId) &&
        db.nextQuestionId == old(db.nextQuestionId) && db.nextChoiceId == old(db.nextChoiceId) &&
        db.nextUserId == old(db.nextUserId))
  {
    if !ParticipantCodeTaken(db.participants, participantCode) {
      return Failure(NotFound(ParticipantEntity));
    }
    var pid :| pid in db.participants && db.participants[pid].participantCode == participantCode;
    assert pid == ParticipantWithCode(db.participants, participantCode);

    var before := db.answers;
    db.answers := WithoutParticipant(db.answers, pid);

    var answersToSave, failure := BuildAnswers(pid, dtos, db.questions, db.choices);
    if failure.Some? {
      db.answers := before;
      return Failure(failure.value);
    }
    db.answers := db.answers + answersToSave;
    SubmittedStore(db, before, pid, dtos);
    r := Success(());
  }

  /** getAnswersByParticipant: the participant's stored answers in table order, or NotFound. */
  method GetAnswersByParticipant(db: Db, participantCode: string) returns (r: Result<seq<Answer>, Error>)
    requires db.Valid()
    ensures !ParticipantCodeTaken(db.participants, participantCode) ==> r == Failure(NotFound(ParticipantEntity))
    ensures ParticipantCodeTaken(db.participants, participantCode) ==>
      r == Success(AnswersOf(db.answers, ParticipantWithCode(db.participants, participantCode)))
  {
    if !ParticipantCodeTaken(db.participants, participantCode) {
      return Failure(NotFound(ParticipantEntity));
    }
    var pid :| pid in db.participants && db.participants[pid].participantCode == participantCode;
    assert pid == ParticipantWithCode(db.participants, participantCode);
    r := Success(AnswersOf(db.answers, pid));
  }

  /** getAnswersByMatching: the answers of every participant of the matching. */
  method GetAnswersByMatching(db: Db, matchingId: int) returns (answers: seq<Answer>)
    ensures answers == AnswersOfMatching(db.answers, db.participants, matchingId)
    ensures forall a :: a in answers <==>
      a in db.answers && a.participantId in db.participants && db.participants[a.participantId].matchingId == matchingId
    ensures forall a :: multiset(answers)[a] ==
                        if a.participantId in db.participants && db.participants[a.participantId].matchingId == matchingId
                        then multiset(db.answers)[a] else 0
  {
    answers := AnswersOfMatching(db.answers, db.participants, matchingId);
  }
}
