/**
 * Scoring a matching into its record: one record per matching, the strategy's temperature,
 * the answer summary, the matching completed; plus the soft deactivation and the lookups.
 */
module RecordService {
  import opened Wrappers
  import opened Errors
  import opened Entities
  import opened MatchingStatus
  import opened AnswerTable
  import opened Database
  import opened Decimal
  import opened TemperatureScoring
  import Strategy = WeightedTemperatureCalculationStrategy

  datatype RecordDto = RecordDto(
    recordId: string,
    matchingId: int,
    temperature: real,
    temperatureDiff: real,
    isActive: bool,
    createdAt: Timestamp,
    summary: map<string, SummaryEntry>)

  function ToDto(matchingId: int, rec: Record): RecordDto
  {
    RecordDto(rec.recordId, matchingId, rec.temperature, rec.temperatureDiff, rec.isActive, rec.createdAt, rec.summary)
  }

  /** The question-id -> order map built from every stored question. */
  function OrdersOf(qs: map<int, Question>): (qo: QuestionOrders)
    ensures qo.Keys == qs.Keys
    ensures forall q :: q in qo ==> qo[q] == qs[q].order
  {
    map q | q in qs :: qs[q].order
  }

  // ---------------------------------------------------------------------------------------
  // createSummary

  /** The summary key of a question order: "Q" followed by the order in decimal. */
  function SummaryKey(order: int): string
  {
    "Q" + IntToString(order)
  }

  /** Distinct orders give distinct keys, so no two orders share a summary slot. */
  lemma SummaryKeyInjective(a: int, b: int)
    ensures SummaryKey(a) == SummaryKey(b) <==> a == b
  {
    if SummaryKey(a) == SummaryKey(b) {
      assert SummaryKey(a)[1..] == IntToString(a);
      assert SummaryKey(b)[1..] == IntToString(b);
      IntToStringInjective(a, b);
    }
  }

  /** The summary entry of one answer: question text, choice text and question type. */
  function EntryOf(a: Answer, qs: map<int, Question>, cs: map<int, Choice>): SummaryEntry
    requires a.questionId in qs && a.choiceId in cs
  {
    SummaryEntry(qs[a.questionId].questionText, cs[a.choiceId].choiceText, qs[a.questionId].questionType)
  }

  /** Some answer of the list has a question with an order whose key is k, and e is its entry. */
  predicate EntryOfSomeAnswer(answers: seq<Answer>, qs: map<int, Question>, cs: map<int, Choice>, qo: QuestionOrders,
                              k: string, e: SummaryEntry)
    requires Resolvable(answers, qs, cs)
    decreases |answers|
  {
    if answers == [] then false
    else
      var n := |answers| - 1;
      var a := answers[n];
      EntryOfSomeAnswer(answers[..n], qs, cs, qo, k, e) ||
      (a.questionId in qo && k == SummaryKey(qo[a.questionId]) && e == EntryOf(a, qs, cs))
  }

  /**
   * The summary as a fold over the answers in list order: an answer whose question has an
   * order overwrites the entry at that order's key.
   */
  function Summary(answers: seq<Answer>, qs: map<int, Question>, cs: map<int, Choice>, qo: QuestionOrders): (r: map<string, SummaryEntry>)
    requires Resolvable(answers, qs, cs)
    ensures forall k :: k in r ==> EntryOfSomeAnswer(answers, qs, cs, qo, k, r[k])
    decreases |answers|
  {
    if answers == [] then map[]
    else
      var n := |answers| - 1;
      var a := answers[n];
      var m := Summary(answers[..n], qs, cs, qo);
      if a.questionId in qo then m[SummaryKey(qo[a.questionId]) := EntryOf(a, qs, cs)] else m
  }

  /** createSummary: the loop that puts each answer's entry under its order's key. */
  method CreateSummary(answers: seq<Answer>, qs: map<int, Question>, cs: map<int, Choice>, qo: QuestionOrders)
    returns (summary: map<string, SummaryEntry>)
    requires Resolvable(answers, qs, cs)
    ensures summary == Summary(answers, qs, cs, qo)
  {
    summary := map[];
    for i := 0 to |answers|
      invariant summary == Summary(answers[..i], qs, cs, qo)
    {
      assert answers[..i + 1][..i] == answers[..i];
      var answer := answers[i];
      if answer.questionId in qo {
        var key := SummaryKey(qo[answer.questionId]);
        summary := summary[key := EntryOf(answer, qs, cs)];
      }
    }
    assert answers[..|answers|] == answers;
  }

  /** Some answer of the list has a question with an order whose key is k. */
  predicate KeyOfSomeAnswer(answers: seq<Answer>, qo: QuestionOrders, k: string)
    decreases |answers|
  {
    if answers == [] then false
    else
      var n := |answers| - 1;
      KeyOfSomeAnswer(answers[..n], qo, k) || (answers[n].questionId in qo && k == SummaryKey(qo[answers[n].questionId]))
  }

  /** KeyOfSomeAnswer holds exactly when some index carries an answer with that key. */
  lemma {:induction false} KeyOfSomeAnswerIndex(answers: seq<Answer>, qo: QuestionOrders, k: string, i: nat)
    requires i < |answers| && answers[i].questionId in qo && k == SummaryKey(qo[answers[i].questionId])
    ensures KeyOfSomeAnswer(answers, qo, k)
    decreases |answers|
  {
    var n := |answers| - 1;
    if i < n {
      assert answers[..n][i] == answers[i];
      KeyOfSomeAnswerIndex(answers[..n], qo, k, i);
    }
  }

  lemma {:induction false} KeyOfSomeAnswerWitness(answers: seq<Answer>, qo: QuestionOrders, k: string) returns (i: nat)
    requires KeyOfSomeAnswer(answers, qo, k)
    ensures i < |answers| && answers[i].questionId in qo && k == SummaryKey(qo[answers[i].questionId])
    decreases |answers|
  {
    var n := |answers| - 1;
    if KeyOfSomeAnswer(answers[..n], qo, k) {
      i := KeyOfSomeAnswerWitness(answers[..n], qo, k);
      assert answers[..n][i] == answers[i];
    } else {
      i := n;
    }
  }

  /** The summary's keys are exactly the keys of the orders of the answered, ordered questions. */
  lemma {:induction false} SummaryKeys(answers: seq<Answer>, qs: map<int, Question>, cs: map<int, Choice>, qo: QuestionOrders)
    requires Resolvable(answers, qs, cs)
    ensures forall k :: k in Summary(answers, qs, cs, qo) <==> KeyOfSomeAnswer(answers, qo, k)
    decreases |answers|
  {
    if answers != [] {
      var n := |answers| - 1;
      SummaryKeys(answers[..n], qs, cs, qo);
    }
  }

  /**
   * When several answers share an order, the last of them in list order wins: the entry at
   * the order's key is that answer's.
   */
  lemma {:induction false} SummaryLastWins(answers: seq<Answer>, qs: map<int, Question>, cs: map<int, Choice>, qo: QuestionOrders, i: nat)
    requires Resolvable(answers, qs, cs)
    requires i < |answers| && answers[i].questionId in qo
    requires forall j :: i < j < |answers| && answers[j].questionId in qo ==>
      qo[answers[j].questionId] != qo[answers[i].questionId]
    ensures SummaryKey(qo[answers[i].questionId]) in Summary(answers, qs, cs, qo)
    ensures Summary(answers, qs, cs, qo)[SummaryKey(qo[answers[i].questionId])] == EntryOf(answers[i], qs, cs)
    decreases |answers|
  {
    var n := |answers| - 1;
    var init := answers[..n];
    var key := SummaryKey(qo[answers[i].questionId]);
    if i < n {
      assert init[i] == answers[i];
      SummaryLastWins(init, qs, cs, qo, i);
      var last := answers[n];
      if last.questionId in qo {
        SummaryKeyInjective(qo[last.questionId], qo[answers[i].questionId]);
      }
    }
  }

  // ---------------------------------------------------------------------------------------
  // createRecord

  /** The answers of a matching's participants resolve against the catalogue of a valid store. */
  lemma MatchingAnswersResolvable(answers: seq<Answer>, ps: map<int, Participant>, qs: map<int, Question>, cs: map<int, Choice>, mid: int)
    requires AnswersReferTo(answers, ps, qs, cs)
    ensures Resolvable(AnswersOfMatching(answers, ps, mid), qs, cs)
  {
    var mine := AnswersOfMatching(answers, ps, mid);
    forall i | 0 <= i < |mine| ensures mine[i].questionId in qs && mine[i].choiceId in cs {
      assert mine[i] in answers;
    }
  }

  /** The record createRecord stores for a matching whose answers are `answers`. */
  function NewRecord(props: Strategy.Properties, answers: seq<Answer>, qs: map<int, Question>, cs: map<int, Choice>,
                     recordId: string, now: Timestamp): (rec: Record)
    requires Resolvable(answers, qs, cs)
    ensures rec.isActive && rec.recordId == recordId && rec.createdAt == now
    ensures var result := Strategy.Calculate(props, answers, cs, OrdersOf(qs));
      rec.temperature == result.averageTemperature && rec.temperatureDiff == result.temperatureDiff
    ensures rec.summary == Summary(answers, qs, cs, OrdersOf(qs))
  {
    var result := Strategy.Calculate(props, answers, cs, OrdersOf(qs));
    Record(recordId, result.averageTemperature, result.temperatureDiff, true, now, Summary(answers, qs, cs, OrdersOf(qs)))
  }

  /** A matching marked completed at `now`. */
  function Completed(m: Matching, now: Timestamp): (r: Matching)
    ensures FromValue(r.status) == Success(MatchingStatus.Completed)
    ensures r.completedAt == Some(now)
    ensures r.code == m.code && r.createdAt == m.createdAt
  {
    FromValueRoundTrip(MatchingStatus.Completed);
    m.(status := Value(MatchingStatus.Completed), completedAt := Some(now))
  }

  /** Scoring a matching keeps the lifecycle: completed exactly when recorded. */
  lemma RecordKeepsLifecycle(ms: map<int, Matching>, ps: map<int, Participant>, rs: map<int, Record>, mid: int, rec: Record, now: Timestamp)
    requires mid in ms && mid !in rs
    ensures Lifecycle(ms, ps, rs) ==> Lifecycle(ms[mid := Completed(ms[mid], now)], ps, rs[mid := rec])
  {
    if Lifecycle(ms, ps, rs) {
      var ms' := ms[mid := Completed(ms[mid], now)];
      forall m | m in ms'
        ensures ParticipantCount(ps, m) <= 2
        ensures ms'[m].status == Value(Waiting) ==> ParticipantCount(ps, m) < 2
        ensures ms'[m].status == Value(Established) ==> ParticipantCount(ps, m) == 2
        ensures ms'[m].status == Value(MatchingStatus.Completed) <==> m in rs[mid := rec]
      {
        if m == mid {
          ValueInjective(Waiting, MatchingStatus.Completed);
          ValueInjective(Established, MatchingStatus.Completed);
        }
      }
    }
  }

  /** The store right after the record was saved and the matching completed. */
  lemma RecordedStore(db: Db, ms: map<int, Matching>, rs: map<int, Record>, mid: int, rec: Record, now: Timestamp)
    requires TablesValid(ms, db.participants, db.answers, db.questions, db.choices, rs, db.users,
                         db.nextMatchingId, db.nextParticipantId, db.nextQuestionId, db.nextChoiceId, db.nextUserId)
    requires mid in ms && mid !in rs
    requires forall m :: m in rs ==> rs[m].recordId != rec.recordId
    requires db.matchings == ms[mid := Completed(ms[mid], now)] && db.records == rs[mid := rec]
    ensures db.Valid()
    ensures Lifecycle(ms, db.participants, rs) ==> Lifecycle(db.matchings, db.participants, db.records)
  {
    var ms' := db.matchings;
    assert forall k :: k in ms' ==> ms'[k].code == ms[k].code;
    RecordKeepsLifecycle(ms, db.participants, rs, mid, rec, now);
  }

  /**
   * createRecord: fails on an unknown matching, on a matching that already has a record and
   * on a matching without answers, in that order; otherwise scores the matching's answers
   * with the strategy, stores one active record with the summary, and completes the matching.
   * The record id is the caller's fresh UUID.
   */
  method CreateRecord(db: Db, props: Strategy.Properties, matchingId: int, recordId: string, now: Timestamp)
    returns (r: Result<RecordDto, Error>)
    requires db.Valid()
    requires forall m :: m in db.records ==> db.records[m].recordId != recordId
    modifies db
    ensures db.Valid()
    ensures old(Lifecycle(db.matchings, db.participants, db.records)) ==> Lifecycle(db.matchings, db.participants, db.records)
    ensures r.Success? ==> matchingId in db.records
    ensures matchingId !in old(db.matchings) ==> r == Failure(NotFound(MatchingEntity)) && unchanged(db)
    ensures matchingId in old(db.matchings) && matchingId in old(db.records) ==>
      r == Failure(BusinessRule(RecordAlreadyExists)) && unchanged(db)
    ensures matchingId in old(db.matchings) && matchingId !in old(db.records) ==>
      var answers := AnswersOfMatching(old(db.answers), old(db.participants), matchingId);
      (answers == [] ==> r == Failure(BusinessRule(NoAnswers)) && unchanged(db)) &&
      (answers != [] ==>
        Resolvable(answers, old(db.questions), old(db.choices)) &&
        var rec := NewRecord(props, answers, old(db.questions), old(db.choices), recordId, now);
        r == Success(ToDto(matchingId, rec)) &&
        db.records == old(db.records)[matchingId := rec] &&
        db.matchings == old(db.matchings)[matchingId := Completed(old(db.matchings)[matchingId], now)] &&
        db.participants == old(db.participants) && db.answers == old(db.answers) &&
        db.questions == old(db.questions) && db.choices == old(db.choices) && db.users == old(db.users) &&
        db.nextMatchingId == old(db.nextMatchingId) && db.nextParticipantId == old(db.nextParticipantId) &&
        db.nextQuestionId == old(db.nextQuestionId) && db.nextChoiceId == old(db.nextChoiceId) &&
        db.nextUserId == old(db.nextUserId))
  {
    if matchingId !in db.matchings {
      return Failure(NotFound(MatchingEntity));
    }
    if matchingId in db.records {
      return Failure(BusinessRule(RecordAlreadyExists));
    }
    var answers := AnswersOfMatching(db.answers, db.participants, matchingId);
    if answers == [] {
      return Failure(BusinessRule(NoAnswers));
    }
    MatchingAnswersResolvable(db.answers, db.participants, db.questions, db.choices, matchingId);
    var questionOrderMap := OrdersOf(db.questions);
    var result := Strategy.Calculate(props, answers, db.choices, questionOrderMap);
    var summary := CreateSummary(answers, db.questions, db.choices, questionOrderMap);
    var rec := Record(recordId, result.averageTemperature, result.temperatureDiff, true, now, summary);
    SaveRecord(db, matchingId, rec, now);
    r := Success(ToDto(matchingId, rec));
  }

  /** recordRepository.save and matchingRepository.save of the completed matching. */
  method SaveRecord(db: Db, matchingId: int, rec: Record, now: Timestamp)
    requires db.Valid()
    requires matchingId in db.matchings && matchingId !in db.records
    requires forall m :: m in db.records ==> db.records[m].recordId != rec.recordId
    modifies db
    ensures db.Valid()
    ensures old(Lifecycle(db.matchings, db.participants, db.records)) ==> Lifecycle(db.matchings, db.participants, db.records)
    ensures db.records == old(db.records)[matchingId := rec]
    ensures db.matchings == old(db.matchings)[matchingId := Completed(old(db.matchings)[matchingId], now)]
    ensures db.participants == old(db.participants) && db.answers == old(db.answers)
    ensures db.questions == old(db.questions) && db.choices == old(db.choices) && db.users == old(db.users)
    ensures db.nextMatchingId == old(db.nextMatchingId) && db.nextParticipantId == old(db.nextParticipantId)
    ensures db.nextQuestionId == old(db.nextQuestionId) && db.nextChoiceId == old(db.nextChoiceId)
    ensures db.nextUserId == old(db.nextUserId)
  {
    var matching := db.matchings[matchingId];
    ghost var ms, rs := db.matchings, db.records;
    db.records := db.records[matchingId := rec];
    db.matchings := db.matchings[matchingId := Completed(matching, now)];
    RecordedStore(db, ms, rs, matchingId, rec, now);
  }

  // ---------------------------------------------------------------------------------------
  // Lookups by recordId and deactivation

  /** findByRecordId finds a row. */
  predicate RecordIdTaken(rs: map<int, Record>, recordId: string)
  {
    exists m :: m in rs && rs[m].recordId == recordId
  }

  /** The matching id under which the record with recordId is stored; unique by UniqueRecordIds. */
  ghost function RecordWithId(rs: map<int, Record>, recordId: string): (m: int)
    requires RecordIdTaken(rs, recordId)
    ensures m in rs && rs[m].recordId == recordId
    ensures UniqueRecordIds(rs) ==> forall j :: j in rs && rs[j].recordId == recordId ==> j == m
  {
    var m :| m in rs && rs[m].recordId == recordId; m
  }

  /** getRecord: the record with the id, or NotFound. */
  method GetRecord(db: Db, recordId: string) returns (r: Result<RecordDto, Error>)
    requires db.Valid()
    ensures !RecordIdTaken(db.records, recordId) ==> r == Failure(NotFound(RecordEntity))
    ensures RecordIdTaken(db.records, recordId) ==>
      var m := RecordWithId(db.records, recordId);
      r == Success(ToDto(m, db.records[m]))
  {
    if !RecordIdTaken(db.records, recordId) {
      return Failure(NotFound(RecordEntity));
    }
    var m :| m in db.records && db.records[m].recordId == recordId;
    assert m == RecordWithId(db.records, recordId);
    r := Success(ToDto(m, db.records[m]));
  }

  /** getRecordByMatchingId: the matching's record, or NotFound. */
  method GetRecordByMatchingId(db: Db, matchingId: int) returns (r: Result<RecordDto, Error>)
    ensures matchingId !in db.records ==> r == Failure(NotFound(RecordEntity))
    ensures matchingId in db.records ==> r == Success(ToDto(matchingId, db.records[matchingId]))
  {
    if matchingId !in db.records {
      return Failure(NotFound(RecordEntity));
    }
    r := Success(ToDto(matchingId, db.records[matchingId]));
  }

  /** The store right after a record's isActive flag was set. */
  lemma FlaggedStore(db: Db, rs: map<int, Record>, m: int)
    requires TablesValid(db.matchings, db.participants, db.answers, db.questions, db.choices, rs, db.users,
                         db.nextMatchingId, db.nextParticipantId, db.nextQuestionId, db.nextChoiceId, db.nextUserId)
    requires m in rs && db.records == rs[m := rs[m].(isActive := false)]
    ensures db.Valid()
    ensures Lifecycle(db.matchings, db.participants, rs) ==> Lifecycle(db.matchings, db.participants, db.records)
  {
    assert db.records.Keys == rs.Keys;
    assert forall k :: k in db.records ==> db.records[k].recordId == rs[k].recordId;
  }

  /**
   * deactivateRecord: a soft delete that clears isActive and touches nothing else;
   * deactivating an inactive record changes nothing.
   */
  method DeactivateRecord(db: Db, recordId: string) returns (r: Result<(), Error>)
    requires db.Valid()
    modifies db
    ensures db.Valid()
    ensures old(Lifecycle(db.matchings, db.participants, db.records)) ==> Lifecycle(db.matchings, db.participants, db.records)
    ensures !old(RecordIdTaken(db.records, recordId)) ==> r == Failure(NotFound(RecordEntity)) && unchanged(db)
    ensures old(RecordIdTaken(db.records, recordId)) ==>
      var m := RecordWithId(old(db.records), recordId);
      r == Success(()) &&
      db.records == old(db.records)[m := old(db.records)[m].(isActive := false)] &&
      (!old(db.records)[m].isActive ==> db.records == old(db.records)) &&
      db.matchings == old(db.matchings) && db.participants == old(db.participants) &&
      db.answers == old(db.answers) && db.questions == old(db.questions) &&
      db.choices == old(db.choices) && db.users == old(db.users) &&
      db.nextMatchingId == old(db.nextMatchingId) && db.nextParticipantId == old(db.nextParticipantId) &&
      db.nextQuestionId == old(db.nextQuestionId) && db.nextChoiceId == old(db.nextChoiceId) &&
      db.nextUserId == old(db.nextUserId)
  {
    if !RecordIdTaken(db.records, recordId) {
      return Failure(NotFound(RecordEntity));
    }
    var m :| m in db.records && db.records[m].recordId == recordId;
    assert m == RecordWithId(db.records, recordId);
    ghost var rs := db.records;
    db.records := db.records[m := db.records[m].(isActive := false)];
    FlaggedStore(db, rs, m);
    r := Success(());
  }
}
