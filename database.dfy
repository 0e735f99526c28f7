/**
 * The in-memory store that stands in for the repositories: one table per entity, keyed by
 * generated identity, plus the identity counters. Services are methods over one store.
 */
module Database {
  import opened Wrappers
  import opened Entities
  import opened MatchingStatus
  import opened AnswerTable

  // ---------------------------------------------------------------------------------------
  // Table constraints (the schema's unique and foreign keys, and the catalogue's ownership)

  predicate KeysBelow<V>(m: map<int, V>, bound: int)
  {
    forall k :: k in m ==> k < bound
  }

  /** Identities start at 1, so every key handed out lies in [1, bound). */
  predicate KeysWithin<V>(m: map<int, V>, bound: int)
  {
    1 <= bound && forall k :: k in m ==> 1 <= k < bound
  }

  /** matchings.code is unique. */
  predicate UniqueMatchingCodes(ms: map<int, Matching>)
  {
    forall a, b :: a in ms && b in ms && ms[a].code == ms[b].code ==> a == b
  }

  /** Participant codes are unique, so a code names at most one participant. */
  predicate UniqueParticipantCodes(ps: map<int, Participant>)
  {
    forall a, b :: a in ps && b in ps && ps[a].participantCode == ps[b].participantCode ==> a == b
  }

  predicate ParticipantsReferToMatchings(ps: map<int, Participant>, ms: map<int, Matching>)
  {
    forall p :: p in ps ==> ps[p].matchingId in ms
  }

  /** records.matching_id references a matching (the table is keyed by it, so it is unique). */
  predicate RecordsReferToMatchings(rs: map<int, Record>, ms: map<int, Matching>)
  {
    forall m :: m in rs ==> m in ms
  }

  /** records.record_id is unique. */
  predicate UniqueRecordIds(rs: map<int, Record>)
  {
    forall a, b :: a in rs && b in rs && rs[a].recordId == rs[b].recordId ==> a == b
  }

  /** Every answer row references an existing participant, question and choice. */
  predicate AnswersReferTo(answers: seq<Answer>, ps: map<int, Participant>, qs: map<int, Question>, cs: map<int, Choice>)
  {
    forall i :: 0 <= i < |answers| ==>
      answers[i].participantId in ps && answers[i].questionId in qs && answers[i].choiceId in cs
  }

  /** A question owns exactly the choices listed in its choiceIds, and each choice points back. */
  predicate ChoicesOwned(qs: map<int, Question>, cs: map<int, Choice>)
  {
    (forall c :: c in cs ==> cs[c].questionId in qs && c in qs[cs[c].questionId].choiceIds) &&
    (forall q, i :: q in qs && 0 <= i < |qs[q].choiceIds| ==>
       qs[q].choiceIds[i] in cs && cs[qs[q].choiceIds[i]].questionId == q)
  }

  /** users.userid is unique. */
  predicate UniqueUserids(us: map<int, User>)
  {
    forall a, b :: a in us && b in us && us[a].userid == us[b].userid ==> a == b
  }

  /** users.phone_number is unique. */
  predicate UniquePhones(us: map<int, User>)
  {
    forall a, b :: a in us && b in us && us[a].phoneNumber == us[b].phoneNumber ==> a == b
  }

  // ---------------------------------------------------------------------------------------
  // Queries the services share

  /** countByMatchingId. */
  function ParticipantCount(ps: map<int, Participant>, mid: int): nat
  {
    |set k | k in ps && ps[k].matchingId == mid|
  }

  /** findByParticipantCode finds a row. */
  predicate ParticipantCodeTaken(ps: map<int, Participant>, code: string)
  {
    exists k :: k in ps && ps[k].participantCode == code
  }

  /** The participant holding a code; unique while participant codes are unique. */
  ghost function ParticipantWithCode(ps: map<int, Participant>, code: string): (k: int)
    requires ParticipantCodeTaken(ps, code)
    ensures k in ps && ps[k].participantCode == code
    ensures UniqueParticipantCodes(ps) ==> forall j :: j in ps && ps[j].participantCode == code ==> j == k
  {
    var k :| k in ps && ps[k].participantCode == code; k
  }

  /** Answers whose participant belongs to the matching (findByMatchingId), in table order. */
  function AnswersOfMatching(answers: seq<Answer>, ps: map<int, Participant>, mid: int): (r: seq<Answer>)
    ensures forall a :: a in r <==> a in answers && a.participantId in ps && ps[a.participantId].matchingId == mid
    ensures forall a :: multiset(r)[a] ==
                        if a.participantId in ps && ps[a.participantId].matchingId == mid then multiset(answers)[a] else 0
    decreases |answers|
  {
    if answers == [] then []
    else
      var n := |answers| - 1;
      var rest := AnswersOfMatching(answers[..n], ps, mid);
      var last := answers[n];
      assert answers == answers[..n] + [last];
      assert multiset(answers) == multiset(answers[..n]) + multiset{last};
      if last.participantId in ps && ps[last.participantId].matchingId == mid then rest + [last] else rest
  }

  /** The query keeps the table order: it distributes over appended rows. */
  lemma {:induction false} AnswersOfMatchingAppend(xs: seq<Answer>, ys: seq<Answer>, ps: map<int, Participant>, mid: int)
    ensures AnswersOfMatching(xs + ys, ps, mid) == AnswersOfMatching(xs, ps, mid) + AnswersOfMatching(ys, ps, mid)
    decreases |ys|
  {
    if ys == [] {
      assert xs + ys == xs;
    } else {
      var n := |ys| - 1;
      assert (xs + ys)[..|xs + ys| - 1] == xs + ys[..n];
      assert (xs + ys)[|xs + ys| - 1] == ys[n];
      AnswersOfMatchingAppend(xs, ys[..n], ps, mid);
    }
  }

  /** A single row is kept exactly when its participant belongs to the matching. */
  lemma AnswersOfMatchingSingleton(a: Answer, ps: map<int, Participant>, mid: int)
    ensures AnswersOfMatching([a], ps, mid) ==
      if a.participantId in ps && ps[a.participantId].matchingId == mid then [a] else []
  {
  }

  /**
   * The lifecycle a matching goes through: at most two participants, waiting means there is
   * still room, established means full, and completed means scored.
   */
  ghost predicate Lifecycle(ms: map<int, Matching>, ps: map<int, Participant>, rs: map<int, Record>)
  {
    forall m :: m in ms ==>
      ParticipantCount(ps, m) <= 2 &&
      (ms[m].status == Value(Waiting) ==> ParticipantCount(ps, m) < 2) &&
      (ms[m].status == Value(Established) ==> ParticipantCount(ps, m) == 2) &&
      (ms[m].status == Value(Completed) <==> m in rs)
  }

  lemma ParticipantCountInsert(ps: map<int, Participant>, k: int, p: Participant)
    requires k !in ps
    ensures ParticipantCount(ps[k := p], p.matchingId) == ParticipantCount(ps, p.matchingId) + 1
    ensures forall m :: m != p.matchingId ==> ParticipantCount(ps[k := p], m) == ParticipantCount(ps, m)
  {
    var ps' := ps[k := p];
    var before := set j | j in ps && ps[j].matchingId == p.matchingId;
    assert (set j | j in ps' && ps'[j].matchingId == p.matchingId) == before + {k};
    forall m | m != p.matchingId
      ensures ParticipantCount(ps', m) == ParticipantCount(ps, m)
    {
      assert (set j | j in ps' && ps'[j].matchingId == m) == (set j | j in ps && ps[j].matchingId == m);
    }
  }

  /** A matching that no participant references has none. */
  lemma ParticipantCountZero(ps: map<int, Participant>, mid: int)
    requires forall p :: p in ps ==> ps[p].matchingId != mid
    ensures ParticipantCount(ps, mid) == 0
  {
    var none := set k | k in ps && ps[k].matchingId == mid;
    assert forall k :: k !in none;
    assert none == {};
  }

  /** The schema constraints over a whole set of tables and their identity counters. */
  ghost predicate TablesValid(ms: map<int, Matching>, ps: map<int, Participant>, answers: seq<Answer>,
                              qs: map<int, Question>, cs: map<int, Choice>, rs: map<int, Record>, us: map<int, User>,
                              nextMatchingId: int, nextParticipantId: int, nextQuestionId: int, nextChoiceId: int, nextUserId: int)
  {
    KeysBelow(ms, nextMatchingId) && KeysWithin(ps, nextParticipantId) &&
    KeysBelow(qs, nextQuestionId) && KeysBelow(cs, nextChoiceId) && KeysBelow(us, nextUserId) &&
    UniqueMatchingCodes(ms) && UniqueParticipantCodes(ps) &&
    ParticipantsReferToMatchings(ps, ms) && RecordsReferToMatchings(rs, ms) && UniqueRecordIds(rs) &&
    AnswersReferTo(answers, ps, qs, cs) && ChoicesOwned(qs, cs) &&
    UniqueUserids(us) && UniquePhones(us)
  }

  // ---------------------------------------------------------------------------------------

  class Db {
    var matchings: map<int, Matching>
    var participants: map<int, Participant>
    var answers: seq<Answer>
    var questions: map<int, Question>
    var choices: map<int, Choice>
    /** Keyed by the matching's id. */
    var records: map<int, Record>
    var users: map<int, User>

    /** The identity generators: every id handed out so far is below its counter. */
    var nextMatchingId: int
    var nextParticipantId: int
    var nextQuestionId: int
    var nextChoiceId: int
    var nextUserId: int

    ghost predicate Valid()
      reads this
    {
      TablesValid(matchings, participants, answers, questions, choices, records, users,
                  nextMatchingId, nextParticipantId, nextQuestionId, nextChoiceId, nextUserId)
    }

    /** An empty store. */
    constructor ()
      ensures Valid()
      ensures matchings == map[] && participants == map[] && answers == [] && questions == map[]
      ensures choices == map[] && records == map[] && users == map[]
      ensures Lifecycle(matchings, participants, records)
    {
      matchings, participants, answers, questions := map[], map[], [], map[];
      choices, records, users := map[], map[], map[];
      nextMatchingId, nextParticipantId, nextQuestionId, nextChoiceId, nextUserId := 1, 1, 1, 1, 1;
    }
  }
}
