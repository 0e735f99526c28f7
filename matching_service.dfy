/**
 * Matching lifecycle: creating a matching with a unique code (bounded retry), joining it by
 * code, and reading it back.
 */
module MatchingService {
  import opened Wrappers
  import opened Errors
  import opened Entities
  import opened MatchingStatus
  import opened Database
  import AppConstants

  datatype MatchingDto = MatchingDto(id: int, code: string, status: string, createdAt: Timestamp)
  datatype ParticipantDto = ParticipantDto(id: int, participantCode: string, joinedAt: Timestamp)
  datatype MatchingStatusDto = MatchingStatusDto(code: string, status: string, participantCount: nat, maxParticipants: nat)

  /** The codes of all stored matchings. */
  function CodesInUse(ms: map<int, Matching>): (codes: set<string>)
    ensures forall k :: k in ms ==> ms[k].code in codes
  {
    set k | k in ms :: ms[k].code
  }

  /** existsByCode. */
  predicate CodeTaken(ms: map<int, Matching>, code: string)
  {
    exists k :: k in ms && ms[k].code == code
  }

  lemma CodesInUseTaken(ms: map<int, Matching>, code: string)
    ensures code in CodesInUse(ms) <==> CodeTaken(ms, code)
  {
  }

  /** The matching that holds a code (findByCode); unique while codes are unique. */
  ghost function MatchingWithCode(ms: map<int, Matching>, code: string): (k: int)
    requires CodeTaken(ms, code)
    ensures k in ms && ms[k].code == code
    ensures UniqueMatchingCodes(ms) ==> forall j :: j in ms && ms[j].code == code ==> j == k
  {
    var k :| k in ms && ms[k].code == code; k
  }

  /**
   * The retry policy: the first attempt number from `from` on whose generated code is not in
   * `taken`, or None when every attempt below the bound collides.
   */
  function FirstFreeAttempt(taken: set<string>, generate: nat -> string, from: nat): (r: Option<nat>)
    requires from <= AppConstants.MaxMatchingCodeGenerationAttempts
    ensures r.Some? ==> from <= r.value < AppConstants.MaxMatchingCodeGenerationAttempts
    ensures r.Some? ==> generate(r.value) !in taken
    ensures r.Some? ==> forall j :: from <= j < r.value ==> generate(j) in taken
    ensures r.None? <==> forall j :: from <= j < AppConstants.MaxMatchingCodeGenerationAttempts ==> generate(j) in taken
    decreases AppConstants.MaxMatchingCodeGenerationAttempts - from
  {
    if from == AppConstants.MaxMatchingCodeGenerationAttempts then None
    else if generate(from) !in taken then Some(from)
    else FirstFreeAttempt(taken, generate, from + 1)
  }

  /** The first free attempt is the only attempt that is free with all earlier ones taken. */
  lemma FirstFreeAttemptUnique(taken: set<string>, generate: nat -> string, i: nat)
    requires i < AppConstants.MaxMatchingCodeGenerationAttempts
    requires generate(i) !in taken
    requires forall j :: 0 <= j < i ==> generate(j) in taken
    ensures FirstFreeAttempt(taken, generate, 0) == Some(i)
  {
    var r := FirstFreeAttempt(taken, generate, 0);
    assert r.Some?;
  }

  /** Storing a waiting matching under a fresh id and a free code keeps the tables consistent. */
  lemma NewMatchingKeepsTables(ms: map<int, Matching>, ps: map<int, Participant>, answers: seq<Answer>,
                               qs: map<int, Question>, cs: map<int, Choice>, rs: map<int, Record>, us: map<int, User>,
                               nm: int, np: int, nq: int, nc: int, nu: int, m: Matching)
    requires TablesValid(ms, ps, answers, qs, cs, rs, us, nm, np, nq, nc, nu)
    requires m.code !in CodesInUse(ms) && m.status == Value(Waiting)
    ensures TablesValid(ms[nm := m], ps, answers, qs, cs, rs, us, nm + 1, np, nq, nc, nu)
    ensures Lifecycle(ms, ps, rs) ==> Lifecycle(ms[nm := m], ps, rs)
  {
    forall p | p in ps ensures ps[p].matchingId != nm {
      assert ps[p].matchingId in ms;
    }
    ParticipantCountZero(ps, nm);
    assert nm !in rs;
  }

  /**
   * The do-while loop of createMatching: draws attempt 0, 1, ... from the generator until a
   * code outside `taken` appears, giving up after MaxMatchingCodeGenerationAttempts draws.
   */
  method GenerateUniqueCode(taken: set<string>, generate: nat -> string) returns (r: Option<string>)
    ensures FirstFreeAttempt(taken, generate, 0).None? ==> r.None?
    ensures FirstFreeAttempt(taken, generate, 0).Some? ==>
      r == Some(generate(FirstFreeAttempt(taken, generate, 0).value))
    ensures r.Some? ==> r.value !in taken
  {
    var code := "";
    var attempts: nat := 0;
    while true
      invariant attempts < AppConstants.MaxMatchingCodeGenerationAttempts
      invariant forall j :: 0 <= j < attempts ==> generate(j) in taken
      decreases AppConstants.MaxMatchingCodeGenerationAttempts - attempts
    {
      code := generate(attempts);
      if code !in taken {
        break;
      }
      attempts := attempts + 1;
      if attempts >= AppConstants.MaxMatchingCodeGenerationAttempts {
        break;
      }
    }

    if attempts >= AppConstants.MaxMatchingCodeGenerationAttempts {
      assert forall j :: 0 <= j < AppConstants.MaxMatchingCodeGenerationAttempts ==> generate(j) in taken;
      return None;
    }
    FirstFreeAttemptUnique(taken, generate, attempts);
    return Some(code);
  }

  /**
   * createMatching: a code from GenerateUniqueCode, or CodeGenerationExhausted; the new
   * matching is stored waiting under the next id.
   */
  method CreateMatching(db: Db, generate: nat -> string, now: Timestamp) returns (r: Result<MatchingDto, Error>)
    requires db.Valid()
    modifies db
    ensures db.Valid()
    ensures old(Lifecycle(db.matchings, db.participants, db.records)) ==> Lifecycle(db.matchings, db.participants, db.records)
    ensures FirstFreeAttempt(CodesInUse(old(db.matchings)), generate, 0).None? ==>
      r == Failure(BusinessRule(CodeGenerationExhausted)) && unchanged(db)
    ensures FirstFreeAttempt(CodesInUse(old(db.matchings)), generate, 0).Some? ==>
      var code := generate(FirstFreeAttempt(CodesInUse(old(db.matchings)), generate, 0).value);
      var id := old(db.nextMatchingId);
      !CodeTaken(old(db.matchings), code) &&
      r == Success(MatchingDto(id, code, Value(Waiting), now)) &&
      db.matchings == old(db.matchings)[id := Matching(code, Value(Waiting), now, None)] &&
      db.nextMatchingId == id + 1 &&
      db.participants == old(db.participants) && db.answers == old(db.answers) &&
      db.questions == old(db.questions) && db.choices == old(db.choices) &&
      db.records == old(db.records) && db.users == old(db.users) &&
      db.nextParticipantId == old(db.nextParticipantId) && db.nextQuestionId == old(db.nextQuestionId) &&
      db.nextChoiceId == old(db.nextChoiceId) && db.nextUserId == old(db.nextUserId)
  {
    var generated := GenerateUniqueCode(CodesInUse(db.matchings), generate);
    if generated.None? {
      return Failure(BusinessRule(CodeGenerationExhausted));
    }
    var code := generated.value;
    CodesInUseTaken(db.matchings, code);
    ghost var ms := db.matchings;
    var id := db.nextMatchingId;
    var matching := Matching(code, Value(Waiting), now, None);
    db.matchings := db.matchings[id := matching];
    db.nextMatchingId := id + 1;
    CreatedStore(db, ms, matching);
    r := Success(MatchingDto(id, code, Value(Waiting), now));
  }

  /** The store right after the new matching was saved. */
  lemma CreatedStore(db: Db, ms: map<int, Matching>, m: Matching)
    requires TablesValid(ms, db.participants, db.answers, db.questions, db.choices, db.records, db.users,
                         db.nextMatchingId - 1, db.nextParticipantId, db.nextQuestionId, db.nextChoiceId, db.nextUserId)
    requires m.code !in CodesInUse(ms) && m.status == Value(Waiting)
    requires db.matchings == ms[db.nextMatchingId - 1 := m]
    ensures db.Valid()
    ensures Lifecycle(ms, db.participants, db.records) ==> Lifecycle(db.matchings, db.participants, db.records)
  {
    NewMatchingKeepsTables(ms, db.participants, db.answers, db.questions, db.choices, db.records, db.users,
                           db.nextMatchingId - 1, db.nextParticipantId, db.nextQuestionId, db.nextChoiceId, db.nextUserId, m);
  }

  /** The matchings table after a join: the second participant makes the matching established. */
  function AfterJoin(ms: map<int, Matching>, mid: int, newCount: nat): (r: map<int, Matching>)
    requires mid in ms
    ensures r.Keys == ms.Keys
    ensures forall k :: k in ms && k != mid ==> r[k] == ms[k]
    ensures r[mid].code == ms[mid].code && r[mid].createdAt == ms[mid].createdAt && r[mid].completedAt == ms[mid].completedAt
    ensures newCount == AppConstants.MaxParticipantsPerMatching ==> FromValue(r[mid].status) == Success(Established)
    ensures newCount != AppConstants.MaxParticipantsPerMatching ==> r[mid] == ms[mid]
  {
    FromValueRoundTrip(Established);
    if newCount == AppConstants.MaxParticipantsPerMatching then ms[mid := ms[mid].(status := Value(Established))] else ms
  }

  /** Adding a participant under a fresh id and code keeps the tables consistent. */
  lemma JoinKeepsTables(ms: map<int, Matching>, ps: map<int, Participant>, answers: seq<Answer>,
                        qs: map<int, Question>, cs: map<int, Choice>, rs: map<int, Record>, us: map<int, User>,
                        nm: int, np: int, nq: int, nc: int, nu: int, mid: int, p: Participant, newCount: nat)
    requires TablesValid(ms, ps, answers, qs, cs, rs, us, nm, np, nq, nc, nu)
    requires mid in ms && p.matchingId == mid
    requires forall k :: k in ps ==> ps[k].participantCode != p.participantCode
    ensures TablesValid(AfterJoin(ms, mid, newCount), ps[np := p], answers, qs, cs, rs, us, nm, np + 1, nq, nc, nu)
  {
    var ms' := AfterJoin(ms, mid, newCount);
    assert forall k :: k in ms' ==> ms'[k].code == ms[k].code;
  }

  /** A join into a waiting matching with room keeps the lifecycle. */
  lemma JoinKeepsLifecycle(ms: map<int, Matching>, ps: map<int, Participant>, rs: map<int, Record>, mid: int, pid: int, p: Participant)
    requires mid in ms && ms[mid].status == Value(Waiting) && pid !in ps && p.matchingId == mid
    requires ParticipantCount(ps, mid) < AppConstants.MaxParticipantsPerMatching
    ensures Lifecycle(ms, ps, rs) ==> Lifecycle(AfterJoin(ms, mid, ParticipantCount(ps, mid) + 1), ps[pid := p], rs)
  {
    ParticipantCountInsert(ps, pid, p);
    var ms' := AfterJoin(ms, mid, ParticipantCount(ps, mid) + 1);
    var ps' := ps[pid := p];
    if Lifecycle(ms, ps, rs) {
      forall m | m in ms'
        ensures ParticipantCount(ps', m) <= 2
        ensures ms'[m].status == Value(Waiting) ==> ParticipantCount(ps', m) < 2
        ensures ms'[m].status == Value(Established) ==> ParticipantCount(ps', m) == 2
        ensures ms'[m].status == Value(Completed) <==> m in rs
      {
        if m != mid {
          assert ms'[m] == ms[m];
        }
      }
    }
  }

  /** findByCode: the id of the matching holding the code, if any. */
  method FindByCode(db: Db, code: string) returns (r: Option<int>)
    requires db.Valid()
    ensures r.None? <==> !CodeTaken(db.matchings, code)
    ensures r.Some? ==> r.value == MatchingWithCode(db.matchings, code)
  {
    if !CodeTaken(db.matchings, code) {
      return None;
    }
    var mid :| mid in db.matchings && db.matchings[mid].code == code;
    return Some(mid);
  }

  /**
   * The success path of joinMatching: the participant is saved under the next id and the
   * second participant makes the matching established.
   */
  method AddParticipant(db: Db, mid: int, participantCode: string, now: Timestamp) returns (pid: int)
    requires db.Valid() && mid in db.matchings && db.matchings[mid].status == Value(Waiting)
    requires ParticipantCount(db.participants, mid) < AppConstants.MaxParticipantsPerMatching
    requires forall p :: p in db.participants ==> db.participants[p].participantCode != participantCode
    modifies db
    ensures db.Valid()
    ensures old(Lifecycle(db.matchings, db.participants, db.records)) ==> Lifecycle(db.matchings, db.participants, db.records)
    ensures pid == old(db.nextParticipantId)
    ensures db.participants == old(db.participants)[pid := Participant(mid, participantCode, now, None)]
    ensures db.nextParticipantId == pid + 1
    ensures ParticipantCount(db.participants, mid) == ParticipantCount(old(db.participants), mid) + 1
    ensures forall m :: m != mid ==> ParticipantCount(db.participants, m) == ParticipantCount(old(db.participants), m)
    ensures db.matchings == AfterJoin(old(db.matchings), mid, ParticipantCount(old(db.participants), mid) + 1)
    ensures db.answers == old(db.answers) && db.questions == old(db.questions) &&
      db.choices == old(db.choices) && db.records == old(db.records) && db.users == old(db.users) &&
      db.nextMatchingId == old(db.nextMatchingId) && db.nextQuestionId == old(db.nextQuestionId) &&
      db.nextChoiceId == old(db.nextChoiceId) && db.nextUserId == old(db.nextUserId)
  {
    ghost var ms, ps := db.matchings, db.participants;
    var participantCount := ParticipantCount(db.participants, mid);
    pid := db.nextParticipantId;
    var participant := Participant(mid, participantCode, now, None);
    db.participants := db.participants[pid := participant];
    db.nextParticipantId := pid + 1;
    db.matchings := AfterJoin(db.matchings, mid, participantCount + 1);
    JoinedStore(db, ms, ps, mid, participant);
  }

  /** The store right after the participant was saved and the matching updated. */
  lemma JoinedStore(db: Db, ms: map<int, Matching>, ps: map<int, Participant>, mid: int, p: Participant)
    requires TablesValid(ms, ps, db.answers, db.questions, db.choices, db.records, db.users,
                         db.nextMatchingId, db.nextParticipantId - 1, db.nextQuestionId, db.nextChoiceId, db.nextUserId)
    requires mid in ms && ms[mid].status == Value(Waiting) && p.matchingId == mid
    requires ParticipantCount(ps, mid) < AppConstants.MaxParticipantsPerMatching
    requires forall k :: k in ps ==> ps[k].participantCode != p.participantCode
    requires db.participants == ps[db.nextParticipantId - 1 := p]
    requires db.matchings == AfterJoin(ms, mid, ParticipantCount(ps, mid) + 1)
    ensures db.Valid()
    ensures Lifecycle(ms, ps, db.records) ==> Lifecycle(db.matchings, db.participants, db.records)
    ensures ParticipantCount(db.participants, mid) == ParticipantCount(ps, mid) + 1
    ensures forall m :: m != mid ==> ParticipantCount(db.participants, m) == ParticipantCount(ps, m)
  {
    var pid := db.nextParticipantId - 1;
    ParticipantCountInsert(ps, pid, p);
    JoinKeepsTables(ms, ps, db.answers, db.questions, db.choices, db.records, db.users,
                    db.nextMatchingId, pid, db.nextQuestionId, db.nextChoiceId, db.nextUserId, mid, p, ParticipantCount(ps, mid) + 1);
    JoinKeepsLifecycle(ms, ps, db.records, mid, pid, p);
  }

  /**
   * joinMatching: a matching found by code that is still waiting and has fewer than two
   * participants gets a new participant; the second participant makes it established.
   * The participant code is the caller's fresh UUID.
   */
  method JoinMatching(db: Db, code: string, participantCode: string, now: Timestamp) returns (r: Result<ParticipantDto, Error>)
    requires db.Valid()
    requires forall p :: p in db.participants ==> db.participants[p].participantCode != participantCode
    modifies db
    ensures db.Valid()
    ensures old(Lifecycle(db.matchings, db.participants, db.records)) ==> Lifecycle(db.matchings, db.participants, db.records)
    ensures !old(CodeTaken(db.matchings, code)) ==> r == Failure(NotFound(MatchingEntity)) && unchanged(db)
    ensures old(CodeTaken(db.matchings, code)) ==>
      var mid := MatchingWithCode(old(db.matchings), code);
      var matching := old(db.matchings)[mid];
      var count := ParticipantCount(old(db.participants), mid);
      if matching.status != Value(Waiting) then
        r == Failure(BusinessRule(MatchingClosed)) && unchanged(db)
      else if count >= AppConstants.MaxParticipantsPerMatching then
        r == Failure(BusinessRule(MatchingFull)) && unchanged(db)
      else
        var pid := old(db.nextParticipantId);
        r == Success(ParticipantDto(pid, participantCode, now)) &&
        db.participants == old(db.participants)[pid := Participant(mid, participantCode, now, None)] &&
        db.nextParticipantId == pid + 1 &&
        ParticipantCount(db.participants, mid) == count + 1 &&
        (forall m :: m != mid ==> ParticipantCount(db.participants, m) == ParticipantCount(old(db.participants), m)) &&
        db.matchings == (if count + 1 == AppConstants.MaxParticipantsPerMatching
                         then old(db.matchings)[mid := matching.(status := Value(Established))]
                         else old(db.matchings)) &&
        db.answers == old(db.answers) && db.questions == old(db.questions) &&
        db.choices == old(db.choices) && db.records == old(db.records) && db.users == old(db.users) &&
        db.nextMatchingId == old(db.nextMatchingId) && db.nextQuestionId == old(db.nextQuestionId) &&
        db.nextChoiceId == old(db.nextChoiceId) && db.nextUserId == old(db.nextUserId)
  {
    var found := FindByCode(db, code);
    if found.None? {
      return Failure(NotFound(MatchingEntity));
    }
    var mid := found.value;
    if Value(Waiting) != db.matchings[mid].status {
      return Failure(BusinessRule(MatchingClosed));
    }
    var participantCount := ParticipantCount(db.participants, mid);
    if participantCount >= AppConstants.MaxParticipantsPerMatching {
      return Failure(BusinessRule(MatchingFull));
    }
    var pid := AddParticipant(db, mid, participantCode, now);
    r := Success(ParticipantDto(pid, participantCode, now));
  }

  /** getMatching: the matching with the code, or NotFound. */
  method GetMatching(db: Db, code: string) returns (r: Result<MatchingDto, Error>)
    requires db.Valid()
    ensures !CodeTaken(db.matchings, code) ==> r == Failure(NotFound(MatchingEntity))
    ensures CodeTaken(db.matchings, code) ==>
      var mid := MatchingWithCode(db.matchings, code);
      var m := db.matchings[mid];
      r == Success(MatchingDto(mid, m.code, m.status, m.createdAt))
  {
    if !CodeTaken(db.matchings, code) {
      return Failure(NotFound(MatchingEntity));
    }
    var mid :| mid in db.matchings && db.matchings[mid].code == code;
    assert mid == MatchingWithCode(db.matchings, code);
    var m := db.matchings[mid];
    r := Success(MatchingDto(mid, m.code, m.status, m.createdAt));
  }

  /** getMatchingStatus: code, status, current participant count and the capacity of two. */
  method GetMatchingStatus(db: Db, code: string) returns (r: Result<MatchingStatusDto, Error>)
    requires db.Valid()
    ensures !CodeTaken(db.matchings, code) ==> r == Failure(NotFound(MatchingEntity))
    ensures CodeTaken(db.matchings, code) ==>
      var mid := MatchingWithCode(db.matchings, code);
      r == Success(MatchingStatusDto(code, db.matchings[mid].status, ParticipantCount(db.participants, mid), 2))
  {
    if !CodeTaken(db.matchings, code) {
      return Failure(NotFound(MatchingEntity));
    }
    var mid :| mid in db.matchings && db.matchings[mid].code == code;
    assert mid == MatchingWithCode(db.matchings, code);
    var m := db.matchings[mid];
    var participantCount := ParticipantCount(db.participants, mid);
    r := Success(MatchingStatusDto(m.code, m.status, participantCount, AppConstants.MaxParticipantsPerMatching));
  }
}
