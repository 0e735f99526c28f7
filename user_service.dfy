/**
 * Member accounts: creation with userid, phone and email uniqueness checks, partial update,
 * soft delete, the availability checks, and the read-only history of a member's matchings.
 */
module UserService {
  import opened Wrappers
  import opened Errors
  import opened Entities
  import opened AnswerTable
  import opened Database
  import opened Sorting

  // ---------------------------------------------------------------------------------------
  // Blank strings (String.isBlank)

  /**
   * Character.isWhitespace: the Unicode space, line and paragraph separators except the
   * no-break spaces U+00A0, U+2007 and U+202F, plus the controls U+0009-U+000D and U+001C-U+001F.
   */
  predicate IsWhitespace(c: char)
  {
    c == ' ' || '\t' <= c <= '\r' || '\U{1C}' <= c <= '\U{1F}' ||
    c == '\U{1680}' || '\U{2000}' <= c <= '\U{2006}' || '\U{2008}' <= c <= '\U{200A}' ||
    c == '\U{2028}' || c == '\U{2029}' || c == '\U{205F}' || c == '\U{3000}'
  }

  /** Empty or white space only. */
  predicate IsBlank(s: string)
  {
    forall i :: 0 <= i < |s| ==> IsWhitespace(s[i])
  }

  /** An email the service takes into account: present and not blank. */
  predicate Given(email: Option<string>)
  {
    email.Some? && !IsBlank(email.value)
  }

  // ---------------------------------------------------------------------------------------
  // The user table's lookups

  /** existsByUserid. */
  predicate UseridInUse(us: map<int, User>, userid: string)
  {
    exists k :: k in us && us[k].userid == userid
  }

  /** existsByPhoneNumber. */
  predicate PhoneInUse(us: map<int, User>, phoneNumber: string)
  {
    exists k :: k in us && us[k].phoneNumber == phoneNumber
  }

  /** existsByEmail. */
  predicate EmailInUse(us: map<int, User>, email: string)
  {
    exists k :: k in us && us[k].email == Some(email)
  }

  /**
   * No two users share a given email. The schema does not demand it (email has no unique
   * constraint); createUser and updateUser keep it.
   */
  predicate UniqueGivenEmails(us: map<int, User>)
  {
    forall a, b :: a in us && b in us && Given(us[a].email) && us[a].email == us[b].email ==> a == b
  }

  /** isUseridAvailable. */
  function IsUseridAvailable(us: map<int, User>, userid: string): (r: bool)
    ensures r <==> forall k :: k in us ==> us[k].userid != userid
  {
    !UseridInUse(us, userid)
  }

  /** isPhoneNumberAvailable. */
  function IsPhoneNumberAvailable(us: map<int, User>, phoneNumber: string): (r: bool)
    ensures r <==> forall k :: k in us ==> us[k].phoneNumber != phoneNumber
  {
    !PhoneInUse(us, phoneNumber)
  }

  /** isEmailAvailable: a missing or blank email is always available, being optional. */
  function IsEmailAvailable(us: map<int, User>, email: Option<string>): (r: bool)
    ensures !Given(email) ==> r
    ensures Given(email) ==> (r <==> forall k :: k in us ==> us[k].email != email)
  {
    if email.None? || IsBlank(email.value) then true else !EmailInUse(us, email.value)
  }

  // ---------------------------------------------------------------------------------------
  // DTOs

  datatype CreateUserDto = CreateUserDto(
    userid: string,
    email: Option<string>,
    phoneNumber: string,
    name: string,
    birthDate: int,
    gender: Gender)

  /** The optional fields of an update; None is a null field. */
  datatype UpdateUserDto = UpdateUserDto(
    email: Option<string>,
    name: Option<string>,
    birthDate: Option<int>,
    gender: Option<Gender>,
    status: Option<UserStatus>)

  datatype UserDto = UserDto(
    id: int,
    userid: string,
    email: Option<string>,
    phoneNumber: string,
    name: string,
    birthDate: int,
    gender: Gender,
    status: UserStatus,
    verificationStatus: VerificationStatus)

  function ToDto(id: int, u: User): UserDto
  {
    UserDto(id, u.userid, u.email, u.phoneNumber, u.name, u.birthDate, u.gender, u.status, u.verificationStatus)
  }

  /** The mapper's new entity: the DTO's fields, an active and unverified account. */
  function NewUser(dto: CreateUserDto): User
  {
    User(dto.userid, dto.email, dto.phoneNumber, dto.name, dto.birthDate, dto.gender, Active, Unverified)
  }

  /** What updateUser makes of a user that passed the email check. */
  function Updated(u: User, dto: UpdateUserDto): User
  {
    User(u.userid,
         if Given(dto.email) then dto.email else u.email,
         u.phoneNumber,
         if dto.name.Some? then dto.name.value else u.name,
         if dto.birthDate.Some? then dto.birthDate.value else u.birthDate,
         if dto.gender.Some? then dto.gender.value else u.gender,
         if dto.status.Some? then dto.status.value else u.status,
         u.verificationStatus)
  }

  /** An update whose email belongs to another user. */
  predicate EmailClash(us: map<int, User>, id: int, dto: UpdateUserDto)
    requires id in us
  {
    Given(dto.email) && dto.email != us[id].email && EmailInUse(us, dto.email.value)
  }

  // ---------------------------------------------------------------------------------------
  // Properties

  /** The three availability checks together accept exactly the DTOs createUser accepts. */
  lemma AvailabilityMatchesCreate(us: map<int, User>, dto: CreateUserDto)
    ensures (IsUseridAvailable(us, dto.userid) && IsPhoneNumberAvailable(us, dto.phoneNumber) &&
             IsEmailAvailable(us, dto.email)) <==>
            !UseridInUse(us, dto.userid) && !PhoneInUse(us, dto.phoneNumber) &&
            !(Given(dto.email) && EmailInUse(us, dto.email.value))
  {
  }

  /** Re-submitting the user's own email, or a blank one, passes the email check. */
  lemma OwnEmailAccepted(us: map<int, User>, id: int, dto: UpdateUserDto)
    requires id in us && (dto.email == us[id].email || !Given(dto.email))
    ensures !EmailClash(us, id, dto)
  {
  }

  /** An update never touches the login identity: userid, phone and verification stay. */
  lemma UpdateKeepsIdentity(u: User, dto: UpdateUserDto)
    ensures Updated(u, dto).userid == u.userid && Updated(u, dto).phoneNumber == u.phoneNumber
    ensures Updated(u, dto).verificationStatus == u.verificationStatus
  {
  }

  /** Only the non-null fields change: an all-null update (or a blank email) is the identity. */
  lemma EmptyUpdateChangesNothing(u: User, dto: UpdateUserDto)
    requires !Given(dto.email) && dto.name.None? && dto.birthDate.None? && dto.gender.None? && dto.status.None?
    ensures Updated(u, dto) == u
  {
  }

  /** Each non-null field is taken over as given. */
  lemma UpdateTakesGivenFields(u: User, dto: UpdateUserDto)
    ensures Given(dto.email) ==> Updated(u, dto).email == dto.email
    ensures dto.name.Some? ==> Updated(u, dto).name == dto.name.value
    ensures dto.birthDate.Some? ==> Updated(u, dto).birthDate == dto.birthDate.value
    ensures dto.gender.Some? ==> Updated(u, dto).gender == dto.gender.value
    ensures dto.status.Some? ==> Updated(u, dto).status == dto.status.value
  {
  }

  /** Submitting the same update twice leaves the user of a single update. */
  lemma UpdateIdempotent(u: User, dto: UpdateUserDto)
    ensures Updated(Updated(u, dto), dto) == Updated(u, dto)
  {
  }

  /** A created user whose given email is free keeps given emails unique. */
  lemma CreateKeepsUniqueEmails(us: map<int, User>, uid: int, u: User)
    requires UniqueGivenEmails(us) && uid !in us
    requires Given(u.email) ==> !EmailInUse(us, u.email.value)
    ensures UniqueGivenEmails(us[uid := u])
  {
    var us' := us[uid := u];
    forall a, b | a in us' && b in us' && Given(us'[a].email) && us'[a].email == us'[b].email
      ensures a == b
    {
    }
  }

  /** An update that passed the email check keeps given emails unique. */
  lemma UpdateKeepsUniqueEmails(us: map<int, User>, id: int, dto: UpdateUserDto)
    requires UniqueGivenEmails(us) && id in us && !EmailClash(us, id, dto)
    ensures UniqueGivenEmails(us[id := Updated(us[id], dto)])
  {
    var u := Updated(us[id], dto);
    if u.email == us[id].email {
      assert us[id := u] == us[id := us[id].(name := u.name, birthDate := u.birthDate,
                                             gender := u.gender, status := u.status)];
      var us' := us[id := u];
      forall a, b | a in us' && b in us' && Given(us'[a].email) && us'[a].email == us'[b].email
        ensures a == b
      {
        assert us'[a].email == us[a].email && us'[b].email == us[b].email;
      }
    } else {
      CreateKeepsUniqueEmails(us - {id}, id, u);
      assert (us - {id})[id := u] == us[id := u];
    }
  }

  // ---------------------------------------------------------------------------------------
  // Store lemmas

  /** The store right after a new user got the next id. */
  lemma CreatedUserStore(db: Db, us: map<int, User>, uid: int, u: User)
    requires TablesValid(db.matchings, db.participants, db.answers, db.questions, db.choices, db.records, us,
                         db.nextMatchingId, db.nextParticipantId, db.nextQuestionId, db.nextChoiceId, uid)
    requires !UseridInUse(us, u.userid) && !PhoneInUse(us, u.phoneNumber)
    requires db.users == us[uid := u] && db.nextUserId == uid + 1
    ensures db.Valid()
  {
    forall a, b | a in db.users && b in db.users && db.users[a].userid == db.users[b].userid
      ensures a == b
    {
    }
    forall a, b | a in db.users && b in db.users && db.users[a].phoneNumber == db.users[b].phoneNumber
      ensures a == b
    {
    }
  }

  /** The store right after a user row was rewritten with the same userid and phone. */
  lemma RewrittenUserStore(db: Db, us: map<int, User>, id: int, u: User)
    requires TablesValid(db.matchings, db.participants, db.answers, db.questions, db.choices, db.records, us,
                         db.nextMatchingId, db.nextParticipantId, db.nextQuestionId, db.nextChoiceId, db.nextUserId)
    requires id in us && u.userid == us[id].userid && u.phoneNumber == us[id].phoneNumber
    requires db.users == us[id := u]
    ensures db.Valid()
  {
    forall a, b | a in db.users && b in db.users && db.users[a].userid == db.users[b].userid
      ensures a == b
    {
      assert db.users[a].userid == us[a].userid && db.users[b].userid == us[b].userid;
    }
    forall a, b | a in db.users && b in db.users && db.users[a].phoneNumber == db.users[b].phoneNumber
      ensures a == b
    {
      assert db.users[a].phoneNumber == us[a].phoneNumber && db.users[b].phoneNumber == us[b].phoneNumber;
    }
  }

  // ---------------------------------------------------------------------------------------
  // The service

  /**
   * createUser: a taken userid, then a taken phone, then a taken given email is rejected;
   * otherwise the new active, unverified user is saved under the next id.
   */
  method CreateUser(db: Db, dto: CreateUserDto) returns (r: Result<UserDto, Error>)
    requires db.Valid()
    modifies db
    ensures db.Valid()
    ensures old(UseridInUse(db.users, dto.userid)) ==>
      r == Failure(BusinessRule(UseridTaken)) && unchanged(db)
    ensures !old(UseridInUse(db.users, dto.userid)) && old(PhoneInUse(db.users, dto.phoneNumber)) ==>
      r == Failure(BusinessRule(PhoneTaken)) && unchanged(db)
    ensures !old(UseridInUse(db.users, dto.userid)) && !old(PhoneInUse(db.users, dto.phoneNumber)) &&
            Given(dto.email) && old(EmailInUse(db.users, dto.email.value)) ==>
      r == Failure(BusinessRule(EmailTaken)) && unchanged(db)
    ensures r.Success? <==> old(IsUseridAvailable(db.users, dto.userid) &&
                                IsPhoneNumberAvailable(db.users, dto.phoneNumber) &&
                                IsEmailAvailable(db.users, dto.email))
    ensures r.Success? ==>
      var uid := old(db.nextUserId);
      uid !in old(db.users) && db.users == old(db.users)[uid := NewUser(dto)] &&
      r.value == ToDto(uid, NewUser(dto)) && db.nextUserId == uid + 1 &&
      !IsUseridAvailable(db.users, dto.userid) && !IsPhoneNumberAvailable(db.users, dto.phoneNumber) &&
      db.matchings == old(db.matchings) && db.participants == old(db.participants) &&
      db.answers == old(db.answers) && db.questions == old(db.questions) && db.choices == old(db.choices) &&
      db.records == old(db.records) &&
      db.nextMatchingId == old(db.nextMatchingId) && db.nextParticipantId == old(db.nextParticipantId) &&
      db.nextQuestionId == old(db.nextQuestionId) && db.nextChoiceId == old(db.nextChoiceId)
    ensures old(UniqueGivenEmails(db.users)) ==> UniqueGivenEmails(db.users)
  {
    if UseridInUse(db.users, dto.userid) {
      return Failure(BusinessRule(UseridTaken));
    }
    if PhoneInUse(db.users, dto.phoneNumber) {
      return Failure(BusinessRule(PhoneTaken));
    }
    if dto.email.Some? && !IsBlank(dto.email.value) {
      if EmailInUse(db.users, dto.email.value) {
        return Failure(BusinessRule(EmailTaken));
      }
    }
    var user := NewUser(dto);
    if UniqueGivenEmails(db.users) {
      CreateKeepsUniqueEmails(db.users, db.nextUserId, user);
    }
    var uid := SaveNewUser(db, user);
    assert db.users[uid] == user;
    r := Success(ToDto(uid, user));
  }

  /** The save of a user whose userid and phone are free: it gets the next id. */
  method SaveNewUser(db: Db, user: User) returns (uid: int)
    requires db.Valid() && !UseridInUse(db.users, user.userid) && !PhoneInUse(db.users, user.phoneNumber)
    modifies db
    ensures db.Valid()
    ensures uid == old(db.nextUserId) && uid !in old(db.users) && db.users == old(db.users)[uid := user]
    ensures db.nextUserId == uid + 1
    ensures db.matchings == old(db.matchings) && db.participants == old(db.participants) &&
      db.answers == old(db.answers) && db.questions == old(db.questions) && db.choices == old(db.choices) &&
      db.records == old(db.records) &&
      db.nextMatchingId == old(db.nextMatchingId) && db.nextParticipantId == old(db.nextParticipantId) &&
      db.nextQuestionId == old(db.nextQuestionId) && db.nextChoiceId == old(db.nextChoiceId)
  {
    uid := db.nextUserId;
    ghost var us := db.users;
    db.users := db.users[uid := user];
    db.nextUserId := uid + 1;
    CreatedUserStore(db, us, uid, user);
  }

  /**
   * updateUser: NotFound for an unknown id; an email held by another user is rejected;
   * otherwise every non-null field is set (a blank email is ignored).
   */
  method UpdateUser(db: Db, id: int, dto: UpdateUserDto) returns (r: Result<UserDto, Error>)
    requires db.Valid()
    modifies db
    ensures db.Valid()
    ensures id !in old(db.users) ==> r == Failure(NotFound(UserEntity)) && unchanged(db)
    ensures id in old(db.users) && old(EmailClash(db.users, id, dto)) ==>
      r == Failure(BusinessRule(EmailTaken)) && unchanged(db)
    ensures id in old(db.users) && !old(EmailClash(db.users, id, dto)) ==>
      db.users == old(db.users)[id := Updated(old(db.users[id]), dto)] &&
      r == Success(ToDto(id, db.users[id])) &&
      db.matchings == old(db.matchings) && db.participants == old(db.participants) &&
      db.answers == old(db.answers) && db.questions == old(db.questions) && db.choices == old(db.choices) &&
      db.records == old(db.records) &&
      db.nextMatchingId == old(db.nextMatchingId) && db.nextParticipantId == old(db.nextParticipantId) &&
      db.nextQuestionId == old(db.nextQuestionId) && db.nextChoiceId == old(db.nextChoiceId) &&
      db.nextUserId == old(db.nextUserId)
    ensures old(UniqueGivenEmails(db.users)) ==> UniqueGivenEmails(db.users)
  {
    if id !in db.users {
      return Failure(NotFound(UserEntity));
    }
    if dto.email.Some? && !IsBlank(dto.email.value) {
      if dto.email != db.users[id].email && EmailInUse(db.users, dto.email.value) {
        return Failure(BusinessRule(EmailTaken));
      }
    }
    var user := SetUserFields(db.users[id], dto);
    if UniqueGivenEmails(db.users) {
      UpdateKeepsUniqueEmails(db.users, id, dto);
    }
    SaveUser(db, id, user);
    r := Success(ToDto(id, user));
  }

  /** The setters of updateUser on a user that passed the email check. */
  method SetUserFields(u: User, dto: UpdateUserDto) returns (user: User)
    ensures user == Updated(u, dto)
  {
    user := u;
    if dto.email.Some? && !IsBlank(dto.email.value) {
      user := user.(email := dto.email);
    }
    if dto.name.Some? {
      user := user.(name := dto.name.value);
    }
    if dto.birthDate.Some? {
      user := user.(birthDate := dto.birthDate.value);
    }
    if dto.gender.Some? {
      user := user.(gender := dto.gender.value);
    }
    if dto.status.Some? {
      user := user.(status := dto.status.value);
    }
  }

  /** The save of an existing user row whose userid and phone did not change. */
  method SaveUser(db: Db, id: int, user: User)
    requires db.Valid() && id in db.users
    requires user.userid == db.users[id].userid && user.phoneNumber == db.users[id].phoneNumber
    modifies db
    ensures db.Valid()
    ensures db.users == old(db.users)[id := user]
    ensures db.matchings == old(db.matchings) && db.participants == old(db.participants) &&
      db.answers == old(db.answers) && db.questions == old(db.questions) && db.choices == old(db.choices) &&
      db.records == old(db.records) &&
      db.nextMatchingId == old(db.nextMatchingId) && db.nextParticipantId == old(db.nextParticipantId) &&
      db.nextQuestionId == old(db.nextQuestionId) && db.nextChoiceId == old(db.nextChoiceId) &&
      db.nextUserId == old(db.nextUserId)
  {
    ghost var us := db.users;
    db.users := db.users[id := user];
    RewrittenUserStore(db, us, id, user);
  }

  /**
   * deleteUser: NotFound for an unknown id; otherwise a soft delete that only sets the
   * status to DELETED. The row stays, so its userid and phone stay unavailable.
   */
  method DeleteUser(db: Db, id: int) returns (r: Result<(), Error>)
    requires db.Valid()
    modifies db
    ensures db.Valid()
    ensures id !in old(db.users) ==> r == Failure(NotFound(UserEntity)) && unchanged(db)
    ensures id in old(db.users) ==>
      r == Success(()) &&
      db.users == old(db.users)[id := old(db.users[id]).(status := Deleted)] &&
      !IsUseridAvailable(db.users, old(db.users[id].userid)) &&
      !IsPhoneNumberAvailable(db.users, old(db.users[id].phoneNumber)) &&
      db.matchings == old(db.matchings) && db.participants == old(db.participants) &&
      db.answers == old(db.answers) && db.questions == old(db.questions) && db.choices == old(db.choices) &&
      db.records == old(db.records) &&
      db.nextMatchingId == old(db.nextMatchingId) && db.nextParticipantId == old(db.nextParticipantId) &&
      db.nextQuestionId == old(db.nextQuestionId) && db.nextChoiceId == old(db.nextChoiceId) &&
      db.nextUserId == old(db.nextUserId)
    ensures old(UniqueGivenEmails(db.users)) ==> UniqueGivenEmails(db.users)
  {
    if id !in db.users {
      return Failure(NotFound(UserEntity));
    }
    var user := db.users[id].(status := Deleted);
    if UniqueGivenEmails(db.users) {
      UpdateKeepsUniqueEmails(db.users, id, UpdateUserDto(None, None, None, None, Some(Deleted)));
      assert Updated(db.users[id], UpdateUserDto(None, None, None, None, Some(Deleted))) == user;
    }
    SaveUser(db, id, user);
    assert db.users[id] == user;
    r := Success(());
  }

  // ---------------------------------------------------------------------------------------
  // The history view (getUserHistory)

  datatype RecordInfo = RecordInfo(recordId: string, temperature: real, temperatureDiff: real, createdAt: Timestamp)

  datatype ParticipantInfo = ParticipantInfo(participantCode: string, joinedAt: Timestamp)

  datatype AnswerInfo = AnswerInfo(
    questionId: int,
    questionText: string,
    questionOrder: int,
    choiceText: string,
    choiceValue: string)

  datatype MatchingHistory = MatchingHistory(
    matchingId: int,
    matchingCode: string,
    status: string,
    joinedAt: Timestamp,
    completedAt: Option<Timestamp>,
    record: Option<RecordInfo>,
    otherParticipants: seq<ParticipantInfo>,
    answers: seq<AnswerInfo>)

  datatype UserHistory = UserHistory(user: UserDto, matchings: seq<MatchingHistory>, totalParticipations: int)

  /**
   * The participations of a user (findByUserIdWithMatchingAndRecord), in participant id order,
   * over the assumed participant-to-user link `userId`.
   */
  function ParticipationsOf(ps: map<int, Participant>, np: int, userId: int): (r: seq<int>)
    ensures forall i :: 0 <= i < |r| ==> r[i] in ps && ps[r[i]].userId == Some(userId)
    ensures forall k :: 1 <= k < np && k in ps && ps[k].userId == Some(userId) ==> k in r
  {
    var r := Scan(1, np, k => k in ps && ps[k].userId == Some(userId));
    assert forall i :: 0 <= i < |r| ==> r[i] in r;
    r
  }

  /** matching.getParticipants() without participant pid, in participant id order. */
  function OthersOf(ps: map<int, Participant>, np: int, mid: int, pid: int): (r: seq<int>)
    ensures forall i :: 0 <= i < |r| ==> r[i] in ps && ps[r[i]].matchingId == mid && r[i] != pid
    ensures forall k :: 1 <= k < np && k in ps && ps[k].matchingId == mid && k != pid ==> k in r
  {
    var r := Scan(1, np, k => k in ps && ps[k].matchingId == mid && k != pid);
    assert forall i :: 0 <= i < |r| ==> r[i] in r;
    r
  }

  function ParticipantInfos(ps: map<int, Participant>, ids: seq<int>): (r: seq<ParticipantInfo>)
    requires forall i :: 0 <= i < |ids| ==> ids[i] in ps
    ensures |r| == |ids|
    ensures forall i :: 0 <= i < |ids| ==> r[i] == ParticipantInfo(ps[ids[i]].participantCode, ps[ids[i]].joinedAt)
  {
    seq(|ids|, i requires 0 <= i < |ids| => ParticipantInfo(ps[ids[i]].participantCode, ps[ids[i]].joinedAt))
  }

  /** The answer's question and choice, resolved through the fetch join. */
  function AnswerInfoOf(a: Answer, qs: map<int, Question>, cs: map<int, Choice>): AnswerInfo
    requires a.questionId in qs && a.choiceId in cs
  {
    AnswerInfo(a.questionId, qs[a.questionId].questionText, qs[a.questionId].order,
               cs[a.choiceId].choiceText, cs[a.choiceId].choiceValue)
  }

  function AnswerInfos(rows: seq<Answer>, qs: map<int, Question>, cs: map<int, Choice>): (r: seq<AnswerInfo>)
    requires Resolvable(rows, qs, cs)
    ensures |r| == |rows|
    ensures forall i :: 0 <= i < |rows| ==> r[i] == AnswerInfoOf(rows[i], qs, cs)
  {
    seq(|rows|, i requires 0 <= i < |rows| => AnswerInfoOf(rows[i], qs, cs))
  }

  /** A stored participant's answer rows resolve, the answer table referencing only stored rows. */
  lemma RowsResolve(answers: seq<Answer>, ps: map<int, Participant>, qs: map<int, Question>, cs: map<int, Choice>, pid: int)
    requires AnswersReferTo(answers, ps, qs, cs)
    ensures Resolvable(AnswersOf(answers, pid), qs, cs)
  {
    var rows := AnswersOf(answers, pid);
    forall i | 0 <= i < |rows|
      ensures rows[i].questionId in qs && rows[i].choiceId in cs
    {
      assert rows[i] in answers;
      var j :| 0 <= j < |answers| && answers[j] == rows[i];
    }
  }

  /**
   * The history entry of participation pid: its matching, the record when there is one, the
   * matching's other participants, and the participant's answers by question order.
   */
  function Entry(ms: map<int, Matching>, ps: map<int, Participant>, np: int, answers: seq<Answer>,
                 qs: map<int, Question>, cs: map<int, Choice>, rs: map<int, Record>, pid: int): (h: MatchingHistory)
    requires pid in ps && ps[pid].matchingId in ms && AnswersReferTo(answers, ps, qs, cs)
    ensures h.matchingId == ps[pid].matchingId && h.joinedAt == ps[pid].joinedAt
    ensures h.record.Some? <==> ps[pid].matchingId in rs
    ensures forall i, j :: 0 <= i < j < |h.answers| ==> h.answers[i].questionOrder <= h.answers[j].questionOrder
    ensures multiset(h.answers) == multiset(AnswerInfos(AnswersOf(answers, pid), qs, cs))
  {
    var p := ps[pid];
    var m := ms[p.matchingId];
    var others := OthersOf(ps, np, p.matchingId, pid);
    RowsResolve(answers, ps, qs, cs, pid);
    var record :=
      if p.matchingId in rs then
        var rec := rs[p.matchingId];
        Some(RecordInfo(rec.recordId, rec.temperature, rec.temperatureDiff, rec.createdAt))
      else None;
    MatchingHistory(p.matchingId, m.code, m.status, p.joinedAt, m.completedAt, record,
                    ParticipantInfos(ps, others),
                    Sort(AnswerInfos(AnswersOf(answers, pid), qs, cs), (a: AnswerInfo) => a.questionOrder))
  }

  /** The entries of the given participations, in the given order. */
  function Entries(ms: map<int, Matching>, ps: map<int, Participant>, np: int, answers: seq<Answer>,
                   qs: map<int, Question>, cs: map<int, Choice>, rs: map<int, Record>, ids: seq<int>): (r: seq<MatchingHistory>)
    requires forall i :: 0 <= i < |ids| ==> ids[i] in ps && ps[ids[i]].matchingId in ms
    requires AnswersReferTo(answers, ps, qs, cs)
    ensures |r| == |ids|
    ensures forall i :: 0 <= i < |ids| ==> r[i] == Entry(ms, ps, np, answers, qs, cs, rs, ids[i])
  {
    seq(|ids|, i requires 0 <= i < |ids| => Entry(ms, ps, np, answers, qs, cs, rs, ids[i]))
  }

  /** The entries of a user's participations, before the service sorts them. */
  function HistoryEntries(db: Db, userId: int): (r: seq<MatchingHistory>)
    reads db
    requires db.Valid()
  {
    var ids := ParticipationsOf(db.participants, db.nextParticipantId, userId);
    Entries(db.matchings, db.participants, db.nextParticipantId, db.answers, db.questions, db.choices, db.records, ids)
  }

  /**
   * getUserHistory: NotFound for an unknown user; otherwise the user, one entry per
   * participation with the latest join first, and the number of participations.
   */
  function GetUserHistory(db: Db, userId: int): (r: Result<UserHistory, Error>)
    reads db
    requires db.Valid()
    ensures r.Failure? <==> userId !in db.users
    ensures r.Failure? ==> r.error == NotFound(UserEntity)
    ensures r.Success? ==>
      r.value.user == ToDto(userId, db.users[userId]) &&
      |r.value.matchings| == r.value.totalParticipations &&
      multiset(r.value.matchings) == multiset(HistoryEntries(db, userId)) &&
      forall i, j :: 0 <= i < j < |r.value.matchings| ==> r.value.matchings[i].joinedAt >= r.value.matchings[j].joinedAt
  {
    if userId !in db.users then Failure(NotFound(UserEntity))
    else
      var entries := HistoryEntries(db, userId);
      var latestFirst := Sort(entries, (h: MatchingHistory) => -h.joinedAt);
      Success(UserHistory(ToDto(userId, db.users[userId]), latestFirst, |entries|))
  }

  /** totalParticipations is the number of the user's participant rows. */
  lemma HistoryCountsParticipations(db: Db, userId: int)
    requires db.Valid() && userId in db.users
    ensures GetUserHistory(db, userId).value.totalParticipations ==
            |set k | k in db.participants && db.participants[k].userId == Some(userId)|
  {
    var ps := db.participants;
    var ids := ParticipationsOf(ps, db.nextParticipantId, userId);
    AscendingCardinality(ids, set k | k in ps && ps[k].userId == Some(userId));
  }

  /** Every participation of the user has its entry in the history. */
  lemma HistoryListsEveryParticipation(db: Db, userId: int, k: int)
    requires db.Valid() && userId in db.users
    requires k in db.participants && db.participants[k].userId == Some(userId)
    ensures Entry(db.matchings, db.participants, db.nextParticipantId, db.answers, db.questions, db.choices, db.records, k)
              in GetUserHistory(db, userId).value.matchings
  {
    var ids := ParticipationsOf(db.participants, db.nextParticipantId, userId);
    var entries := HistoryEntries(db, userId);
    var i :| 0 <= i < |ids| && ids[i] == k;
    assert entries[i] in multiset(entries);
  }

  /** Every entry of the history is the entry of one of the user's participations. */
  lemma HistoryListsOnlyParticipations(db: Db, userId: int, h: MatchingHistory)
    requires db.Valid() && userId in db.users
    requires h in GetUserHistory(db, userId).value.matchings
    ensures exists k :: (k in db.participants && db.participants[k].userId == Some(userId) &&
      h == Entry(db.matchings, db.participants, db.nextParticipantId, db.answers, db.questions, db.choices, db.records, k))
  {
    var ids := ParticipationsOf(db.participants, db.nextParticipantId, userId);
    var entries := HistoryEntries(db, userId);
    assert h in multiset(GetUserHistory(db, userId).value.matchings);
    var i :| 0 <= i < |entries| && entries[i] == h;
    assert ids[i] in db.participants;
  }

  /**
   * otherParticipants leaves out exactly the user's own participant: it lists every other
   * participant of the matching once, and never the user's own participant code.
   */
  lemma OthersExcludeSelf(ps: map<int, Participant>, np: int, pid: int)
    requires KeysWithin(ps, np) && UniqueParticipantCodes(ps) && pid in ps
    ensures var infos := ParticipantInfos(ps, OthersOf(ps, np, ps[pid].matchingId, pid));
      |infos| == ParticipantCount(ps, ps[pid].matchingId) - 1 &&
      (forall i :: 0 <= i < |infos| ==> infos[i].participantCode != ps[pid].participantCode) &&
      (forall k :: k in ps && k != pid && ps[k].matchingId == ps[pid].matchingId ==>
         ParticipantInfo(ps[k].participantCode, ps[k].joinedAt) in infos)
  {
    var mid := ps[pid].matchingId;
    var others := OthersOf(ps, np, mid, pid);
    assert forall i :: 0 <= i < |others| ==> others[i] in others;
    var infos := ParticipantInfos(ps, others);
    var all := set k | k in ps && ps[k].matchingId == mid;
    var rest := set k | k in ps && ps[k].matchingId == mid && k != pid;
    assert rest == all - {pid};
    AscendingCardinality(others, rest);
    forall k | k in ps && k != pid && ps[k].matchingId == mid
      ensures ParticipantInfo(ps[k].participantCode, ps[k].joinedAt) in infos
    {
      assert k in others;
      var i :| 0 <= i < |others| && others[i] == k;
      assert infos[i] == ParticipantInfo(ps[k].participantCode, ps[k].joinedAt);
    }
  }
}
