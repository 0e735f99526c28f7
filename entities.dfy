/**
 * The persistent entities of the backend as values. Every entity lives in a table of the
 * store keyed by its generated identity, so the identity is the map key, not a field.
 */
module Entities {
  import opened Wrappers

  /** A point in time supplied by the caller (LocalDateTime.now and creation timestamps). */
  type Timestamp = int

  /**
   * A pairing session; its participants and record live in their own tables. The status
   * column is a string, written through MatchingStatus.Value.
   */
  datatype Matching = Matching(
    code: string,
    status: string,
    createdAt: Timestamp,
    completedAt: Option<Timestamp>)

  /**
   * One side of a matching; the participant code is the bearer handle for submitting answers.
   * `userId` is the assumed link to a registered user that the participant-by-user queries
   * refer to; the source's participant entity declares no such field.
   */
  datatype Participant = Participant(
    matchingId: int,
    participantCode: string,
    joinedAt: Timestamp,
    userId: Option<int>)

  /** One stored answer row: who answered which question with which choice. */
  datatype Answer = Answer(participantId: int, questionId: int, choiceId: int)

  datatype Category = InitialMatching | TemperatureRefine

  /** The enum constant's name(), as put into question DTOs. */
  function CategoryName(c: Category): string
  {
    match c
    case InitialMatching => "INITIAL_MATCHING"
    case TemperatureRefine => "TEMPERATURE_REFINE"
  }

  /** A catalogue question; choiceIds is its ordered, owned list of choices. */
  datatype Question = Question(
    questionText: string,
    questionType: string,
    category: Option<Category>,
    order: int,
    isActive: bool,
    version: int,
    choiceIds: seq<int>)

  /** A choice of a question with its author-supplied temperature weight. */
  datatype Choice = Choice(
    questionId: int,
    choiceText: string,
    choiceValue: string,
    order: int,
    temperatureWeight: real)

  /** The per-question entry of a record's summary. */
  datatype SummaryEntry = SummaryEntry(questionText: string, choiceText: string, questionType: string)

  /**
   * The scored outcome of a matching; only isActive changes after creation. A matching has at
   * most one record, so the record table is keyed by the matching's id.
   */
  datatype Record = Record(
    recordId: string,
    temperature: real,
    temperatureDiff: real,
    isActive: bool,
    createdAt: Timestamp,
    summary: map<string, SummaryEntry>)

  datatype Gender = Male | Female | Other

  datatype UserStatus = Active | Inactive | Suspended | Deleted

  datatype VerificationStatus = Unverified | PhoneVerified | EmailVerified | FullyVerified

  /** A member account; a missing email is None. Dates are caller-supplied day numbers. */
  datatype User = User(
    userid: string,
    email: Option<string>,
    phoneNumber: string,
    name: string,
    birthDate: int,
    gender: Gender,
    status: UserStatus,
    verificationStatus: VerificationStatus)
}
