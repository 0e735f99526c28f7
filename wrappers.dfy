/** Option and Result, the failure-carrying types every service call returns. */
module Wrappers {

  datatype Option<+T> = None | Some(value: T)

  /** A call either succeeds with a value or fails; a failed call leaves the store as it was. */
  datatype Result<+T, +E> = Success(value: T) | Failure(error: E)
}

/** The exceptions the services throw, by kind and cause. */
module Errors {

  /** The entity a ResourceNotFoundException is about. */
  datatype Entity =
    | MatchingEntity
    | ParticipantEntity
    | QuestionEntity
    | ChoiceEntity
    | RecordEntity
    | UserEntity

  /** The rule a BusinessException reports. */
  datatype Rule =
    | CodeGenerationExhausted   // no free matching code after the bounded retry
    | MatchingClosed            // join on a matching that is no longer waiting
    | MatchingFull              // join on a matching that already has two participants
    | RecordAlreadyExists       // a record was already created for the matching
    | NoAnswers                 // record creation for a matching without answers
    | OrderTaken                // an active question already holds the order
    | UseridTaken
    | PhoneTaken
    | EmailTaken

  /** The kind of exception a service throws; its message, and any identifier in it, is not kept. */
  datatype Error =
    | NotFound(entity: Entity)        // ResourceNotFoundException
    | BusinessRule(rule: Rule)        // BusinessException
    | IllegalArgument                 // IllegalArgumentException
}
