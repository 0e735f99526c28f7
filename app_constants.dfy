/** Application-wide constants. */
module AppConstants {
  const MaxParticipantsPerMatching: nat := 2
  const MaxMatchingCodeGenerationAttempts: nat := 10

  /** Question orders that carry a temperature coefficient. */
  const QuestionOrderSentiment: int := 3
  const QuestionOrderExpectation: int := 4
  const QuestionOrderDistance: int := 5
  const QuestionOrderComfort: int := 6
}
