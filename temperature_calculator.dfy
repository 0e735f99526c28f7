/** The legacy static temperature calculator with its fixed coefficient table. */
module TemperatureCalculator {
  import opened Entities
  import opened TemperatureScoring
  import AppConstants
  import WeightedTemperatureCalculationStrategy

  /** QUESTION_WEIGHTS: question order -> coefficient. */
  const QuestionWeights: Coefficients := map[
    AppConstants.QuestionOrderSentiment := 3.0,
    AppConstants.QuestionOrderExpectation := 2.0,
    AppConstants.QuestionOrderDistance := 3.0,
    AppConstants.QuestionOrderComfort := 2.0]

  /** calculate, with QUESTION_WEIGHTS. */
  function Calculate(answers: seq<Answer>, choiceMap: map<int, Choice>, questionOrderMap: QuestionOrders): (r: TemperatureResult)
    ensures r.temperatureDiff >= 0.0
    ensures |Participants(answers)| != 2 ==> r.temperatureDiff == 0.0
    ensures |Participants(answers)| == 0 || |Participants(answers)| > 2 ==> r == TemperatureResult(0.0, 0.0)
  {
    TemperatureScoring.Calculate(answers, WeightedTemperatureCalculationStrategy.WeightsOf(choiceMap), questionOrderMap, QuestionWeights)
  }

  method CalculateParticipantTemperature(answers: seq<Answer>, choiceMap: map<int, Choice>, questionOrderMap: QuestionOrders)
    returns (t: real)
    ensures t == ParticipantTemperature(answers, WeightedTemperatureCalculationStrategy.WeightsOf(choiceMap), questionOrderMap, QuestionWeights)
  {
    t := AccumulateParticipantTemperature(answers, WeightedTemperatureCalculationStrategy.WeightsOf(choiceMap), questionOrderMap, QuestionWeights);
  }

  /**
   * With the fixed table an answer to an order outside 3..6 (orders 1 and 2 among them), or
   * to a question missing from the order map, never changes a participant's temperature.
   */
  lemma OtherOrdersNeverContribute(xs: seq<Answer>, a: Answer, ys: seq<Answer>, choiceMap: map<int, Choice>, questionOrderMap: QuestionOrders)
    requires a.questionId in questionOrderMap ==> !(3 <= questionOrderMap[a.questionId] <= 6)
    ensures ParticipantTemperature(xs + [a] + ys, WeightedTemperatureCalculationStrategy.WeightsOf(choiceMap), questionOrderMap, QuestionWeights)
         == ParticipantTemperature(xs + ys, WeightedTemperatureCalculationStrategy.WeightsOf(choiceMap), questionOrderMap, QuestionWeights)
  {
    UncountedAnswerIgnored(xs, a, ys, WeightedTemperatureCalculationStrategy.WeightsOf(choiceMap), questionOrderMap, QuestionWeights);
  }

  /** The configurable strategy with its default properties computes what the legacy calculator computes. */
  lemma DefaultStrategyAgrees(answers: seq<Answer>, choiceMap: map<int, Choice>, questionOrderMap: QuestionOrders)
    ensures WeightedTemperatureCalculationStrategy.Calculate(WeightedTemperatureCalculationStrategy.DefaultProperties(), answers, choiceMap, questionOrderMap)
         == Calculate(answers, choiceMap, questionOrderMap)
  {
    assert WeightedTemperatureCalculationStrategy.DefaultProperties().questionWeights == QuestionWeights;
  }
}
