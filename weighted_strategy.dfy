/**
 * The configurable temperature strategy: the weighted algorithm with its coefficient table
 * taken from configuration properties.
 */
module WeightedTemperatureCalculationStrategy {
  import opened Entities
  import opened TemperatureScoring
  import opened AnswerTable

  /** The configuration properties: question order -> coefficient. */
  datatype Properties = Properties(questionWeights: Coefficients)

  /** The table configured when nothing overrides it. */
  function DefaultProperties(): Properties
  {
    Properties(map[3 := 3.0, 4 := 2.0, 5 := 3.0, 6 := 2.0])
  }

  /** The temperatureWeight of each choice in a choice-id -> choice map. */
  function WeightsOf(choiceMap: map<int, Choice>): (cw: ChoiceWeights)
    ensures cw.Keys == choiceMap.Keys
    ensures forall c :: c in cw ==> cw[c] == choiceMap[c].temperatureWeight
  {
    map c | c in choiceMap :: choiceMap[c].temperatureWeight
  }

  /** calculate, with the strategy's configured coefficients. */
  function Calculate(props: Properties, answers: seq<Answer>, choiceMap: map<int, Choice>, questionOrderMap: QuestionOrders): (r: TemperatureResult)
    ensures r.temperatureDiff >= 0.0
    ensures |Participants(answers)| != 2 ==> r.temperatureDiff == 0.0
    ensures |Participants(answers)| == 0 || |Participants(answers)| > 2 ==> r == TemperatureResult(0.0, 0.0)
  {
    TemperatureScoring.Calculate(answers, WeightsOf(choiceMap), questionOrderMap, props.questionWeights)
  }

  /** calculateParticipantTemperature, with the configured coefficients. */
  method CalculateParticipantTemperature(props: Properties, answers: seq<Answer>, choiceMap: map<int, Choice>, questionOrderMap: QuestionOrders)
    returns (t: real)
    ensures t == ParticipantTemperature(answers, WeightsOf(choiceMap), questionOrderMap, props.questionWeights)
  {
    t := AccumulateParticipantTemperature(answers, WeightsOf(choiceMap), questionOrderMap, props.questionWeights);
  }

  /**
   * With the default table an answer counts exactly when its choice and question are known
   * and the question's order is one of 3, 4, 5, 6; every other order is ignored.
   */
  lemma DefaultCountsOrdersThreeToSix(a: Answer, choiceMap: map<int, Choice>, questionOrderMap: QuestionOrders)
    ensures Counts(a, WeightsOf(choiceMap), questionOrderMap, DefaultProperties().questionWeights) <==>
      a.choiceId in choiceMap && a.questionId in questionOrderMap && 3 <= questionOrderMap[a.questionId] <= 6
  {
  }

  /**
   * A table whose coefficients are all zero or negative ignores every answer:
   * the result is (0, 0) or the single participant's 0.
   */
  lemma NonPositiveWeightsGiveZero(props: Properties, answers: seq<Answer>, choiceMap: map<int, Choice>, questionOrderMap: QuestionOrders)
    requires forall o :: o in props.questionWeights ==> props.questionWeights[o] <= 0.0
    ensures Calculate(props, answers, choiceMap, questionOrderMap) == TemperatureResult(0.0, 0.0)
  {
    var cw, coef := WeightsOf(choiceMap), props.questionWeights;
    var ids := ParticipantIds(answers);
    var ts := Temperatures(answers, ids, cw, questionOrderMap, coef);
    forall i | 0 <= i < |ts| ensures ts[i] == 0.0 {
      var group := AnswersOf(answers, ids[i]);
      forall j | 0 <= j < |group| ensures !Counts(group[j], cw, questionOrderMap, coef) {
        var q := group[j].questionId;
        if q in questionOrderMap && questionOrderMap[q] in coef {
          var o := questionOrderMap[q];
          assert o in props.questionWeights;
          assert props.questionWeights[o] <= 0.0;
        }
      }
      CoefficientSumSign(group, cw, questionOrderMap, coef);
    }
    assert Calculate(props, answers, choiceMap, questionOrderMap) == Combine(ts);
  }
}
