/**
 * The weighted temperature algorithm shared by the pluggable strategy and the legacy
 * calculator: answers grouped per participant, a weighted average of choice weights per
 * participant, and the combination of the participants' temperatures into a result.
 * The weight table (question order -> coefficient) is a parameter.
 */
module TemperatureScoring {
  import opened Entities
  import opened AnswerTable

  /** choice id -> the choice's temperatureWeight (the choiceMap of the source). */
  type ChoiceWeights = map<int, real>
  /** question id -> the question's order (questionOrderMap). */
  type QuestionOrders = map<int, int>
  /** question order -> scoring coefficient (questionWeights). */
  type Coefficients = map<int, real>

  datatype TemperatureResult = TemperatureResult(averageTemperature: real, temperatureDiff: real)

  function Abs(x: real): real
  {
    if x < 0.0 then -x else x
  }

  /** An answer counts when its choice and question are known and its order has a positive coefficient. */
  predicate Counts(a: Answer, cw: ChoiceWeights, qo: QuestionOrders, coef: Coefficients)
  {
    a.choiceId in cw && a.questionId in qo && qo[a.questionId] in coef && coef[qo[a.questionId]] > 0.0
  }

  /** What one answer adds to the numerator: choice weight times coefficient, or nothing. */
  function Contribution(a: Answer, cw: ChoiceWeights, qo: QuestionOrders, coef: Coefficients): real
  {
    if Counts(a, cw, qo, coef) then cw[a.choiceId] * coef[qo[a.questionId]] else 0.0
  }

  /** What one answer adds to the denominator: its coefficient, or nothing. */
  function Applied(a: Answer, cw: ChoiceWeights, qo: QuestionOrders, coef: Coefficients): real
  {
    if Counts(a, cw, qo, coef) then coef[qo[a.questionId]] else 0.0
  }

  /** Sum of contributions, accumulated left to right. */
  function WeightedTotal(s: seq<Answer>, cw: ChoiceWeights, qo: QuestionOrders, coef: Coefficients): real
    decreases |s|
  {
    if s == [] then 0.0
    else WeightedTotal(s[..|s| - 1], cw, qo, coef) + Contribution(s[|s| - 1], cw, qo, coef)
  }

  /** Sum of the coefficients actually applied. */
  function CoefficientSum(s: seq<Answer>, cw: ChoiceWeights, qo: QuestionOrders, coef: Coefficients): real
    decreases |s|
  {
    if s == [] then 0.0
    else CoefficientSum(s[..|s| - 1], cw, qo, coef) + Applied(s[|s| - 1], cw, qo, coef)
  }

  /** A participant's temperature: the weighted average, or 0 when nothing counted. */
  function ParticipantTemperature(s: seq<Answer>, cw: ChoiceWeights, qo: QuestionOrders, coef: Coefficients): (t: real)
    ensures (forall i :: 0 <= i < |s| ==> !Counts(s[i], cw, qo, coef)) ==> t == 0.0
    ensures (exists i :: 0 <= i < |s| && Counts(s[i], cw, qo, coef)) ==>
              t * CoefficientSum(s, cw, qo, coef) == WeightedTotal(s, cw, qo, coef)
  {
    CoefficientSumSign(s, cw, qo, coef);
    var w := CoefficientSum(s, cw, qo, coef);
    if w > 0.0 then WeightedTotal(s, cw, qo, coef) / w else 0.0
  }

  /**
   * calculateParticipantTemperature: the accumulator loop over one participant's answers.
   */
  method AccumulateParticipantTemperature(answers: seq<Answer>, cw: ChoiceWeights, qo: QuestionOrders, coef: Coefficients)
    returns (t: real)
    ensures t == ParticipantTemperature(answers, cw, qo, coef)
  {
    var total := 0.0;
    var weightSum := 0.0;
    for i := 0 to |answers|
      invariant total == WeightedTotal(answers[..i], cw, qo, coef)
      invariant weightSum == CoefficientSum(answers[..i], cw, qo, coef)
    {
      var answer := answers[i];
      assert answers[..i + 1][..i] == answers[..i];
      if answer.choiceId in cw && answer.questionId in qo {
        var questionOrder := qo[answer.questionId];
        if questionOrder in coef && coef[questionOrder] > 0.0 {
          var weight := coef[questionOrder];
          total := total + cw[answer.choiceId] * weight;
          weightSum := weightSum + weight;
        }
      }
    }
    assert answers[..|answers|] == answers;
    t := if weightSum > 0.0 then total / weightSum else 0.0;
  }

  // ---------------------------------------------------------------------------------------
  // Properties of one participant's temperature

  lemma {:induction false} CoefficientSumSign(s: seq<Answer>, cw: ChoiceWeights, qo: QuestionOrders, coef: Coefficients)
    ensures CoefficientSum(s, cw, qo, coef) >= 0.0
    ensures CoefficientSum(s, cw, qo, coef) > 0.0 <==> exists i :: 0 <= i < |s| && Counts(s[i], cw, qo, coef)
    decreases |s|
  {
    if s != [] {
      var n := |s| - 1;
      CoefficientSumSign(s[..n], cw, qo, coef);
      if exists i :: 0 <= i < |s| && Counts(s[i], cw, qo, coef) {
        var i :| 0 <= i < |s| && Counts(s[i], cw, qo, coef);
        if i < n { assert s[..n][i] == s[i]; }
      }
      if exists i :: 0 <= i < n && Counts(s[..n][i], cw, qo, coef) {
        var i :| 0 <= i < n && Counts(s[..n][i], cw, qo, coef);
        assert s[i] == s[..n][i];
      }
    }
  }

  lemma AnswerLowerBound(a: Answer, cw: ChoiceWeights, qo: QuestionOrders, coef: Coefficients, k: real)
    requires Counts(a, cw, qo, coef) ==> k <= cw[a.choiceId]
    ensures k * Applied(a, cw, qo, coef) <= Contribution(a, cw, qo, coef)
  {
    if Counts(a, cw, qo, coef) {
      var w, c := cw[a.choiceId], coef[qo[a.questionId]];
      assert (w - k) * c >= 0.0;
    }
  }

  lemma AnswerUpperBound(a: Answer, cw: ChoiceWeights, qo: QuestionOrders, coef: Coefficients, k: real)
    requires Counts(a, cw, qo, coef) ==> cw[a.choiceId] <= k
    ensures Contribution(a, cw, qo, coef) <= k * Applied(a, cw, qo, coef)
  {
    if Counts(a, cw, qo, coef) {
      var w, c := cw[a.choiceId], coef[qo[a.questionId]];
      assert (k - w) * c >= 0.0;
    }
  }

  lemma LinearStep(k: real, w0: real, a: real)
    ensures k * (w0 + a) == k * w0 + k * a
  {
  }

  lemma QuotientBounds(lo: real, hi: real, t: real, w: real)
    requires w > 0.0 && lo * w <= t <= hi * w
    ensures lo <= t / w <= hi
  {
    var q := t / w;
    assert q * w == t;
    assert (q - lo) * w >= 0.0;
    assert (hi - q) * w >= 0.0;
  }

  /** k * sum(coef) <= sum(weight * coef) when every counted weight is at least k. */
  lemma {:induction false} WeightedTotalLowerBound(s: seq<Answer>, cw: ChoiceWeights, qo: QuestionOrders, coef: Coefficients, k: real)
    requires forall i :: 0 <= i < |s| && Counts(s[i], cw, qo, coef) ==> k <= cw[s[i].choiceId]
    ensures k * CoefficientSum(s, cw, qo, coef) <= WeightedTotal(s, cw, qo, coef)
    decreases |s|
  {
    if s != [] {
      var n := |s| - 1;
      var prefix := s[..n];
      forall i | 0 <= i < n && Counts(prefix[i], cw, qo, coef)
        ensures k <= cw[prefix[i].choiceId]
      {
        assert prefix[i] == s[i];
      }
      WeightedTotalLowerBound(prefix, cw, qo, coef, k);
      var last := s[n];
      AnswerLowerBound(last, cw, qo, coef, k);
      LinearStep(k, CoefficientSum(prefix, cw, qo, coef), Applied(last, cw, qo, coef));
    }
  }

  /** sum(weight * coef) <= k * sum(coef) when every counted weight is at most k. */
  lemma {:induction false} WeightedTotalUpperBound(s: seq<Answer>, cw: ChoiceWeights, qo: QuestionOrders, coef: Coefficients, k: real)
    requires forall i :: 0 <= i < |s| && Counts(s[i], cw, qo, coef) ==> cw[s[i].choiceId] <= k
    ensures WeightedTotal(s, cw, qo, coef) <= k * CoefficientSum(s, cw, qo, coef)
    decreases |s|
  {
    if s != [] {
      var n := |s| - 1;
      var prefix := s[..n];
      forall i | 0 <= i < n && Counts(prefix[i], cw, qo, coef)
        ensures cw[prefix[i].choiceId] <= k
      {
        assert prefix[i] == s[i];
      }
      WeightedTotalUpperBound(prefix, cw, qo, coef, k);
      var last := s[n];
      AnswerUpperBound(last, cw, qo, coef, k);
      LinearStep(k, CoefficientSum(prefix, cw, qo, coef), Applied(last, cw, qo, coef));
    }
  }

  /**
   * A participant's temperature lies between the smallest and the largest choice weight of
   * its counted answers.
   */
  lemma TemperatureBetweenWeights(s: seq<Answer>, cw: ChoiceWeights, qo: QuestionOrders, coef: Coefficients, lo: real, hi: real)
    requires exists i :: 0 <= i < |s| && Counts(s[i], cw, qo, coef)
    requires forall i :: 0 <= i < |s| && Counts(s[i], cw, qo, coef) ==> lo <= cw[s[i].choiceId] <= hi
    ensures lo <= ParticipantTemperature(s, cw, qo, coef) <= hi
  {
    CoefficientSumSign(s, cw, qo, coef);
    WeightedTotalLowerBound(s, cw, qo, coef, lo);
    WeightedTotalUpperBound(s, cw, qo, coef, hi);
    QuotientBounds(lo, hi, WeightedTotal(s, cw, qo, coef), CoefficientSum(s, cw, qo, coef));
  }

  /** With every choice weight in [0, 1], every participant temperature is in [0, 1]. */
  lemma TemperatureInUnitInterval(s: seq<Answer>, cw: ChoiceWeights, qo: QuestionOrders, coef: Coefficients)
    requires forall c :: c in cw ==> 0.0 <= cw[c] <= 1.0
    ensures 0.0 <= ParticipantTemperature(s, cw, qo, coef) <= 1.0
  {
    CoefficientSumSign(s, cw, qo, coef);
    if exists i :: 0 <= i < |s| && Counts(s[i], cw, qo, coef) {
      TemperatureBetweenWeights(s, cw, qo, coef, 0.0, 1.0);
    }
  }

  lemma {:induction false} SumsAppend(xs: seq<Answer>, ys: seq<Answer>, cw: ChoiceWeights, qo: QuestionOrders, coef: Coefficients)
    ensures WeightedTotal(xs + ys, cw, qo, coef) == WeightedTotal(xs, cw, qo, coef) + WeightedTotal(ys, cw, qo, coef)
    ensures CoefficientSum(xs + ys, cw, qo, coef) == CoefficientSum(xs, cw, qo, coef) + CoefficientSum(ys, cw, qo, coef)
    decreases |ys|
  {
    if ys == [] {
      assert xs + ys == xs;
    } else {
      var n := |ys| - 1;
      assert (xs + ys)[..|xs + ys| - 1] == xs + ys[..n];
      assert (xs + ys)[|xs + ys| - 1] == ys[n];
      SumsAppend(xs, ys[..n], cw, qo, coef);
    }
  }

  /**
   * An answer that does not count (unknown choice or question, or an order without a
   * positive coefficient) changes neither sum, wherever it stands in the list.
   */
  lemma UncountedAnswerIgnored(xs: seq<Answer>, a: Answer, ys: seq<Answer>, cw: ChoiceWeights, qo: QuestionOrders, coef: Coefficients)
    requires !Counts(a, cw, qo, coef)
    ensures WeightedTotal(xs + [a] + ys, cw, qo, coef) == WeightedTotal(xs + ys, cw, qo, coef)
    ensures CoefficientSum(xs + [a] + ys, cw, qo, coef) == CoefficientSum(xs + ys, cw, qo, coef)
    ensures ParticipantTemperature(xs + [a] + ys, cw, qo, coef) == ParticipantTemperature(xs + ys, cw, qo, coef)
  {
    SumsAppend(xs + [a], ys, cw, qo, coef);
    SumsAppend(xs, [a], cw, qo, coef);
    SumsAppend(xs, ys, cw, qo, coef);
    assert [a][..0] == [];
  }

  /** The temperature reads only the question and choice of each answer, not who gave it. */
  lemma {:induction false} SameChoicesSameTemperature(s: seq<Answer>, u: seq<Answer>, cw: ChoiceWeights, qo: QuestionOrders, coef: Coefficients)
    requires |s| == |u|
    requires forall i :: 0 <= i < |s| ==> s[i].questionId == u[i].questionId && s[i].choiceId == u[i].choiceId
    ensures WeightedTotal(s, cw, qo, coef) == WeightedTotal(u, cw, qo, coef)
    ensures CoefficientSum(s, cw, qo, coef) == CoefficientSum(u, cw, qo, coef)
    ensures ParticipantTemperature(s, cw, qo, coef) == ParticipantTemperature(u, cw, qo, coef)
    decreases |s|
  {
    if s != [] {
      var n := |s| - 1;
      SameChoicesSameTemperature(s[..n], u[..n], cw, qo, coef);
    }
  }

  // ---------------------------------------------------------------------------------------
  // Grouping per participant and combination

  /** The distinct participant ids of the answers, in order of first appearance. */
  function ParticipantIds(s: seq<Answer>): (r: seq<int>)
    ensures forall p :: p in r <==> exists i :: 0 <= i < |s| && s[i].participantId == p
    ensures forall i, j :: 0 <= i < j < |r| ==> r[i] != r[j]
    decreases |s|
  {
    if s == [] then []
    else
      var n := |s| - 1;
      var r := ParticipantIds(s[..n]);
      assert forall p :: p in r <==> exists i :: 0 <= i < n && s[i].participantId == p by {
        forall p ensures p in r <==> exists i :: 0 <= i < n && s[i].participantId == p {
          if p in r {
            var i :| 0 <= i < n && s[..n][i].participantId == p;
            assert s[i] == s[..n][i];
          }
          if exists i :: 0 <= i < n && s[i].participantId == p {
            var i :| 0 <= i < n && s[i].participantId == p;
            assert s[..n][i] == s[i];
          }
        }
      }
      if s[n].participantId in r then r else r + [s[n].participantId]
  }

  /** The set of participants that answered. */
  function Participants(s: seq<Answer>): set<int>
  {
    set a | a in s :: a.participantId
  }

  /** One temperature per participant, in grouping order. */
  function Temperatures(s: seq<Answer>, ids: seq<int>, cw: ChoiceWeights, qo: QuestionOrders, coef: Coefficients): (r: seq<real>)
    ensures |r| == |ids|
    ensures forall i :: 0 <= i < |ids| ==> r[i] == ParticipantTemperature(AnswersOf(s, ids[i]), cw, qo, coef)
  {
    seq(|ids|, i requires 0 <= i < |ids| => ParticipantTemperature(AnswersOf(s, ids[i]), cw, qo, coef))
  }

  /** The case split on the number of participant temperatures. */
  function Combine(ts: seq<real>): (r: TemperatureResult)
    ensures r.temperatureDiff >= 0.0
    ensures |ts| != 2 ==> r.temperatureDiff == 0.0
    ensures |ts| == 1 ==> r.averageTemperature == ts[0]
    ensures |ts| == 0 || |ts| > 2 ==> r.averageTemperature == 0.0
    ensures |ts| == 2 ==>
              multiset{r.averageTemperature - r.temperatureDiff / 2.0, r.averageTemperature + r.temperatureDiff / 2.0}
              == multiset{ts[0], ts[1]}
  {
    if |ts| == 2 then TemperatureResult((ts[0] + ts[1]) / 2.0, Abs(ts[0] - ts[1]))
    else if |ts| == 1 then TemperatureResult(ts[0], 0.0)
    else TemperatureResult(0.0, 0.0)
  }

  /** calculate: group per participant, score each group, combine. */
  function Calculate(s: seq<Answer>, cw: ChoiceWeights, qo: QuestionOrders, coef: Coefficients): (r: TemperatureResult)
    ensures r.temperatureDiff >= 0.0
    ensures |Participants(s)| != 2 ==> r.temperatureDiff == 0.0
    ensures |Participants(s)| == 0 || |Participants(s)| > 2 ==> r == TemperatureResult(0.0, 0.0)
  {
    ParticipantIdsCount(s);
    Combine(Temperatures(s, ParticipantIds(s), cw, qo, coef))
  }

  /**
   * The grouping map of the source hands the temperatures over in an unspecified order;
   * the combined result is the same for every order.
   */
  lemma CombineOrderFree(ts: seq<real>, us: seq<real>)
    requires multiset(ts) == multiset(us)
    ensures Combine(ts) == Combine(us)
  {
    assert |ts| == |multiset(ts)| == |multiset(us)| == |us|;
    if |ts| == 1 {
      assert ts[0] in multiset(us);
    } else if |ts| == 2 {
      assert ts == [ts[0]] + [ts[1]];
      assert us == [us[0]] + [us[1]];
      assert ts[0] in multiset(us);
      if ts[0] == us[0] {
        assert multiset([ts[1]]) == multiset(ts) - multiset{ts[0]} == multiset(us) - multiset{us[0]} == multiset([us[1]]);
        assert ts[1] in multiset([us[1]]);
      } else {
        assert ts[0] == us[1];
        assert multiset([ts[1]]) == multiset(ts) - multiset{ts[0]} == multiset(us) - multiset{us[1]} == multiset([us[0]]);
        assert ts[1] in multiset([us[0]]);
        assert Abs(ts[0] - ts[1]) == Abs(us[0] - us[1]);
      }
    }
  }

  lemma {:induction false} DistinctCount(r: seq<int>)
    requires forall i, j :: 0 <= i < j < |r| ==> r[i] != r[j]
    ensures |set x | x in r| == |r|
    decreases |r|
  {
    if r != [] {
      var n := |r| - 1;
      DistinctCount(r[..n]);
      assert (set x | x in r) == (set x | x in r[..n]) + {r[n]};
      assert r[n] !in (set x | x in r[..n]);
    }
  }

  /** The grouping yields exactly one temperature per distinct participant. */
  lemma ParticipantIdsCount(s: seq<Answer>)
    ensures (set p | p in ParticipantIds(s)) == Participants(s)
    ensures |ParticipantIds(s)| == |Participants(s)|
  {
    var r := ParticipantIds(s);
    forall p ensures p in r <==> p in Participants(s) {
      if p in r {
        var i :| 0 <= i < |s| && s[i].participantId == p;
        assert s[i] in s;
      }
      if p in Participants(s) {
        var a :| a in s && a.participantId == p;
        var i :| 0 <= i < |s| && s[i] == a;
      }
    }
    DistinctCount(r);
  }

  /**
   * calculate by the number of participants: none or three and more give (0, 0); one gives
   * (its temperature, 0); two give their mean and absolute difference, in either order.
   */
  lemma CalculateByParticipantCount(s: seq<Answer>, cw: ChoiceWeights, qo: QuestionOrders, coef: Coefficients)
    ensures |Participants(s)| != 1 && |Participants(s)| != 2 ==> Calculate(s, cw, qo, coef) == TemperatureResult(0.0, 0.0)
    ensures |Participants(s)| == 1 ==>
      Calculate(s, cw, qo, coef) == TemperatureResult(ParticipantTemperature(s, cw, qo, coef), 0.0)
    ensures |Participants(s)| == 2 ==> TwoParticipantResult(s, cw, qo, coef)
  {
    ParticipantIdsCount(s);
    var ids := ParticipantIds(s);
    var t := Temperatures(s, ids, cw, qo, coef);
    assert Calculate(s, cw, qo, coef) == Combine(t);
    if |ids| == 1 {
      SingleParticipant(s, ids[0]);
      assert t[0] == ParticipantTemperature(s, cw, qo, coef);
    } else if |ids| == 2 {
      TwoIds(s, ids);
      assert TwoParticipantWitness(s, cw, qo, coef, ids[0], ids[1]);
    }
  }

  lemma TwoIds(s: seq<Answer>, ids: seq<int>)
    requires ids == ParticipantIds(s) && |ids| == 2
    ensures ids[0] != ids[1] && Participants(s) == {ids[0], ids[1]}
  {
    ParticipantIdsCount(s);
    assert ids[0] in ids && ids[1] in ids;
    assert (set p | p in ids) == {ids[0], ids[1]};
  }

  /** The result for two participants p1 and p2, whichever comes first. */
  predicate TwoParticipantWitness(s: seq<Answer>, cw: ChoiceWeights, qo: QuestionOrders, coef: Coefficients, p1: int, p2: int)
  {
    var t1 := ParticipantTemperature(AnswersOf(s, p1), cw, qo, coef);
    var t2 := ParticipantTemperature(AnswersOf(s, p2), cw, qo, coef);
    p1 != p2 && Participants(s) == {p1, p2} &&
    Calculate(s, cw, qo, coef) == TemperatureResult((t1 + t2) / 2.0, Abs(t1 - t2))
  }

  ghost predicate TwoParticipantResult(s: seq<Answer>, cw: ChoiceWeights, qo: QuestionOrders, coef: Coefficients)
  {
    exists p1, p2 :: TwoParticipantWitness(s, cw, qo, coef, p1, p2)
  }

  lemma SingleParticipant(s: seq<Answer>, p: int)
    requires ParticipantIds(s) == [p]
    ensures AnswersOf(s, p) == s
  {
    assert p in ParticipantIds(s);
    forall i | 0 <= i < |s| ensures s[i].participantId == p {
      assert s[i].participantId in ParticipantIds(s);
    }
    AnswersOfAllOf(s, p);
  }

  lemma ParticipantsOfTwo(xs: seq<Answer>, ys: seq<Answer>, p1: int, p2: int)
    requires xs != [] && ys != [] && AllOf(xs, p1) && AllOf(ys, p2)
    ensures Participants(xs + ys) == {p1, p2}
  {
    var s := xs + ys;
    assert s[0] == xs[0] && s[|xs|] == ys[0];
    assert s[0] in s && s[|xs|] in s;
    forall a | a in s ensures a.participantId == p1 || a.participantId == p2 {
      var i :| 0 <= i < |s| && s[i] == a;
      if i < |xs| { assert s[i] == xs[i]; } else { assert s[i] == ys[i - |xs|]; }
    }
  }

  lemma GroupsOfTwo(xs: seq<Answer>, ys: seq<Answer>, p1: int, p2: int)
    requires p1 != p2 && AllOf(xs, p1) && AllOf(ys, p2)
    ensures AnswersOf(xs + ys, p1) == xs && AnswersOf(xs + ys, p2) == ys
  {
    AnswersOfAppend(xs, ys, p1);
    AnswersOfAppend(xs, ys, p2);
    AnswersOfAllOf(xs, p1);
    AnswersOfAllOf(ys, p2);
  }

  /** Two participants who picked the same choices for the same questions differ by 0. */
  lemma IdenticalAnswersZeroDiff(xs: seq<Answer>, ys: seq<Answer>, p1: int, p2: int, cw: ChoiceWeights, qo: QuestionOrders, coef: Coefficients)
    requires p1 != p2 && xs != [] && |xs| == |ys|
    requires AllOf(xs, p1) && AllOf(ys, p2)
    requires forall i :: 0 <= i < |xs| ==> xs[i].questionId == ys[i].questionId && xs[i].choiceId == ys[i].choiceId
    ensures Calculate(xs + ys, cw, qo, coef).temperatureDiff == 0.0
    ensures Calculate(xs + ys, cw, qo, coef).averageTemperature == ParticipantTemperature(xs, cw, qo, coef)
  {
    var s := xs + ys;
    SameChoicesSameTemperature(xs, ys, cw, qo, coef);
    GroupsOfTwo(xs, ys, p1, p2);
    ParticipantsOfTwo(xs, ys, p1, p2);
    TemperatureOfTwoGroups(s, p1, p2, ParticipantTemperature(xs, cw, qo, coef), cw, qo, coef);
  }

  /** With exactly the participants p1 and p2, the grouping lists them in one order or the other. */
  lemma IdsOfTwo(s: seq<Answer>, p1: int, p2: int)
    requires p1 != p2 && Participants(s) == {p1, p2}
    ensures ParticipantIds(s) == [p1, p2] || ParticipantIds(s) == [p2, p1]
  {
    ParticipantIdsCount(s);
    var ids := ParticipantIds(s);
    assert |ids| == 2;
    assert ids[0] in ids && ids[1] in ids;
    assert ids[0] in {p1, p2} && ids[1] in {p1, p2};
  }

  /** When both participants' groups score t, the result is (t, 0). */
  lemma TemperatureOfTwoGroups(s: seq<Answer>, p1: int, p2: int, t: real, cw: ChoiceWeights, qo: QuestionOrders, coef: Coefficients)
    requires p1 != p2 && Participants(s) == {p1, p2}
    requires ParticipantTemperature(AnswersOf(s, p1), cw, qo, coef) == t
    requires ParticipantTemperature(AnswersOf(s, p2), cw, qo, coef) == t
    ensures Calculate(s, cw, qo, coef) == TemperatureResult(t, 0.0)
  {
    IdsOfTwo(s, p1, p2);
    var ts := Temperatures(s, ParticipantIds(s), cw, qo, coef);
    assert ts == [t, t];
  }

  /**
   * The end-to-end example: one participant picks weight 0.5 and the other 0.7 on the single
   * weighted question (order 3, coefficient 3.0); the record gets 0.6 and 0.2.
   */
  lemma TwoParticipantExample()
    ensures Calculate([Answer(1, 30, 300), Answer(2, 30, 301)], map[300 := 0.5, 301 := 0.7], map[30 := 3], map[3 := 3.0])
         == TemperatureResult(0.6, 0.2)
  {
    var s := [Answer(1, 30, 300), Answer(2, 30, 301)];
    var cw, qo, coef := map[300 := 0.5, 301 := 0.7], map[30 := 3], map[3 := 3.0];
    assert s[..1] == [Answer(1, 30, 300)];
    assert ParticipantIds(s) == [1, 2];
    assert AnswersOf(s, 1) == [Answer(1, 30, 300)] by { AnswersOfAppend([s[0]], [s[1]], 1); }
    assert AnswersOf(s, 2) == [Answer(2, 30, 301)] by { AnswersOfAppend([s[0]], [s[1]], 2); }
    assert ParticipantTemperature([Answer(1, 30, 300)], cw, qo, coef) == 0.5;
    assert ParticipantTemperature([Answer(2, 30, 301)], cw, qo, coef) == 0.7;
  }
}
