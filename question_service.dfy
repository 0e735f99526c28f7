/**
 * The question catalogue: questions with their owned, ordered choice lists. Creation and
 * order changes are checked against the active questions holding an order; an update
 * replaces the whole choice list when one is given and always bumps the version; deletion
 * only deactivates.
 */
module QuestionService {
  import opened Wrappers
  import opened Errors
  import opened Entities
  import opened Database

  /** One choice as submitted for a new or replaced choice list. */
  datatype ChoiceInput = ChoiceInput(choiceText: string, choiceValue: string, order: int, temperatureWeight: real)

  datatype CreateQuestionDto = CreateQuestionDto(
    questionText: string,
    questionType: string,
    category: Category,
    order: int,
    choices: seq<ChoiceInput>)

  /** A partial update: None leaves the field as it is; Some(choices) replaces the list. */
  datatype UpdateQuestionDto = UpdateQuestionDto(
    questionText: Option<string>,
    questionType: Option<string>,
    category: Option<Category>,
    order: Option<int>,
    isActive: Option<bool>,
    choices: Option<seq<ChoiceInput>>)

  datatype ChoiceDto = ChoiceDto(id: int, choiceText: string, choiceValue: string, order: int, temperatureWeight: real)

  datatype QuestionDto = QuestionDto(
    id: int,
    questionText: string,
    questionType: string,
    questionCategory: string,
    order: int,
    isActive: bool,
    version: int,
    choices: seq<ChoiceDto>)

  // ---------------------------------------------------------------------------------------
  // Catalogue queries and rules

  /** existsByOrderAndIsActiveTrue. */
  predicate ActiveOrderTaken(qs: map<int, Question>, order: int)
  {
    exists k :: k in qs && qs[k].isActive && qs[k].order == order
  }

  /** The catalogue rule the order checks aim at: no two active questions share an order. */
  predicate OneActivePerOrder(qs: map<int, Question>)
  {
    forall a, b :: a in qs && b in qs && qs[a].isActive && qs[b].isActive && qs[a].order == qs[b].order ==> a == b
  }

  /** The choice rows a question's choice list names, in list order. */
  function ChoiceList(ids: seq<int>, cs: map<int, Choice>): (l: seq<Choice>)
    requires forall i :: 0 <= i < |ids| ==> ids[i] in cs
    ensures |l| == |ids|
    ensures forall i :: 0 <= i < |ids| ==> l[i] == cs[ids[i]]
  {
    seq(|ids|, i requires 0 <= i < |ids| => cs[ids[i]])
  }

  /** The choice entity built from an input for question qid. */
  function ChoiceOf(qid: int, c: ChoiceInput): Choice
  {
    Choice(qid, c.choiceText, c.choiceValue, c.order, c.temperatureWeight)
  }

  /** The choices a list of inputs stands for, in input order. */
  function ChoicesFrom(qid: int, inputs: seq<ChoiceInput>): (l: seq<Choice>)
    ensures |l| == |inputs|
    ensures forall i :: 0 <= i < |inputs| ==> l[i] == ChoiceOf(qid, inputs[i])
  {
    seq(|inputs|, i requires 0 <= i < |inputs| => ChoiceOf(qid, inputs[i]))
  }

  /** The ids the saves hand out to n new rows: consecutive from the counter, in list order. */
  function FreshIds(next: int, n: nat): (ids: seq<int>)
    ensures |ids| == n
    ensures forall i :: 0 <= i < n ==> ids[i] == next + i
  {
    seq(n, i requires 0 <= i < n => next + i)
  }

  /** The saved choice rows of question qid, keyed by the ids handed out from next. */
  function NewChoices(qid: int, inputs: seq<ChoiceInput>, next: int): (cs: map<int, Choice>)
    ensures forall k :: k in cs <==> next <= k < next + |inputs|
    ensures forall i :: 0 <= i < |inputs| ==> next + i in cs && cs[next + i] == ChoiceOf(qid, inputs[i])
    decreases |inputs|
  {
    if inputs == [] then map[]
    else
      var n := |inputs| - 1;
      NewChoices(qid, inputs[..n], next)[next + n := ChoiceOf(qid, inputs[n])]
  }

  /** The new choice list lists exactly the new rows, in input order. */
  lemma NewChoicesListed(qid: int, inputs: seq<ChoiceInput>, next: int, cs: map<int, Choice>)
    ensures forall i :: 0 <= i < |inputs| ==> FreshIds(next, |inputs|)[i] in cs + NewChoices(qid, inputs, next)
    ensures ChoiceList(FreshIds(next, |inputs|), cs + NewChoices(qid, inputs, next)) == ChoicesFrom(qid, inputs)
  {
    var all, ids := cs + NewChoices(qid, inputs, next), FreshIds(next, |inputs|);
    forall i | 0 <= i < |inputs|
      ensures ids[i] in all && ChoiceList(ids, all)[i] == ChoicesFrom(qid, inputs)[i]
    {
      assert all[next + i] == ChoiceOf(qid, inputs[i]);
    }
  }

  /** The answer rows left once the rows of the removed choices are deleted, in table order. */
  function WithoutChoices(answers: seq<Answer>, removed: set<int>): (r: seq<Answer>)
    ensures |r| <= |answers|
    ensures forall a :: a in r <==> a in answers && a.choiceId !in removed
    decreases |answers|
  {
    if answers == [] then []
    else
      var n := |answers| - 1;
      var rest := WithoutChoices(answers[..n], removed);
      assert answers == answers[..n] + [answers[n]];
      if answers[n].choiceId in removed then rest else rest + [answers[n]]
  }

  /** Whether updateQuestion's order check rejects the update. */
  predicate OrderConflict(qs: map<int, Question>, q: Question, dto: UpdateQuestionDto)
  {
    dto.order.Some? && dto.order.value != q.order && ActiveOrderTaken(qs, dto.order.value)
  }

  /** The question after an update that passed the order check, given the new choice list. */
  function Apply(q: Question, dto: UpdateQuestionDto, newChoiceIds: seq<int>): (r: Question)
    ensures r.version == q.version + 1
    ensures dto.questionText.None? ==> r.questionText == q.questionText
    ensures dto.questionType.None? ==> r.questionType == q.questionType
    ensures dto.category.None? ==> r.category == q.category
    ensures dto.order.None? ==> r.order == q.order
    ensures dto.isActive.None? ==> r.isActive == q.isActive
    ensures dto.choices.None? ==> r.choiceIds == q.choiceIds
  {
    Question(
      if dto.questionText.Some? then dto.questionText.value else q.questionText,
      if dto.questionType.Some? then dto.questionType.value else q.questionType,
      if dto.category.Some? then dto.category else q.category,
      if dto.order.Some? then dto.order.value else q.order,
      if dto.isActive.Some? then dto.isActive.value else q.isActive,
      q.version + 1,
      if dto.choices.Some? then newChoiceIds else q.choiceIds)
  }

  /** An update that sets nothing still counts as a change: only the version moves. */
  lemma EmptyUpdateBumpsVersion(q: Question, ids: seq<int>)
    ensures Apply(q, UpdateQuestionDto(None, None, None, None, None, None), ids) == q.(version := q.version + 1)
  {
  }

  /** A given field is taken over as given. */
  lemma ApplySetsGivenFields(q: Question, dto: UpdateQuestionDto, ids: seq<int>)
    ensures dto.questionText.Some? ==> Apply(q, dto, ids).questionText == dto.questionText.value
    ensures dto.questionType.Some? ==> Apply(q, dto, ids).questionType == dto.questionType.value
    ensures dto.category.Some? ==> Apply(q, dto, ids).category == dto.category
    ensures dto.order.Some? ==> Apply(q, dto, ids).order == dto.order.value
    ensures dto.isActive.Some? ==> Apply(q, dto, ids).isActive == dto.isActive.value
    ensures dto.choices.Some? ==> Apply(q, dto, ids).choiceIds == ids
  {
  }

  // ---------------------------------------------------------------------------------------
  // The DTO projection

  function ToChoiceDto(id: int, c: Choice): ChoiceDto
  {
    ChoiceDto(id, c.choiceText, c.choiceValue, c.order, c.temperatureWeight)
  }

  /**
   * toDto: the question's fields, its category's name (INITIAL_MATCHING when the column is
   * empty) and its choices in list order.
   */
  function ToDto(id: int, q: Question, cs: map<int, Choice>): (dto: QuestionDto)
    requires forall i :: 0 <= i < |q.choiceIds| ==> q.choiceIds[i] in cs
    ensures q.category.None? ==> dto.questionCategory == CategoryName(InitialMatching)
    ensures q.category.Some? ==> dto.questionCategory == CategoryName(q.category.value)
    ensures |dto.choices| == |q.choiceIds|
    ensures forall i :: 0 <= i < |q.choiceIds| ==>
      dto.choices[i].id == q.choiceIds[i] && dto.choices[i] == ToChoiceDto(q.choiceIds[i], ChoiceList(q.choiceIds, cs)[i])
  {
    QuestionDto(
      id, q.questionText, q.questionType,
      CategoryName(if q.category.Some? then q.category.value else InitialMatching),
      q.order, q.isActive, q.version,
      seq(|q.choiceIds|, i requires 0 <= i < |q.choiceIds| => ToChoiceDto(q.choiceIds[i], cs[q.choiceIds[i]])))
  }

  /** The category a DTO shows names the stored category, and no two categories share a name. */
  lemma CategoryNameInjective(a: Category, b: Category)
    ensures CategoryName(a) == CategoryName(b) <==> a == b
  {
  }

  // ---------------------------------------------------------------------------------------
  // The order rule under each operation

  /** Creating a question at an order no active question holds keeps one active per order. */
  lemma CreateKeepsOneActivePerOrder(qs: map<int, Question>, qid: int, q: Question)
    requires OneActivePerOrder(qs) && qid !in qs && !ActiveOrderTaken(qs, q.order)
    ensures OneActivePerOrder(qs[qid := q])
  {
  }

  /**
   * An update keeps one active question per order unless it reactivates an inactive question
   * at an unchanged order: that is the one path the order check does not look at.
   */
  lemma {:induction false} UpdateKeepsOneActivePerOrder(qs: map<int, Question>, id: int, dto: UpdateQuestionDto, ids: seq<int>)
    requires OneActivePerOrder(qs) && id in qs && !OrderConflict(qs, qs[id], dto)
    requires !(!qs[id].isActive && dto.isActive == Some(true) && (dto.order.None? || dto.order.value == qs[id].order))
    ensures OneActivePerOrder(qs[id := Apply(qs[id], dto, ids)])
  {
    var q := qs[id];
    var q' := Apply(q, dto, ids);
    var qs' := qs[id := q'];
    forall a, b | a in qs' && b in qs' && qs'[a].isActive && qs'[b].isActive && qs'[a].order == qs'[b].order
      ensures a == b
    {
      if a == id && b != id {
        OnlyClash(qs, id, dto, ids, b);
      } else if b == id && a != id {
        OnlyClash(qs, id, dto, ids, a);
      }
    }
  }

  /** Another active question never shares the updated question's order when it ends up active. */
  lemma OnlyClash(qs: map<int, Question>, id: int, dto: UpdateQuestionDto, ids: seq<int>, other: int)
    requires OneActivePerOrder(qs) && id in qs && !OrderConflict(qs, qs[id], dto)
    requires !(!qs[id].isActive && dto.isActive == Some(true) && (dto.order.None? || dto.order.value == qs[id].order))
    requires other in qs && other != id && qs[other].isActive && Apply(qs[id], dto, ids).isActive
    ensures qs[other].order != Apply(qs[id], dto, ids).order
  {
    var q := qs[id];
    if !(dto.order.Some? && dto.order.value != q.order) {
      assert q.isActive;
    }
  }

  /**
   * Reactivating an inactive question whose order an active question holds passes the order
   * check and leaves two active questions at that order.
   */
  lemma ReactivationSkipsOrderCheck(qs: map<int, Question>, id: int, other: int, dto: UpdateQuestionDto, ids: seq<int>)
    requires id in qs && other in qs && other != id
    requires !qs[id].isActive && qs[other].isActive && qs[other].order == qs[id].order
    requires dto.isActive == Some(true) && dto.order.None?
    ensures !OrderConflict(qs, qs[id], dto)
    ensures !OneActivePerOrder(qs[id := Apply(qs[id], dto, ids)])
  {
    var qs' := qs[id := Apply(qs[id], dto, ids)];
    assert qs'[id].isActive && qs'[other].isActive && qs'[id].order == qs'[other].order;
  }

  // ---------------------------------------------------------------------------------------
  // The table constraints under each operation

  /** Strictly growing question and choice tables keep every answer's references. */
  lemma ReferencesSurviveGrowth(answers: seq<Answer>, ps: map<int, Participant>,
                                qs: map<int, Question>, cs: map<int, Choice>,
                                qs': map<int, Question>, cs': map<int, Choice>)
    requires AnswersReferTo(answers, ps, qs, cs)
    requires qs.Keys <= qs'.Keys && cs.Keys <= cs'.Keys
    ensures AnswersReferTo(answers, ps, qs', cs')
  {
  }

  /** A new question with newly saved choice rows keeps the ownership of every choice. */
  lemma CreatedKeepsOwnership(qs: map<int, Question>, cs: map<int, Choice>, nq: int, nc: int,
                              q: Question, inputs: seq<ChoiceInput>)
    requires ChoicesOwned(qs, cs) && KeysBelow(qs, nq) && KeysBelow(cs, nc)
    requires q.choiceIds == FreshIds(nc, |inputs|)
    ensures ChoicesOwned(qs[nq := q], cs + NewChoices(nq, inputs, nc))
  {
    var qs', added := qs[nq := q], NewChoices(nq, inputs, nc);
    var cs' := cs + added;
    forall c | c in cs'
      ensures cs'[c].questionId in qs' && c in qs'[cs'[c].questionId].choiceIds
    {
      if c in added {
        assert added[nc + (c - nc)] == ChoiceOf(nq, inputs[c - nc]);
        assert q.choiceIds[c - nc] == c;
      } else {
        assert cs[c].questionId != nq;
      }
    }
    forall p, i | p in qs' && 0 <= i < |qs'[p].choiceIds|
      ensures qs'[p].choiceIds[i] in cs' && cs'[qs'[p].choiceIds[i]].questionId == p
    {
      if p != nq {
        assert qs[p].choiceIds[i] !in added;
      }
    }
  }

  /** Replacing a question's choice list with newly saved rows keeps the ownership of every choice. */
  lemma ReplacedKeepsOwnership(qs: map<int, Question>, cs: map<int, Choice>, nc: int,
                               id: int, q': Question, inputs: seq<ChoiceInput>)
    requires ChoicesOwned(qs, cs) && KeysBelow(cs, nc) && id in qs
    requires q'.choiceIds == FreshIds(nc, |inputs|)
    ensures ChoicesOwned(qs[id := q'], (cs - Owned(qs[id])) + NewChoices(id, inputs, nc))
  {
    var removed, added := Owned(qs[id]), NewChoices(id, inputs, nc);
    var qs', cs' := qs[id := q'], (cs - removed) + added;
    forall c | c in cs'
      ensures cs'[c].questionId in qs' && c in qs'[cs'[c].questionId].choiceIds
    {
      if c in added {
        assert added[nc + (c - nc)] == ChoiceOf(id, inputs[c - nc]);
        assert q'.choiceIds[c - nc] == c;
      } else {
        assert c !in removed;
      }
    }
    forall p, i | p in qs' && 0 <= i < |qs'[p].choiceIds|
      ensures qs'[p].choiceIds[i] in cs' && cs'[qs'[p].choiceIds[i]].questionId == p
    {
      if p != id {
        var c := qs[p].choiceIds[i];
        assert c !in added;
      }
    }
  }

  /** The ids of a question's choice list, as a set. */
  function Owned(q: Question): (s: set<int>)
    ensures forall c :: c in s <==> c in q.choiceIds
  {
    set c | c in q.choiceIds
  }

  /** Deleting the removed choices' answers keeps the remaining answers' references. */
  lemma CascadeKeepsReferences(answers: seq<Answer>, ps: map<int, Participant>,
                               qs: map<int, Question>, cs: map<int, Choice>,
                               qs': map<int, Question>, cs': map<int, Choice>, removed: set<int>)
    requires AnswersReferTo(answers, ps, qs, cs)
    requires qs.Keys <= qs'.Keys && cs.Keys - removed <= cs'.Keys
    ensures AnswersReferTo(WithoutChoices(answers, removed), ps, qs', cs')
  {
    var kept := WithoutChoices(answers, removed);
    forall i | 0 <= i < |kept|
      ensures kept[i].participantId in ps && kept[i].questionId in qs' && kept[i].choiceId in cs'
    {
      assert kept[i] in answers;
    }
  }

  /** The store right after a created question and its choices were saved. */
  lemma CreatedStore(db: Db, qs: map<int, Question>, cs: map<int, Choice>, nq: int, nc: int,
                     q: Question, inputs: seq<ChoiceInput>)
    requires TablesValid(db.matchings, db.participants, db.answers, qs, cs, db.records, db.users,
                         db.nextMatchingId, db.nextParticipantId, nq, nc, db.nextUserId)
    requires q.choiceIds == FreshIds(nc, |inputs|)
    requires db.questions == qs[nq := q] && db.choices == cs + NewChoices(nq, inputs, nc)
    requires db.nextQuestionId == nq + 1 && db.nextChoiceId == nc + |inputs|
    ensures db.Valid()
  {
    CreatedKeepsOwnership(qs, cs, nq, nc, q, inputs);
    ReferencesSurviveGrowth(db.answers, db.participants, qs, cs, db.questions, db.choices);
  }

  /** The store right after an update that kept the choice list. */
  lemma UpdatedStore(db: Db, qs: map<int, Question>, id: int)
    requires TablesValid(db.matchings, db.participants, db.answers, qs, db.choices, db.records, db.users,
                         db.nextMatchingId, db.nextParticipantId, db.nextQuestionId, db.nextChoiceId, db.nextUserId)
    requires id in qs && id in db.questions && db.questions == qs[id := db.questions[id]]
    requires db.questions[id].choiceIds == qs[id].choiceIds
    ensures db.Valid()
  {
    ReferencesSurviveGrowth(db.answers, db.participants, qs, db.choices, db.questions, db.choices);
  }

  /** The store right after an update that replaced the choice list with added rows. */
  lemma ReplacedStore(db: Db, answers: seq<Answer>, qs: map<int, Question>, cs: map<int, Choice>, nc: int,
                      id: int, inputs: seq<ChoiceInput>)
    requires TablesValid(db.matchings, db.participants, answers, qs, cs, db.records, db.users,
                         db.nextMatchingId, db.nextParticipantId, db.nextQuestionId, nc, db.nextUserId)
    requires id in qs && id in db.questions && db.questions == qs[id := db.questions[id]]
    requires db.questions[id].choiceIds == FreshIds(nc, |inputs|)
    requires db.choices == (cs - Owned(qs[id])) + NewChoices(id, inputs, nc)
    requires db.answers == WithoutChoices(answers, Owned(qs[id]))
    requires db.nextChoiceId == nc + |inputs|
    ensures db.Valid()
    ensures ChoiceList(db.questions[id].choiceIds, db.choices) == ChoicesFrom(id, inputs)
  {
    NewChoicesListed(id, inputs, nc, cs - Owned(qs[id]));
    ReplacedKeepsOwnership(qs, cs, nc, id, db.questions[id], inputs);
    CascadeKeepsReferences(answers, db.participants, qs, cs, db.questions, db.choices, Owned(qs[id]));
  }

  // ---------------------------------------------------------------------------------------
  // The service

  /**
   * createQuestion: rejected when an active question holds the order; otherwise saves an
   * active version-1 question and one choice row per input, in input order.
   */
  method CreateQuestion(db: Db, dto: CreateQuestionDto) returns (r: Result<QuestionDto, Error>)
    requires db.Valid()
    modifies db
    ensures db.Valid()
    ensures old(ActiveOrderTaken(db.questions, dto.order)) ==> r == Failure(BusinessRule(OrderTaken)) && unchanged(db)
    ensures !old(ActiveOrderTaken(db.questions, dto.order)) ==>
      var qid, nc := old(db.nextQuestionId), old(db.nextChoiceId);
      qid !in old(db.questions) &&
      db.questions == old(db.questions)[qid := Question(dto.questionText, dto.questionType, Some(dto.category),
                                                        dto.order, true, 1, FreshIds(nc, |dto.choices|))] &&
      db.choices == old(db.choices) + NewChoices(qid, dto.choices, nc) &&
      ChoiceList(db.questions[qid].choiceIds, db.choices) == ChoicesFrom(qid, dto.choices) &&
      r == Success(ToDto(qid, db.questions[qid], db.choices)) &&
      db.nextQuestionId == qid + 1 && db.nextChoiceId == nc + |dto.choices| &&
      db.matchings == old(db.matchings) && db.participants == old(db.participants) &&
      db.answers == old(db.answers) && db.records == old(db.records) && db.users == old(db.users) &&
      db.nextMatchingId == old(db.nextMatchingId) && db.nextParticipantId == old(db.nextParticipantId) &&
      db.nextUserId == old(db.nextUserId)
    ensures old(OneActivePerOrder(db.questions)) ==> OneActivePerOrder(db.questions)
  {
    if ActiveOrderTaken(db.questions, dto.order) {
      return Failure(BusinessRule(OrderTaken));
    }
    var question := Question(dto.questionText, dto.questionType, Some(dto.category),
                             dto.order, true, 1, []);
    if OneActivePerOrder(db.questions) {
      CreateKeepsOneActivePerOrder(db.questions, db.nextQuestionId, question.(choiceIds := FreshIds(db.nextChoiceId, |dto.choices|)));
    }
    ghost var cs, nc := db.choices, db.nextChoiceId;
    var qid, saved := SaveNewQuestion(db, question, dto.choices);
    NewChoicesListed(qid, dto.choices, nc, cs);
    r := Success(ToDto(qid, saved, db.choices));
  }

  /**
   * The save of a new question with its choice rows: the question and the rows get the next
   * ids, the rows in input order, and the question lists them.
   */
  method SaveNewQuestion(db: Db, question: Question, inputs: seq<ChoiceInput>) returns (qid: int, saved: Question)
    requires db.Valid()
    modifies db
    ensures db.Valid()
    ensures var nc := old(db.nextChoiceId);
      qid == old(db.nextQuestionId) && qid !in old(db.questions) &&
      saved == question.(choiceIds := FreshIds(nc, |inputs|)) &&
      db.questions == old(db.questions)[qid := saved] &&
      db.choices == old(db.choices) + NewChoices(qid, inputs, nc) &&
      db.nextQuestionId == qid + 1 && db.nextChoiceId == nc + |inputs| &&
      db.matchings == old(db.matchings) && db.participants == old(db.participants) &&
      db.answers == old(db.answers) && db.records == old(db.records) && db.users == old(db.users) &&
      db.nextMatchingId == old(db.nextMatchingId) && db.nextParticipantId == old(db.nextParticipantId) &&
      db.nextUserId == old(db.nextUserId)
  {
    var nc := db.nextChoiceId;
    qid := db.nextQuestionId;
    ghost var qs, cs := db.questions, db.choices;
    saved := question.(choiceIds := FreshIds(nc, |inputs|));
    db.questions := db.questions[qid := saved];
    db.choices := db.choices + NewChoices(qid, inputs, nc);
    db.nextQuestionId := qid + 1;
    db.nextChoiceId := nc + |inputs|;
    CreatedStore(db, qs, cs, qid, nc, saved, inputs);
  }

  /**
   * updateQuestion: NotFound for an unknown id; rejected when the order changes to one an
   * active question holds; otherwise takes over the given fields, replaces the choice list
   * when one is given (its old rows and, by cascade, their answers are deleted) and bumps
   * the version.
   */
  method UpdateQuestion(db: Db, id: int, dto: UpdateQuestionDto) returns (r: Result<QuestionDto, Error>)
    requires db.Valid()
    modifies db
    ensures db.Valid()
    ensures id !in old(db.questions) ==> r == Failure(NotFound(QuestionEntity)) && unchanged(db)
    ensures id in old(db.questions) && OrderConflict(old(db.questions), old(db.questions[id]), dto) ==>
      r == Failure(BusinessRule(OrderTaken)) && unchanged(db)
    ensures id in old(db.questions) && !OrderConflict(old(db.questions), old(db.questions[id]), dto) ==>
      var q, nc := old(db.questions[id]), old(db.nextChoiceId);
      var n := if dto.choices.Some? then |dto.choices.value| else 0;
      db.questions == old(db.questions)[id := Apply(q, dto, FreshIds(nc, n))] &&
      r == Success(ToDto(id, db.questions[id], db.choices)) &&
      (dto.choices.None? ==>
        db.choices == old(db.choices) && db.answers == old(db.answers) && db.nextChoiceId == nc) &&
      (dto.choices.Some? ==>
        db.choices == (old(db.choices) - Owned(q)) + NewChoices(id, dto.choices.value, nc) &&
        ChoiceList(db.questions[id].choiceIds, db.choices) == ChoicesFrom(id, dto.choices.value) &&
        (forall c :: c in q.choiceIds ==> c !in db.choices) &&
        db.answers == WithoutChoices(old(db.answers), Owned(q)) &&
        db.nextChoiceId == nc + n) &&
      db.matchings == old(db.matchings) && db.participants == old(db.participants) &&
      db.records == old(db.records) && db.users == old(db.users) &&
      db.nextMatchingId == old(db.nextMatchingId) && db.nextParticipantId == old(db.nextParticipantId) &&
      db.nextQuestionId == old(db.nextQuestionId) && db.nextUserId == old(db.nextUserId)
  {
    if id !in db.questions {
      return Failure(NotFound(QuestionEntity));
    }
    if OrderConflict(db.questions, db.questions[id], dto) {
      return Failure(BusinessRule(OrderTaken));
    }
    r := ApplyUpdate(db, id, dto);
  }

  /** The part of updateQuestion after both checks passed. */
  method ApplyUpdate(db: Db, id: int, dto: UpdateQuestionDto) returns (r: Result<QuestionDto, Error>)
    requires db.Valid() && id in db.questions
    modifies db
    ensures db.Valid()
    ensures var q, nc := old(db.questions[id]), old(db.nextChoiceId);
      var n := if dto.choices.Some? then |dto.choices.value| else 0;
      db.questions == old(db.questions)[id := Apply(q, dto, FreshIds(nc, n))] &&
      r == Success(ToDto(id, db.questions[id], db.choices)) &&
      (dto.choices.None? ==>
        db.choices == old(db.choices) && db.answers == old(db.answers) && db.nextChoiceId == nc) &&
      (dto.choices.Some? ==>
        db.choices == (old(db.choices) - Owned(q)) + NewChoices(id, dto.choices.value, nc) &&
        ChoiceList(db.questions[id].choiceIds, db.choices) == ChoicesFrom(id, dto.choices.value) &&
        (forall c :: c in q.choiceIds ==> c !in db.choices) &&
        db.answers == WithoutChoices(old(db.answers), Owned(q)) &&
        db.nextChoiceId == nc + n) &&
      db.matchings == old(db.matchings) && db.participants == old(db.participants) &&
      db.records == old(db.records) && db.users == old(db.users) &&
      db.nextMatchingId == old(db.nextMatchingId) && db.nextParticipantId == old(db.nextParticipantId) &&
      db.nextQuestionId == old(db.nextQuestionId) && db.nextUserId == old(db.nextUserId)
  {
    var question := SetFields(db.questions[id], dto);
    if dto.choices.Some? {
      question := SaveReplacingChoices(db, id, question, dto.choices.value);
    } else {
      SaveKeepingChoices(db, id, question);
    }
    r := Success(ToDto(id, question, db.choices));
  }

  /** The setters of updateQuestion on a question that passed the order check. */
  method SetFields(q: Question, dto: UpdateQuestionDto) returns (question: Question)
    ensures question == Apply(q, dto, q.choiceIds)
  {
    question := q;
    if dto.order.Some? && dto.order.value != question.order {
      question := question.(order := dto.order.value);
    }
    if dto.questionText.Some? {
      question := question.(questionText := dto.questionText.value);
    }
    if dto.questionType.Some? {
      question := question.(questionType := dto.questionType.value);
    }
    if dto.category.Some? {
      question := question.(category := dto.category);
    }
    if dto.isActive.Some? {
      question := question.(isActive := dto.isActive.value);
    }
    question := question.(version := question.version + 1);
  }

  /**
   * The save of an updated question whose choice list was cleared and refilled: orphan
   * removal deletes the old choice rows, the cascade deletes their answers, and the new rows
   * get fresh ids in input order.
   */
  method SaveReplacingChoices(db: Db, id: int, question: Question, inputs: seq<ChoiceInput>) returns (saved: Question)
    requires db.Valid() && id in db.questions
    modifies db
    ensures db.Valid()
    ensures var q, nc := old(db.questions[id]), old(db.nextChoiceId);
      saved == question.(choiceIds := FreshIds(nc, |inputs|)) &&
      db.questions == old(db.questions)[id := saved] &&
      db.choices == (old(db.choices) - Owned(q)) + NewChoices(id, inputs, nc) &&
      ChoiceList(saved.choiceIds, db.choices) == ChoicesFrom(id, inputs) &&
      (forall c :: c in q.choiceIds ==> c !in db.choices) &&
      db.answers == WithoutChoices(old(db.answers), Owned(q)) &&
      db.nextChoiceId == nc + |inputs| &&
      db.matchings == old(db.matchings) && db.participants == old(db.participants) &&
      db.records == old(db.records) && db.users == old(db.users) &&
      db.nextMatchingId == old(db.nextMatchingId) && db.nextParticipantId == old(db.nextParticipantId) &&
      db.nextQuestionId == old(db.nextQuestionId) && db.nextUserId == old(db.nextUserId)
  {
    var removed, nc := Owned(db.questions[id]), db.nextChoiceId;
    ghost var answers, qs, cs := db.answers, db.questions, db.choices;
    saved := question.(choiceIds := FreshIds(nc, |inputs|));
    db.answers := WithoutChoices(db.answers, removed);
    db.choices := (db.choices - removed) + NewChoices(id, inputs, nc);
    db.nextChoiceId := nc + |inputs|;
    db.questions := db.questions[id := saved];
    ReplacedStore(db, answers, qs, cs, nc, id, inputs);
  }

  /** The save of an updated question that kept its choice list. */
  method SaveKeepingChoices(db: Db, id: int, question: Question)
    requires db.Valid() && id in db.questions && question.choiceIds == db.questions[id].choiceIds
    modifies db
    ensures db.Valid()
    ensures db.questions == old(db.questions)[id := question]
    ensures db.matchings == old(db.matchings) && db.participants == old(db.participants) &&
      db.answers == old(db.answers) && db.choices == old(db.choices) &&
      db.records == old(db.records) && db.users == old(db.users) &&
      db.nextMatchingId == old(db.nextMatchingId) && db.nextParticipantId == old(db.nextParticipantId) &&
      db.nextQuestionId == old(db.nextQuestionId) && db.nextChoiceId == old(db.nextChoiceId) &&
      db.nextUserId == old(db.nextUserId)
  {
    ghost var qs := db.questions;
    db.questions := db.questions[id := question];
    UpdatedStore(db, qs, id);
  }

  /** deleteQuestion: NotFound for an unknown id; otherwise only deactivates the question. */
  method DeleteQuestion(db: Db, id: int) returns (r: Result<(), Error>)
    requires db.Valid()
    modifies db
    ensures db.Valid()
    ensures id !in old(db.questions) ==> r == Failure(NotFound(QuestionEntity)) && unchanged(db)
    ensures id in old(db.questions) ==>
      r == Success(()) &&
      db.questions == old(db.questions)[id := old(db.questions[id]).(isActive := false)] &&
      (!old(db.questions[id].isActive) ==> db.questions == old(db.questions)) &&
      db.matchings == old(db.matchings) && db.participants == old(db.participants) &&
      db.answers == old(db.answers) && db.choices == old(db.choices) &&
      db.records == old(db.records) && db.users == old(db.users) &&
      db.nextMatchingId == old(db.nextMatchingId) && db.nextParticipantId == old(db.nextParticipantId) &&
      db.nextQuestionId == old(db.nextQuestionId) && db.nextChoiceId == old(db.nextChoiceId) &&
      db.nextUserId == old(db.nextUserId)
    ensures old(OneActivePerOrder(db.questions)) ==> OneActivePerOrder(db.questions)
  {
    if id !in db.questions {
      return Failure(NotFound(QuestionEntity));
    }
    SaveKeepingChoices(db, id, db.questions[id].(isActive := false));
    r := Success(());
  }
}
