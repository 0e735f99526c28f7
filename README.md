# rstracker backend service layer in Dafny

A model of the service layer of the rstracker matching and "temperature" application. Two
participants join a matching by its code and answer a catalogue of questions. The matching
is then scored into a record that holds the pair's average temperature and their
temperature difference. Registered users can look up their history of matchings.

The repositories become one in-memory store, the class `Database.Db`. Its fields are a map
per table (matchings, participants, questions, choices, records, users), the answer table as
a sequence in insertion order, and one identity counter per table. `Db.Valid()` states the
schema constraints, including:

- every key is below its counter;
- matching codes, record ids, userids and phone numbers are unique;
- participant codes are unique. The participant table has no unique constraint on the code,
  so this is an assumption: joinMatching's caller supplies a fresh code (a random UUID), and
  `MatchingService.JoinMatching` requires that no stored participant holds it;
- participants and records reference stored matchings;
- answer rows reference stored participants, questions and choices;
- every choice is owned by the question that lists it.

Every `@Transactional` service method becomes a method with `modifies db`. It returns a
`Result` whose `Failure` carries the kind of exception the service throws (which entity is
missing, which rule is broken); the message is not modelled. On every failure path the
store is `unchanged`, which is the transaction's rollback. `Database.Lifecycle` is the matching
state machine waiting → established → completed: at most two participants, waiting means
there is room, established means full, and completed means a record exists. The methods that
touch matchings, participants or records preserve it.

Modules, one per source file:

- `MatchingStatus`: the enum, its stored spelling and `fromValue`.
- `AppConstants`: the constants.
- `MatchingService`: the bounded code-generation retry, joining and status.
- `AnswerService`: the full replace of a participant's answers (over `AnswerTable`, the answer-table filters).
- `TemperatureScoring`: the weighted average shared by both calculators, the grouping and the case split.
- `WeightedTemperatureCalculationStrategy`: the configurable weight table.
- `TemperatureCalculator`: the legacy fixed table.
- `RecordService`: `createRecord`, `createSummary` (with `Decimal` for `"Q" + order`), the getters and the soft delete.
- `QuestionService`: the catalogue with its order check, choice-list replacement and version bump.
- `UserService`: uniqueness checks, partial updates, the soft delete and the history projection (using `Sorting`, a stable sort).

Scores are `real`. Codes, UUIDs and timestamps are parameters supplied by the caller.

## Model

| member | source | states |
|---|---|---|
| MatchingStatus.Search | backend/src/main/java/com/rstracker/entity/MatchingStatus.java:18-25 | the linear search returns a candidate whose value is the string, and fails with IllegalArgument exactly when no candidate has that value |
| MatchingStatus.ValueInjective | backend/src/main/java/com/rstracker/entity/MatchingStatus.java:4-6 | no two statuses share a stored spelling |
| MatchingStatus.FromValueRoundTrip | backend/src/main/java/com/rstracker/entity/MatchingStatus.java:14-23 | fromValue(getValue(s)) is s for every status |
| MatchingStatus.FromValue | backend/src/main/java/com/rstracker/entity/MatchingStatus.java:18-25 | a status is returned only for its own spelling; the input is rejected, with IllegalArgument, exactly when it spells none of the three statuses |
| MatchingStatus.FromValueAccepts | backend/src/main/java/com/rstracker/entity/MatchingStatus.java:18-25 | fromValue accepts exactly "waiting", "established" and "completed"; every other string is an IllegalArgumentException |
| MatchingStatus.FromValueCaseSensitive | backend/src/main/java/com/rstracker/entity/MatchingStatus.java:19-24 | the match is case-sensitive: "WAITING" is rejected |
| MatchingService.CodesInUse | backend/src/main/java/com/rstracker/service/MatchingService.java:40 | every stored matching's code is in the set existsByCode consults |
| MatchingService.CodesInUseTaken | backend/src/main/java/com/rstracker/service/MatchingService.java:40 | a code is in that set exactly when some stored matching holds it |
| MatchingService.MatchingWithCode | backend/src/main/java/com/rstracker/service/MatchingService.java:64-65 | findByCode yields a matching holding the code, and it is the only one while codes are unique |
| MatchingService.FirstFreeAttempt | backend/src/main/java/com/rstracker/service/MatchingService.java:36-49 | the first attempt below 10 whose code is free, with every earlier attempt colliding; None exactly when all 10 attempts collide |
| MatchingService.FirstFreeAttemptUnique | backend/src/main/java/com/rstracker/service/MatchingService.java:36-44 | an attempt that is free after all earlier ones collided is the attempt the retry stops at |
| MatchingService.NewMatchingKeepsTables | backend/src/main/java/com/rstracker/service/MatchingService.java:51-54 | storing a waiting matching with a free code under the next id keeps the schema constraints and the lifecycle |
| MatchingService.GenerateUniqueCode | backend/src/main/java/com/rstracker/service/MatchingService.java:36-49 | the do-while loop returns the code of the first free attempt, never a taken code, and nothing after 10 collisions |
| MatchingService.CreateMatching | backend/src/main/java/com/rstracker/service/MatchingService.java:31-58 | 10 collisions give CodeGenerationExhausted with the store unchanged; otherwise exactly one new waiting matching with a code not in the store, under the next id, and nothing else changes |
| MatchingService.JoinKeepsTables | backend/src/main/java/com/rstracker/service/MatchingService.java:76-87 | a participant with a fresh code under the next id, plus the status update, keeps the schema constraints |
| MatchingService.AfterJoin | backend/src/main/java/com/rstracker/service/MatchingService.java:81-87 | the join touches only the joined matching, and only its status: established when the count reaches the maximum, otherwise nothing changes |
| MatchingService.JoinKeepsLifecycle | backend/src/main/java/com/rstracker/service/MatchingService.java:67-87 | a join into a waiting matching with room keeps count ≤ 2, waiting ⇒ count < 2 and established ⇒ count = 2 |
| MatchingService.FindByCode | backend/src/main/java/com/rstracker/service/MatchingService.java:64-65 | None exactly when no matching holds the code; otherwise that matching's id |
| MatchingService.AddParticipant | backend/src/main/java/com/rstracker/service/MatchingService.java:76-87 | exactly one participant is added to the matching and no other matching's count moves; the matching becomes established exactly when the new count is 2 |
| MatchingService.JoinMatching | backend/src/main/java/com/rstracker/service/MatchingService.java:60-91 | NotFound for an unknown code, MatchingClosed when not waiting, MatchingFull at two participants, each with the store unchanged; otherwise one new participant, established exactly when the count reaches 2, nothing else changed |
| MatchingService.GetMatching | backend/src/main/java/com/rstracker/service/MatchingService.java:93-98 | the matching holding the code, or NotFound; read-only |
| MatchingService.GetMatchingStatus | backend/src/main/java/com/rstracker/service/MatchingService.java:100-113 | code, status, the current participant count and capacity 2, or NotFound; read-only |
| Database.ParticipantWithCode | backend/src/main/java/com/rstracker/service/AnswerService.java:36-37 | findByParticipantCode yields the participant holding the code, the only one while codes are unique |
| Database.AnswersOfMatching | backend/src/main/java/com/rstracker/repository/AnswerRepository.java:51-52 | findByMatchingId lists exactly the answers of the matching's participants, each as often as it is stored |
| Database.AnswersOfMatchingAppend | backend/src/main/java/com/rstracker/repository/AnswerRepository.java:51-52 | the query keeps table order: it distributes over appended rows |
| Database.AnswersOfMatchingSingleton | backend/src/main/java/com/rstracker/repository/AnswerRepository.java:51-52 | a single row is listed exactly when its participant belongs to the matching |
| Database.ParticipantCountInsert | backend/src/main/java/com/rstracker/service/MatchingService.java:79-82 | saving a participant raises its matching's countByMatchingId by one and no other |
| Database.ParticipantCountZero | backend/src/main/java/com/rstracker/service/MatchingService.java:71 | a matching no participant references counts zero |
| AnswerTable.AnswersOf | backend/src/main/java/com/rstracker/service/AnswerService.java:40 | findByParticipantId keeps exactly that participant's rows |
| AnswerTable.WithoutParticipant | backend/src/main/java/com/rstracker/service/AnswerService.java:40-41 | the deleteAll keeps exactly the other participants' rows |
| AnswerTable.AnswersOfAppend | backend/src/main/java/com/rstracker/service/AnswerService.java:81 | filtering distributes over appended rows |
| AnswerTable.WithoutParticipantAppend | backend/src/main/java/com/rstracker/service/AnswerService.java:81 | deleting distributes over appended rows |
| AnswerTable.AnswersOfAllOf | backend/src/main/java/com/rstracker/service/AnswerService.java:73-77 | rows built for one participant are all that participant's and nobody else's |
| AnswerTable.AnswersOfSnoc | backend/src/main/java/com/rstracker/service/AnswerService.java:77 | appending one row extends the filter of its own participant only |
| AnswerTable.WithoutParticipantSnoc | backend/src/main/java/com/rstracker/service/AnswerService.java:77 | appending one row extends the remaining rows unless it is the deleted participant's |
| AnswerTable.WithoutParticipantRows | backend/src/main/java/com/rstracker/service/AnswerService.java:40-41 | after the delete, none of the participant's rows remain, every other participant's are intact, and deleting again changes nothing |
| AnswerService.RowsFor | backend/src/main/java/com/rstracker/service/AnswerService.java:62-78 | one row per DTO, in submission order, with the DTO's question and choice |
| AnswerService.FirstUnresolved | backend/src/main/java/com/rstracker/service/AnswerService.java:62-71 | no error exactly when every DTO's question and choice are stored; otherwise the error is that of the first unresolved DTO, its question NotFound when the question is missing and else its choice NotFound |
| AnswerService.FirstUnresolvedExample | backend/src/main/java/com/rstracker/service/AnswerService.java:62-71 | a first DTO missing its choice ahead of a second missing its question reports the choice |
| AnswerService.ReplaceAnswers | backend/src/main/java/com/rstracker/service/AnswerService.java:40-81 | the table after a submission holds the other participants' rows and the new rows, and ends with the new rows |
| AnswerService.ReplaceAnswersRows | backend/src/main/java/com/rstracker/service/AnswerService.java:40-41 | after the replace the participant's answers are exactly the new rows, and every other participant's answers are as before |
| AnswerService.ReplaceAnswersIdempotent | backend/src/main/java/com/rstracker/service/AnswerService.java:40-81 | submitting the same rows twice leaves the table of one submission |
| AnswerService.RowsForAllOf | backend/src/main/java/com/rstracker/service/AnswerService.java:74 | every built row belongs to the submitting participant |
| AnswerService.SubmissionSavesEveryDto | backend/src/main/java/com/rstracker/service/AnswerService.java:62-83 | the participant ends with as many answers as DTOs, the k-th with the k-th DTO's question and choice |
| AnswerService.ReplaceKeepsReferences | backend/src/main/java/com/rstracker/service/AnswerService.java:56-81 | saved rows that resolve keep every answer's foreign keys valid |
| AnswerService.BuildAnswers | backend/src/main/java/com/rstracker/service/AnswerService.java:62-78 | the loop fails with the first unresolved DTO's NotFound, or yields one row per DTO |
| AnswerService.SubmitAnswers | backend/src/main/java/com/rstracker/service/AnswerService.java:32-84 | an unknown participant, question or choice is NotFound with the store unchanged; otherwise the participant's answers are the submitted list and everything else is untouched |
| AnswerService.GetAnswersByParticipant | backend/src/main/java/com/rstracker/service/AnswerService.java:86-91 | the participant's stored answers in table order, or NotFound for an unknown code |
| AnswerService.GetAnswersByMatching | backend/src/main/java/com/rstracker/service/AnswerService.java:100-103 | the repository query's result: exactly the answers of the matching's participants, each as often as it is stored |
| TemperatureScoring.ParticipantTemperature | backend/src/main/java/com/rstracker/service/temperature/WeightedTemperatureCalculationStrategy.java:65-85 | 0 when no answer counts; otherwise the temperature times the coefficient sum is the weighted total |
| TemperatureScoring.AccumulateParticipantTemperature | backend/src/main/java/com/rstracker/service/temperature/WeightedTemperatureCalculationStrategy.java:60-86 | the accumulator loop computes Σ(weight·coef)/Σcoef over the counted answers, or 0 when the coefficient sum is 0 |
| TemperatureScoring.CoefficientSumSign | backend/src/main/java/com/rstracker/service/temperature/WeightedTemperatureCalculationStrategy.java:74-84 | the coefficient sum is never negative, and positive exactly when some answer counts |
| TemperatureScoring.AnswerLowerBound | backend/src/main/java/com/rstracker/service/temperature/WeightedTemperatureCalculationStrategy.java:76-79 | one answer's contribution is at least k times its applied coefficient when its weight is at least k |
| TemperatureScoring.AnswerUpperBound | backend/src/main/java/com/rstracker/service/temperature/WeightedTemperatureCalculationStrategy.java:76-79 | one answer's contribution is at most k times its applied coefficient when its weight is at most k |
| TemperatureScoring.WeightedTotalLowerBound | backend/src/main/java/com/rstracker/service/temperature/WeightedTemperatureCalculationStrategy.java:70-82 | k·Σcoef ≤ Σ(weight·coef) when every counted weight is at least k |
| TemperatureScoring.WeightedTotalUpperBound | backend/src/main/java/com/rstracker/service/temperature/WeightedTemperatureCalculationStrategy.java:70-82 | Σ(weight·coef) ≤ k·Σcoef when every counted weight is at most k |
| TemperatureScoring.TemperatureBetweenWeights | backend/src/main/java/com/rstracker/service/temperature/WeightedTemperatureCalculationStrategy.java:77-84 | a participant's temperature lies between the smallest and largest weight of its counted answers |
| TemperatureScoring.TemperatureInUnitInterval | backend/src/main/java/com/rstracker/service/temperature/WeightedTemperatureCalculationStrategy.java:77-84 | choice weights in [0, 1] give a temperature in [0, 1] |
| TemperatureScoring.SumsAppend | backend/src/main/java/com/rstracker/service/temperature/WeightedTemperatureCalculationStrategy.java:70-82 | both sums are additive over concatenated answer lists |
| TemperatureScoring.UncountedAnswerIgnored | backend/src/main/java/com/rstracker/service/temperature/WeightedTemperatureCalculationStrategy.java:71-81 | an answer with an unknown choice or question, or an order without a positive coefficient, changes neither sum nor the temperature, wherever it stands |
| TemperatureScoring.SameChoicesSameTemperature | backend/src/main/java/com/rstracker/service/temperature/WeightedTemperatureCalculationStrategy.java:70-84 | the temperature depends only on each answer's question and choice |
| TemperatureScoring.ParticipantIds | backend/src/main/java/com/rstracker/service/temperature/WeightedTemperatureCalculationStrategy.java:32-36 | groupingBy's keys: each answering participant exactly once |
| TemperatureScoring.Temperatures | backend/src/main/java/com/rstracker/service/temperature/WeightedTemperatureCalculationStrategy.java:37-46 | one temperature per group, that group's participant temperature |
| TemperatureScoring.Combine | backend/src/main/java/com/rstracker/service/temperature/WeightedTemperatureCalculationStrategy.java:48-57 | the difference is never negative and is 0 unless there are two temperatures; one temperature is the average; none or three and more give average 0; two are recovered as average ± difference/2 |
| TemperatureScoring.Calculate | backend/src/main/java/com/rstracker/service/temperature/WeightedTemperatureCalculationStrategy.java:25-58 | the difference is never negative and is 0 unless exactly two participants answered; no participant or three and more give (0, 0) |
| TemperatureScoring.CombineOrderFree | backend/src/main/java/com/rstracker/service/temperature/WeightedTemperatureCalculationStrategy.java:43-57 | the case split gives the same result for any order of the temperatures |
| TemperatureScoring.DistinctCount | backend/src/main/java/com/rstracker/service/temperature/WeightedTemperatureCalculationStrategy.java:32-36 | a list without repeats is as long as the set it lists |
| TemperatureScoring.ParticipantIdsCount | backend/src/main/java/com/rstracker/service/temperature/WeightedTemperatureCalculationStrategy.java:32-46 | there are exactly as many temperatures as distinct participants |
| TemperatureScoring.CalculateByParticipantCount | backend/src/main/java/com/rstracker/service/temperature/WeightedTemperatureCalculationStrategy.java:48-57 | 0 or ≥ 3 participants give (0, 0); one gives (t, 0); two give ((t1+t2)/2, abs(t1−t2)) in either order |
| TemperatureScoring.TwoIds | backend/src/main/java/com/rstracker/service/temperature/WeightedTemperatureCalculationStrategy.java:32-36 | two grouping keys are two distinct participants, and they are all the participants |
| TemperatureScoring.SingleParticipant | backend/src/main/java/com/rstracker/service/temperature/WeightedTemperatureCalculationStrategy.java:52-53 | with one participant its group is the whole answer list |
| TemperatureScoring.ParticipantsOfTwo | backend/src/main/java/com/rstracker/service/temperature/WeightedTemperatureCalculationStrategy.java:32-36 | two non-empty answer lists of p1 and of p2 have exactly the participants p1 and p2 |
| TemperatureScoring.GroupsOfTwo | backend/src/main/java/com/rstracker/service/temperature/WeightedTemperatureCalculationStrategy.java:32-36 | grouping p1's answers followed by p2's gives back each list |
| TemperatureScoring.IdenticalAnswersZeroDiff | backend/src/test/java/com/rstracker/service/temperature/WeightedTemperatureCalculationStrategyTest.java:76 | two participants with the same question and choice lists differ by 0, and their average is that temperature |
| TemperatureScoring.IdsOfTwo | backend/src/main/java/com/rstracker/service/temperature/WeightedTemperatureCalculationStrategy.java:32-36 | with exactly p1 and p2 the grouping lists them in one order or the other |
| TemperatureScoring.TemperatureOfTwoGroups | backend/src/main/java/com/rstracker/service/temperature/WeightedTemperatureCalculationStrategy.java:48-51 | two groups scoring t give (t, 0) |
| TemperatureScoring.TwoParticipantExample | backend/src/main/java/com/rstracker/service/temperature/WeightedTemperatureCalculationStrategy.java:48-51 | weights 0.5 and 0.7 on one order-3 question give average 0.6 and difference 0.2 |
| WeightedTemperatureCalculationStrategy.WeightsOf | backend/src/main/java/com/rstracker/service/temperature/WeightedTemperatureCalculationStrategy.java:71-77 | each known choice's temperatureWeight, and only known choices |
| WeightedTemperatureCalculationStrategy.Calculate | backend/src/main/java/com/rstracker/service/temperature/WeightedTemperatureCalculationStrategy.java:25-58 | with the configured table: a non-negative difference, 0 unless two participants answered, and (0, 0) for none or three and more |
| WeightedTemperatureCalculationStrategy.CalculateParticipantTemperature | backend/src/main/java/com/rstracker/service/temperature/WeightedTemperatureCalculationStrategy.java:60-86 | the loop computes the weighted average with the configured coefficient table |
| WeightedTemperatureCalculationStrategy.DefaultCountsOrdersThreeToSix | backend/src/main/java/com/rstracker/config/TemperatureCalculationProperties.java:26-34 | with the default table an answer counts exactly when its choice and question are known and its order is 3, 4, 5 or 6 |
| WeightedTemperatureCalculationStrategy.NonPositiveWeightsGiveZero | backend/src/main/java/com/rstracker/service/temperature/WeightedTemperatureCalculationStrategy.java:75-84 | a table of zero or negative coefficients counts nothing and gives (0, 0) |
| TemperatureCalculator.Calculate | backend/src/main/java/com/rstracker/util/TemperatureCalculator.java:22-49 | with QUESTION_WEIGHTS: a non-negative difference, 0 unless two participants answered, and (0, 0) for none or three and more |
| TemperatureCalculator.CalculateParticipantTemperature | backend/src/main/java/com/rstracker/util/TemperatureCalculator.java:51-75 | the loop computes the weighted average with QUESTION_WEIGHTS |
| TemperatureCalculator.OtherOrdersNeverContribute | backend/src/main/java/com/rstracker/util/TemperatureCalculator.java:15-20 | with the fixed table an answer to an order outside 3..6, or to an unknown question, never changes a temperature |
| TemperatureCalculator.DefaultStrategyAgrees | backend/src/main/java/com/rstracker/util/TemperatureCalculator.java:22-49 | the strategy with its default properties computes exactly what the legacy calculator computes |
| Decimal.DigitChar | backend/src/main/java/com/rstracker/service/RecordService.java:160 | a digit below 10 is spelled by a character '0'..'9' |
| Decimal.NatToString | backend/src/main/java/com/rstracker/service/RecordService.java:160 | the decimal spelling of a natural is a non-empty digit string, two digits or more from 10 on |
| Decimal.IntToString | backend/src/main/java/com/rstracker/service/RecordService.java:160 | the spelling starts with '-' exactly for a negative number |
| Decimal.NatToStringInjective | backend/src/main/java/com/rstracker/service/RecordService.java:160 | distinct naturals are spelled differently |
| Decimal.IntToStringInjective | backend/src/main/java/com/rstracker/service/RecordService.java:160 | distinct integers are spelled differently |
| RecordService.OrdersOf | backend/src/main/java/com/rstracker/service/RecordService.java:64-68 | the questionOrderMap holds every stored question's order |
| RecordService.SummaryKeyInjective | backend/src/main/java/com/rstracker/service/RecordService.java:160 | "Q" + order keys coincide exactly when the orders do |
| RecordService.Summary | backend/src/main/java/com/rstracker/service/RecordService.java:154-170 | every summary entry sits under the key "Q" + order of some answer whose question has that order, and is that answer's question text, choice text and question type |
| RecordService.CreateSummary | backend/src/main/java/com/rstracker/service/RecordService.java:154-170 | the put loop builds the summary fold over the answers in list order |
| RecordService.KeyOfSomeAnswerIndex | backend/src/main/java/com/rstracker/service/RecordService.java:157-166 | an answer whose question has an order contributes its key |
| RecordService.KeyOfSomeAnswerWitness | backend/src/main/java/com/rstracker/service/RecordService.java:157-166 | every contributed key comes from some answer with an ordered question |
| RecordService.SummaryKeys | backend/src/main/java/com/rstracker/service/RecordService.java:154-170 | the summary's keys are exactly "Q" + order of the answers whose question order is known |
| RecordService.SummaryLastWins | backend/src/main/java/com/rstracker/service/RecordService.java:157-166 | when orders repeat, the entry is that of the last such answer in list order |
| RecordService.MatchingAnswersResolvable | backend/src/main/java/com/rstracker/service/RecordService.java:57-68 | a matching's answers all resolve against the stored questions and choices |
| RecordService.NewRecord | backend/src/main/java/com/rstracker/service/RecordService.java:71-86 | the new record is active, has the strategy's temperature and difference and the summary |
| RecordService.RecordKeepsLifecycle | backend/src/main/java/com/rstracker/service/RecordService.java:86-91 | recording a matching and completing it keeps the lifecycle |
| RecordService.Completed | backend/src/main/java/com/rstracker/service/RecordService.java:89-90 | the matching's status reads back as COMPLETED, its completion time is now, and its code and creation time are kept |
| RecordService.RecordWithId | backend/src/main/java/com/rstracker/service/RecordService.java:97-102 | findByRecordId yields the record holding the id, the only one while record ids are unique |
| RecordService.CreateRecord | backend/src/main/java/com/rstracker/service/RecordService.java:45-95 | NotFound, RecordAlreadyExists and NoAnswers in that order with the store unchanged; otherwise exactly one new active record with the strategy's result and the summary, the matching completed at now, nothing else changed; afterwards every call for that matching fails |
| RecordService.SaveRecord | backend/src/main/java/com/rstracker/service/RecordService.java:86-91 | the record is stored under the matching, the matching is completed at now, the store stays valid and the lifecycle is kept; nothing else changes |
| RecordService.GetRecord | backend/src/main/java/com/rstracker/service/RecordService.java:97-102 | the record with the id, or NotFound; read-only |
| RecordService.GetRecordByMatchingId | backend/src/main/java/com/rstracker/service/RecordService.java:104-109 | the matching's record, or NotFound; read-only |
| RecordService.DeactivateRecord | backend/src/main/java/com/rstracker/service/RecordService.java:111-118 | NotFound with the store unchanged, or only isActive cleared; an inactive record is left as it was |
| QuestionService.ChoiceList | backend/src/main/java/com/rstracker/service/QuestionService.java:225-227 | a question's choices in list order |
| QuestionService.ChoicesFrom | backend/src/main/java/com/rstracker/service/QuestionService.java:94-104 | one choice per input, in input order, with its text, value, order and weight |
| QuestionService.FreshIds | backend/src/main/java/com/rstracker/service/QuestionService.java:109 | saved rows get consecutive ids from the counter, in list order |
| QuestionService.NewChoices | backend/src/main/java/com/rstracker/service/QuestionService.java:94-109 | the saved choice rows are keyed exactly by the fresh ids, each holding its input |
| QuestionService.NewChoicesListed | backend/src/main/java/com/rstracker/service/QuestionService.java:94-106 | the new choice list lists exactly the new rows, in input order |
| QuestionService.WithoutChoices | backend/src/main/java/com/rstracker/service/QuestionService.java:159 | the cascade keeps exactly the answers whose choice was not removed |
| QuestionService.Apply | backend/src/main/java/com/rstracker/service/QuestionService.java:135-178 | a null field leaves its value, a null choice list leaves the list, and the version rises by one |
| QuestionService.EmptyUpdateBumpsVersion | backend/src/main/java/com/rstracker/service/QuestionService.java:178 | an update that sets nothing changes only the version, by one |
| QuestionService.ApplySetsGivenFields | backend/src/main/java/com/rstracker/service/QuestionService.java:139-175 | every non-null field, and a given choice list, is taken over as given |
| QuestionService.ToDto | backend/src/main/java/com/rstracker/service/QuestionService.java:210-231 | the category name, INITIAL_MATCHING when none is stored, and the choices in list order |
| QuestionService.CategoryNameInjective | backend/src/main/java/com/rstracker/service/QuestionService.java:215-217 | no two categories share a name |
| QuestionService.CreateKeepsOneActivePerOrder | backend/src/main/java/com/rstracker/service/QuestionService.java:80-91 | a question created at an order no active question holds keeps one active question per order |
| QuestionService.UpdateKeepsOneActivePerOrder | backend/src/main/java/com/rstracker/service/QuestionService.java:135-154 | an update passing the order check keeps one active question per order, unless it reactivates a question at its unchanged order |
| QuestionService.OnlyClash | backend/src/main/java/com/rstracker/service/QuestionService.java:135-154 | outside that path, no other active question shares the updated active question's order |
| QuestionService.ReactivationSkipsOrderCheck | backend/src/main/java/com/rstracker/service/QuestionService.java:135-154 | reactivating an inactive question whose order an active one holds passes the check and leaves two active questions at that order |
| QuestionService.ReferencesSurviveGrowth | backend/src/main/java/com/rstracker/service/QuestionService.java:109 | growing the question and choice tables keeps every answer's references |
| QuestionService.CreatedKeepsOwnership | backend/src/main/java/com/rstracker/service/QuestionService.java:94-109 | a new question with its new rows keeps every choice owned by the question listing it |
| QuestionService.ReplacedKeepsOwnership | backend/src/main/java/com/rstracker/service/QuestionService.java:157-175 | clearing and refilling a choice list keeps ownership |
| QuestionService.Owned | backend/src/main/java/com/rstracker/service/QuestionService.java:159 | the choices orphan removal deletes are exactly those of the list |
| QuestionService.CascadeKeepsReferences | backend/src/main/java/com/rstracker/service/QuestionService.java:157-175 | deleting the removed choices' answers keeps the remaining answers' references |
| QuestionService.CreateQuestion | backend/src/main/java/com/rstracker/service/QuestionService.java:76-115 | an order held by an active question is OrderTaken with the store unchanged; otherwise an active version-1 question with the DTO's fields and one choice per input in order; one active question per order is kept |
| QuestionService.SaveNewQuestion | backend/src/main/java/com/rstracker/service/QuestionService.java:106-109 | the question and its rows get the next ids and the question lists its rows in input order |
| QuestionService.UpdateQuestion | backend/src/main/java/com/rstracker/service/QuestionService.java:128-187 | NotFound and OrderTaken with the store unchanged; otherwise the question becomes Apply of the update, a given list replaces the old rows and their answers, and the version rises by one |
| QuestionService.ApplyUpdate | backend/src/main/java/com/rstracker/service/QuestionService.java:139-186 | the success path of the update: fields, choice list, version and saved rows as above |
| QuestionService.SetFields | backend/src/main/java/com/rstracker/service/QuestionService.java:139-154 | the setters produce Apply of the update with the list unchanged |
| QuestionService.SaveReplacingChoices | backend/src/main/java/com/rstracker/service/QuestionService.java:157-181 | the old rows and, by cascade, their answers go; the new rows get fresh ids in input order |
| QuestionService.SaveKeepingChoices | backend/src/main/java/com/rstracker/service/QuestionService.java:181 | only the question row changes |
| QuestionService.DeleteQuestion | backend/src/main/java/com/rstracker/service/QuestionService.java:197-208 | NotFound with the store unchanged, or only isActive cleared; deleting an inactive question changes nothing |
| UserService.IsUseridAvailable | backend/src/main/java/com/rstracker/service/UserService.java:208-210 | true exactly when no user has the userid |
| UserService.IsPhoneNumberAvailable | backend/src/main/java/com/rstracker/service/UserService.java:218-220 | true exactly when no user has the phone number |
| UserService.IsEmailAvailable | backend/src/main/java/com/rstracker/service/UserService.java:228-233 | true for a null or blank email, otherwise exactly when no user has it |
| UserService.AvailabilityMatchesCreate | backend/src/main/java/com/rstracker/service/UserService.java:55-69 | the three availability checks together accept exactly what createUser's checks accept |
| UserService.OwnEmailAccepted | backend/src/main/java/com/rstracker/service/UserService.java:151-157 | resubmitting the user's own email, or a blank one, passes the email check |
| UserService.UpdateKeepsIdentity | backend/src/main/java/com/rstracker/service/UserService.java:160-171 | an update never changes userid, phone or verification status |
| UserService.EmptyUpdateChangesNothing | backend/src/main/java/com/rstracker/service/UserService.java:160-171 | an all-null update (or a blank email) leaves the user as it was |
| UserService.UpdateTakesGivenFields | backend/src/main/java/com/rstracker/service/UserService.java:160-171 | every non-null field is taken over as given |
| UserService.UpdateIdempotent | backend/src/main/java/com/rstracker/service/UserService.java:160-171 | applying the same update twice is applying it once |
| UserService.CreateKeepsUniqueEmails | backend/src/main/java/com/rstracker/service/UserService.java:65-69 | a new user with a free given email keeps given emails unique |
| UserService.UpdateKeepsUniqueEmails | backend/src/main/java/com/rstracker/service/UserService.java:151-165 | an update passing the email check keeps given emails unique |
| UserService.CreateUser | backend/src/main/java/com/rstracker/service/UserService.java:51-78 | UseridTaken, then PhoneTaken, then EmailTaken, with the store unchanged; success exactly when all three are available, adding one active, unverified user under the next id; userid and phone stay unique |
| UserService.SaveNewUser | backend/src/main/java/com/rstracker/service/UserService.java:72-77 | the user is saved under the next id and nothing else changes |
| UserService.UpdateUser | backend/src/main/java/com/rstracker/service/UserService.java:143-177 | NotFound; EmailTaken for another user's email; otherwise the user becomes Updated of the DTO, with the store otherwise unchanged |
| UserService.SetUserFields | backend/src/main/java/com/rstracker/service/UserService.java:160-171 | the setters produce Updated of the DTO |
| UserService.SaveUser | backend/src/main/java/com/rstracker/service/UserService.java:173-176 | only the user row changes |
| UserService.DeleteUser | backend/src/main/java/com/rstracker/service/UserService.java:188-200 | NotFound with the store unchanged, or the status becomes DELETED with the row kept, so userid and phone stay unavailable |
| UserService.ParticipationsOf | backend/src/main/java/com/rstracker/service/UserService.java:254 | exactly the user's participant rows |
| UserService.OthersOf | backend/src/main/java/com/rstracker/service/UserService.java:278-279 | exactly the matching's participants other than the user's own |
| UserService.ParticipantInfos | backend/src/main/java/com/rstracker/service/UserService.java:280-284 | each listed participant's code and join time, in order |
| UserService.AnswerInfos | backend/src/main/java/com/rstracker/service/UserService.java:299-314 | each answer's question and choice resolved, in order |
| UserService.RowsResolve | backend/src/main/java/com/rstracker/service/UserService.java:263-269 | a participant's answers resolve against the stored questions and choices |
| UserService.Entry | backend/src/main/java/com/rstracker/service/UserService.java:272-327 | the entry carries the matching and join time, a record exactly when the matching has one, and the participant's answers sorted ascending by question order |
| UserService.Entries | backend/src/main/java/com/rstracker/service/UserService.java:272-328 | one entry per participation, in order |
| UserService.GetUserHistory | backend/src/main/java/com/rstracker/service/UserService.java:245-338 | NotFound exactly for an unknown user; otherwise the user, the entries of the participations with the latest join first, and their count |
| UserService.HistoryCountsParticipations | backend/src/main/java/com/rstracker/service/UserService.java:335 | totalParticipations is the number of the user's participant rows |
| UserService.HistoryListsEveryParticipation | backend/src/main/java/com/rstracker/service/UserService.java:254-330 | every participation of the user has its entry in the history |
| UserService.HistoryListsOnlyParticipations | backend/src/main/java/com/rstracker/service/UserService.java:254-330 | every entry in the history belongs to one of the user's participations |
| UserService.OthersExcludeSelf | backend/src/main/java/com/rstracker/service/UserService.java:278-284 | otherParticipants lists every other participant of the matching and never the user's own code |
| Sorting.Insert | backend/src/main/java/com/rstracker/service/UserService.java:315 | insertion keeps a sorted list sorted and adds exactly the element |
| Sorting.Sort | backend/src/main/java/com/rstracker/service/UserService.java:315 | the stable sort is a sorted permutation of its input |
| Sorting.SortSorted | backend/src/main/java/com/rstracker/service/UserService.java:329 | sorting a sorted list changes nothing |
| Sorting.SortIdempotent | backend/src/main/java/com/rstracker/service/UserService.java:329 | sorting twice is sorting once |
| Sorting.SortKeepsElements | backend/src/main/java/com/rstracker/service/UserService.java:329 | sorting neither adds nor drops an element |
| Sorting.WithKey | backend/src/main/java/com/rstracker/service/UserService.java:315 | the elements carrying one key, in sequence order |
| Sorting.InsertWithKey | backend/src/main/java/com/rstracker/service/UserService.java:315 | insertion puts the element ahead of the elements it ties with and keeps their order |
| Sorting.SortStable | backend/src/main/java/com/rstracker/service/UserService.java:315 | the sort is stable: for every key the elements with that key come out in their input order |
| Sorting.Scan | backend/src/main/java/com/rstracker/service/UserService.java:254 | the ids of a range that satisfy a filter, each once, ascending |
| Sorting.AscendingCardinality | backend/src/main/java/com/rstracker/service/UserService.java:335 | a strictly ascending list is as long as the set it lists |

## Left out

- Code generators: the matching code, participant code and record id generators are random. The
  bounded retry takes its candidates as a function `generate` from attempt number to code,
  so the code length of the generator (6 characters) is not modelled.
  Participant codes and record ids are parameters whose freshness is a precondition. That
  these codes are unique in practice is not modelled.
- Errors.Error: exception messages are not modelled, so the missing identifier that every
  ResourceNotFoundException names in its message is not carried; a failure records only the
  kind of entity or the rule.
- Persistence: the Spring Data repositories, JPQL queries, fetch joins, `@Cacheable` /
  `@CacheEvict`, cascade and orphan removal become in-memory tables and explicit deletes.
  Database collation (for instance case-insensitive email matching) is not modelled; strings
  compare exactly.
- Concurrency (two simultaneous joins, a double createRecord) and transaction isolation are
  out; each service call is atomic and a failure leaves the store unchanged.
- Floating point: `Double` is `real`; results are exact, not IEEE-rounded.
- Timestamps: `LocalDateTime.now` and the creation timestamps are a `now` parameter;
  `updatedAt`, `answeredAt` and the user DTO's timestamps are not modelled.
- Read-only listings not named as core: getActiveQuestions, getActiveQuestionsByCategory,
  getQuestion, getRecords (with its filter query), getUserById, getUserByUserid, getUsers and
  getAllUsers are not modelled.
- Controllers, DTO validation annotations, the mappers beyond the fields they copy, the
  exception handler, rate limiting, application start-up, seed data and the React frontend
  are transport or UI code and are not modelled.
- HashMap iteration order: the grouping in `calculate` hands over the temperatures in an
  unspecified order; the model fixes first-appearance order and proves the result does not
  depend on it (`TemperatureScoring.CombineOrderFree`).
- UserService.GetUserHistory: the participant-to-user link is assumed. The source's
  participant has no user property, so the model adds `userId` and gives the three
  participant-by-user queries their evident meaning over it.
- UserService.GetUserHistory: ties are not ordered as the source orders them. The repository
  returns a user's answers by question order and then `answeredAt`, and the service sorts
  them stably by question order. The model starts from table order, without `answeredAt`, so
  answers sharing a question order keep their insertion order. Matchings that share a join
  time keep ascending participant id order. The participant query's own
  `ORDER BY joinedAt DESC` is not relied on, because the service sorts again.
- QuestionService.UpdateQuestion: choice ids in the update DTO are ignored, as the source
  builds every choice anew.
- QuestionService.UpdateQuestion: the update DTO's choice fields carry no validation and may
  be null, while the choice columns are not nullable, so a null field makes the save fail and
  the transaction roll back. The model's choice input has no null fields, so that failure
  path is not modelled.
- Database.ParticipantWithCode: findByParticipantCode would throw when two participants held
  the same code. The model excludes that case by keeping participant codes unique.
- RecordService.CreateRecord: the summary assumes table order. findByMatchingId has no
  ORDER BY, so when two answers share a question order the database decides whose entry is
  kept; the model keeps the last answer in insertion order (`RecordService.SummaryLastWins`).

## Notes on the source

- The participant entity (Participant.java:18-37) declares no user field or association: its
  fields are the id, the matching, the participant code, the join time and the answers. Yet
  ParticipantRepository.java names a property `user` in three queries: the JPQL filter
  `p.user.id = :userId` (lines 22-28) and the derived `findByUserId` (line 33) and
  `countByUserId` (line 38). Read as written, Spring Data cannot resolve these queries, so
  `getUserHistory` cannot return the history the model computes. The participant's
  `userId: Option<int>` is the link these queries evidently mean; it is an assumption of the
  model, not a field of the source. `joinMatching` creates participants without it (None).
- The user's `updated_at` column is not nullable (User.java:74-75) but is set only by the
  `@PreUpdate` callback, with no `@PrePersist` or `@UpdateTimestamp`, so the insert of
  `createUser` (UserService.java:72-74) plausibly fails the not-null constraint. The model
  leaves the update timestamps out.
- The email column has no unique constraint. The service still keeps given (non-blank) emails
  unique, and the model proves it preserves that (`UserService.CreateKeepsUniqueEmails`,
  `UserService.UpdateKeepsUniqueEmails`).
- `updateQuestion` checks the order only when it changes. Reactivating an inactive question at
  an order an active question holds therefore passes the check and breaks "one active question
  per order" (`QuestionService.ReactivationSkipsOrderCheck`). The model follows the code.
- `createRecord` does not check the matching's status: a waiting matching with answers can be
  scored, and it becomes completed.
- `submitAnswers` saves duplicate question ids as given, and does not check that a choice
  belongs to its question.
- The strategy's default coefficient table equals the legacy calculator's fixed table
  (`TemperatureCalculator.DefaultStrategyAgrees`).
