# SBM Literation: a verified model of the XP ledger and its rules

This project models the logic at the heart of the SBM Literation reading
platform. Its backend is an ASP.NET service, its notification hub a Go
program and its web front end a Nuxt application. The model is written in
Dafny and proves properties of each part.

- **XP ledger** (`XpLedger`, `XpStore`, `Leaderboard`). The model covers:
  - the append-only `user_exp_events` table and the `user_exp_snapshots` compaction that folds seven or more new events into a numbered snapshot;
  - the "latest snapshot plus later events" total read by `GetUserAccumulatedExp`;
  - the `user_exp_leaderboard` view and the paged, ranked leaderboard query.

  XP is `numeric(18,2)` in the database. Here it is an integer number of hundredths, and the PostgreSQL cast to integer is modelled as rounding half away from zero.
- **Accrual rules** (`XpAccrual`, `XpStore.ExpStore`): the reading, daily-quiz, streak-bonus and book-completion handlers. Each is a guard followed by at most one append to the store.
- **Streaks** (`Streaks`):
  - the two handlers that keep at most one streak log per user and day;
  - the backwards day walk;
  - the Monday-to-Sunday week status of `GetUserStreakEndpoint`.

  Dates are day numbers, with day 0 = 1970-01-01. The three clocks the code reads are explicit parameters.
- **Daily reads and quizzes.** The model covers:
  - the shared scoring rule: the latest answer per question, compared ignoring case, against a pass threshold (`QuizScoring`, `DailyReadData`);
  - answer submission (`QuizAnswers`);
  - question creation, update and entity methods (`QuizQuestions`);
  - the Excel question upload (`QuizUpload`) and its workbook helpers (`Excel`);
  - the one-per-date rule for daily reads (`DailyReadAdmin`);
  - the participant's views (`ParticipantViews`).
- **Groups and assignments** (`GroupData`, `Groups`, `GroupNameUpload`, `Assignments`):
  - membership imports;
  - delete-blocking rules;
  - the submission completion state machine;
  - the exactly-one-of file or link rule;
  - the lazy submission backfill.
- **Small services.** These are:
  - the activity-feed text (`ActivityFeed`);
  - DOI extraction for CrossRef (`CrossRef`);
  - find-or-create of reading categories (`ReadingCategories`);
  - the Go hub's client registry, with channels as bounded queues (`Hub`).
- **Front end** (`WebStorage`, `PersistedQuiz`, `PersistedReport`, `Reminders`, `Sorting`):
  - `localStorage` as a class holding an ordered key list and a map;
  - the quiz and reading-report drafts kept in it;
  - the reminder bookkeeping of `reminder.ts` and of the service worker.

State that the source changes in place (the XP store, the question and
daily-read tables, the group store, the hub and browser storage) is a
class whose methods are proved against specification functions. Lemmas
state the properties of those functions. The rest is functions on values.
`Common` holds the string helpers (ASCII case mapping, trimming, number
rendering). `Sorting` holds the stable descending sort that JavaScript's
`Array.prototype.sort` performs.

## Model

| member | source | states |
|---|---|---|
| XpLedger.Create | Backend/Features/UserXpModule/Domain/UserExpEvent.cs:19-32 | the entity holds the four arguments as given (any amount, zero or negative included), has no id yet, and exactly one `UserExpCreatedEvent` carrying it is raised |
| XpLedger.ParseEventType | Backend/Features/UserXpModule/Domain/UserExpEvent.cs:34-43 | a name parses to a type only when it is that type's stored name; it fails exactly when no type has that name |
| XpLedger.LatestSnapshot | Backend/Features/UserXpModule/Domain/Events/UserExpSnapshotEventHandler.cs:20-26 | the result is one of the user's snapshots with no other of the user's snapshots numbered higher; none exactly when the user has no snapshot |
| XpLedger.RoundToInteger | Backend/Features/UserXpModule/UserExpDomainService.cs:29-31 | the integer cast lands within half a unit of the decimal total, halves rounding away from zero |
| XpLedger.SplitAtBoundary | Backend/Features/UserXpModule/UserExpDomainService.cs:23-28 | the events at or below a boundary and those strictly above it make up the user's whole total, so the event at the boundary is counted once |
| XpLedger.AccumulatedIsTotal | Backend/Features/UserXpModule/UserExpDomainService.cs:13-31 | with consistent snapshots, latest snapshot plus the events with a greater id is the sum of all the user's events |
| XpLedger.GetUserAccumulatedExp | Backend/Features/UserXpModule/UserExpDomainService.cs:11-39 | the integer returned lies within half a unit of the decimal total (latest snapshot plus later events), halves rounding away from zero |
| XpLedger.AccumulatedWithoutSnapshot | Backend/Features/UserXpModule/UserExpDomainService.cs:13-38 | without a snapshot the baseline is 0 and the total is the sum of all the user's events; with neither events nor snapshots the result is 0 |
| XpLedger.ContiguousBaseline | Backend/Features/UserXpModule/Domain/Events/UserExpSnapshotEventHandler.cs:47-50 | when a user's snapshots are numbered 1, 2, 3, ... the latest number is how many snapshots the user has |
| XpLedger.CompactionExp | Backend/Features/UserXpModule/Domain/Events/UserExpSnapshotEventHandler.cs:39-52 | the new snapshot's exp is the sum of the user's events up to and including the triggering event |
| XpLedger.CompactionContiguous | Backend/Features/UserXpModule/Domain/Events/UserExpSnapshotEventHandler.cs:47-53 | a snapshot numbered one past its user's latest keeps every user's numbering 1, 2, 3, ... without gaps |
| XpLedger.CompactionSameTotals | Backend/Features/UserXpModule/Domain/Events/UserExpSnapshotEventHandler.cs:39-53 | a consistent snapshot past the latest one changes no user's accumulated total |
| XpLedger.CompactionKeepsTotals | Backend/Features/UserXpModule/Domain/Events/UserExpSnapshotEventHandler.cs:16-55 | the snapshot compaction writes is consistent, keeps per-user numbering contiguous and leaves every user's accumulated total unchanged |
| XpLedger.Compaction | Backend/Features/UserXpModule/Domain/Events/UserExpSnapshotEventHandler.cs:16-55 | no snapshot exactly when fewer than 7 of the user's events lie above the latest boundary; otherwise the user's next snapshot number, bounded at the triggering event |
| XpLedger.OtherUsersIgnored | Backend/Features/UserXpModule/Domain/Events/UserExpSnapshotEventHandler.cs:27-45 | another user's events change neither the count nor the sum compaction reads, so its decision is the same |
| XpStore.ExpStore.constructor | Backend/Features/UserXpModule/Domain/UserExpEvent.cs:7-13 | an empty ledger: no events, no snapshots |
| XpStore.ExpStore.HandleUserExpCreated | Backend/Features/UserXpModule/Domain/Events/UserExpSnapshotEventHandler.cs:16-55 | appends exactly the snapshot compaction decides (none below 7 unsnapshotted events), changes no event, and leaves every user's total as it was |
| XpStore.ExpStore.Append | Backend/Features/UserXpModule/Domain/UserExpEvent.cs:19-32 | the event is stored with the next id and the save time, the raised event's snapshot handler runs, and only its user's total grows, by its amount |
| XpStore.ExpStore.ReadingExpHandler | Backend/Features/UserXpModule/Domain/Events/ReadingExpEventHandler.cs:17-31 | every report appends exactly one event, page 0 included, and its user's total grows by that amount |
| XpStore.ExpStore.DailyReadsExpHandler | Backend/Features/UserXpModule/Domain/Events/DailyReadsExpEventHandler.cs:17-63 | appends the award `DailyReadsAward` decides and nothing else; only the awarded user's total grows |
| XpStore.ExpStore.StreakExpHandler | Backend/Features/UserXpModule/Domain/Events/StreakExpEventHandler.cs:19-65 | the loop's streak count and the guards append exactly the bonus `StreakBonus` decides; only that user's total grows |
| XpStore.ExpStore.BookCompletedHandler | Backend/Features/UserXpModule/Domain/Events/BookCompletedEventHandler.cs:18-67 | appends exactly the award `BookAward` decides, at most one event; only that user's total grows |
| XpStore.AppendKeepsConsistent | Backend/Features/UserXpModule/Domain/Events/UserExpSnapshotEventHandler.cs:39-52 | an event with an id above every snapshot boundary leaves every snapshot equal to its sum |
| XpStore.StoreTotal | Backend/Features/UserXpModule/UserExpDomainService.cs:11-39 | in a consistent ledger the value read for a user is the sum of all the user's events, rounded as the SQL cast does |
| Leaderboard.LatestSnapshots | Backend/Migrations/20260202132029_AddUserExpLeaderboardView.cs:16-23 | exactly the users with a snapshot have an entry, and each entry is that user's highest-numbered snapshot |
| Leaderboard.ViewIsAccumulated | Backend/Migrations/20260202132029_AddUserExpLeaderboardView.cs:14-41 | exactly the users with at least one event appear, and each total is the latest snapshot's exp plus the user's events strictly after its boundary, the reading formula before its cast |
| Leaderboard.ViewMatchesUserTotal | Backend/Migrations/20260202132029_AddUserExpLeaderboardView.cs:24-41 | the view's total, rounded as the cast does, is what `GetUserAccumulatedExp` returns for that user |
| Leaderboard.NoTailShowsSnapshot | Backend/Migrations/20260202132029_AddUserExpLeaderboardView.cs:36-41 | a user with no event above the boundary shows the snapshot's exp alone, the missing tail counting 0 |
| Leaderboard.LeaderboardQuery | Backend/Features/UserXpModule/UserExpDomainService.cs:52-55 | the sort is `-TotalExp` whatever was asked; paging, search text and direction are kept |
| Leaderboard.QueryLeaderboard | Backend/Features/UserXpModule/UserExpDomainService.cs:52-95 | every row of the page keeps its contents and gets the rank from its page and position; the paging metadata is passed through unchanged |
| Leaderboard.RanksConsecutive | Backend/Features/UserXpModule/UserExpDomainService.cs:79-84 | the first rank on page p of size n is (p-1)·n + 1 and each next row's rank is one more |
| Leaderboard.RankIsPosition | Backend/Features/UserXpModule/UserExpDomainService.cs:79-84 | when the page is the matching slice of the whole ordering, each rank is the row's 1-based position in the whole ordering |
| XpAccrual.ReadingAward | Backend/Features/UserXpModule/Domain/Events/ReadingExpEventHandler.cs:19-28 | the event is the report's user and id, named `ReadingExp`, worth 0.1 per page of the absolute current page |
| XpAccrual.DailyReadsAward | Backend/Features/UserXpModule/Domain/Events/DailyReadsExpEventHandler.cs:17-63 | an award exactly when the daily read exists, the latest answers reach its threshold, no award was given for it and its exp is not 0; the award is its exp, referencing it |
| XpAccrual.DailyReadsAwardOnce | Backend/Features/UserXpModule/Domain/Events/DailyReadsExpEventHandler.cs:40-45 | once the award is stored, the same daily read awards nothing more |
| XpAccrual.ZeroThresholdAwards | Backend/Features/UserXpModule/Domain/Events/DailyReadsExpEventHandler.cs:34-38 | with threshold 0 the award is paid to a user with no answers at all |
| XpAccrual.StreakBonus | Backend/Features/UserXpModule/Domain/Events/StreakExpEventHandler.cs:19-65 | a bonus exactly when the streak is a multiple of 7 and none was paid for this log; it is 10 XP referencing the log |
| XpAccrual.StreakBonusOnlyAtMultiples | Backend/Features/UserXpModule/Domain/Events/StreakExpEventHandler.cs:24-47 | for a stored log, a bonus means a run of exactly 7, 14, 21, ... logged days ends at its date |
| XpAccrual.UnstoredLogEarnsBonus | Backend/Features/UserXpModule/Domain/Events/StreakExpEventHandler.cs:30-47 | were the log not stored yet, the walk would count 0 and every such log would earn the bonus |
| XpAccrual.StreakBonusOnce | Backend/Features/UserXpModule/Domain/Events/StreakExpEventHandler.cs:49-55 | once the bonus is stored, the same streak log earns nothing more |
| Common.FirstWhere | Backend/Features/UserXpModule/Domain/Events/BookCompletedEventHandler.cs:23-26 | `FirstOrDefault`: the result is the first element satisfying the predicate (none before it does); none exactly when no element does |
| XpAccrual.FindResource | Backend/Features/UserXpModule/Domain/Events/BookCompletedEventHandler.cs:23-26 | the result is a resource with the id; none exactly when no resource has it |
| XpAccrual.FindRecommendation | Backend/Features/UserXpModule/Domain/Events/BookCompletedEventHandler.cs:32-35 | the result is a recommendation with the ISBN; none exactly when no recommendation has it |
| XpAccrual.LatestBookCompletedTime | Backend/Features/UserXpModule/Domain/Events/BookCompletedEventHandler.cs:48-52 | none exactly when the user has no `BookCompleted` event; otherwise the creation time of one of them that no other exceeds |
| XpAccrual.BookAward | Backend/Features/UserXpModule/Domain/Events/BookCompletedEventHandler.cs:18-67 | nothing unless the book is completed; a recommended ISBN always earns the recommendation's exp; the fixed award is paid exactly when every earlier `BookCompleted` of the user is at least the cooldown old |
| XpAccrual.RecommendedIgnoredByCooldown | Backend/Features/UserXpModule/Domain/Events/BookCompletedEventHandler.cs:48-56 | a `RecommendedBookCompleted` event changes no later decision |
| XpAccrual.CooldownPerUser | Backend/Features/UserXpModule/Domain/Events/BookCompletedEventHandler.cs:48-56 | another user's completions change no decision for this user |
| Streaks.RunLengthUnique | Backend/Features/UserXpModule/Domain/Events/StreakExpEventHandler.cs:29-44 | a day has one run length of logged days ending at it |
| Streaks.UserDates | Backend/Features/StreakModule/Endpoints/GetUserStreakEndpoint.cs:55-60 | lists exactly the user's logged dates, without repeats when logs are one per day |
| Streaks.AtMost | Backend/Features/UserXpModule/Domain/Events/StreakExpEventHandler.cs:24-27 | keeps exactly the dates not after the bound, drawn from the input, and keeps a newest-first order |
| Streaks.Desc | Backend/Features/UserXpModule/Domain/Events/StreakExpEventHandler.cs:26 | a permutation of the dates, newest first |
| Streaks.StrictWhenNoDup | Backend/Features/UserXpModule/Domain/Events/StreakExpEventHandler.cs:24-27 | a newest-first list of distinct dates is strictly descending |
| Streaks.WalkIsRun | Backend/Features/UserXpModule/Domain/Events/StreakExpEventHandler.cs:29-44 | on strictly descending dates not after the start, the walk's count k has every day in (start-k, start] listed and start-k not listed |
| Streaks.ConsecutiveStreak | Backend/Features/UserXpModule/Domain/Events/StreakExpEventHandler.cs:29-44 | the loop computes the walk's count over the given dates |
| Streaks.StreakIsRun | Backend/Features/UserXpModule/Domain/Events/StreakExpEventHandler.cs:19-44 | the handler's streak for a log's date is the user's run of logged days ending there, and at least 1 when the log is stored |
| Streaks.RunOfList | Backend/Features/UserXpModule/Domain/Events/StreakExpEventHandler.cs:24-44 | the walk over a strictly descending list of exactly the user's days up to a date measures the run ending at that date |
| Streaks.UnstoredLogWalksZero | Backend/Features/UserXpModule/Domain/Events/StreakExpEventHandler.cs:30-44 | for a log that is not stored the walk counts 0 |
| Streaks.StreakStore.constructor | Backend/Features/StreakModule/Domain/StreakLog.cs:6-10 | no logs |
| Streaks.StreakStore.AddIfAbsent | Backend/Features/StreakModule/Domain/StreakLog.cs:16-27 | a new log (user, today) is added exactly when none exists; otherwise nothing changes; afterwards the day is logged, one log per day kept |
| Streaks.StreakStore.LogFromQuizAnswer | Backend/Features/StreakModule/Domain/Events/StreakLogFromQuizAnswerEventHandler.cs:17-50 | a log for today exactly when the daily read exists, the latest answers pass and today has none; otherwise nothing changes |
| Streaks.StreakStore.LogFromReadingReport | Backend/Features/StreakModule/Domain/Events/StreakLogFromReadingReportEventHandler.cs:17-30 | a log for today exactly when the report's user has none today; otherwise nothing changes |
| Streaks.SecondReportSameDay | Backend/Features/StreakModule/Domain/Events/StreakLogFromReadingReportEventHandler.cs:22-29 | after one report the day is logged, and a second log for the same day would break one-per-day, so the second report changes nothing |
| Streaks.DayOfWeek | Backend/Features/StreakModule/Endpoints/GetUserStreakEndpoint.cs:34 | a weekday number 0 to 6, Sunday being 0 |
| Streaks.StartOfWeek | Backend/Features/StreakModule/Endpoints/GetUserStreakEndpoint.cs:34-35 | a Monday, at most 6 days before today, and exactly 6 days before on a Sunday |
| Streaks.FormatDate | Backend/Features/StreakModule/Endpoints/GetUserStreakEndpoint.cs:51 | a four-digit year gives ten characters with dashes at positions 4 and 7 |
| Streaks.SkipWalkIsWalk | Backend/Features/StreakModule/Endpoints/GetUserStreakEndpoint.cs:66-79 | on strictly descending dates not after the start, the endpoint's walk counts what the handler's walk counts |
| Streaks.CurrentStreakIsRun | Backend/Features/StreakModule/Endpoints/GetUserStreakEndpoint.cs:54-79 | the streak is (1 if today is logged and newest) plus the run of logged days ending yesterday; no log today keeps yesterday's run |
| Streaks.CurrentStreak | Backend/Features/StreakModule/Endpoints/GetUserStreakEndpoint.cs:54-79 | a user with no log today and none yesterday has a current streak of 0 (for any today other than `DateOnly.MinValue`) |
| Streaks.NoRecentLogWalksNothing | Backend/Features/StreakModule/Endpoints/GetUserStreakEndpoint.cs:54-79 | with no log today and none yesterday, the walk back from today counts no day |
| Streaks.EarlierWalk | Backend/Features/StreakModule/Endpoints/GetUserStreakEndpoint.cs:66-79 | the walk from a day over the user's days not after it measures the run ending at it |
| Streaks.HeadIsNewest | Backend/Features/StreakModule/Endpoints/GetUserStreakEndpoint.cs:63 | the newest-first list starts with a day exactly when that day is listed and nothing later is |
| Streaks.WeeklyStatus | Backend/Features/StreakModule/Endpoints/GetUserStreakEndpoint.cs:33-52 | seven entries, Monday to Sunday of today's week; a day after today has no status, any other is whether it is logged |
| Streaks.CountCurrentStreak | Backend/Features/StreakModule/Endpoints/GetUserStreakEndpoint.cs:54-79 | the loop computes the current streak |
| Streaks.GetUserStreak | Backend/Features/StreakModule/Endpoints/GetUserStreakEndpoint.cs:28-90 | the response holds the seven weekly statuses, the current streak and the given total |
| QuizScoring.LatestFor | Backend/Features/DailyReadsModule/Endpoints/QuizEndpoints/GetQuizResultEndpoint.cs:56-60 | the counted answer to a question is one of its answers with the highest retry number, and there is none exactly when the question has no answer |
| QuizScoring.CorrectLatestCount | Backend/Features/UserXpModule/Domain/Events/DailyReadsExpEventHandler.cs:34-36 | the handlers' count of correct latest answers is at most the number of answered questions |
| QuizScoring.ZeroThresholdPasses | Backend/Features/DailyReadsModule/Endpoints/QuizEndpoints/GetQuizQuestionsForAttemptEndpoint.cs:56-60 | with a minimum of 0 every user passes, even one without answers |
| QuizScoring.Passes | Backend/Features/DailyReadsModule/Endpoints/QuizEndpoints/GetQuizQuestionsForAttemptEndpoint.cs:56-60 | a threshold of 0 or less always passes, and a pass needs a threshold no larger than the number of questions answered |
| QuizScoring.ResultCount | Backend/Features/DailyReadsModule/Endpoints/QuizEndpoints/GetQuizResultEndpoint.cs:62-72 | the result endpoint's count never exceeds the number of questions |
| QuizScoring.ResultCountIsCardinality | Backend/Features/DailyReadsModule/Endpoints/QuizEndpoints/GetQuizResultEndpoint.cs:64-72 | over distinct question numbers the loop counts each correctly answered question exactly once |
| QuizScoring.ScoresAgree | Backend/Features/DailyReadsModule/Endpoints/QuizEndpoints/GetQuizResultEndpoint.cs:62-72 | with distinct question numbers and non-empty correct answers, the result endpoint's per-question count equals the handlers' per-latest-answer count |
| QuizScoring.GetQuizResult | Backend/Features/DailyReadsModule/Endpoints/QuizEndpoints/GetQuizResultEndpoint.cs:31-83 | not found exactly when the daily read has no questions; otherwise the total, the correct count (at most the total) and the daily read's minimum, 0 when it is missing |
| QuizScoring.CountCorrect | Backend/Features/DailyReadsModule/Endpoints/QuizEndpoints/GetQuizResultEndpoint.cs:62-72 | the loop computes the per-question count |
| QuizScoring.InSeqOrder | Backend/Features/DailyReadsModule/Endpoints/QuizEndpoints/GetQuizQuestionsForAttemptEndpoint.cs:72 | a permutation of the questions in ascending question number |
| QuizScoring.QuizForAttempt | Backend/Features/DailyReadsModule/Endpoints/QuizEndpoints/GetQuizQuestionsForAttemptEndpoint.cs:24-81 | not found exactly when the daily read is missing; not available exactly when it is not dated today; already passed exactly when the user has answers that pass; otherwise the daily read's questions without their correct answers, as a multiset exactly the stripped questions (a permutation), ascending by number |
| QuizScoring.AttemptQuestions | Backend/Features/DailyReadsModule/Endpoints/QuizEndpoints/GetQuizQuestionsForAttemptEndpoint.cs:69-78 | a permutation of the stripped questions (equal multisets with `ForAttemptAll`), ascending by number, each row a question without its correct answer |
| QuizScoring.ForAttemptAllMultiset | Backend/Features/DailyReadsModule/Endpoints/QuizEndpoints/GetQuizQuestionsForAttemptEndpoint.cs:69-78 | stripping the correct answers commutes with reordering: questions with equal multisets give attempt rows with equal multisets |
| DailyReadData.FindDailyRead | Backend/Features/DailyReadsModule/Endpoints/QuizEndpoints/GetQuizQuestionsForAttemptEndpoint.cs:29-34 | a stored daily read with that id, or none exactly when no daily read has it |
| DailyReadData.QuestionsOf | Backend/Features/DailyReadsModule/Endpoints/QuizEndpoints/GetQuizResultEndpoint.cs:36-40 | exactly the questions of that daily read |
| DailyReadData.AnswersOf | Backend/Features/DailyReadsModule/Endpoints/QuizEndpoints/GetQuizResultEndpoint.cs:56-57 | exactly that user's answers to that daily read |
| QuizAnswers.ItemErrors | Backend/Features/DailyReadsModule/Endpoints/QuizEndpoints/SubmitQuizAnswerEndpoint.cs:18-27 | an answer item has no failure exactly when its question number is positive, its answer is not empty or white space (`NotEmpty`) and it is a letter A to E ignoring case; the "answer is required" failure is reported exactly for a blank answer |
| QuizAnswers.ItemsErrors | Backend/Features/DailyReadsModule/Endpoints/QuizEndpoints/SubmitQuizAnswerEndpoint.cs:18-27 | no item failure exactly when every item passes its rules |
| QuizAnswers.ValidateSubmit | Backend/Features/DailyReadsModule/Endpoints/QuizEndpoints/SubmitQuizAnswerEndpoint.cs:11-29 | the request is accepted exactly when it has answers and each has a positive question number and a letter A to E |
| QuizAnswers.NormalizedIsLetter | Backend/Features/DailyReadsModule/Endpoints/QuizEndpoints/SubmitQuizAnswerEndpoint.cs:64 | an accepted answer is stored as one of the upper-case letters A to E |
| QuizAnswers.KeyIndex | Backend/Features/DailyReadsModule/Endpoints/QuizEndpoints/SubmitQuizAnswerEndpoint.cs:66 | the first row with the (user, daily read, question) key, or none exactly when no row has it |
| QuizAnswers.AsWritten | Backend/Features/DailyReadsModule/Endpoints/QuizEndpoints/SubmitQuizAnswerEndpoint.cs:58-75 | old rows keep everything but their answer; every added row is the user's, for that daily read and a question of the request |
| QuizAnswers.Upsert | Backend/Features/DailyReadsModule/Endpoints/QuizEndpoints/SubmitQuizAnswerEndpoint.cs:62-75 | the same frame as the loop as written, with the lookup seeing rows added earlier in the request |
| QuizAnswers.UpsertKeepsUnique | Backend/Features/DailyReadsModule/Domain/Entities/QuizAnswerEntityConfiguration.cs:14-16 | the intended upsert keeps the unique (user, daily read, question) index |
| QuizAnswers.UpsertKeepsOthers | Backend/Features/DailyReadsModule/Endpoints/QuizEndpoints/SubmitQuizAnswerEndpoint.cs:58-60 | rows of other users or other daily reads are untouched |
| QuizAnswers.UpsertLastAnswer | Backend/Features/DailyReadsModule/Endpoints/QuizEndpoints/SubmitQuizAnswerEndpoint.cs:62-75 | after the upsert the row of the last answered question holds that answer, normalised |
| QuizAnswers.KeyIndexIsFirst | Backend/Features/DailyReadsModule/Endpoints/QuizEndpoints/SubmitQuizAnswerEndpoint.cs:66 | the first position holding a key is the one the lookup finds |
| QuizAnswers.KeyIndexUnreached | Backend/Features/DailyReadsModule/Endpoints/QuizEndpoints/SubmitQuizAnswerEndpoint.cs:58-75 | for a question the request does not mention, the lookups before and during the loop agree |
| QuizAnswers.AsWrittenIsUpsertWhenDistinct | Backend/Features/DailyReadsModule/Endpoints/QuizEndpoints/SubmitQuizAnswerEndpoint.cs:58-75 | with distinct question numbers in the request the loop as written is the intended upsert |
| QuizAnswers.RepeatedSeqBreaksSave | Backend/Features/DailyReadsModule/Endpoints/QuizEndpoints/SubmitQuizAnswerEndpoint.cs:58-75 | a request answering question 1 twice is accepted, yet the loop adds two rows for it, breaking the unique index; the upsert keeps one row with the second answer |
| QuizAnswers.ExistingAnswers | Backend/Features/DailyReadsModule/Endpoints/QuizEndpoints/SubmitQuizAnswerEndpoint.cs:58-60 | the dictionary holds exactly the user's answered questions, each mapped to its row |
| QuizAnswers.AsWrittenStep | Backend/Features/DailyReadsModule/Endpoints/QuizEndpoints/SubmitQuizAnswerEndpoint.cs:62-75 | one turn of the loop applies one answer against the lookup built before the loop |
| QuizAnswers.AnswerStore.constructor | Backend/Features/DailyReadsModule/Domain/Entities/QuizAnswer.cs:6-13 | an empty answer table |
| QuizAnswers.AnswerStore.Submit | Backend/Features/DailyReadsModule/Endpoints/QuizEndpoints/SubmitQuizAnswerEndpoint.cs:46-86 | not found exactly when the daily read is missing; a failed save exactly when the loop as written breaks the unique index; otherwise the table is the loop's result; errors change nothing |
| QuizQuestions.Question.Create | Backend/Features/DailyReadsModule/Domain/Entities/QuizQuestion.cs:22-31 | the four values as given and no choices |
| QuizQuestions.Question.Load | Backend/Features/DailyReadsModule/Domain/Entities/QuizQuestion.cs:19 | the entity holds the stored row |
| QuizQuestions.Question.Update | Backend/Features/DailyReadsModule/Domain/Entities/QuizQuestion.cs:33-37 | the text and the correct answer replaced; the rest unchanged |
| QuizQuestions.Question.ClearChoices | Backend/Features/DailyReadsModule/Domain/Entities/QuizQuestion.cs:39-42 | no choices; the rest unchanged |
| QuizQuestions.Question.AddChoice | Backend/Features/DailyReadsModule/Domain/Entities/QuizQuestion.cs:44-48 | one choice appended; the rest unchanged |
| QuizQuestions.UpperLettersMembers | Backend/Features/DailyReadsModule/Endpoints/QuizEndpoints/CreateQuizQuestionEndpoint.cs:40 | the distinct upper-cased letters are at most one per choice, include every choice's letter and only those |
| QuizQuestions.UpperLettersSize | Backend/Features/DailyReadsModule/Endpoints/QuizEndpoints/CreateQuizQuestionEndpoint.cs:40 | at most one distinct letter per choice |
| QuizQuestions.UpperLettersComplete | Backend/Features/DailyReadsModule/Endpoints/QuizEndpoints/CreateQuizQuestionEndpoint.cs:40 | every choice's upper-cased letter is listed |
| QuizQuestions.UpperLettersSound | Backend/Features/DailyReadsModule/Endpoints/QuizEndpoints/CreateQuizQuestionEndpoint.cs:40 | every listed letter is some choice's |
| QuizQuestions.DistinctLettersPairwise | Backend/Features/DailyReadsModule/Endpoints/QuizEndpoints/CreateQuizQuestionEndpoint.cs:40-41 | the count-of-distinct rule holds exactly when no two choices share a letter, ignoring case |
| QuizQuestions.DistinctLettersLast | Backend/Features/DailyReadsModule/Endpoints/QuizEndpoints/CreateQuizQuestionEndpoint.cs:40 | distinct counted letters give pairwise distinct letters, one choice at a time |
| QuizQuestions.PairwiseLettersLast | Backend/Features/DailyReadsModule/Endpoints/QuizEndpoints/CreateQuizQuestionEndpoint.cs:40 | a repeated counted letter gives two choices sharing a letter, one choice at a time |
| QuizQuestions.AmongChoicesSome | Backend/Features/DailyReadsModule/Endpoints/QuizEndpoints/CreateQuizQuestionEndpoint.cs:55-57 | the correct answer matches a choice exactly when some choice's letter equals it, ignoring case |
| QuizQuestions.ChoiceErrorsEmpty | Backend/Features/DailyReadsModule/Endpoints/QuizEndpoints/CreateQuizQuestionEndpoint.cs:43-53 | a choice has no failure exactly when its letter is A to E and its answer is non-empty and at most 500 characters |
| QuizQuestions.EachChoiceErrors | Backend/Features/DailyReadsModule/Endpoints/QuizEndpoints/CreateQuizQuestionEndpoint.cs:43-53 | no failure exactly when every choice is accepted |
| QuizQuestions.BodyErrorsEmpty | Backend/Features/DailyReadsModule/Endpoints/QuizEndpoints/UpdateQuizQuestionEndpoint.cs:21-51 | the shared rules report nothing exactly for an accepted body |
| QuizQuestions.CreateErrors | Backend/Features/DailyReadsModule/Endpoints/QuizEndpoints/CreateQuizQuestionEndpoint.cs:20-59 | accepted exactly when the question number is positive and the body is accepted |
| QuizQuestions.UpdateErrors | Backend/Features/DailyReadsModule/Endpoints/QuizEndpoints/UpdateQuizQuestionEndpoint.cs:17-53 | accepted exactly when the body is accepted |
| QuizQuestions.StoredChoices | Backend/Features/DailyReadsModule/Endpoints/QuizEndpoints/CreateQuizQuestionEndpoint.cs:102-105 | one stored choice per request choice, in order, each normalised |
| QuizQuestions.AcceptedIsConsistent | Backend/Features/DailyReadsModule/Endpoints/QuizEndpoints/CreateQuizQuestionEndpoint.cs:95-105 | an accepted body is stored with its correct answer on one of the stored, distinct choice letters and no empty text |
| QuizQuestions.HasQuestionSome | Backend/Features/DailyReadsModule/Endpoints/QuizEndpoints/CreateQuizQuestionEndpoint.cs:85-86 | the existence test holds exactly when some row has the (daily read, seq) |
| QuizQuestions.FindQuestion | Backend/Features/DailyReadsModule/Endpoints/QuizEndpoints/UpdateQuizQuestionEndpoint.cs:72-74 | the first row with the (daily read, seq), or none exactly when there is none |
| QuizQuestions.AppendKeepsInvariant | Backend/Features/DailyReadsModule/Endpoints/QuizEndpoints/CreateQuizQuestionEndpoint.cs:84-107 | adding a consistent question under a free (daily read, seq) keeps seqs unique and questions consistent |
| QuizQuestions.ReplaceKeepsInvariant | Backend/Features/DailyReadsModule/Endpoints/QuizEndpoints/UpdateQuizQuestionEndpoint.cs:83-89 | replacing a question by a consistent one with the same key keeps the invariant |
| QuizQuestions.AddChoices | Backend/Features/DailyReadsModule/Endpoints/QuizEndpoints/CreateQuizQuestionEndpoint.cs:102-105 | the loop gives the entity exactly the normalised request choices, in order |
| QuizQuestions.RemoveQuestionsOf | Backend/Features/DailyReadsModule/Endpoints/QuizEndpoints/UploadQuizQuestionsEndpoint.cs:117-120 | exactly the rows of other daily reads remain |
| QuizQuestions.RemoveKeepsUnique | Backend/Features/DailyReadsModule/Endpoints/QuizEndpoints/UploadQuizQuestionsEndpoint.cs:117-120 | removing a daily read's questions keeps seqs unique |
| QuizQuestions.UniqueHead | Backend/Features/DailyReadsModule/Endpoints/QuizEndpoints/UploadQuizQuestionsEndpoint.cs:117-120 | the tail of a unique table is unique and does not repeat the head's key |
| QuizQuestions.UniqueCons | Backend/Features/DailyReadsModule/Endpoints/QuizEndpoints/UploadQuizQuestionsEndpoint.cs:117-120 | a row whose key is new in front of a unique table keeps it unique |
| QuizQuestions.ReplaceAllKeepsInvariant | Backend/Features/DailyReadsModule/Endpoints/QuizEndpoints/UploadQuizQuestionsEndpoint.cs:117-146 | replacing a daily read's questions by consistent ones with distinct seqs keeps the invariant |
| QuizQuestions.QuestionTable.constructor | Backend/Features/DailyReadsModule/Domain/Entities/QuizQuestionEntityConfiguration.cs:10 | an empty question table |
| QuizQuestions.QuestionTable.CreateQuestion | Backend/Features/DailyReadsModule/Endpoints/QuizEndpoints/CreateQuizQuestionEndpoint.cs:73-117 | invalid exactly when the validator fails; not found exactly when the daily read is missing; a conflict exactly when the seq is taken; otherwise the normalised question appended; errors change nothing; the invariant kept |
| QuizQuestions.QuestionTable.UpdateQuestion | Backend/Features/DailyReadsModule/Endpoints/QuizEndpoints/UpdateQuizQuestionEndpoint.cs:67-100 | invalid exactly when the validator fails; not found exactly when no question has the key; otherwise the first such question replaced by the normalised request; errors change nothing |
| QuizQuestions.QuestionTable.AddQuestion | Backend/Features/DailyReadsModule/Endpoints/QuizEndpoints/CreateQuizQuestionEndpoint.cs:95-107 | the normalised question appended and the invariant kept |
| QuizQuestions.QuestionTable.ReplaceQuestion | Backend/Features/DailyReadsModule/Endpoints/QuizEndpoints/UpdateQuizQuestionEndpoint.cs:83-89 | the question at that position replaced, keeping its key, and the invariant kept |
| QuizQuestions.QuestionTable.ReplaceQuestionsOf | Backend/Features/DailyReadsModule/Endpoints/QuizEndpoints/UploadQuizQuestionsEndpoint.cs:117-146 | the daily read's questions removed and the imported ones appended, the invariant kept |
| QuizUpload.QuizNumberNamesResolve | Backend/Features/DailyReadsModule/Endpoints/QuizEndpoints/UploadQuizQuestionsEndpoint.cs:206-207 | "quiznumber" matches the first test, and "question" the second and not the first |
| QuizUpload.OptionNamesResolve | Backend/Features/DailyReadsModule/Endpoints/QuizEndpoints/UploadQuizQuestionsEndpoint.cs:208-212 | each option property matches its own test and none before it |
| QuizUpload.CorrectOptionHasNoOption | Backend/Features/DailyReadsModule/Endpoints/QuizEndpoints/UploadQuizQuestionsEndpoint.cs:208-212 | no option test matches "correctoption" |
| QuizUpload.CorrectOptionNameResolves | Backend/Features/DailyReadsModule/Endpoints/QuizEndpoints/UploadQuizQuestionsEndpoint.cs:213 | "correctoption" matches only its own test |
| QuizUpload.PropertyColumns | Backend/Features/DailyReadsModule/Endpoints/QuizEndpoints/UploadQuizQuestionsEndpoint.cs:202-216 | the eight properties are reported at columns A to H of the row |
| QuizUpload.ErrorCellIsPropertyColumn | Backend/Features/DailyReadsModule/Endpoints/QuizEndpoints/UploadQuizQuestionsEndpoint.cs:41-51 | every property is reported at the column its attribute names, and a failure without a property at "Unknown" |
| QuizUpload.NormalizedRows | Backend/Features/DailyReadsModule/Endpoints/QuizEndpoints/UploadQuizQuestionsEndpoint.cs:167-171 | one row per row, each with its correct option upper-cased and trimmed when not blank |
| QuizUpload.FailuresOfBroken | Backend/Features/DailyReadsModule/Endpoints/QuizEndpoints/UploadQuizQuestionsEndpoint.cs:13-34 | the validator reports exactly the broken rules, in rule order, each on its own property |
| QuizUpload.FailuresOfAppend | Backend/Features/DailyReadsModule/Endpoints/QuizEndpoints/UploadQuizQuestionsEndpoint.cs:13-34 | the failures of two rule lists are those of the first, then those of the second |
| QuizUpload.RowFailuresAsWritten | Backend/Features/DailyReadsModule/Endpoints/QuizEndpoints/UploadQuizQuestionsEndpoint.cs:13-34 | the validator as written: at most one failure per rule, and a row without failures has a quiz number, question text, options A and B, and a correct-option letter A to E in either case |
| QuizUpload.RowFailures | Backend/Features/DailyReadsModule/Endpoints/QuizEndpoints/UploadQuizQuestionsEndpoint.cs:13-34 | the corrected validator: the same, and in addition the option the correct letter names is not blank |
| QuizUpload.RowFailuresExtendAsWritten | Backend/Features/DailyReadsModule/Endpoints/QuizEndpoints/UploadQuizQuestionsEndpoint.cs:13-34 | the corrected validator reports what the validator as written reports, then a correct option without text |
| QuizUpload.RowFailuresEmpty | Backend/Features/DailyReadsModule/Endpoints/QuizEndpoints/UploadQuizQuestionsEndpoint.cs:13-34 | the corrected validator reports nothing exactly for an accepted row |
| QuizUpload.CellErrors | Backend/Features/DailyReadsModule/Endpoints/QuizEndpoints/UploadQuizQuestionsEndpoint.cs:175-179 | one cell error per failure, at the failure's property column and the row number |
| QuizUpload.ValidateRows | Backend/Features/DailyReadsModule/Endpoints/QuizEndpoints/UploadQuizQuestionsEndpoint.cs:158-200 | (corrected validator, see Findings) the rows are normalised in place; the check passes exactly when no row has an error, and otherwise reports every error |
| QuizUpload.CheckRow | Backend/Features/DailyReadsModule/Endpoints/QuizEndpoints/UploadQuizQuestionsEndpoint.cs:173-187 | (corrected validator, see Findings) one row's failures at its row number, then a duplicate-number error; its number joins the seen set |
| QuizUpload.ErrorsFromStep | Backend/Features/DailyReadsModule/Endpoints/QuizEndpoints/UploadQuizQuestionsEndpoint.cs:165-190 | one turn of the loop reports the row's errors, then goes on with its number seen |
| QuizUpload.NumbersOfMembers | Backend/Features/DailyReadsModule/Endpoints/QuizEndpoints/UploadQuizQuestionsEndpoint.cs:181-187 | the seen numbers are exactly the rows' quiz numbers |
| QuizUpload.ErrorsFromEmpty | Backend/Features/DailyReadsModule/Endpoints/QuizEndpoints/UploadQuizQuestionsEndpoint.cs:165-197 | no error exactly when every row passes, none repeats a seen number and no two share one |
| QuizUpload.CleanCons | Backend/Features/DailyReadsModule/Endpoints/QuizEndpoints/UploadQuizQuestionsEndpoint.cs:165-190 | a clean sheet is a clean first row followed by rows clean with its number seen |
| QuizUpload.RowsErrorsEmpty | Backend/Features/DailyReadsModule/Endpoints/QuizEndpoints/UploadQuizQuestionsEndpoint.cs:158-200 | (corrected validator, see Findings) the row check passes exactly when every row is accepted and quiz numbers are distinct |
| QuizUpload.ErrorsFromAppend | Backend/Features/DailyReadsModule/Endpoints/QuizEndpoints/UploadQuizQuestionsEndpoint.cs:161-189 | row numbers run on across the sheet and numbers seen earlier stay seen |
| QuizUpload.DuplicateReportedAtLaterRow | Backend/Features/DailyReadsModule/Endpoints/QuizEndpoints/UploadQuizQuestionsEndpoint.cs:181-187 | a repeated quiz number is reported at column A of the later row, numbered from 2 |
| QuizUpload.FirstOccurrenceNotReported | Backend/Features/DailyReadsModule/Endpoints/QuizEndpoints/UploadQuizQuestionsEndpoint.cs:181-187 | the first row with a number gets no duplicate error |
| QuizUpload.UploadChoicesForLetters | Backend/Features/DailyReadsModule/Endpoints/QuizEndpoints/UploadQuizQuestionsEndpoint.cs:134-143 | the five option tests are the options of the letters A to E, in order |
| QuizUpload.ChoicesForLetters | Backend/Features/DailyReadsModule/Endpoints/QuizEndpoints/UploadQuizQuestionsEndpoint.cs:134-143 | the choices carry only the given letters, at most one per letter, each with a non-empty answer |
| QuizUpload.ChoicesForDistinct | Backend/Features/DailyReadsModule/Endpoints/QuizEndpoints/UploadQuizQuestionsEndpoint.cs:134-143 | distinct letters give choices with distinct letters |
| QuizUpload.ChoicesForPresent | Backend/Features/DailyReadsModule/Endpoints/QuizEndpoints/UploadQuizQuestionsEndpoint.cs:134-143 | every letter with a non-blank option gets its choice |
| QuizUpload.AddOption | Backend/Features/DailyReadsModule/Endpoints/QuizEndpoints/UploadQuizQuestionsEndpoint.cs:134-135 | a choice appended exactly when the option is not blank, with its text trimmed |
| QuizUpload.ImportQuestion | Backend/Features/DailyReadsModule/Endpoints/QuizEndpoints/UploadQuizQuestionsEndpoint.cs:127-143 | the question built for one row is the row's imported question |
| QuizUpload.ImportRows | Backend/Features/DailyReadsModule/Endpoints/QuizEndpoints/UploadQuizQuestionsEndpoint.cs:122-146 | one question per row with a number and a question, in row order |
| QuizUpload.AcceptedRowIsConsistent | Backend/Features/DailyReadsModule/Endpoints/QuizEndpoints/UploadQuizQuestionsEndpoint.cs:122-146 | a row the corrected validator accepts imports as a consistent question |
| QuizUpload.NormalizedCorrectOption | Backend/Features/DailyReadsModule/Endpoints/QuizEndpoints/UploadQuizQuestionsEndpoint.cs:167-171 | a normalised correct option naming a letter is that upper-case letter, unchanged by trimming |
| QuizUpload.ChoicesForShape | Backend/Features/DailyReadsModule/Endpoints/QuizEndpoints/UploadQuizQuestionsEndpoint.cs:134-143 | with two texts among distinct letters: two to five choices with distinct letters from the list, non-empty answers, and one for the correct letter |
| QuizUpload.NotBlankAt | Backend/Features/DailyReadsModule/Endpoints/QuizEndpoints/UploadQuizQuestionsEndpoint.cs:124 | a string with a non-white-space character is not blank |
| QuizUpload.UpperIdempotent | Backend/Features/DailyReadsModule/Endpoints/QuizEndpoints/UploadQuizQuestionsEndpoint.cs:170 | upper-casing twice is upper-casing once |
| QuizUpload.TrimKeepsUpper | Backend/Features/DailyReadsModule/Endpoints/QuizEndpoints/UploadQuizQuestionsEndpoint.cs:170 | the trim of an upper-case string is upper-case |
| Common.TrimIdempotent | Backend/Features/DailyReadsModule/Endpoints/QuizEndpoints/UploadQuizQuestionsEndpoint.cs:170 | trimming twice is trimming once (used for the quiz upload's normalised correct option and the group-name upload's re-trimmed cells) |
| QuizUpload.NormalizedNotBlank | Backend/Features/DailyReadsModule/Endpoints/QuizEndpoints/UploadQuizQuestionsEndpoint.cs:168-171 | normalising a non-blank correct option leaves it non-blank |
| QuizUpload.NormalizeIdempotent | Backend/Features/DailyReadsModule/Endpoints/QuizEndpoints/UploadQuizQuestionsEndpoint.cs:167-171 | normalising a normalised row changes nothing |
| QuizUpload.ImportCountWhenValid | Backend/Features/DailyReadsModule/Endpoints/QuizEndpoints/UploadQuizQuestionsEndpoint.cs:122-146 | when every row has a number, a question and a correct option, every row is imported, in order |
| QuizUpload.ImportedConsistent | Backend/Features/DailyReadsModule/Endpoints/QuizEndpoints/UploadQuizQuestionsEndpoint.cs:110-146 | (corrected validator, see Findings) the questions of an accepted upload belong to the daily read, are consistent and have distinct numbers |
| QuizUpload.UploadSucceedsIff | Backend/Features/DailyReadsModule/Endpoints/QuizEndpoints/UploadQuizQuestionsEndpoint.cs:66-156 | (corrected validator, see Findings) the upload succeeds exactly when the daily read exists, the file passes the file and header checks, every row is accepted and numbers are distinct; then every row is imported |
| QuizUpload.Upload | Backend/Features/DailyReadsModule/Endpoints/QuizEndpoints/UploadQuizQuestionsEndpoint.cs:66-156 | (corrected validator, see Findings) answers as the checks say; on success the daily read's questions are replaced by the imported rows, otherwise nothing changes |
| QuizUpload.ImportRowsInto | Backend/Features/DailyReadsModule/Endpoints/QuizEndpoints/UploadQuizQuestionsEndpoint.cs:110-146 | (corrected validator, see Findings) the row check, then on success the daily read's questions replaced by the imported rows; on failure every error and no change |
| QuizUpload.UploadColumnsPass | Backend/Features/DailyReadsModule/Endpoints/QuizEndpoints/UploadQuizQuestionsEndpoint.cs:41-51 | the upload's columns pass the header check when every header name is in the header row |
| QuizUpload.UploadAsWrittenStoresUnanswerable | Backend/Features/DailyReadsModule/Endpoints/QuizEndpoints/UploadQuizQuestionsEndpoint.cs:29-32 | the validator as written accepts a row whose correct option E has no text, and its stored question cannot be answered correctly |
| QuizUpload.UnanswerableRowPasses | Backend/Features/DailyReadsModule/Endpoints/QuizEndpoints/UploadQuizQuestionsEndpoint.cs:13-34 | that row passes the validator as written and fails the corrected one |
| QuizUpload.UnanswerableRowFields | Backend/Features/DailyReadsModule/Endpoints/QuizEndpoints/UploadQuizQuestionsEndpoint.cs:13-34 | that row's texts are not blank, its correct option is E and its option E is blank |
| QuizUpload.UnanswerableRowStored | Backend/Features/DailyReadsModule/Endpoints/QuizEndpoints/UploadQuizQuestionsEndpoint.cs:127-143 | that row is imported as a question whose correct letter is none of its choices |
| QuizUpload.UploadAcceptsNonPositiveNumber | Backend/Features/DailyReadsModule/Endpoints/QuizEndpoints/UploadQuizQuestionsEndpoint.cs:17-18 | a row numbered 0 passes the upload while the create endpoint refuses question number 0 |
| Excel.ValidateExcelFile | Backend/Core/Upload/ExcelHelper.cs:13-32 | empty, over 10 MiB and wrong content type are reported in that order; the file passes exactly when none applies |
| Excel.IsExcelFile | Backend/Core/Upload/ExcelHelper.cs:452-468 | true exactly when the data starts with the four ZIP signature bytes |
| Excel.SignatureIsPrefix | Backend/Core/Upload/ExcelHelper.cs:452-468 | the signature followed by anything passes, and nothing shorter does |
| Excel.ConvertColumnLetterToNumber | Backend/Core/Upload/ExcelHelper.cs:332-347 | the loop computes the column number: -1 for the empty string, otherwise the base-26 value of the upper-cased letters |
| Excel.ColumnName | Backend/Core/Upload/ExcelHelper.cs:332-347 | the name of a positive column is a non-empty string of upper-case letters |
| Excel.LettersPositive | Backend/Core/Upload/ExcelHelper.cs:332-347 | a non-empty identifier of letters is a positive column |
| Excel.LettersInjective | Backend/Core/Upload/ExcelHelper.cs:332-347 | different letter identifiers name different columns |
| Excel.ColumnNameValue | Backend/Core/Upload/ExcelHelper.cs:332-347 | converting a column's name gives back its number |
| Excel.ColumnNumberBijective | Backend/Core/Upload/ExcelHelper.cs:332-347 | on upper-case letters the conversion is a bijection onto the positive numbers |
| Excel.ColumnNumberIgnoresCase | Backend/Core/Upload/ExcelHelper.cs:337 | identifiers differing only in case name the same column |
| Excel.ColumnNumberExamples | Backend/Core/Upload/ExcelHelper.cs:332-347 | A is 1, Z 26, AA 27, AZ 52, BA 53, and "ab" equals "AB" |
| Excel.TryParseInt | Backend/Core/Upload/ExcelHelper.cs:314 | a parsed value lies in the 32-bit range |
| Excel.DigitsOfNatToString | Backend/Core/Upload/Attributes/ExcelColumnAttribute.cs:60 | decimal text is all digits and reads back as its number |
| Excel.ParseIntRoundTrip | Backend/Core/Upload/Attributes/ExcelColumnAttribute.cs:58-63 | parsing reads back the text any 32-bit number is written as |
| Excel.LetterColumn | Backend/Core/Upload/Attributes/ExcelColumnAttribute.cs:47-52 | the letter constructor keeps the letter, the name and the Letter type |
| Excel.NumberColumn | Backend/Core/Upload/Attributes/ExcelColumnAttribute.cs:58-63 | the number constructor keeps the number as text, the name and the Number type |
| Excel.ColumnIndexOfAttributes | Backend/Core/Upload/ExcelHelper.cs:304-326 | a letter attribute resolves to its column, a 32-bit number attribute to itself, a name attribute to -1 without a header dictionary |
| Excel.GetColumnIndex | Backend/Core/Upload/ExcelHelper.cs:304-326 | an unparsable number identifier gives -1; a name identifier gives -1 without a header dictionary, and otherwise -1 or an index the dictionary holds |
| Excel.CellTextDeterminesRow | Backend/Features/DailyReadsModule/Endpoints/QuizEndpoints/UploadQuizQuestionsEndpoint.cs:206-215 | the text of a cell determines its row within a column |
| Excel.IndexByKeys | Backend/Core/Upload/ExcelHelper.cs:83-90 | a key is in the dictionary exactly when some used cell has it as its entry |
| Excel.IndexByLastWins | Backend/Core/Upload/ExcelHelper.cs:83-90 | a key maps to the column of the last cell entered under it |
| Excel.HeaderIndexKeys | Backend/Core/Upload/ExcelHelper.cs:81-90 | the header dictionary holds exactly the keys of non-blank trimmed header texts, ignoring case, each at its last cell's column |
| Excel.HeaderIndex | Backend/Core/Upload/ExcelHelper.cs:81-90 | the header dictionary has no more entries than the header row has cells |
| Excel.IndexBySize | Backend/Core/Upload/ExcelHelper.cs:83-90 | a dictionary built cell by cell has at most one entry per cell |
| Excel.MappingErrors | Backend/Core/Upload/ExcelHelper.cs:93-155 | no mapping error exactly when each mapping passes its check |
| Excel.ValidateColumnStructure | Backend/Core/Upload/ExcelHelper.cs:34-171 | the loops compute the structure errors: a stopping error for an empty file, a missing signature, worksheet or attributes; otherwise each mapping's error in order |
| Excel.StructurePassesIff | Backend/Core/Upload/ExcelHelper.cs:34-171 | the structure passes exactly when the file is a ZIP with a worksheet and attributes and every mapping passes |
| Excel.StructureErrors | Backend/Core/Upload/ExcelHelper.cs:34-171 | an empty file gives exactly the empty-file error; no error requires a non-empty file with the zip signature, a worksheet and at least one mapped column |
| Excel.NamedLetterColumnsPass | Backend/Core/Upload/ExcelHelper.cs:107-114 | letter columns with header names pass when every name is among the header cells, in any case and with surrounding space |
| Excel.NamedLetterColumnPasses | Backend/Core/Upload/ExcelHelper.cs:107-114 | one such column passes |
| Excel.EntryNotEmpty | Backend/Core/Upload/ExcelHelper.cs:85-86 | a header entry is never the empty key |
| Excel.LetterColumnsPassWithoutHeader | Backend/Core/Upload/ExcelHelper.cs:134-155 | without a header row, non-empty letter columns all pass |
| Assignments.AssignmentSubmission.Create | Backend/Features/AssignmentModule/Domain/AssignmentSubmission.cs:20-25 | an open submission of the given assignment and group, without a completion time |
| Assignments.AssignmentSubmission.MarkAsComplete | Backend/Features/AssignmentModule/Domain/AssignmentSubmission.cs:27-31 | completed at the given time, again on a second call; assignment and group unchanged |
| Assignments.AssignmentSubmission.MarkAsIncomplete | Backend/Features/AssignmentModule/Domain/AssignmentSubmission.cs:33-37 | open without a completion time, whatever the state before; assignment and group unchanged |
| Assignments.AppendKeepsOnePerPair | Backend/Features/AssignmentModule/Domain/AssignmentEntityConfiguration.cs:88-90 | appending a submission for a pair that has none keeps one submission per (assignment, group) |
| Assignments.SubmissionsExceptKeepsInvariant | Backend/Features/AssignmentModule/Endpoints/AssignmentEndpoints/DeleteAssignmentEndpoint.cs:44 | removing submissions keeps one per pair, completion paired with its time, and ids below the next id |
| Assignments.GroupOf | Backend/Features/AssignmentModule/Endpoints/SubmissionEndpoints/AddSubmissionFileEndpoint.cs:66-70 | the caller's group, or 0 when the caller is in no group |
| Assignments.ExtensionBeforeFacts | Backend/Features/AssignmentModule/Endpoints/SubmissionEndpoints/AddSubmissionFileEndpoint.cs:99 | a non-empty extension found scanning back is a final dot-suffix without further dots or slashes |
| Assignments.ExtensionFacts | Backend/Features/AssignmentModule/Endpoints/SubmissionEndpoints/AddSubmissionFileEndpoint.cs:99 | the extension is "" or a final dot-suffix of the file name without further dots or slashes |
| Assignments.NoSlashInIntToString | Backend/Features/AssignmentModule/Endpoints/SubmissionEndpoints/AddSubmissionFileEndpoint.cs:100 | a submission id's text has no slash |
| Assignments.SameBeforeSlash | Backend/Features/AssignmentModule/Endpoints/SubmissionEndpoints/AddSubmissionFileEndpoint.cs:100 | two slash-free texts each followed by a slash that start equal strings are equal |
| Assignments.ObjectKeyDeterminesSubmission | Backend/Features/AssignmentModule/Endpoints/SubmissionEndpoints/AddSubmissionFileEndpoint.cs:100 | equal object keys name the same submission, whatever the GUIDs and extensions |
| Assignments.LinkNameNotBlank | Backend/Features/AssignmentModule/Endpoints/SubmissionEndpoints/AddSubmissionFileEndpoint.cs:108 | a link is never stored under a blank name |
| Assignments.NewFile | Backend/Features/AssignmentModule/Endpoints/SubmissionEndpoints/AddSubmissionFileEndpoint.cs:111-116 | the file row has exactly one of an object URI and a link, the URI exactly when a file was sent |
| Assignments.ByCreateTimeDesc | Backend/Features/AssignmentModule/Endpoints/AssignmentEndpoints/GetMyAssignmentsEndpoint.cs:49-52 | a permutation of the assignments, newest first |
| Assignments.Ids | Backend/Features/AssignmentModule/Endpoints/AssignmentEndpoints/GetMyAssignmentsEndpoint.cs:60 | the ids of the assignments, in order |
| Assignments.MissingIds | Backend/Features/AssignmentModule/Endpoints/AssignmentEndpoints/GetMyAssignmentsEndpoint.cs:69 | exactly the listed ids without a submission of the group, each once |
| Assignments.Backfill | Backend/Features/AssignmentModule/Endpoints/AssignmentEndpoints/GetMyAssignmentsEndpoint.cs:72-74 | one open submission per missing id, in order, with consecutive new ids |
| Assignments.Items | Backend/Features/AssignmentModule/Endpoints/AssignmentEndpoints/GetMyAssignmentsEndpoint.cs:107-116 | at most one item per assignment |
| Assignments.ItemsComplete | Backend/Features/AssignmentModule/Endpoints/AssignmentEndpoints/GetMyAssignmentsEndpoint.cs:107-116 | when every assignment has a submission, item k is assignment k with its submission and file count |
| Assignments.BackfillCoversAll | Backend/Features/AssignmentModule/Endpoints/AssignmentEndpoints/GetMyAssignmentsEndpoint.cs:69-84 | after the backfill every listed assignment has a submission of the group |
| Assignments.WithoutAssignment | Backend/Features/AssignmentModule/Endpoints/AssignmentEndpoints/DeleteAssignmentEndpoint.cs:44 | exactly the assignments with another id remain |
| Assignments.AssignmentStore.constructor | Backend/Features/AssignmentModule/Domain/AssignmentEntityConfiguration.cs:88-90 | the given assignments, with no submissions and no files |
| Assignments.AssignmentStore.AddSubmissionFile | Backend/Features/AssignmentModule/Endpoints/SubmissionEndpoints/AddSubmissionFileEndpoint.cs:41-130 | an error exactly when the request sends both or neither, the assignment is missing, or the caller has no group, changing nothing; otherwise the group's submission is found or opened and one file row with exactly one target added to it, the object key naming it |
| Assignments.AssignmentStore.AttachFile | Backend/Features/AssignmentModule/Endpoints/SubmissionEndpoints/AddSubmissionFileEndpoint.cs:78-118 | the submission found or opened, and one file row added to it |
| Assignments.AssignmentStore.SubmissionFor | Backend/Features/AssignmentModule/Endpoints/SubmissionEndpoints/AddSubmissionFileEndpoint.cs:78-92 | the id of the group's submission, opening one when there is none; afterwards the lookup finds it |
| Assignments.AssignmentStore.GetMyAssignments | Backend/Features/AssignmentModule/Endpoints/AssignmentEndpoints/GetMyAssignmentsEndpoint.cs:33-119 | no items and no change for a caller in no group or with no assignments; otherwise the missing submissions backfilled and one item per assignment, newest first |
| Assignments.AssignmentStore.AddSubmissions | Backend/Features/AssignmentModule/Endpoints/AssignmentEndpoints/GetMyAssignmentsEndpoint.cs:72-84 | one open submission per id appended, ids advanced by the count |
| Assignments.AssignmentStore.DeleteAssignment | Backend/Features/AssignmentModule/Endpoints/AssignmentEndpoints/DeleteAssignmentEndpoint.cs:23-54 | not found exactly when the id is unknown; refused exactly when a submission is completed or has a file; otherwise the assignment and its submissions go, and no file pointed at them |
| Groups.MatchedFacts | Backend/Features/GroupModule/Endpoints/UploadGroupMembersEndpoint.cs:170-181 | a registered NIM's student is matched, every matched user is some listed NIM's student, the unregistered NIMs are exactly the unmatched ones, and the two counts add up to the NIMs |
| Groups.MatchedStep | Backend/Features/GroupModule/Endpoints/UploadGroupMembersEndpoint.cs:170-181 | one more NIM adds its student to the matched or itself to the unmatched |
| Groups.WithMembersFacts | Backend/Features/GroupModule/Domain/GroupMember.cs:17-21 | the listed users join the group and everybody else keeps the group they had |
| Groups.FindGroup | Backend/Features/GroupModule/Endpoints/DeleteGroupEndpoint.cs:25 | a stored group with that id, or none exactly when no group has it |
| Groups.WithoutGroupRow | Backend/Features/GroupModule/Endpoints/DeleteGroupEndpoint.cs:51 | exactly the groups with another id remain |
| Groups.WithMembersSnoc | Backend/Features/GroupModule/Endpoints/UploadGroupMembersEndpoint.cs:178-179 | one more user is one more membership in the group |
| Groups.NimResolves | Backend/Features/GroupModule/Endpoints/UploadGroupMembersEndpoint.cs:225-232 | the failure on the NIM property is reported in column A |
| Groups.MemberErrorsFacts | Backend/Features/GroupModule/Endpoints/UploadGroupMembersEndpoint.cs:196-223 | an error exactly when some NIM is blank, each at column A of a blank row |
| Groups.MemberErrorsAsWritten | Backend/Features/GroupModule/Endpoints/UploadGroupMembersEndpoint.cs:196-223 | the row check as written: at most one error per row, each error numbered within the rows' range from the starting index |
| Groups.MemberErrors | Backend/Features/GroupModule/Endpoints/UploadGroupMembersEndpoint.cs:196-223 | the corrected row check: at most one error per row, each at the sheet row the row was read from |
| Groups.MemberErrorsStep | Backend/Features/GroupModule/Endpoints/UploadGroupMembersEndpoint.cs:202-213 | one turn of the loop reports the row's error, then the rest |
| Groups.MemberErrorsNumberedFromTwo | Backend/Features/GroupModule/Endpoints/UploadGroupMembersEndpoint.cs:199 | a blank first NIM, read from sheet row 4, is reported at A2 as written and at A4 with rows keeping their sheet row |
| Groups.ValidateMemberRows | Backend/Features/GroupModule/Endpoints/UploadGroupMembersEndpoint.cs:196-223 | (corrected row numbering, see Findings) the check passes exactly when no row has an error, and otherwise reports them all |
| Groups.DistinctNims | Backend/Features/GroupModule/Endpoints/UploadGroupMembersEndpoint.cs:123-127 | each non-blank NIM, trimmed, listed once, and nothing else |
| Groups.ReplaceTouchesOnlyTheGroup | Backend/Features/GroupModule/Endpoints/UploadGroupMembersEndpoint.cs:162-181 | without conflicts the group's members become exactly the matched students and every other user keeps their group, or stays in none |
| Groups.EmptyFileUnreachable | Backend/Features/GroupModule/Endpoints/UploadGroupMembersEndpoint.cs:129-134 | the empty-file answer is never given once the parser found a NIM |
| Groups.SheetDecides | Backend/Features/GroupModule/Endpoints/UploadGroupMembersEndpoint.cs:51-121 | a sheet error is the answer; without one the rows decide |
| Groups.GroupStore.constructor | Backend/Features/GroupModule/Domain/GroupEntityConfiguration.cs:76-78 | no groups and no members |
| Groups.GroupStore.ImportNims | Backend/Features/GroupModule/Endpoints/UploadGroupMembersEndpoint.cs:167-181 | each registered NIM becomes a membership of the group and is counted; the others are listed unmatched, in order |
| Groups.GroupStore.CheckSheet | Backend/Features/GroupModule/Endpoints/UploadGroupMembersEndpoint.cs:53-101 | the checks before the rows, in order: group, file, size and type, the B1 name, the column structure |
| Groups.GroupStore.UploadMembers | Backend/Features/GroupModule/Endpoints/UploadGroupMembersEndpoint.cs:51-194 | (corrected row numbering, see Findings) answers as the checks say; on success the group's members are replaced by the matched students, otherwise nothing changes |
| Groups.GroupStore.UploadRows | Backend/Features/GroupModule/Endpoints/UploadGroupMembersEndpoint.cs:116-194 | (corrected row numbering, see Findings) the row checks then the import; an error changes nothing |
| Groups.GroupStore.ReplaceMembers | Backend/Features/GroupModule/Endpoints/UploadGroupMembersEndpoint.cs:162-181 | the group's old members go and the matched students come in |
| Groups.GroupStore.DeleteGroup | Backend/Features/GroupModule/Endpoints/DeleteGroupEndpoint.cs:23-61 | not found exactly when the id is unknown; refused exactly when a submission of the group is completed or has a file; otherwise the group, its members and its submissions go, and no file pointed at them |
| Groups.GroupStore.RemoveGroupRows | Backend/Features/GroupModule/Endpoints/DeleteGroupEndpoint.cs:44-51 | the group's submissions, its members and its row removed; nothing else changes |
| Groups.NoFileOfUnblocked | Backend/Features/GroupModule/Endpoints/DeleteGroupEndpoint.cs:34-42 | no file points at a submission of a group nothing blocks |
| Groups.DeleteKeepsGroupIds | Backend/Features/GroupModule/Endpoints/DeleteGroupEndpoint.cs:51 | removing a group keeps every remaining group id positive and below the next id |
| GroupData.WithoutGroups | Backend/Features/GroupModule/Domain/GroupEntityConfiguration.cs:40-43 | exactly the members of other groups remain, each in the group they had |
| GroupData.FileCount | Backend/Features/AssignmentModule/Endpoints/AssignmentEndpoints/GetMyAssignmentsEndpoint.cs:113 | at most the number of files, and 0 exactly when no file points at the submission |
| GroupData.FindSubmission | Backend/Features/AssignmentModule/Endpoints/SubmissionEndpoints/AddSubmissionFileEndpoint.cs:78-79 | a stored submission of the pair, or none exactly when the pair has none |
| GroupData.FindSubmissionAppend | Backend/Features/AssignmentModule/Endpoints/SubmissionEndpoints/AddSubmissionFileEndpoint.cs:81-84 | a submission appended for a pair without one is the one the lookup then finds |
| GroupData.SubmissionsExcept | Backend/Features/GroupModule/Endpoints/DeleteGroupEndpoint.cs:44-49 | exactly the submissions not dropped remain |
| GroupData.SubmissionsExceptKeepsOnePerPair | Backend/Features/AssignmentModule/Domain/AssignmentEntityConfiguration.cs:88-90 | removing submissions keeps one per (assignment, group) |
| GroupNameUpload.HeaderKeysOfNames | Backend/Features/GroupModule/Endpoints/UploadGroupMembersWithGroupNameEndpoint.cs:174-178 | the two header names are found under their case-insensitive keys |
| GroupNameUpload.ReadRowsFacts | Backend/Features/GroupModule/Endpoints/UploadGroupMembersWithGroupNameEndpoint.cs:180-191 | every row read is trimmed, non-empty and from a sheet row between 2 and the last used; every such row with both cells filled is read |
| GroupNameUpload.ParseTemplateA | Backend/Features/GroupModule/Endpoints/UploadGroupMembersWithGroupNameEndpoint.cs:161-194 | the loop computes the parsed rows |
| GroupNameUpload.EntryIndex | Backend/Features/GroupModule/Endpoints/UploadGroupMembersWithGroupNameEndpoint.cs:64-66 | the entry whose name equals the given one ignoring case, or none exactly when there is none |
| GroupNameUpload.GroupedDistinct | Backend/Features/GroupModule/Endpoints/UploadGroupMembersWithGroupNameEndpoint.cs:64-66 | the grouping names each group once, ignoring case, and lists each of its NIMs once |
| GroupNameUpload.GroupedPlacesEveryRow | Backend/Features/GroupModule/Endpoints/UploadGroupMembersWithGroupNameEndpoint.cs:64-66 | every row's NIM is listed under the entry named as its group, ignoring case |
| GroupNameUpload.GroupedFromRows | Backend/Features/GroupModule/Endpoints/UploadGroupMembersWithGroupNameEndpoint.cs:64-66 | every listed NIM comes from a row of that group, ignoring case |
| GroupNameUpload.GroupedNotEmpty | Backend/Features/GroupModule/Endpoints/UploadGroupMembersWithGroupNameEndpoint.cs:56-66 | some rows make some entry |
| GroupNameUpload.ExactGroup | Backend/Features/GroupModule/Endpoints/UploadGroupMembersWithGroupNameEndpoint.cs:70-72 | a stored group with exactly that name, or none exactly when there is none |
| GroupNameUpload.EntryIds | Backend/Features/GroupModule/Endpoints/UploadGroupMembersWithGroupNameEndpoint.cs:76-84 | one group id per entry |
| GroupNameUpload.EntryIdsFacts | Backend/Features/GroupModule/Endpoints/UploadGroupMembersWithGroupNameEndpoint.cs:76-84 | an entry named like a stored group keeps its id; any other gets a group created under its name; created ids are new |
| GroupNameUpload.Phase1Step | Backend/Features/GroupModule/Endpoints/UploadGroupMembersWithGroupNameEndpoint.cs:76-84 | one more entry either reuses its stored group or creates one with the next id |
| GroupNameUpload.FindOrCreate | Backend/Features/GroupModule/Endpoints/UploadGroupMembersWithGroupNameEndpoint.cs:76-84 | the loop computes each entry's id and the created groups, advancing the next id by their count |
| GroupNameUpload.Phase1 | Backend/Features/GroupModule/Endpoints/UploadGroupMembersWithGroupNameEndpoint.cs:74-97 | after the first save the groups are found or created and the named stored groups emptied |
| GroupNameUpload.Kept | Backend/Features/GroupModule/Endpoints/UploadGroupMembersWithGroupNameEndpoint.cs:115-124 | exactly the members that are not found students in unnamed groups remain, unchanged |
| GroupNameUpload.TotalsAccount | Backend/Features/GroupModule/Endpoints/UploadGroupMembersWithGroupNameEndpoint.cs:130-146 | each listed NIM is imported or reported unmatched |
| GroupNameUpload.AllMatchedHas | Backend/Features/GroupModule/Endpoints/UploadGroupMembersWithGroupNameEndpoint.cs:130-146 | every entry's students are among the students added |
| GroupNameUpload.NoRepeatsConcat | Backend/Features/GroupModule/Endpoints/UploadGroupMembersWithGroupNameEndpoint.cs:130-146 | a list without repeats splits into two without repeats that share nothing |
| GroupNameUpload.ImportedFacts | Backend/Features/GroupModule/Endpoints/UploadGroupMembersWithGroupNameEndpoint.cs:130-146 | importing adds exactly the matched students and leaves everybody else in place |
| GroupNameUpload.ImportedPlacement | Backend/Features/GroupModule/Endpoints/UploadGroupMembersWithGroupNameEndpoint.cs:130-146 | without repeats, each matched student ends in the group of the entry listing them |
| GroupNameUpload.ImportedStep | Backend/Features/GroupModule/Endpoints/UploadGroupMembersWithGroupNameEndpoint.cs:130-146 | phase 2 adds the entries' memberships entry after entry |
| GroupNameUpload.Phase2 | Backend/Features/GroupModule/Endpoints/UploadGroupMembersWithGroupNameEndpoint.cs:104-146 | the found students' memberships in unnamed groups are noted and removed, then each entry's NIMs imported; counts and unmatched NIMs as the loop gives them |
| GroupNameUpload.EntryIdsInRange | Backend/Features/GroupModule/Endpoints/UploadGroupMembersWithGroupNameEndpoint.cs:76-84 | entry ids are ids of stored or created groups, all in range |
| GroupNameUpload.UploadAsWritten | Backend/Features/GroupModule/Endpoints/UploadGroupMembersWithGroupNameEndpoint.cs:34-159 | a pre-save error changes nothing; otherwise the first save creates the groups and empties the named ones, which stays so even when the second save is refused |
| GroupNameUpload.UploadByGroupName | Backend/Features/GroupModule/Endpoints/UploadGroupMembersWithGroupNameEndpoint.cs:34-159 | the intended upload: a student under two groups is reported before any save, and every error changes nothing |
| GroupNameUpload.AllMatchedFrom | Backend/Features/GroupModule/Endpoints/UploadGroupMembersWithGroupNameEndpoint.cs:130-146 | every student added is some entry's NIM's student |
| GroupNameUpload.AddedAreFound | Backend/Features/GroupModule/Endpoints/UploadGroupMembersWithGroupNameEndpoint.cs:104-111 | the students added are students the rows name |
| GroupNameUpload.NoMatchedStudentKeepsAGroup | Backend/Features/GroupModule/Endpoints/UploadGroupMembersWithGroupNameEndpoint.cs:86-124 | before phase 2 inserts, no found student has a membership left, so the second save can only clash on a student listed twice |
| GroupNameUpload.EntryGroup | Backend/Features/GroupModule/Endpoints/UploadGroupMembersWithGroupNameEndpoint.cs:76-84 | each entry's group carries that exact name after the first save |
| GroupNameUpload.EntryPlacement | Backend/Features/GroupModule/Endpoints/UploadGroupMembersWithGroupNameEndpoint.cs:130-146 | without repeats, a student listed under an entry ends in that entry's group |
| GroupNameUpload.UploadPlacesEveryStudent | Backend/Features/GroupModule/Endpoints/UploadGroupMembersWithGroupNameEndpoint.cs:34-159 | a successful upload puts each registered student into a group named as their row says, ignoring case |
| GroupNameUpload.UploadKeepsOthers | Backend/Features/GroupModule/Endpoints/UploadGroupMembersWithGroupNameEndpoint.cs:86-146 | a student the upload does not name, in a group it does not name, keeps that group |
| GroupNameUpload.PartialCommitExample | Backend/Features/GroupModule/Endpoints/UploadGroupMembersWithGroupNameEndpoint.cs:96-154 | a sheet listing one student under A and B: the second save is refused, yet B was created and A emptied |
| ActivityFeed.DisplayedXp | Backend/Features/ActivityFeeds/Endpoints/QueryActivityFeedsEndpoint.cs:60 | the whole number of points below the amount, in hundredths |
| ActivityFeed.Describe | Backend/Features/ActivityFeeds/Endpoints/QueryActivityFeedsEndpoint.cs:58-68 | the sentence for each of the three known event names and for any other name, with the floored amount, and a small reading session without an amount |
| ActivityFeed.DescriptionDeterminesXp | Backend/Features/ActivityFeeds/Endpoints/QueryActivityFeedsEndpoint.cs:58-68 | apart from a reading session below one point, equal sentences of the same kind show equal points |
| ActivityFeed.StripAround | Backend/Features/ActivityFeeds/Endpoints/QueryActivityFeedsEndpoint.cs:63-66 | equal texts between the same prefix and suffix are equal |
| ActivityFeed.SmallReadingHasNoAmount | Backend/Features/ActivityFeeds/Endpoints/QueryActivityFeedsEndpoint.cs:63 | a reading session worth less than one point is described without an amount |
| ActivityFeed.JoinedEvents | Backend/Features/ActivityFeeds/Endpoints/QueryActivityFeedsEndpoint.cs:26-27 | exactly the events of existing users, drawn from the events |
| ActivityFeed.Feed | Backend/Features/ActivityFeeds/Endpoints/QueryActivityFeedsEndpoint.cs:24-56 | one row per event joined to a known user, ordered by activity date, newest first |
| ActivityFeed.FeedIsOrderedEvents | Backend/Features/ActivityFeeds/Endpoints/QueryActivityFeedsEndpoint.cs:24-56 | one row per event of a known user, newest first, each carrying its event's user, name, time and description |
| ActivityFeed.FeedRowsFromEvents | Backend/Features/ActivityFeeds/Endpoints/QueryActivityFeedsEndpoint.cs:39-45 | every feed row comes from an event of a known user |
| ActivityFeed.FeedCoversEvents | Backend/Features/ActivityFeeds/Endpoints/QueryActivityFeedsEndpoint.cs:26-45 | every event of a known user has its row |
| ReadingCategories.AfterCreatedHasCategory | Backend/Features/ReadingCategoryModule/Domain/Events/ReadingRecommendationCreatedEventHandler.cs:17-29 | afterwards a category with the trimmed name exists, and a row is added exactly when none matched, ignoring case |
| ReadingCategories.AfterCreated | Backend/Features/ReadingCategoryModule/Domain/Events/ReadingRecommendationCreatedEventHandler.cs:17-29 | the existing categories are kept in order and at most one is added, the trimmed category text |
| ReadingCategories.AfterCreatedIdempotent | Backend/Features/ReadingCategoryModule/Domain/Events/ReadingRecommendationCreatedEventHandler.cs:21-28 | handling the same category twice leaves what one run left |
| ReadingCategories.AfterCreatedKeepsNoCaseDuplicates | Backend/Features/ReadingCategoryModule/Domain/Events/ReadingRecommendationCreatedEventHandler.cs:21-28 | a table without case-insensitive duplicates keeps that property |
| ReadingCategories.CaseVariantsShareOneCategory | Backend/Features/ReadingCategoryModule/Domain/Events/ReadingRecommendationCreatedEventHandler.cs:19-22 | two categories differing only in case and surrounding space yield one row |
| ReadingCategories.CategoryStore.constructor | Backend/Features/ReadingCategoryModule/Domain/Events/ReadingRecommendationCreatedEventHandler.cs:12-15 | the given category names |
| ReadingCategories.CategoryStore.HandleRecommendationCreated | Backend/Features/ReadingCategoryModule/Domain/Events/ReadingRecommendationCreatedEventHandler.cs:17-29 | the table after the handler, as the category function says |
| DailyReadAdmin.RequestErrorsMeaning | Backend/Features/DailyReadsModule/Endpoints/DailyReadEndpoints/CreateDailyReadEndpoint.cs:11-39 | the failures reported are exactly the broken rules, and none exactly when the request is accepted |
| DailyReadAdmin.RequestErrors | Backend/Features/DailyReadsModule/Endpoints/DailyReadEndpoints/CreateDailyReadEndpoint.cs:11-39 | no validation error exactly when the request is accepted, and at most one error per rule |
| DailyReadAdmin.Stored | Backend/Features/DailyReadsModule/Endpoints/DailyReadEndpoints/CreateDailyReadEndpoint.cs:73 | the stored row has the given id and the request's date |
| DailyReadAdmin.IndexOfId | Backend/Features/DailyReadsModule/Endpoints/DailyReadEndpoints/UpdateDailyReadEndpoint.cs:65 | the position of the row with that id, or none exactly when no row has it |
| DailyReadAdmin.OwnDateNotHeld | Backend/Features/DailyReadsModule/Endpoints/DailyReadEndpoints/UpdateDailyReadEndpoint.cs:73 | keeping its own date never conflicts when dates are unique |
| DailyReadAdmin.ReplaceKeepsOnePerDate | Backend/Features/DailyReadsModule/Endpoints/DailyReadEndpoints/UpdateDailyReadEndpoint.cs:73-79 | replacing a row by one whose date no other row holds keeps one daily read per date |
| DailyReadAdmin.DailyReadTable.constructor | Backend/Features/DailyReadsModule/Domain/DailyRead.cs:5-14 | the table of `DailyRead` entities starts empty and satisfies its invariant (unique ids below the next id, one row per date) |
| DailyReadAdmin.DailyReadTable.Create | Backend/Features/DailyReadsModule/Endpoints/DailyReadEndpoints/CreateDailyReadEndpoint.cs:65-87 | invalid exactly when a rule fails; a conflict exactly when the date is taken; otherwise one row added under a new id; errors change nothing |
| DailyReadAdmin.DailyReadTable.Update | Backend/Features/DailyReadsModule/Endpoints/DailyReadEndpoints/UpdateDailyReadEndpoint.cs:62-90 | invalid exactly when a rule fails; not found exactly when the id is unknown; a conflict exactly when another row has the date; otherwise that row overwritten; errors change nothing |
| ParticipantViews.BuildPredicate | Backend/Features/DailyReadsModule/Endpoints/DailyReadEndpoints/GetDailyReadsForParticipantEndpoint.cs:50-73 | the predicate built by successive conjunctions selects exactly the visible daily reads |
| ParticipantViews.SelectVisible | Backend/Features/DailyReadsModule/Endpoints/DailyReadEndpoints/GetDailyReadsForParticipantEndpoint.cs:75 | exactly the visible daily reads, drawn from the table |
| ParticipantViews.ParticipantRowsProperties | Backend/Features/DailyReadsModule/Endpoints/DailyReadEndpoints/GetDailyReadsForParticipantEndpoint.cs:48-75 | each visible daily read, latest first, none after today, only today's without an end date, and no uncategorised one under a category filter |
| ParticipantViews.QuizResultFor | Backend/Features/DailyReadsModule/Endpoints/DailyReadEndpoints/GetDailyReadsForParticipantEndpoint.cs:96-115 | none exactly without questions; otherwise the question count, a correct count at most the answered questions, attempted exactly when an answer exists, and passed by the shared test |
| ParticipantViews.GateAgreesWithView | Backend/Features/DailyReadsModule/Endpoints/QuizEndpoints/GetQuizQuestionsForAttemptEndpoint.cs:44-66 | on the day of a daily read with questions, the attempt endpoint answers already passed exactly when the view shows the quiz attempted and passed |
| ParticipantViews.DailyReadForParticipant | Backend/Features/DailyReadsModule/Endpoints/DailyReadEndpoints/GetDailyReadByIdForParticipantEndpoint.cs:18-71 | not found exactly when the daily read is missing or dated after today; otherwise that daily read with the participant's result |
| ParticipantViews.ListedOpensById | Backend/Features/DailyReadsModule/Endpoints/DailyReadEndpoints/GetDailyReadByIdForParticipantEndpoint.cs:23-30 | with unique ids every listed row opens by id to the same row |
| CrossRef.MarkerIndexFrom | Backend/Features/TestModule/JournalDoi/CrossRefService.cs:17 | -1 or a position at or after the start where the marker begins, ignoring case |
| CrossRef.MarkerIndexFromFirst | Backend/Features/TestModule/JournalDoi/CrossRefService.cs:17 | the scan finds the first occurrence, and -1 exactly when there is none |
| CrossRef.MarkerIndexFromNone | Backend/Features/TestModule/JournalDoi/CrossRefService.cs:17 | -1 exactly when no marker starts at or after the start |
| CrossRef.MarkerIndexFromEarlier | Backend/Features/TestModule/JournalDoi/CrossRefService.cs:17 | no marker starts before the position found |
| CrossRef.ExtractDoi | Backend/Features/TestModule/JournalDoi/CrossRefService.cs:15-23 | the DOI returned is a suffix of the input, and an input with no `doi.org/` marker is returned whole |
| CrossRef.WorksPath | Backend/Features/TestModule/JournalDoi/CrossRefService.cs:7-13 | the request path is `works/` followed by a suffix of the given DOI |
| CrossRef.ExtractDoiMeaning | Backend/Features/TestModule/JournalDoi/CrossRefService.cs:15-23 | without a marker the input is returned; with one, the input is split at the first marker into prefix, the eight marker characters and the result |
| CrossRef.ExtractAfterMarker | Backend/Features/TestModule/JournalDoi/CrossRefService.cs:7-23 | a link whose prefix holds no marker gives the DOI after it, and the request path works/ followed by it |
| CrossRef.ExtractFromLink | Backend/Features/TestModule/JournalDoi/CrossRefService.cs:15-23 | a resolver link gives the DOI after it, whatever it is |
| CrossRef.ExtractFromUpperCaseLink | Backend/Features/TestModule/JournalDoi/CrossRefService.cs:17 | the marker is found in capitals |
| CrossRef.UpperCaseMarker | Backend/Features/TestModule/JournalDoi/CrossRefService.cs:17 | "DOI.ORG/" is the marker ignoring case |
| CrossRef.ExtractFromBare | Backend/Features/TestModule/JournalDoi/CrossRefService.cs:22 | a bare DOI is returned unchanged |
| CrossRef.NoMarkerPrefix | Backend/Features/TestModule/JournalDoi/CrossRefService.cs:17 | neither scheme prefix can hold the start of a marker |
| WebStorage.Storage.constructor | Frontend/app/composables/reading-report.ts:19-22 | an empty store: no keys and no items |
| WebStorage.Storage.SetItem | Frontend/app/composables/reading-report.ts:96 | the item is set; a new key is enumerated last and an existing key keeps its place |
| WebStorage.Storage.RemoveItem | Frontend/app/composables/reading-report.ts:150 | the item is gone and the later keys move one index down |
| WebStorage.RemovePrefixedAsWritten | Frontend/app/composables/quiz.ts:31-36 | the keys left are those of the index-walking removal, and the items are exactly the old items at those keys |
| WebStorage.IndexedRemovalSkipsKey | Frontend/app/composables/quiz.ts:31-36 | with two adjacent prefixed keys, the second survives the index-walking removal |
| WebStorage.AfterIndexedRemoval | Frontend/app/composables/quiz.ts:31-36 | the keys left by the index-walking removal are a subset of the original keys, and every key without the prefix is kept |
| WebStorage.KeysWithPrefix | Frontend/app/composables/reading-report.ts:141-148 | exactly the keys with the prefix, in enumeration order |
| WebStorage.RemoveKeys | Frontend/app/composables/reading-report.ts:150 | exactly the listed items are removed and the other keys keep their order |
| WebStorage.RemovePrefixed | Frontend/app/composables/reading-report.ts:138-151 | every item with the prefix is removed, every other item stays unchanged, and the keys are the unprefixed ones in order |
| WebStorage.UnprefixedMeaning | Frontend/app/composables/reading-report.ts:138-151 | a key survives exactly when it was present without the prefix, and the survivors keep their relative order |
| PersistedQuiz.FirstAnswerIndex | Frontend/app/composables/quiz.ts:98 | -1 or a position of an answer for that seq |
| PersistedQuiz.FirstAnswerIndexFirst | Frontend/app/composables/quiz.ts:98 | -1 exactly when no answer has the seq, and no earlier answer has it |
| PersistedQuiz.AnswerAtSeqIndex | Frontend/app/composables/quiz.ts:92-102 | in a consistent state the answer for a seq sits at that seq's place in the answered list |
| PersistedQuiz.GetQuizState | Frontend/app/composables/quiz.ts:50-63 | a stored state found under a slug's key carries that slug, and a store with no quiz keys yields nothing |
| PersistedQuiz.InitQuizState | Frontend/app/composables/quiz.ts:72-85 | the fresh state is returned and stored under the quiz key of its slug, nothing else changes |
| PersistedQuiz.FreshStateFacts | Frontend/app/composables/quiz.ts:72-85 | a fresh state is consistent, has no answers and reads back from the store |
| PersistedQuiz.SaveAnswer | Frontend/app/composables/quiz.ts:87-107 | without a stored state nothing changes; otherwise the stored state becomes the state with the answer saved |
| PersistedQuiz.WithAnswer | Frontend/app/composables/quiz.ts:87-107 | saving an answer keeps the quiz's slug, title, date and question count, stamps the time, and records the question as answered |
| PersistedQuiz.SaveAnswerMeaning | Frontend/app/composables/quiz.ts:87-107 | saving keeps a state consistent, records the answer for its seq, leaves every other answer alone, and appends a new seq last |
| PersistedQuiz.SaveNewSeq | Frontend/app/composables/quiz.ts:92-95 | a first answer for a seq is recorded and the others kept |
| PersistedQuiz.SaveKnownSeq | Frontend/app/composables/quiz.ts:96-103 | a repeated answer for a seq replaces the earlier one and keeps the others |
| PersistedQuiz.SaveAnswerIdempotent | Frontend/app/composables/quiz.ts:87-107 | saving the same answer twice at the same instant leaves what one save left |
| PersistedQuiz.UnansweredMeaning | Frontend/app/composables/quiz.ts:144-157 | a question is left exactly when no state is stored or its seq is not answered, in input order |
| PersistedQuiz.SavedQuestionNotLeft | Frontend/app/composables/quiz.ts:87-157 | once an answer is saved for a seq no question with that seq is left unanswered |
| PersistedQuiz.GetUnfinishedQuizzes | Frontend/app/composables/quiz.ts:116-142 | the stored quiz states with fewer answers than questions, sorted newest first |
| PersistedQuiz.UnfinishedQuizzesMeaning | Frontend/app/composables/quiz.ts:116-142 | the list is sorted newest first, a permutation of the unfinished states, and holds exactly the states stored under quiz keys with answers left |
| PersistedQuiz.StaleSeqsMembers | Frontend/app/composables/quiz.ts:188-194 | a seq is collected exactly when some answer with it was given to a question edited since |
| PersistedQuiz.CollectStale | Frontend/app/composables/quiz.ts:188-194 | the seqs of the stale answers, in order |
| PersistedQuiz.VisitKey | Frontend/app/composables/quiz.ts:177-217 | one key's pass: whether it is to be removed, and the value saved back, as the clean-up defines them |
| PersistedQuiz.VisitAll | Frontend/app/composables/quiz.ts:176-220 | every key keeps its place and holds its visited value, and exactly the doomed keys are collected |
| PersistedQuiz.CleanupStaleQuizzes | Frontend/app/composables/quiz.ts:171-223 | the store becomes the cleaned store |
| PersistedQuiz.Cleaned | Frontend/app/composables/quiz.ts:171-223 | cleanup only removes or rewrites stored keys, and every key outside the quiz prefix keeps its value |
| PersistedQuiz.CleanupResult | Frontend/app/composables/quiz.ts:222 | removing the collected keys from the visited store gives the cleaned store, still well keyed |
| PersistedQuiz.VisitedThenKept | Frontend/app/composables/quiz.ts:184-213 | a key survives exactly when it is not doomed, and then holds the value the clean-up promises |
| PersistedQuiz.PrunedConsistent | Frontend/app/composables/quiz.ts:196-204 | dropping the stale answers and their seqs in lock step keeps a state consistent |
| PersistedQuiz.OneAnswerPerSeq | Frontend/app/composables/quiz.ts:92-103 | in a consistent state two answers with the same seq are one answer |
| PersistedQuiz.CleanedStateMeaning | Frontend/app/composables/quiz.ts:184-213 | a state survives exactly when dated today with no answers or a fresh answer, and then keeps exactly its fresh answers and nothing else changes |
| PersistedQuiz.CleanupMeaning | Frontend/app/composables/quiz.ts:171-223 | other keys untouched, unreadable entries dropped, a state kept exactly when dated today with no answers or a fresh one, and what is kept is consistent, today's and free of stale answers |
| PersistedQuiz.CleanupIdempotent | Frontend/app/composables/quiz.ts:171-223 | a second clean-up on the same day with the same questions changes nothing |
| PersistedQuiz.CleanedStateSettled | Frontend/app/composables/quiz.ts:184-213 | a state the clean-up kept is kept again unchanged |
| PersistedQuiz.TodayDateMeaning | Frontend/app/composables/quiz.ts:159-169 | the date ends in dash, two month digits, dash, two day digits, and equal texts mean equal days |
| PersistedQuiz.TodayDateParts | Frontend/app/composables/quiz.ts:159-165 | year, zero-padded month counted from one, and zero-padded day, dash-separated |
| PersistedQuiz.TodayDateInjective | Frontend/app/composables/quiz.ts:167-169 | equal date texts come from the same year, month and day |
| PersistedQuiz.TodayDateExample | Frontend/app/composables/quiz.ts:162-164 | 5 January 2026 is "2026-01-05" |
| PersistedQuiz.Init | Frontend/app/composables/quiz.ts:24-43 | (corrected key removal, see Findings; as written: InitAsWritten) the store after recording the user and clearing the quiz keys of a previous one, then cleaned without questions |
| PersistedQuiz.SignInMeaning | Frontend/app/composables/quiz.ts:28-39 | (corrected key removal, see Findings) a different user leaves no quiz key and the new name recorded, other keys kept; the same user changes nothing |
| WebStorage.AfterSignIn | Frontend/app/composables/quiz.ts:28-39 | the corrected sign-in of both composables (the same steps are at reading-report.ts:22-34): an empty name leaves the store unchanged; otherwise the name is stored under the auth key and every other surviving key keeps its value |
| WebStorage.AfterSignInAsWritten | Frontend/app/composables/quiz.ts:28-39 | the sign-in as written, removing by index over a shrinking key list (also reading-report.ts:22-34): the auth key is set, no key is invented or changed, and every key without the prefix survives |
| PersistedQuiz.InitAsWritten | Frontend/app/composables/quiz.ts:24-43 | the store after start-up as written is the cleanup of the as-written sign-in |
| PersistedQuiz.SignInAsWrittenKeepsKey | Frontend/app/composables/quiz.ts:31-36 | with two stored quiz keys and a new user, the second quiz key survives the as-written sign-in |
| PersistedQuiz.ValidateQuizDate | Frontend/app/composables/quiz.ts:225-236 | valid exactly when no state is stored or it is dated today; an invalid state is removed and nothing else changes |
| PersistedReport.StorageKeyMeaning | Frontend/app/composables/reading-report.ts:39-41 | every key carries the prefix and different resources get different keys |
| PersistedReport.InitReportState | Frontend/app/composables/reading-report.ts:65-85 | the fresh draft is returned and stored under its resource's key, nothing else changes |
| PersistedReport.FreshReportFacts | Frontend/app/composables/reading-report.ts:72-82 | a fresh draft starts at the latest page with no time and no insight, reads back, and is not unfinished |
| PersistedReport.UpdateReportState | Frontend/app/composables/reading-report.ts:87-100 | without a stored draft nothing changes; otherwise the stored draft becomes the updated draft |
| PersistedReport.UpdateMeaning | Frontend/app/composables/reading-report.ts:94-98 | each supplied field takes its value, each absent one is kept, the time is stamped, nothing else changes, and repeating the update changes nothing more |
| PersistedReport.GetUnfinishedReports | Frontend/app/composables/reading-report.ts:109-136 | the stored drafts with progress, sorted newest first |
| PersistedReport.UnfinishedReportsMeaning | Frontend/app/composables/reading-report.ts:109-136 | the list is sorted newest first, a permutation of the drafts with progress, and holds exactly the drafts with an insight or reading time |
| PersistedReport.ClearReportState | Frontend/app/composables/reading-report.ts:102-107 | that draft's key is removed and no draft reads back for the resource |
| PersistedReport.ClearAllReports | Frontend/app/composables/reading-report.ts:138-151 | every report key is removed and every other item and key kept in order |
| PersistedReport.ClearedHasNoDrafts | Frontend/app/composables/reading-report.ts:138-151 | after clearing, no draft reads back for any resource |
| PersistedReport.Init | Frontend/app/composables/reading-report.ts:19-36 | (corrected key removal, see Findings; as written: InitAsWritten) the store after recording the user and clearing the report keys of a previous one |
| PersistedReport.SignInSteps | Frontend/app/composables/reading-report.ts:23-34 | the map built on each path, and that it stays well keyed |
| PersistedReport.SignInMeaning | Frontend/app/composables/reading-report.ts:22-34 | (corrected key removal, see Findings) a different user leaves no draft and the new name recorded, other keys kept; the same user changes nothing |
| PersistedReport.InitAsWritten | Frontend/app/composables/reading-report.ts:19-36 | the store after start-up as written is the as-written sign-in |
| PersistedReport.SignInAsWrittenKeepsKey | Frontend/app/composables/reading-report.ts:25-30 | with two stored report keys and a new user, the second report key survives the as-written sign-in |
| Reminders.PadStart2 | Frontend/app/composables/reminder.ts:145 | at least two characters, all digits |
| Reminders.SlotKeyInjective | Frontend/app/composables/reminder.ts:145 | two slots share a key exactly when they are the same time of day |
| Reminders.ReminderKeys | Frontend/app/composables/reminder.ts:13-19 | the four slots are recorded as "9:00", "12:00", "15:00" and "20:00", all different |
| Reminders.SentToday | Frontend/app/composables/reminder.ts:124-137 | a non-empty list comes only from a record dated today, and an error exactly when the stored text is non-empty and unparsable |
| Reminders.Marked | Frontend/app/composables/reminder.ts:148-150 | marking keeps the earlier keys in order, adds at most one, and the key is present afterwards |
| Reminders.SentTodayOtherDay | Frontend/app/composables/reminder.ts:124-137 | a record from another day counts as no reminder sent and no slot sent |
| Reminders.MarkedMeaning | Frontend/app/composables/reminder.ts:148-150 | marking adds exactly the slot's key, keeps the list free of repeats, and marking twice is marking once |
| Reminders.MarkReminderAsSent | Frontend/app/composables/reminder.ts:142-159 | when the record does not parse storage is unchanged and the call fails; otherwise today's list plus the slot is written under today's date |
| Reminders.MarkThenSent | Frontend/app/composables/reminder.ts:142-168 | after marking, the slot reads back as sent today and every other slot reads back as before |
| Reminders.PassedMeaning | Frontend/app/composables/reminder.ts:206-208 | a slot has passed exactly when the minutes since midnight reach its own |
| Reminders.FirstDue | Frontend/app/composables/reminder.ts:204-216 | a due slot is one of the slots, has passed, and was not sent today according to a readable record |
| Reminders.ShouldSendReminder | Frontend/app/composables/reminder.ts:196-217 | the first listed slot that has passed and is not sent today, as the due-slot function gives it |
| Reminders.FirstDueMeaning | Frontend/app/composables/reminder.ts:204-216 | the slot returned is the first passed unsent one; none exactly when every passed slot is sent; a failure exactly when the record does not parse and some slot has passed |
| Reminders.MarkedNotDueAgain | Frontend/app/composables/reminder.ts:142-217 | once the returned slot is marked, the next check the same day does not return it |
| Reminders.GetTimeUntilNextReminder | Frontend/app/composables/reminder.ts:304-327 | the time from now to the earliest next occurrence of a slot, never none |
| Reminders.ClosestMeaning | Frontend/app/composables/reminder.ts:310-324 | the earliest time is one slot's next occurrence and no slot comes sooner |
| Reminders.TimeUntilMeaning | Frontend/app/composables/reminder.ts:304-327 | the wait is at least zero and under a day, no slot comes sooner, and it is zero exactly at a slot's time |
| Reminders.TimeUntilExamples | Frontend/app/composables/reminder.ts:304-327 | at 09:00 the wait is zero; a minute later it is three hours less a minute |
| Reminders.ReminderCache.constructor | Frontend/public/sw-custom.js:104-110 | the record read from the cache |
| Reminders.CheckAndSendReminders | Frontend/public/sw-custom.js:81-155 | a record not of today restarts empty; the passed unsent slots are notified in order and appended; the record is written back once under today |
| Reminders.NotifyPassed | Frontend/public/sw-custom.js:123-147 | the slots notified are the passed ones whose key is not yet in the list, each appended as it is met |
| Reminders.Fired | Frontend/public/sw-custom.js:123-147 | the slots notified are among the configured slots, have passed, and were not sent at the start of the run |
| Reminders.FiredMembers | Frontend/public/sw-custom.js:123-147 | a run notifies exactly the passed slots whose key was not in the starting list |
| Reminders.FiredDistinct | Frontend/public/sw-custom.js:130-145 | a list without repeats stays without repeats |
| Reminders.CheckMeaning | Frontend/public/sw-custom.js:81-155 | a stale or missing record restarts the day; afterwards each passed slot is listed exactly once and the notified slots are exactly the passed ones not yet sent |
| Reminders.FiredNone | Frontend/public/sw-custom.js:130 | when every passed slot is listed already, nothing is notified |
| Hub.ClientsOfMembers | Hub/internal/hub/hub.go:170-171 | the clients listed under a set of users are exactly the registered clients of those users |
| Hub.WithClientMembers | Hub/internal/hub/hub.go:77-80 | registering adds exactly the new client and keeps every user's set non-empty |
| Hub.WithoutClientMembers | Hub/internal/hub/hub.go:97-107 | unregistering removes exactly the leaving client and leaves no empty user entry |
| Hub.RegisterKeepsRegistry | Hub/internal/hub/hub.go:72-89 | registering a client not yet closed keeps the registry invariant |
| Hub.UnregisterKeepsRegistry | Hub/internal/hub/hub.go:92-118 | unregistering keeps the registry invariant, with either way of clearing the session index |
| Hub.WithoutSessionKeepsOthers | Hub/internal/hub/hub.go:110-114 | the corrected unregister removes a session entry exactly when it points at the leaving client, and keeps the others as they were |
| Hub.WithoutSessionAsWritten | Hub/internal/hub/hub.go:110-114 | the session removal as written: any entry under the client's non-empty session id is removed, whichever client it points at; the others are kept unchanged |
| Hub.WithoutSession | Hub/internal/hub/hub.go:110-114 | the corrected removal: only an entry under the client's session id that points at that very client is removed; the others are kept unchanged |
| Hub.RegisterUnregisterRoundTrip | Hub/internal/hub/hub.go:77-107 | registering a new client and unregistering it gives the user index back |
| Hub.StaleUnregisterDropsLiveSession | Hub/internal/hub/hub.go:110-114 | a late unregister of a replaced client deletes the session entry of the live client that took over its session |
| Hub.OfferNBounded | Hub/internal/hub/hub.go:130-136 | repeated non-blocking sends fill a queue up to its capacity and keep what it held |
| Hub.DeliveredTwice | Hub/internal/hub/hub.go:128-152 | a client that is both the session target and one of the user's clients gets the message twice when it has room |
| Hub.OfferStep | Hub/internal/hub/hub.go:172-177 | one more client offered: it joins the offered set, the count grows exactly when it had room, and the queues stay bounded |
| Hub.AcceptingUnion | Hub/internal/hub/hub.go:170-179 | the accepted sends of two disjoint client sets add up |
| Hub.BroadcastLoopStep | Hub/internal/hub/hub.go:170-179 | one user's turn keeps the loop invariant and shrinks the users left |
| Hub.BroadcastDone | Hub/internal/hub/hub.go:170-181 | once every user is done, every registered client was offered the message once and the count is the number that had room |
| Hub.AllClientsIn | Hub/internal/hub/hub.go:170-171 | the registered clients are those listed under their own user |
| Hub.SendOutcome | Hub/internal/hub/hub.go:125-157 | what the session send and the user sends leave in the queues, and that a delivery is reported exactly when some target had room |
| Hub.Hub.constructor | Hub/internal/hub/hub.go:36-46 | no clients and no sessions |
| Hub.Hub.Register | Hub/internal/hub/hub.go:72-89 | the client joins its user's set and, with a session id, becomes that session's holder; queues unchanged |
| Hub.Hub.RemoveFromUser | Hub/internal/hub/hub.go:97-107 | the client leaves its user's set, its queue is closed only if it was registered, and an emptied user entry goes |
| Hub.Hub.UnregisterAsWritten | Hub/internal/hub/hub.go:92-118 | the user-index removal, and the entry for the client's session id deleted whoever holds it |
| Hub.Hub.Unregister | Hub/internal/hub/hub.go:92-118 | the user-index removal, and the session entry deleted only while it points at the leaving client |
| Hub.Hub.SendToClient | Hub/internal/hub/hub.go:121-162 | the indexes are unchanged, each target was offered the message once per way it is addressed, and sent is true exactly when some target had room |
| Hub.Hub.Broadcast | Hub/internal/hub/hub.go:165-182 | the indexes are unchanged, every registered client was offered the message once, and the count is the number that had room |
| Hub.Hub.GetStats | Hub/internal/hub/hub.go:200-214 | the users with a connection, all connections, the named sessions, and no more users than connections |
| Hub.CountConnections | Hub/internal/hub/hub.go:204-207 | the sizes of the users' sets add up to the number of registered clients, at least one per user |
| Hub.OfferAll | Hub/internal/hub/hub.go:171-178 | each client offered the message once, queues bounded, and the count of those with room |
| Hub.OfferToUsers | Hub/internal/hub/hub.go:170-179 | every registered client offered the message once, queues bounded, and the count of those with room |
| Hub.Send | Hub/internal/hub/hub.go:128-157 | each target offered the message once per way it is addressed, queues bounded, and sent exactly when some target had room |
| Sorting.SortDesc | Frontend/app/composables/quiz.ts:139-141 | a permutation of the input ordered by the key, largest first |
| Sorting.InsertDesc | Frontend/app/composables/quiz.ts:139-141 | inserting into a sorted list keeps it sorted and adds exactly the element |

## Left out

- XpLedger.ParseEventType: accepts exactly the five type names. `Enum.Parse` also accepts surrounding white space, numeric values and comma-separated lists, which are not modelled.
- Domain-event dispatch is not modelled. The model has no unit of work, no `SaveChangesAsync` transaction and no handler ordering. Each handler is a method that the caller invokes right after the append or insert that raises its event. The snapshot handler requires that the triggering event is stored and that it is the user's newest.
- The code that raises `ReadingReportCreatedEvent`, `QuizAnsweredEvent` and `BookCompletedEvent` is not part of this model. `ReadingReport.Create` and `QuizAnswer.Create` raise nothing, so each handler's trigger record is an input.
- `ExpConstants.BOOK_COMPLETED` and `BOOK_COMPLETION_COOLDOWN_DAYS` are missing from the constants file, so they are parameters. So is `ReadingRecommendation.Exp`, which exists only as a database column.
- `QuizAnswer.UpdateAnswer` is not in the entity file. It is modelled as setting the answer.
- Clocks are parameters: the server-local, UTC and UTC+8 "today" of the handlers, and the front end's `new Date()`. Time instants are whole seconds or milliseconds. Time zones, daylight saving and days that are not 24 hours long are not modelled.
- `DateOnly.MinValue` is the day number -719162. The streak walk requires that today is not that day.
- PostgreSQL `numeric(18,2)` becomes integer hundredths. C# `int` and `decimal` overflow is not modelled, and neither is the `Int32` range of ids and counts, except where `int.TryParse` decides a branch.
- `PagingService`, EF Core query translation, `Include` loading and database-generated ids are not part of this model. Paged lists are modelled as the full ordered list; ids come from a counter in the store class.
- Failures of `SaveChangesAsync` are not modelled, except the unique-index failure discussed under Findings. This includes the refetch path of `GetMyAssignments` after a failed backfill save.
- The database is not modelled beyond its tables as sequences and maps. In particular, the cascade that deletes a group's members is stated as part of `DeleteGroup`.
- ClosedXML workbook opening is not modelled: the header row and the data cells are inputs. MinIO uploads, object storage and the name-length limits of 150 and 100 characters are not modelled.
- Upper- and lower-casing, trimming and case-insensitive comparison are modelled over ASCII only.
- The user map of the group uploads is assumed to map each NIM to one user, as the unique index on NIM ensures.
- The order of the "moved" summary list in the group-name upload is not modelled: it follows the dictionary order of the source.
- `UserExpEvent.GetNextEventSeq` is not modelled, because nothing calls it.
- ReadingCategories.CategoryStore.HandleRecommendationCreated: adds the category row directly. In the source the row is added to a unit of work that is saved with the recommendation.
- CrossRef: the HTTP call to the CrossRef API is not modelled. Only the request path it builds is.
- Hub: the `Run` select loop, `Shutdown`, the mutex and logging are not modelled. A client's send channel is a bounded queue whose capacity is a parameter; closing it is recorded in a set of closed clients. Go's random map iteration order is not modelled: a broadcast is stated as a set of deliveries.
- Front end: the model leaves out:
  - the server-side early returns;
  - JSON that parses but is not a quiz or report state;
  - the browser's own ordering of `localStorage` keys beyond insertion order;
  - `syncSentRemindersToCache`, `clearSentReminders`, the random reminder message, the `Notification` API and service-worker registration.
- The service worker catches every error of `checkAndSendReminders`. A cached record that does not parse therefore leaves everything unchanged; the model does not represent such a record.
- PersistedQuiz and PersistedReport: every stored state is assumed to sit under the key of its own slug or resource (`WellKeyed`), as `saveQuizState` and `saveReportState` write it. Entries written by other code are not modelled.
- PersistedReport.Init: in the source, `init` writes the auth key twice when the user changes. The model writes it twice as well, with the same result as once.
- QuizUpload.ValidateRows: uses the corrected row validator `QuizUpload.RowFailures`, which also rejects a correct option that names a blank option (see Findings). The validator as written is `QuizUpload.RowFailuresAsWritten`; `QuizUpload.UploadAsWrittenStoresUnanswerable` shows what the endpoint as written stores.
- QuizUpload.CheckRow: checks one row with the corrected validator, as `QuizUpload.ValidateRows` does.
- QuizUpload.RowsErrorsEmpty: states the row check with the corrected validator.
- QuizUpload.ImportedConsistent: holds for the corrected validator; as written, an accepted row can name a blank correct option.
- QuizUpload.UploadSucceedsIff: states the upload with the corrected validator.
- QuizUpload.Upload: runs the corrected validator; as written, the endpoint also accepts a row whose correct option is blank.
- QuizUpload.ImportRowsInto: runs the corrected validator.
- Groups.ValidateMemberRows: reports each blank NIM at the sheet row it was read from (`Groups.MemberErrors`). As written, the endpoint numbers rows from 2 (`Groups.MemberErrorsAsWritten`, see Findings). Whether the check passes is the same under both.
- Groups.GroupStore.UploadMembers: reports row errors at the corrected row numbers, as `Groups.ValidateMemberRows` does.
- Groups.GroupStore.UploadRows: reports row errors at the corrected row numbers, as `Groups.ValidateMemberRows` does.
- PersistedQuiz.Init: removes every quiz key of a previous user (the corrected removal). The start-up as written, which can skip keys, is `PersistedQuiz.InitAsWritten` (see Findings).
- PersistedQuiz.SignInMeaning: states the corrected sign-in; as written some quiz keys can survive (`PersistedQuiz.SignInAsWrittenKeepsKey`).
- PersistedReport.Init: removes every report key of a previous user (the corrected removal). The start-up as written is `PersistedReport.InitAsWritten` (see Findings).
- PersistedReport.SignInMeaning: states the corrected sign-in; as written some report keys can survive (`PersistedReport.SignInAsWrittenKeepsKey`).
- Sorting.SortDesc: fixes one order among rows with equal keys: it is stable, so they keep their input order. SQL `ORDER BY ... DESC` leaves that order unspecified, and `Array.prototype.sort` fixes it only from ES2019 on. Callers rely only on the result being sorted and a permutation.
- Reminders.GetTimeUntilNextReminder: takes "now" as milliseconds since local midnight, so it never returns null. The source's `Date` arithmetic is not modelled.

## Findings

| source | as written | input that shows it | evidently intended | confidence | as-written member | corrected member |
|---|---|---|---|---|---|---|
| Backend/Features/DailyReadsModule/Endpoints/QuizEndpoints/SubmitQuizAnswerEndpoint.cs:58-75 | the dictionary of existing answers is read once before the loop, so a question answered twice in one request is inserted twice | answers [(1, "a"), (1, "b")] for a user with no answers: the validator accepts them and two rows for question 1 are added. With the unique index of QuizAnswerEntityConfiguration.cs:14-16 the save fails. Backend/Migrations/20260205030617_ModifyQuizAnswerIndex.cs makes that index non-unique; under it the save succeeds, and the next submission's `ToDictionaryAsync` at line 60 throws on the duplicate question number | one row per question, holding the last answer | not executed; the effect depends on which index is deployed | QuizAnswers.RepeatedSeqBreaksSave | QuizAnswers.UpsertLastAnswer |
| Backend/Features/DailyReadsModule/Endpoints/QuizEndpoints/UploadQuizQuestionsEndpoint.cs:29-32 | the correct option must be one of A-E, but the option it names need not have text | a row with options A and B and correct option E | the correct option names an option that has text | not executed | QuizUpload.UploadAsWrittenStoresUnanswerable | QuizUpload.AcceptedRowIsConsistent |
| Backend/Features/GroupModule/Endpoints/UploadGroupMembersEndpoint.cs:199 | an error cell's row is the row's index plus 2, but the template's first NIM is on sheet row 4 | a blank first NIM is reported at A2 | the sheet row of the offending cell, A4 | not executed | Groups.MemberErrorsNumberedFromTwo | Groups.MemberErrorsFacts |
| Backend/Features/GroupModule/Endpoints/UploadGroupMembersWithGroupNameEndpoint.cs:96-154 | groups are created and emptied by a first save before a second save inserts the members, which can be refused | student "n1", the only member of group A, listed under A and under B: B is created and A emptied, then the second save fails | a student under two groups is reported before any save, and a failed upload changes nothing | not executed | GroupNameUpload.PartialCommitExample | GroupNameUpload.UploadByGroupName |
| Hub/internal/hub/hub.go:110-114 | unregistering deletes the session entry for the client's session id whoever holds it | client 1 and then client 2 register with session "s"; client 1's late unregister removes "s" although client 2 holds it | delete the entry only while it points at the leaving client | not executed | Hub.StaleUnregisterDropsLiveSession | Hub.Hub.Unregister |
| Frontend/app/composables/quiz.ts:31-36 | keys are removed while `localStorage.key(i)` is walked with a growing index, so the key after a removed one is skipped (the same loop is at reading-report.ts:25-30) | keys "quiz-a" and "quiz-b": "quiz-b" survives the user switch | collect the keys first and remove them afterwards, as `clearAllReports` does | not executed | WebStorage.IndexedRemovalSkipsKey | WebStorage.UnprefixedMeaning |
