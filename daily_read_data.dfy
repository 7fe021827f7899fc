/**
 * Rows of the daily-reads feature: a daily read with its quiz questions and
 * choices, and the participants' answers; plus the lookups that the handlers
 * and endpoints share.
 */
module DailyReadData {
  import opened Common

  /** A calendar date as a day number. */
  type Day = int

  /** A row of `daily_reads`; `exp` is in hundredths of an XP point (numeric(18,2)). */
  datatype DailyRead = DailyRead(
    id: int,
    title: string,
    coverImg: Option<string>,
    content: string,
    date: Day,
    category: Option<string>,
    exp: int,
    minimalCorrectAnswer: int)

  /** A choice: its letter and its text. */
  datatype QuizChoice = QuizChoice(choice: string, answer: string)

  /** A stored quiz question with its choices, in insertion order. */
  datatype QuestionRow = QuestionRow(
    dailyReadId: int,
    questionSeq: int,
    question: string,
    correctAnswer: string,
    choices: seq<QuizChoice>)

  /** A row of `quiz_answers`. */
  datatype QuizAnswer = QuizAnswer(userId: int, dailyReadId: int, questionSeq: int, answer: string, retrySeq: int)

  /** `FindAsync` / `FirstOrDefault` by id. */
  function FindDailyRead(dailyReads: seq<DailyRead>, id: int): (r: Option<DailyRead>)
    ensures r.Some? ==> r.value in dailyReads && r.value.id == id
    ensures r.None? ==> forall d :: d in dailyReads ==> d.id != id
  {
    if |dailyReads| == 0 then None
    else if dailyReads[0].id == id then Some(dailyReads[0])
    else FindDailyRead(dailyReads[1..], id)
  }

  /** The questions of one daily read, in table order. */
  function QuestionsOf(table: seq<QuestionRow>, dailyReadId: int): (r: seq<QuestionRow>)
    ensures forall q :: q in r <==> q in table && q.dailyReadId == dailyReadId
    ensures |r| <= |table|
  {
    if |table| == 0 then []
    else
      assert table == [table[0]] + table[1..];
      (if table[0].dailyReadId == dailyReadId then [table[0]] else []) + QuestionsOf(table[1..], dailyReadId)
  }

  /** One user's answers to one daily read, in table order. */
  function AnswersOf(table: seq<QuizAnswer>, userId: int, dailyReadId: int): (r: seq<QuizAnswer>)
    ensures forall a :: a in r <==> a in table && a.userId == userId && a.dailyReadId == dailyReadId
    ensures |r| <= |table|
  {
    if |table| == 0 then []
    else
      assert table == [table[0]] + table[1..];
      (if table[0].userId == userId && table[0].dailyReadId == dailyReadId then [table[0]] else [])
        + AnswersOf(table[1..], userId, dailyReadId)
  }
}
