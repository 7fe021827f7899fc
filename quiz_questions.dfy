/**
 * Quiz questions of a daily read: the question entity, the validator shared
 * by the create and update endpoints, how a request is normalised into a
 * stored question, and the question table with the two endpoints.
 *
 * A stored question is consistent when its correct answer is one of its
 * choice letters, its 2 to 5 choice letters are distinct letters A to E,
 * and no stored text is empty; the table keeps every question consistent
 * and at most one question per (daily read, question seq).
 */
module QuizQuestions {
  import opened Common
  import opened DailyReadData

  // ----- the entity -----

  /** A quiz question being built or edited; `Row` is what saving it stores. */
  class Question {
    var dailyReadId: int
    var questionSeq: int
    var question: string
    var correctAnswer: string
    var choices: seq<QuizChoice>

    function Row(): QuestionRow
      reads this
    {
      QuestionRow(dailyReadId, questionSeq, question, correctAnswer, choices)
    }

    /** `QuizQuestion.Create`: the four values as given, and no choices yet. */
    constructor Create(dailyReadId: int, questionSeq: int, question: string, correctAnswer: string)
      ensures Row() == QuestionRow(dailyReadId, questionSeq, question, correctAnswer, [])
    {
      this.dailyReadId := dailyReadId;
      this.questionSeq := questionSeq;
      this.question := question;
      this.correctAnswer := correctAnswer;
      this.choices := [];
    }

    /** The tracked entity the data context materialises from a stored row. */
    constructor Load(row: QuestionRow)
      ensures Row() == row
    {
      dailyReadId := row.dailyReadId;
      questionSeq := row.questionSeq;
      question := row.question;
      correctAnswer := row.correctAnswer;
      choices := row.choices;
    }

    /** `Update`: replaces the text and the correct answer; the daily read, the seq and the choices stay. */
    method Update(question: string, correctAnswer: string)
      modifies this
      ensures Row() == old(Row()).(question := question, correctAnswer := correctAnswer)
    {
      this.question := question;
      this.correctAnswer := correctAnswer;
    }

    /** `ClearChoices`: no choices remain; nothing else changes. */
    method ClearChoices()
      modifies this
      ensures Row() == old(Row()).(choices := [])
    {
      choices := [];
    }

    /** `AddChoice`: one choice appended at the end; earlier choices and the other fields stay. */
    method AddChoice(choice: string, answer: string)
      modifies this
      ensures Row() == old(Row()).(choices := old(choices) + [QuizChoice(choice, answer)])
    {
      choices := choices + [QuizChoice(choice, answer)];
    }
  }

  // ----- the validator -----

  /** A choice of a request. */
  datatype ChoiceDto = ChoiceDto(choice: string, answer: string)

  datatype CreateRequest = CreateRequest(questionSeq: int, question: string, correctAnswer: string, choices: seq<ChoiceDto>)

  datatype UpdateRequest = UpdateRequest(question: string, correctAnswer: string, choices: seq<ChoiceDto>)

  /** The validator's rules; an indexed rule names the offending choice. */
  datatype QuestionRule =
    | SeqNotPositive
    | QuestionRequired
    | QuestionTooLong
    | CorrectAnswerRequired
    | CorrectAnswerNotLetter
    | ChoicesRequired
    | TooFewChoices
    | TooManyChoices
    | DuplicateChoices
    | ChoiceRequired(index: nat)
    | ChoiceNotLetter(index: nat)
    | AnswerRequired(index: nat)
    | AnswerTooLong(index: nat)
    | CorrectAnswerNotAmongChoices

  /** The distinct upper-cased choice letters (`Select(c => c.Choice.ToUpper()).Distinct()`). */
  function UpperLetters(choices: seq<ChoiceDto>): set<string>
  {
    if choices == [] then {}
    else UpperLetters(choices[..|choices| - 1]) + {Upper(choices[|choices| - 1].choice)}
  }

  /** The letters count as many distinct values as there are choices. */
  predicate DistinctLetters(choices: seq<ChoiceDto>)
  {
    |UpperLetters(choices)| == |choices|
  }

  /** `Any(c => c.Choice.ToUpper() == CorrectAnswer.ToUpper())`. */
  predicate AmongChoices(correctAnswer: string, choices: seq<ChoiceDto>)
  {
    choices != [] && (Upper(choices[0].choice) == Upper(correctAnswer) || AmongChoices(correctAnswer, choices[1..]))
  }

  /** At most one letter per choice; each choice's letter is listed, and each listed letter is some choice's. */
  lemma UpperLettersMembers(choices: seq<ChoiceDto>)
    ensures |UpperLetters(choices)| <= |choices|
    ensures forall i :: 0 <= i < |choices| ==> Upper(choices[i].choice) in UpperLetters(choices)
    ensures forall x :: x in UpperLetters(choices) ==> exists i :: 0 <= i < |choices| && Upper(choices[i].choice) == x
  {
    UpperLettersSize(choices);
    UpperLettersComplete(choices);
    UpperLettersSound(choices);
  }

  lemma {:induction false} UpperLettersSize(choices: seq<ChoiceDto>)
    ensures |UpperLetters(choices)| <= |choices|
  {
    if choices != [] {
      UpperLettersSize(choices[..|choices| - 1]);
    }
  }

  lemma {:induction false} UpperLettersComplete(choices: seq<ChoiceDto>)
    ensures forall i :: 0 <= i < |choices| ==> Upper(choices[i].choice) in UpperLetters(choices)
  {
    if choices != [] {
      var init := choices[..|choices| - 1];
      UpperLettersComplete(init);
      assert forall i :: 0 <= i < |init| ==> init[i] == choices[i];
    }
  }

  lemma {:induction false} UpperLettersSound(choices: seq<ChoiceDto>)
    ensures forall x :: x in UpperLetters(choices) ==> exists i :: 0 <= i < |choices| && Upper(choices[i].choice) == x
  {
    if choices != [] {
      var init := choices[..|choices| - 1];
      UpperLettersSound(init);
      forall x | x in UpperLetters(choices)
        ensures exists i :: 0 <= i < |choices| && Upper(choices[i].choice) == x
      {
        if x in UpperLetters(init) {
          var i :| 0 <= i < |init| && Upper(init[i].choice) == x;
          assert choices[i] == init[i];
        }
      }
    }
  }

  /** No two choices share a letter, ignoring case. */
  predicate PairwiseDistinctLetters(choices: seq<ChoiceDto>)
  {
    forall i, j :: 0 <= i < j < |choices| ==> Upper(choices[i].choice) != Upper(choices[j].choice)
  }

  /** Counting distinct letters is the same as no two choices sharing a letter, ignoring case. */
  lemma {:induction false} DistinctLettersPairwise(choices: seq<ChoiceDto>)
    ensures DistinctLetters(choices) <==> PairwiseDistinctLetters(choices)
  {
    if choices != [] {
      var init := choices[..|choices| - 1];
      DistinctLettersPairwise(init);
      UpperLettersMembers(init);
      assert forall i :: 0 <= i < |init| ==> init[i] == choices[i];
      if DistinctLetters(choices) {
        DistinctLettersLast(choices);
      } else {
        PairwiseLettersLast(choices);
      }
    }
  }

  /** Distinct letters: the last letter is new and the front's letters are distinct, so no pair clashes. */
  lemma DistinctLettersLast(choices: seq<ChoiceDto>)
    requires choices != [] && DistinctLetters(choices)
    requires var init := choices[..|choices| - 1];
      && (DistinctLetters(init) <==> PairwiseDistinctLetters(init))
      && |UpperLetters(init)| <= |init|
      && (forall i :: 0 <= i < |init| ==> Upper(init[i].choice) in UpperLetters(init))
      && (forall i :: 0 <= i < |init| ==> init[i] == choices[i])
    ensures PairwiseDistinctLetters(choices)
  {
    var n := |choices| - 1;
    var init := choices[..n];
    assert Upper(choices[n].choice) !in UpperLetters(init) && |UpperLetters(init)| == n;
  }

  /** Repeated letters: either the front already repeats one, or the last letter is one of the front's. */
  lemma PairwiseLettersLast(choices: seq<ChoiceDto>)
    requires choices != [] && !DistinctLetters(choices)
    requires var init := choices[..|choices| - 1];
      && (DistinctLetters(init) <==> PairwiseDistinctLetters(init))
      && |UpperLetters(init)| <= |init|
      && (forall x :: x in UpperLetters(init) ==> exists i :: 0 <= i < |init| && Upper(init[i].choice) == x)
      && (forall i :: 0 <= i < |init| ==> init[i] == choices[i])
    ensures !PairwiseDistinctLetters(choices)
  {
    var n := |choices| - 1;
    var init := choices[..n];
    var x := Upper(choices[n].choice);
    if x in UpperLetters(init) {
      var i :| 0 <= i < n && Upper(init[i].choice) == x;
      assert Upper(choices[i].choice) == Upper(choices[n].choice);
    }
  }

  /** Some choice's letter is the correct answer, ignoring case. */
  lemma {:induction false} AmongChoicesSome(correctAnswer: string, choices: seq<ChoiceDto>)
    ensures AmongChoices(correctAnswer, choices) <==>
      exists i :: 0 <= i < |choices| && Upper(choices[i].choice) == Upper(correctAnswer)
  {
    if choices != [] {
      AmongChoicesSome(correctAnswer, choices[1..]);
      assert forall i :: 1 <= i < |choices| ==> choices[1..][i - 1] == choices[i];
      if AmongChoices(correctAnswer, choices[1..]) {
        var i :| 0 <= i < |choices| - 1 && Upper(choices[1..][i].choice) == Upper(correctAnswer);
        assert Upper(choices[i + 1].choice) == Upper(correctAnswer);
      }
    }
  }

  /** The failures of one choice's rules, choice first, then answer. */
  function ChoiceErrors(c: ChoiceDto, index: nat): seq<QuestionRule>
  {
    (if IsBlank(c.choice) then [ChoiceRequired(index)] else [])
    + (if IsChoiceLetter(c.choice) then [] else [ChoiceNotLetter(index)])
    + (if IsBlank(c.answer) then [AnswerRequired(index)] else [])
    + (if |c.answer| <= 500 then [] else [AnswerTooLong(index)])
  }

  /** A choice every rule accepts. */
  predicate ChoiceAccepted(c: ChoiceDto)
  {
    IsChoiceLetter(c.choice) && !IsBlank(c.answer) && |c.answer| <= 500
  }

  lemma ChoiceErrorsEmpty(c: ChoiceDto, index: nat)
    ensures ChoiceErrors(c, index) == [] <==> ChoiceAccepted(c)
  {
    if IsChoiceLetter(c.choice) {
      ChoiceLetterNormalized(c.choice);
      assert !IsWhiteSpace(c.choice[0]);
    }
  }

  /** `RuleForEach(Choices)`: each choice's failures, in list order. */
  function EachChoiceErrors(choices: seq<ChoiceDto>): (r: seq<QuestionRule>)
    ensures r == [] <==> forall i :: 0 <= i < |choices| ==> ChoiceAccepted(choices[i])
  {
    if choices == [] then []
    else
      var init := choices[..|choices| - 1];
      ChoiceErrorsEmpty(choices[|choices| - 1], |choices| - 1);
      assert forall i :: 0 <= i < |init| ==> init[i] == choices[i];
      EachChoiceErrors(init) + ChoiceErrors(choices[|choices| - 1], |choices| - 1)
  }

  /** The rules both validators share, in declaration order; every rule of a property runs. */
  function BodyErrors(question: string, correctAnswer: string, choices: seq<ChoiceDto>): seq<QuestionRule>
  {
    (if IsBlank(question) then [QuestionRequired] else [])
    + (if |question| <= 1000 then [] else [QuestionTooLong])
    + (if IsBlank(correctAnswer) then [CorrectAnswerRequired] else [])
    + (if IsChoiceLetter(correctAnswer) then [] else [CorrectAnswerNotLetter])
    + (if |choices| == 0 then [ChoicesRequired] else [])
    + (if |choices| >= 2 then [] else [TooFewChoices])
    + (if |choices| <= 5 then [] else [TooManyChoices])
    + (if DistinctLetters(choices) then [] else [DuplicateChoices])
    + EachChoiceErrors(choices)
    + (if AmongChoices(correctAnswer, choices) then [] else [CorrectAnswerNotAmongChoices])
  }

  /** What the shared rules accept. */
  predicate BodyAccepted(question: string, correctAnswer: string, choices: seq<ChoiceDto>)
  {
    && !IsBlank(question) && |question| <= 1000
    && IsChoiceLetter(correctAnswer)
    && 2 <= |choices| <= 5
    && DistinctLetters(choices)
    && (forall i :: 0 <= i < |choices| ==> ChoiceAccepted(choices[i]))
    && AmongChoices(correctAnswer, choices)
  }

  /** The shared rules report nothing exactly for an accepted body. */
  lemma BodyErrorsEmpty(question: string, correctAnswer: string, choices: seq<ChoiceDto>)
    ensures BodyErrors(question, correctAnswer, choices) == [] <==> BodyAccepted(question, correctAnswer, choices)
  {
    if IsChoiceLetter(correctAnswer) {
      ChoiceLetterNormalized(correctAnswer);
      assert !IsWhiteSpace(correctAnswer[0]);
    }
  }

  /** `CreateQuizQuestionValidator`: the seq rule, then the shared rules. */
  function CreateErrors(req: CreateRequest): (r: seq<QuestionRule>)
    ensures r == [] <==> req.questionSeq > 0 && BodyAccepted(req.question, req.correctAnswer, req.choices)
  {
    BodyErrorsEmpty(req.question, req.correctAnswer, req.choices);
    (if req.questionSeq > 0 then [] else [SeqNotPositive]) + BodyErrors(req.question, req.correctAnswer, req.choices)
  }

  /** `UpdateQuizQuestionValidator`: the shared rules. */
  function UpdateErrors(req: UpdateRequest): (r: seq<QuestionRule>)
    ensures r == [] <==> BodyAccepted(req.question, req.correctAnswer, req.choices)
  {
    BodyErrorsEmpty(req.question, req.correctAnswer, req.choices);
    BodyErrors(req.question, req.correctAnswer, req.choices)
  }

  // ----- normalisation and consistency -----

  /** A choice as stored: letter upper-cased and trimmed, answer trimmed. */
  function StoredChoice(c: ChoiceDto): QuizChoice
  {
    QuizChoice(Trim(Upper(c.choice)), Trim(c.answer))
  }

  function StoredChoices(choices: seq<ChoiceDto>): (r: seq<QuizChoice>)
    ensures |r| == |choices| && forall i :: 0 <= i < |choices| ==> r[i] == StoredChoice(choices[i])
  {
    seq(|choices|, i requires 0 <= i < |choices| => StoredChoice(choices[i]))
  }

  /** A stored question that can be answered correctly and shows sensible choices. */
  predicate Consistent(q: QuestionRow)
  {
    && q.question != ""
    && q.correctAnswer in ChoiceLetters
    && 2 <= |q.choices| <= 5
    && (forall i :: 0 <= i < |q.choices| ==> q.choices[i].choice in ChoiceLetters && q.choices[i].answer != "")
    && (forall i, j :: 0 <= i < j < |q.choices| ==> q.choices[i].choice != q.choices[j].choice)
    && (exists i :: 0 <= i < |q.choices| && q.choices[i].choice == q.correctAnswer)
  }

  /** The row an accepted request stores, for the create and the update endpoints alike. */
  function StoredQuestion(dailyReadId: int, questionSeq: int, question: string, correctAnswer: string, choices: seq<ChoiceDto>)
    : QuestionRow
  {
    QuestionRow(dailyReadId, questionSeq, Trim(question), Trim(Upper(correctAnswer)), StoredChoices(choices))
  }

  /**
   * What the validator accepts is stored consistently: the correct answer
   * is upper-cased onto one of the stored choice letters, which stay
   * distinct after normalisation, and no trimmed text is empty.
   */
  lemma AcceptedIsConsistent(dailyReadId: int, questionSeq: int, question: string, correctAnswer: string, choices: seq<ChoiceDto>)
    requires BodyAccepted(question, correctAnswer, choices)
    ensures Consistent(StoredQuestion(dailyReadId, questionSeq, question, correctAnswer, choices))
  {
    var q := StoredQuestion(dailyReadId, questionSeq, question, correctAnswer, choices);
    TrimEmptyIffBlank(question);
    ChoiceLetterNormalized(correctAnswer);
    forall i | 0 <= i < |choices|
      ensures q.choices[i].choice == Upper(choices[i].choice) && q.choices[i].choice in ChoiceLetters
      ensures q.choices[i].answer != ""
    {
      ChoiceLetterNormalized(choices[i].choice);
      TrimEmptyIffBlank(choices[i].answer);
    }
    DistinctLettersPairwise(choices);
    AmongChoicesSome(correctAnswer, choices);
    var k :| 0 <= k < |choices| && Upper(choices[k].choice) == Upper(correctAnswer);
    assert q.choices[k].choice == q.correctAnswer;
  }

  /** At most one question per (daily read, question seq). */
  predicate UniqueSeqs(rows: seq<QuestionRow>)
  {
    forall i, j :: 0 <= i < j < |rows| ==>
      rows[i].dailyReadId != rows[j].dailyReadId || rows[i].questionSeq != rows[j].questionSeq
  }

  /** `AnyAsync` by (daily read, question seq). */
  predicate HasQuestion(rows: seq<QuestionRow>, dailyReadId: int, questionSeq: int)
  {
    rows != [] && ((rows[0].dailyReadId == dailyReadId && rows[0].questionSeq == questionSeq)
                   || HasQuestion(rows[1..], dailyReadId, questionSeq))
  }

  lemma {:induction false} HasQuestionSome(rows: seq<QuestionRow>, dailyReadId: int, questionSeq: int)
    ensures HasQuestion(rows, dailyReadId, questionSeq) <==>
      exists i :: 0 <= i < |rows| && rows[i].dailyReadId == dailyReadId && rows[i].questionSeq == questionSeq
  {
    if rows != [] {
      HasQuestionSome(rows[1..], dailyReadId, questionSeq);
      assert forall i :: 1 <= i < |rows| ==> rows[1..][i - 1] == rows[i];
      if HasQuestion(rows[1..], dailyReadId, questionSeq) {
        var i :| 0 <= i < |rows| - 1 && rows[1..][i].dailyReadId == dailyReadId && rows[1..][i].questionSeq == questionSeq;
        assert rows[i + 1] == rows[1..][i];
      }
    }
  }

  /** `FirstOrDefault` by (daily read, question seq): the first matching position. */
  function FindQuestion(rows: seq<QuestionRow>, dailyReadId: int, questionSeq: int): (r: Option<nat>)
    ensures r.None? <==> !HasQuestion(rows, dailyReadId, questionSeq)
    ensures r.Some? ==> r.value < |rows| && rows[r.value].dailyReadId == dailyReadId && rows[r.value].questionSeq == questionSeq
    ensures r.Some? ==> forall i :: 0 <= i < r.value ==>
      rows[i].dailyReadId != dailyReadId || rows[i].questionSeq != questionSeq
  {
    if rows == [] then None
    else if rows[0].dailyReadId == dailyReadId && rows[0].questionSeq == questionSeq then Some(0)
    else
      var rest := FindQuestion(rows[1..], dailyReadId, questionSeq);
      assert forall i :: 1 <= i < |rows| ==> rows[1..][i - 1] == rows[i];
      if rest.None? then None
      else
        assert rows[1..][rest.value] == rows[rest.value + 1];
        Some(rest.value + 1)
  }

  // ----- the question table and the endpoints -----

  /** What the table keeps: unique (daily read, seq) and every question consistent. */
  predicate TableInvariant(rows: seq<QuestionRow>)
  {
    UniqueSeqs(rows) && forall i :: 0 <= i < |rows| ==> Consistent(rows[i])
  }

  /** Adding a consistent question under a free (daily read, seq) keeps the invariant. */
  lemma AppendKeepsInvariant(rows: seq<QuestionRow>, q: QuestionRow)
    requires TableInvariant(rows) && Consistent(q) && !HasQuestion(rows, q.dailyReadId, q.questionSeq)
    ensures TableInvariant(rows + [q])
  {
    HasQuestionSome(rows, q.dailyReadId, q.questionSeq);
    var rows' := rows + [q];
    forall i, j | 0 <= i < j < |rows'|
      ensures rows'[i].dailyReadId != rows'[j].dailyReadId || rows'[i].questionSeq != rows'[j].questionSeq
    {
      if j == |rows| {
        assert rows'[i] == rows[i];
      }
    }
  }

  /** Replacing a question by a consistent one with the same (daily read, seq) keeps the invariant. */
  lemma ReplaceKeepsInvariant(rows: seq<QuestionRow>, k: nat, q: QuestionRow)
    requires TableInvariant(rows) && k < |rows| && Consistent(q)
    requires q.dailyReadId == rows[k].dailyReadId && q.questionSeq == rows[k].questionSeq
    ensures TableInvariant(rows[k := q])
  {
  }

  /** The endpoints' loop over the request's choices: each one normalised and added, in order. */
  method AddChoices(quizQuestion: Question, choices: seq<ChoiceDto>)
    requires quizQuestion.choices == []
    modifies quizQuestion
    ensures quizQuestion.Row() == old(quizQuestion.Row()).(choices := StoredChoices(choices))
  {
    ghost var start := quizQuestion.Row();
    for i := 0 to |choices|
      invariant quizQuestion.Row() == start.(choices := StoredChoices(choices[..i]))
    {
      assert StoredChoices(choices[..i + 1]) == StoredChoices(choices[..i]) + [StoredChoice(choices[i])];
      quizQuestion.AddChoice(Trim(Upper(choices[i].choice)), Trim(choices[i].answer));
    }
    assert choices[..|choices|] == choices;
  }

  /** The table without one daily read's questions (`RemoveRange` of the questions of that daily read). */
  function RemoveQuestionsOf(rows: seq<QuestionRow>, dailyReadId: int): (r: seq<QuestionRow>)
    ensures forall q :: q in r <==> q in rows && q.dailyReadId != dailyReadId
  {
    if rows == [] then []
    else (if rows[0].dailyReadId == dailyReadId then [] else [rows[0]]) + RemoveQuestionsOf(rows[1..], dailyReadId)
  }

  lemma {:induction false} RemoveKeepsUnique(rows: seq<QuestionRow>, dailyReadId: int)
    requires UniqueSeqs(rows)
    ensures UniqueSeqs(RemoveQuestionsOf(rows, dailyReadId))
  {
    if rows != [] {
      UniqueHead(rows);
      RemoveKeepsUnique(rows[1..], dailyReadId);
      var rest := RemoveQuestionsOf(rows[1..], dailyReadId);
      if rows[0].dailyReadId != dailyReadId {
        UniqueCons(rows[0], rest);
      } else {
        assert [] + rest == rest;
      }
    }
  }

  /** A table with unique keys stays so without its first row, and no later row shares the first row's key. */
  lemma UniqueHead(rows: seq<QuestionRow>)
    requires rows != [] && UniqueSeqs(rows)
    ensures UniqueSeqs(rows[1..])
    ensures forall q :: q in rows[1..] ==> q.dailyReadId != rows[0].dailyReadId || q.questionSeq != rows[0].questionSeq
  {
    var tail := rows[1..];
    assert forall i :: 0 <= i < |tail| ==> tail[i] == rows[i + 1];
  }

  /** Putting a row in front of a table with unique keys none of which is its key keeps the keys unique. */
  lemma UniqueCons(x: QuestionRow, rest: seq<QuestionRow>)
    requires UniqueSeqs(rest)
    requires forall q :: q in rest ==> q.dailyReadId != x.dailyReadId || q.questionSeq != x.questionSeq
    ensures UniqueSeqs([x] + rest)
  {
    var r := [x] + rest;
    forall i, j | 0 <= i < j < |r|
      ensures r[i].dailyReadId != r[j].dailyReadId || r[i].questionSeq != r[j].questionSeq
    {
      assert r[j] == rest[j - 1];
      if i > 0 {
        assert r[i] == rest[i - 1];
      }
    }
  }

  /**
   * Replacing one daily read's questions by a set of consistent questions
   * of that daily read with distinct seqs keeps the invariant.
   */
  lemma ReplaceAllKeepsInvariant(rows: seq<QuestionRow>, dailyReadId: int, added: seq<QuestionRow>)
    requires TableInvariant(rows)
    requires forall i :: 0 <= i < |added| ==> added[i].dailyReadId == dailyReadId && Consistent(added[i])
    requires UniqueSeqs(added)
    ensures TableInvariant(RemoveQuestionsOf(rows, dailyReadId) + added)
  {
    var kept := RemoveQuestionsOf(rows, dailyReadId);
    RemoveKeepsUnique(rows, dailyReadId);
    var r := kept + added;
    forall i | 0 <= i < |r| ensures Consistent(r[i]) {
      if i < |kept| {
        assert r[i] in kept;
      } else {
        assert r[i] == added[i - |kept|];
      }
    }
    forall i, j | 0 <= i < j < |r|
      ensures r[i].dailyReadId != r[j].dailyReadId || r[i].questionSeq != r[j].questionSeq
    {
      if j < |kept| {
        assert r[i] == kept[i] && r[j] == kept[j];
      } else if i < |kept| {
        assert r[i] in kept && r[j] == added[j - |kept|];
      } else {
        assert r[i] == added[i - |kept|] && r[j] == added[j - |kept|];
      }
    }
  }

  datatype CreateError = CreateInvalid(errors: seq<QuestionRule>) | DailyReadNotFound | QuestionSeqExists

  datatype UpdateError = UpdateInvalid(errors: seq<QuestionRule>) | QuestionNotFound

  /** The quiz-question table. */
  class QuestionTable {
    var rows: seq<QuestionRow>

    predicate Valid()
      reads this
    {
      TableInvariant(rows)
    }

    constructor ()
      ensures Valid() && rows == []
    {
      rows := [];
    }

    /**
     * `CreateQuizQuestionEndpoint`: the request is validated first; then a
     * missing daily read is not found and a taken (daily read, seq) is a
     * conflict; otherwise the normalised question, its choices in request
     * order, is added.
     */
    method CreateQuestion(dailyReads: seq<DailyRead>, dailyReadId: int, req: CreateRequest) returns (r: Result<(), CreateError>)
      requires Valid()
      modifies this
      ensures Valid()
      ensures r == Err(CreateInvalid(CreateErrors(req))) <==> CreateErrors(req) != []
      ensures r == Err(DailyReadNotFound) <==> CreateErrors(req) == [] && FindDailyRead(dailyReads, dailyReadId).None?
      ensures r == Err(QuestionSeqExists) <==>
        && CreateErrors(req) == [] && FindDailyRead(dailyReads, dailyReadId).Some?
        && HasQuestion(old(rows), dailyReadId, req.questionSeq)
      ensures r.Ok? ==> rows == old(rows) + [StoredQuestion(dailyReadId, req.questionSeq, req.question, req.correctAnswer, req.choices)]
      ensures r.Err? ==> rows == old(rows)
    {
      var errors := CreateErrors(req);
      if errors != [] {
        return Err(CreateInvalid(errors));
      }
      if FindDailyRead(dailyReads, dailyReadId).None? {
        return Err(DailyReadNotFound);
      }
      if HasQuestion(rows, dailyReadId, req.questionSeq) {
        return Err(QuestionSeqExists);
      }
      AddQuestion(dailyReadId, req.questionSeq, req.question, req.correctAnswer, req.choices);
      return Ok(());
    }

    /**
     * `UpdateQuizQuestionEndpoint`: the request is validated first; then the
     * first question of (daily read, seq) gets the new text and correct
     * answer, and its choices become exactly the request's, normalised and
     * in order.  Its daily read and seq stay; no other question changes.
     */
    method UpdateQuestion(dailyReadId: int, questionSeq: int, req: UpdateRequest) returns (r: Result<(), UpdateError>)
      requires Valid()
      modifies this
      ensures Valid()
      ensures r == Err(UpdateInvalid(UpdateErrors(req))) <==> UpdateErrors(req) != []
      ensures r == Err(QuestionNotFound) <==> UpdateErrors(req) == [] && !HasQuestion(old(rows), dailyReadId, questionSeq)
      ensures r.Ok? ==>
        && FindQuestion(old(rows), dailyReadId, questionSeq).Some?
        && rows == old(rows)[FindQuestion(old(rows), dailyReadId, questionSeq).value :=
             StoredQuestion(dailyReadId, questionSeq, req.question, req.correctAnswer, req.choices)]
      ensures r.Err? ==> rows == old(rows)
    {
      var errors := UpdateErrors(req);
      if errors != [] {
        return Err(UpdateInvalid(errors));
      }
      var found := FindQuestion(rows, dailyReadId, questionSeq);
      if found.None? {
        return Err(QuestionNotFound);
      }
      ReplaceQuestion(found.value, req.question, req.correctAnswer, req.choices);
      return Ok(());
    }
    /** The create endpoint's building of the entity: `QuizQuestion.Create`, then each choice added; then stored. */
    method AddQuestion(dailyReadId: int, questionSeq: int, question: string, correctAnswer: string, choices: seq<ChoiceDto>)
      requires Valid() && BodyAccepted(question, correctAnswer, choices) && !HasQuestion(rows, dailyReadId, questionSeq)
      modifies this
      ensures Valid()
      ensures rows == old(rows) + [StoredQuestion(dailyReadId, questionSeq, question, correctAnswer, choices)]
    {
      var quizQuestion := new Question.Create(dailyReadId, questionSeq, Trim(question), Trim(Upper(correctAnswer)));
      AddChoices(quizQuestion, choices);
      var added := quizQuestion.Row();
      assert added == StoredQuestion(dailyReadId, questionSeq, question, correctAnswer, choices);
      AcceptedIsConsistent(dailyReadId, questionSeq, question, correctAnswer, choices);
      AppendKeepsInvariant(rows, added);
      rows := rows + [added];
    }

    /** The update endpoint's editing of the tracked entity at position `k`: `Update`, `ClearChoices`, each choice added. */
    method ReplaceQuestion(k: nat, question: string, correctAnswer: string, choices: seq<ChoiceDto>)
      requires Valid() && k < |rows| && BodyAccepted(question, correctAnswer, choices)
      modifies this
      ensures Valid()
      ensures rows == old(rows)[k := StoredQuestion(old(rows)[k].dailyReadId, old(rows)[k].questionSeq, question, correctAnswer, choices)]
    {
      var quizQuestion := new Question.Load(rows[k]);
      quizQuestion.Update(Trim(question), Trim(Upper(correctAnswer)));
      quizQuestion.ClearChoices();
      AddChoices(quizQuestion, choices);
      var updated := quizQuestion.Row();
      assert updated == StoredQuestion(rows[k].dailyReadId, rows[k].questionSeq, question, correctAnswer, choices);
      AcceptedIsConsistent(rows[k].dailyReadId, rows[k].questionSeq, question, correctAnswer, choices);
      ReplaceKeepsInvariant(rows, k, updated);
      rows := rows[k := updated];
    }

    /** The upload's full replace: the daily read's questions removed, the imported ones added. */
    method ReplaceQuestionsOf(dailyReadId: int, added: seq<QuestionRow>)
      requires Valid()
      requires forall i :: 0 <= i < |added| ==> added[i].dailyReadId == dailyReadId && Consistent(added[i])
      requires UniqueSeqs(added)
      modifies this
      ensures Valid()
      ensures rows == RemoveQuestionsOf(old(rows), dailyReadId) + added
    {
      ReplaceAllKeepsInvariant(rows, dailyReadId, added);
      rows := RemoveQuestionsOf(rows, dailyReadId) + added;
    }
  }
}
