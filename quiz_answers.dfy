/**
 * Submitting quiz answers: the request validator and the upsert of the
 * participant's answers into `mt_quiz_answer`, whose unique index on
 * (user, daily read, question number) makes a save that would duplicate a
 * key fail as a whole.
 */
module QuizAnswers {
  import opened Common
  import opened DailyReadData

  datatype AnswerDto = AnswerDto(questionSeq: int, answer: string)

  /** The validator's findings, in the order it reports them. */
  datatype AnswerRule =
    | AnswersRequired
    | SeqNotPositive(index: nat)
    | AnswerRequired(index: nat)
    | AnswerNotChoice(index: nat)

  /** The child rules for the answer at `index`. */
  function ItemErrors(dto: AnswerDto, index: nat): (r: seq<AnswerRule>)
    ensures r == [] <==> dto.questionSeq > 0 && !IsBlank(dto.answer) && IsChoiceLetter(dto.answer)
    ensures AnswerRequired(index) in r <==> IsBlank(dto.answer)
  {
    (if dto.questionSeq > 0 then [] else [SeqNotPositive(index)])
    + (if !IsBlank(dto.answer) then [] else [AnswerRequired(index)])
    + (if IsChoiceLetter(dto.answer) then [] else [AnswerNotChoice(index)])
  }

  function ItemsErrors(dtos: seq<AnswerDto>): (r: seq<AnswerRule>)
    ensures r == [] <==> forall i :: 0 <= i < |dtos| ==> ItemErrors(dtos[i], i) == []
  {
    if dtos == [] then []
    else
      var n := |dtos| - 1;
      var rest := ItemsErrors(dtos[..n]);
      var last := ItemErrors(dtos[n], n);
      assert forall i :: 0 <= i < n ==> dtos[..n][i] == dtos[i];
      assert rest + last == [] <==> rest == [] && last == [] by {
        assert |rest + last| == |rest| + |last|;
      }
      rest + last
  }

  /** `SubmitQuizAnswerRequestValidator`: every failing rule, in order. */
  function ValidateSubmit(dtos: seq<AnswerDto>): (r: seq<AnswerRule>)
    ensures r == [] <==> |dtos| > 0 && forall d :: d in dtos ==> d.questionSeq > 0 && IsChoiceLetter(d.answer)
  {
    var r := (if |dtos| > 0 then [] else [AnswersRequired]) + ItemsErrors(dtos);
    assert r == [] ==> forall d :: d in dtos ==> ItemErrors(d, 0) == [] by {
      if r == [] {
        forall d | d in dtos ensures ItemErrors(d, 0) == [] {
          var i :| 0 <= i < |dtos| && dtos[i] == d;
          assert ItemErrors(dtos[i], i) == [];
        }
      }
    }
    assert (forall d :: d in dtos ==> d.questionSeq > 0 && IsChoiceLetter(d.answer)) ==>
      forall i :: 0 <= i < |dtos| ==> ItemErrors(dtos[i], i) == [] by {
      forall i | 0 <= i < |dtos| && (forall d :: d in dtos ==> d.questionSeq > 0 && IsChoiceLetter(d.answer))
        ensures ItemErrors(dtos[i], i) == []
      {
        assert dtos[i] in dtos;
        ChoiceLetterNormalized(dtos[i].answer);
      }
    }
    r
  }

  /** The stored form of an answer (`ToUpper().Trim()`). */
  function Normalize(answer: string): string
  {
    Trim(Upper(answer))
  }

  /** A submitted answer that passed the validator is stored as one of the letters A to E. */
  lemma NormalizedIsLetter(answer: string)
    requires IsChoiceLetter(answer)
    ensures Normalize(answer) in ChoiceLetters
  {
    ChoiceLetterNormalized(answer);
  }

  predicate HasKey(a: QuizAnswer, u: int, d: int, k: int)
  {
    a.userId == u && a.dailyReadId == d && a.questionSeq == k
  }

  /** The unique index `ix_mt_quiz_answer_user_daily_question`. */
  predicate UniqueKeys(rows: seq<QuizAnswer>)
  {
    forall i, j :: 0 <= i < j < |rows| ==> !HasKey(rows[j], rows[i].userId, rows[i].dailyReadId, rows[i].questionSeq)
  }

  /** The position of the row with the given key, if any. */
  function KeyIndex(rows: seq<QuizAnswer>, u: int, d: int, k: int): (r: Option<nat>)
    ensures r.Some? ==> r.value < |rows| && HasKey(rows[r.value], u, d, k)
    ensures r.Some? ==> forall i :: 0 <= i < r.value ==> !HasKey(rows[i], u, d, k)
    ensures r.None? <==> forall i :: 0 <= i < |rows| ==> !HasKey(rows[i], u, d, k)
  {
    if rows == [] then None
    else if HasKey(rows[0], u, d, k) then Some(0)
    else
      var rest := KeyIndex(rows[1..], u, d, k);
      if rest.None? then None else Some(rest.value + 1)
  }

  /** Applying one answer: overwrite the row at `found`, or add a new row with retry number 0. */
  function Apply(t: seq<QuizAnswer>, found: Option<nat>, u: int, d: int, dto: AnswerDto): (r: seq<QuizAnswer>)
    requires found.Some? ==> found.value < |t|
  {
    var normalizedAnswer := Normalize(dto.answer);
    if found.Some? then t[found.value := t[found.value].(answer := normalizedAnswer)]
    else t + [QuizAnswer(u, d, dto.questionSeq, normalizedAnswer, 0)]
  }

  function SeqsOf(dtos: seq<AnswerDto>): set<int>
  {
    set dto | dto in dtos :: dto.questionSeq
  }

  /**
   * The handler's loop as written: the lookup of existing answers is built
   * once, before the loop, and is not updated when a new row is added.  The
   * old rows keep their keys; every added row belongs to the user and daily
   * read and carries a question number of the request.
   */
  function AsWritten(rows0: seq<QuizAnswer>, u: int, d: int, dtos: seq<AnswerDto>): (r: seq<QuizAnswer>)
    ensures |r| >= |rows0|
    ensures forall i :: 0 <= i < |rows0| ==> r[i] == rows0[i].(answer := r[i].answer)
    ensures forall i :: |rows0| <= i < |r| ==> r[i].userId == u && r[i].dailyReadId == d && r[i].questionSeq in SeqsOf(dtos)
  {
    if dtos == [] then rows0
    else
      var n := |dtos| - 1;
      assert SeqsOf(dtos) == SeqsOf(dtos[..n]) + {dtos[n].questionSeq} by {
        assert dtos == dtos[..n] + [dtos[n]];
      }
      Apply(AsWritten(rows0, u, d, dtos[..n]), KeyIndex(rows0, u, d, dtos[n].questionSeq), u, d, dtos[n])
  }

  /** The upsert as intended: the lookup sees rows added earlier in the same request. */
  function Upsert(rows0: seq<QuizAnswer>, u: int, d: int, dtos: seq<AnswerDto>): (r: seq<QuizAnswer>)
    ensures |r| >= |rows0|
    ensures forall i :: 0 <= i < |rows0| ==> r[i] == rows0[i].(answer := r[i].answer)
    ensures forall i :: |rows0| <= i < |r| ==> r[i].userId == u && r[i].dailyReadId == d && r[i].questionSeq in SeqsOf(dtos)
  {
    if dtos == [] then rows0
    else
      var n := |dtos| - 1;
      assert SeqsOf(dtos) == SeqsOf(dtos[..n]) + {dtos[n].questionSeq} by {
        assert dtos == dtos[..n] + [dtos[n]];
      }
      var t := Upsert(rows0, u, d, dtos[..n]);
      Apply(t, KeyIndex(t, u, d, dtos[n].questionSeq), u, d, dtos[n])
  }

  /** The intended upsert keeps the unique index. */
  lemma {:induction false} UpsertKeepsUnique(rows0: seq<QuizAnswer>, u: int, d: int, dtos: seq<AnswerDto>)
    requires UniqueKeys(rows0)
    ensures UniqueKeys(Upsert(rows0, u, d, dtos))
  {
    if dtos != [] {
      var n := |dtos| - 1;
      var t := Upsert(rows0, u, d, dtos[..n]);
      UpsertKeepsUnique(rows0, u, d, dtos[..n]);
      var found := KeyIndex(t, u, d, dtos[n].questionSeq);
      var r := Apply(t, found, u, d, dtos[n]);
      assert r == Upsert(rows0, u, d, dtos);
      if found.Some? {
        assert forall i :: 0 <= i < |r| ==> r[i] == t[i].(answer := r[i].answer);
      } else {
        assert forall i :: 0 <= i < |t| ==> !HasKey(t[i], u, d, dtos[n].questionSeq);
        assert r == t + [r[|t|]];
      }
    }
  }

  /** The intended upsert touches no row of another user or another daily read. */
  lemma {:induction false} UpsertKeepsOthers(rows0: seq<QuizAnswer>, u: int, d: int, dtos: seq<AnswerDto>)
    ensures var r := Upsert(rows0, u, d, dtos);
      forall i :: 0 <= i < |rows0| && (rows0[i].userId != u || rows0[i].dailyReadId != d) ==> r[i] == rows0[i]
  {
    if dtos != [] {
      UpsertKeepsOthers(rows0, u, d, dtos[..|dtos| - 1]);
    }
  }

  /** After the intended upsert, the row for the last answered question holds that answer. */
  lemma UpsertLastAnswer(rows0: seq<QuizAnswer>, u: int, d: int, dtos: seq<AnswerDto>)
    requires |dtos| > 0
    ensures var r := Upsert(rows0, u, d, dtos);
      var last := dtos[|dtos| - 1];
      var k := KeyIndex(r, u, d, last.questionSeq);
      k.Some? && r[k.value].answer == Normalize(last.answer)
  {
    var n := |dtos| - 1;
    var t := Upsert(rows0, u, d, dtos[..n]);
    var found := KeyIndex(t, u, d, dtos[n].questionSeq);
    var r := Apply(t, found, u, d, dtos[n]);
    assert r == Upsert(rows0, u, d, dtos);
    if found.Some? {
      assert forall i :: 0 <= i < |r| ==> r[i] == t[i].(answer := r[i].answer);
      KeyIndexIsFirst(r, u, d, dtos[n].questionSeq, found.value);
    } else {
      KeyIndexIsFirst(r, u, d, dtos[n].questionSeq, |t|);
    }
  }

  /** The first position with a key is the one `KeyIndex` finds. */
  lemma KeyIndexIsFirst(rows: seq<QuizAnswer>, u: int, d: int, k: int, p: nat)
    requires p < |rows| && HasKey(rows[p], u, d, k)
    requires forall i :: 0 <= i < p ==> !HasKey(rows[i], u, d, k)
    ensures KeyIndex(rows, u, d, k) == Some(p)
  {
    var r := KeyIndex(rows, u, d, k);
    assert r.Some?;
    assert HasKey(rows[r.value], u, d, k);
  }

  /** Lookups before and during the loop agree on a question number the request has not reached yet. */
  lemma KeyIndexUnreached(rows0: seq<QuizAnswer>, t: seq<QuizAnswer>, u: int, d: int, dtos: seq<AnswerDto>, k: int)
    requires |t| >= |rows0|
    requires forall i :: 0 <= i < |rows0| ==> t[i] == rows0[i].(answer := t[i].answer)
    requires forall i :: |rows0| <= i < |t| ==> t[i].questionSeq in SeqsOf(dtos)
    requires k !in SeqsOf(dtos)
    ensures KeyIndex(t, u, d, k) == KeyIndex(rows0, u, d, k)
  {
    var r0 := KeyIndex(rows0, u, d, k);
    if r0.Some? {
      assert forall i :: 0 <= i < r0.value ==> !HasKey(t[i], u, d, k) by {
        forall i | 0 <= i < r0.value ensures !HasKey(t[i], u, d, k) {
          assert !HasKey(rows0[i], u, d, k);
        }
      }
      KeyIndexIsFirst(t, u, d, k, r0.value);
    } else {
      forall i | 0 <= i < |t| ensures !HasKey(t[i], u, d, k) {
        if i < |rows0| {
          assert !HasKey(rows0[i], u, d, k);
        }
      }
    }
  }

  predicate DistinctDtoSeqs(dtos: seq<AnswerDto>)
  {
    forall i, j :: 0 <= i < j < |dtos| ==> dtos[i].questionSeq != dtos[j].questionSeq
  }

  /** With distinct question numbers in the request, the loop as written is the intended upsert. */
  lemma {:induction false} AsWrittenIsUpsertWhenDistinct(rows0: seq<QuizAnswer>, u: int, d: int, dtos: seq<AnswerDto>)
    requires DistinctDtoSeqs(dtos)
    ensures AsWritten(rows0, u, d, dtos) == Upsert(rows0, u, d, dtos)
  {
    if dtos != [] {
      var n := |dtos| - 1;
      AsWrittenIsUpsertWhenDistinct(rows0, u, d, dtos[..n]);
      var t := Upsert(rows0, u, d, dtos[..n]);
      assert DistinctDtoSeqs(dtos[..n]) by {
        assert forall i :: 0 <= i < n ==> dtos[..n][i] == dtos[i];
      }
      assert forall j :: 0 <= j < n ==> dtos[..n][j].questionSeq != dtos[n].questionSeq;
      assert dtos[n].questionSeq !in SeqsOf(dtos[..n]);
      KeyIndexUnreached(rows0, t, u, d, dtos[..n], dtos[n].questionSeq);
    }
  }

  /**
   * A request that answers question 1 twice passes the validator, but the
   * loop as written adds two rows for it, which the unique index refuses;
   * the intended upsert keeps one row holding the second answer.
   */
  lemma RepeatedSeqBreaksSave()
    ensures var dtos := [AnswerDto(1, "a"), AnswerDto(1, "b")];
      && ValidateSubmit(dtos) == []
      && !UniqueKeys(AsWritten([], 7, 3, dtos))
      && Upsert([], 7, 3, dtos) == [QuizAnswer(7, 3, 1, "B", 0)]
  {
    var dtos := [AnswerDto(1, "a"), AnswerDto(1, "b")];
    assert Upper("a") == "A" && Upper("b") == "B";
    assert Normalize("a") == "A" by { TrimNoEdges("A"); }
    assert Normalize("b") == "B" by { TrimNoEdges("B"); }
    assert dtos[..1] == [AnswerDto(1, "a")];
    assert AsWritten([], 7, 3, dtos[..1]) == [QuizAnswer(7, 3, 1, "A", 0)];
    var w := AsWritten([], 7, 3, dtos);
    assert w == [QuizAnswer(7, 3, 1, "A", 0), QuizAnswer(7, 3, 1, "B", 0)];
    assert HasKey(w[1], w[0].userId, w[0].dailyReadId, w[0].questionSeq);
  }

  /** `ToDictionaryAsync(QuestionSeq)` over the user's answers to the daily read: question number to row position. */
  function ExistingAnswers(rows: seq<QuizAnswer>, u: int, d: int): (m: map<int, nat>)
    ensures forall k :: k in m <==> KeyIndex(rows, u, d, k).Some?
    ensures forall k :: k in m ==> Some(m[k]) == KeyIndex(rows, u, d, k)
  {
    var keys := set a | a in rows && a.userId == u && a.dailyReadId == d :: a.questionSeq;
    assert forall k :: KeyIndex(rows, u, d, k).Some? ==> k in keys by {
      forall k | KeyIndex(rows, u, d, k).Some? ensures k in keys {
        assert rows[KeyIndex(rows, u, d, k).value] in rows;
      }
    }
    map k | k in keys :: KeyIndex(rows, u, d, k).value
  }

  /** One turn of the handler's loop extends the as-written result by one answer. */
  lemma AsWrittenStep(rows0: seq<QuizAnswer>, u: int, d: int, dtos: seq<AnswerDto>, i: nat)
    requires i < |dtos|
    ensures AsWritten(rows0, u, d, dtos[..i + 1])
      == Apply(AsWritten(rows0, u, d, dtos[..i]), KeyIndex(rows0, u, d, dtos[i].questionSeq), u, d, dtos[i])
  {
    assert dtos[..i + 1][..i] == dtos[..i];
  }

  datatype SubmitError = DailyReadNotFound | SaveFailed

  /** The answer table, kept unique on (user, daily read, question number). */
  class AnswerStore {
    var rows: seq<QuizAnswer>

    ghost predicate Valid()
      reads this
    {
      UniqueKeys(rows)
    }

    constructor ()
      ensures Valid() && rows == []
    {
      rows := [];
    }

    /**
     * `SubmitQuizAnswerEndpoint.HandleAsync` after validation: a missing
     * daily read is not found; otherwise each answer updates the existing
     * row for its question or adds a new one, and the save fails, changing
     * nothing, when the result would break the unique index.
     */
    method Submit(dailyReads: seq<DailyRead>, userId: int, dailyReadId: int, dtos: seq<AnswerDto>)
      returns (r: Result<(), SubmitError>)
      requires Valid()
      modifies this
      ensures Valid()
      ensures r == Err(DailyReadNotFound) <==> FindDailyRead(dailyReads, dailyReadId).None?
      ensures r == Err(SaveFailed) <==>
        FindDailyRead(dailyReads, dailyReadId).Some? && !UniqueKeys(AsWritten(old(rows), userId, dailyReadId, dtos))
      ensures r.Ok? ==> rows == AsWritten(old(rows), userId, dailyReadId, dtos)
      ensures r.Err? ==> rows == old(rows)
    {
      if FindDailyRead(dailyReads, dailyReadId).None? {
        return Err(DailyReadNotFound);
      }
      var stored := rows;
      var existingAnswers := ExistingAnswers(stored, userId, dailyReadId);
      var table := stored;
      for i := 0 to |dtos|
        invariant rows == stored
        invariant table == AsWritten(stored, userId, dailyReadId, dtos[..i])
      {
        var answerDto := dtos[i];
        var normalizedAnswer := Normalize(answerDto.answer);
        AsWrittenStep(stored, userId, dailyReadId, dtos, i);
        ghost var found := KeyIndex(stored, userId, dailyReadId, answerDto.questionSeq);
        ghost var expected := Apply(table, found, userId, dailyReadId, answerDto);
        if answerDto.questionSeq in existingAnswers {
          var existing := existingAnswers[answerDto.questionSeq];
          assert found == Some(existing);
          table := table[existing := table[existing].(answer := normalizedAnswer)];
        } else {
          assert found.None?;
          table := table + [QuizAnswer(userId, dailyReadId, answerDto.questionSeq, normalizedAnswer, 0)];
        }
        assert table == expected;
      }
      assert dtos[..|dtos|] == dtos;
      if !UniqueKeys(table) {
        return Err(SaveFailed);
      }
      rows := table;
      r := Ok(());
    }
  }
}
