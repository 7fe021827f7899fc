/**
 * The quiz composable's browser-side bookkeeping.  While a participant
 * answers the daily quiz, the answers are kept in `localStorage` under
 * "quiz-" + the quiz slug, so that a reload resumes where they left off.
 * States from another day, answers to questions that were edited since, and
 * the states of a previous user are cleared.
 */
module PersistedQuiz {
  import opened Common
  import opened WebStorage
  import Sorting

  datatype QuizAnswer = QuizAnswer(questionSeq: int, answer: string, questionLastUpdate: Option<string>)

  /** `PersistedQuizState`; `lastUpdated` is the instant of the last write, in milliseconds. */
  datatype QuizState = QuizState(
    slug: string,
    title: Option<string>,
    date: string,
    totalQuestions: int,
    answeredQuestions: int,
    userAnswers: seq<QuizAnswer>,
    answeredQuestionSeqs: seq<int>,
    lastUpdated: int)

  /**
   * A stored value as the composable reads it back: a quiz state, or text
   * that is not one (the signed-in user's name, or text that does not parse).
   */
  datatype Item = Quiz(state: QuizState) | Text(text: string)

  const StoragePrefix: string := "quiz-"
  const AuthKey: string := "auth-quiz-user-full-name"

  function StorageKey(slug: string): string
  {
    StoragePrefix + slug
  }

  function LastUpdated(s: QuizState): int
  {
    s.lastUpdated
  }

  /** Every stored quiz state sits under the key of its own slug, where `saveQuizState` writes it. */
  ghost predicate WellKeyed(items: map<string, Item>)
  {
    forall k | k in items && items[k].Quiz? :: k == StorageKey(items[k].state.slug)
  }

  /** `getQuizState`: the state stored for `slug`, if there is one that parses. */
  function GetQuizState(items: map<string, Item>, slug: string): (r: Option<QuizState>)
    ensures WellKeyed(items) && r.Some? ==> r.value.slug == slug
    ensures (forall k :: k in items ==> !StartsWith(k, StoragePrefix)) ==> r.None?
  {
    var key := StorageKey(slug);
    assert StartsWith(key, StoragePrefix);
    assert WellKeyed(items) && key in items && items[key].Quiz? ==> items[key].state.slug == slug by {
      if WellKeyed(items) && key in items && items[key].Quiz? {
        assert key == StorageKey(items[key].state.slug);
        assert slug == key[|StoragePrefix|..] == items[key].state.slug;
      }
    }
    if key in items && items[key].Quiz? then Some(items[key].state) else None
  }

  /**
   * The answers, the list of answered seqs and the count agree: the i-th
   * answer is for the i-th seq, no seq is answered twice, and the count is
   * the number of answers.
   */
  predicate Consistent(s: QuizState)
  {
    && |s.userAnswers| == |s.answeredQuestionSeqs|
    && (forall i :: 0 <= i < |s.userAnswers| ==> s.userAnswers[i].questionSeq == s.answeredQuestionSeqs[i])
    && Distinct(s.answeredQuestionSeqs)
    && s.answeredQuestions == |s.userAnswers|
  }

  /** The answer recorded for `questionSeq`: the first one with that seq. */
  function AnswerFor(answers: seq<QuizAnswer>, questionSeq: int): Option<QuizAnswer>
  {
    var i := FirstAnswerIndex(answers, questionSeq);
    if i == -1 then None else Some(answers[i])
  }

  /** `userAnswers.findIndex(a => a.questionSeq === questionSeq)`. */
  function FirstAnswerIndex(answers: seq<QuizAnswer>, questionSeq: int): (r: int)
    ensures -1 <= r < |answers|
    ensures r >= 0 ==> answers[r].questionSeq == questionSeq
    decreases |answers|
  {
    if |answers| == 0 then -1
    else if answers[0].questionSeq == questionSeq then 0
    else
      var rest := FirstAnswerIndex(answers[1..], questionSeq);
      if rest == -1 then -1 else rest + 1
  }

  lemma {:induction false} FirstAnswerIndexFirst(answers: seq<QuizAnswer>, questionSeq: int)
    ensures FirstAnswerIndex(answers, questionSeq) == -1 <==> forall j :: 0 <= j < |answers| ==> answers[j].questionSeq != questionSeq
    ensures forall j :: 0 <= j < FirstAnswerIndex(answers, questionSeq) ==> answers[j].questionSeq != questionSeq
    decreases |answers|
  {
    if |answers| > 0 && answers[0].questionSeq != questionSeq {
      FirstAnswerIndexFirst(answers[1..], questionSeq);
    }
  }

  /** In a consistent state, the answer for a seq is at that seq's index in the answered list. */
  lemma AnswerAtSeqIndex(s: QuizState, questionSeq: int, i: nat)
    requires Consistent(s) && i < |s.answeredQuestionSeqs| && s.answeredQuestionSeqs[i] == questionSeq
    ensures FirstAnswerIndex(s.userAnswers, questionSeq) == i
  {
    FirstAnswerIndexFirst(s.userAnswers, questionSeq);
    var r := FirstAnswerIndex(s.userAnswers, questionSeq);
    assert r != -1 by {
      assert s.userAnswers[i].questionSeq == questionSeq;
    }
    assert s.answeredQuestionSeqs[r] == questionSeq;
  }

  /** `initQuizState` as a value: nothing answered yet. */
  function FreshState(slug: string, totalQuestions: int, date: string, title: Option<string>, now: int): QuizState
  {
    QuizState(slug, title, date, totalQuestions, 0, [], [], now)
  }

  /** `initQuizState`: store a fresh state for `slug` and return it. */
  method InitQuizState(store: Storage<Item>, slug: string, totalQuestions: int, date: string, title: Option<string>, now: int)
    returns (state: QuizState)
    requires store.Valid() && WellKeyed(store.items)
    modifies store
    ensures store.Valid() && WellKeyed(store.items)
    ensures state == FreshState(slug, totalQuestions, date, title, now)
    ensures store.items == old(store.items)[StorageKey(slug) := Quiz(state)]
  {
    state := QuizState(slug, title, date, totalQuestions, 0, [], [], now);
    store.SetItem(StorageKey(state.slug), Quiz(state));
  }

  /**
   * A fresh state is consistent, has no answer, leaves every question
   * unanswered and reads back from the store.
   */
  lemma FreshStateFacts<T>(items: map<string, Item>, slug: string, totalQuestions: int, date: string, title: Option<string>, now: int, questions: seq<T>, seqOf: T -> int)
    ensures var s := FreshState(slug, totalQuestions, date, title, now);
      && Consistent(s) && s.answeredQuestions == 0 && s.userAnswers == [] && s.answeredQuestionSeqs == []
      && GetQuizState(items[StorageKey(slug) := Quiz(s)], slug) == Some(s)
      && UnansweredQuestions(Some(s), questions, seqOf) == questions
  {
    var s := FreshState(slug, totalQuestions, date, title, now);
    UnansweredNone(s, questions, seqOf);
  }

  /** `saveAnswer` on a stored state: record `answer` for `questionSeq`, then stamp the time. */
  function WithAnswer(s: QuizState, questionSeq: int, answer: string, questionLastUpdate: Option<string>, now: int): (r: QuizState)
    ensures r.slug == s.slug && r.title == s.title && r.date == s.date && r.totalQuestions == s.totalQuestions
    ensures r.lastUpdated == now
    ensures questionSeq in r.answeredQuestionSeqs
  {
    var recorded :=
      if questionSeq !in s.answeredQuestionSeqs then
        var answers := s.userAnswers + [QuizAnswer(questionSeq, answer, questionLastUpdate)];
        s.(userAnswers := answers, answeredQuestionSeqs := s.answeredQuestionSeqs + [questionSeq], answeredQuestions := |answers|)
      else
        var index := FirstAnswerIndex(s.userAnswers, questionSeq);
        if index != -1 then s.(userAnswers := s.userAnswers[index := QuizAnswer(questionSeq, answer, questionLastUpdate)]) else s;
    recorded.(lastUpdated := now)
  }

  /** `saveAnswer`: nothing happens when no state is stored for `slug`. */
  method SaveAnswer(store: Storage<Item>, slug: string, questionSeq: int, answer: string, questionLastUpdate: Option<string>, now: int)
    requires store.Valid() && WellKeyed(store.items)
    modifies store
    ensures store.Valid() && WellKeyed(store.items)
    ensures GetQuizState(old(store.items), slug).None? ==> store.items == old(store.items) && store.keys == old(store.keys)
    ensures GetQuizState(old(store.items), slug).Some? ==>
      store.items == old(store.items)[StorageKey(slug) := Quiz(WithAnswer(GetQuizState(old(store.items), slug).value, questionSeq, answer, questionLastUpdate, now))]
  {
    var found := GetQuizState(store.items, slug);
    if found.None? {
      return;
    }
    var state := found.value;
    if questionSeq !in state.answeredQuestionSeqs {
      state := state.(userAnswers := state.userAnswers + [QuizAnswer(questionSeq, answer, questionLastUpdate)]);
      state := state.(answeredQuestionSeqs := state.answeredQuestionSeqs + [questionSeq]);
      state := state.(answeredQuestions := |state.userAnswers|);
    } else {
      var index := FirstAnswerIndex(state.userAnswers, questionSeq);
      if index != -1 {
        state := state.(userAnswers := state.userAnswers[index := QuizAnswer(questionSeq, answer, questionLastUpdate)]);
      }
    }
    state := state.(lastUpdated := now);
    store.SetItem(StorageKey(state.slug), Quiz(state));
  }

  /** What a save must leave for the seq saved and for every other seq. */
  ghost predicate Recorded(s: QuizState, r: QuizState, questionSeq: int, answer: string, questionLastUpdate: Option<string>)
  {
    && Consistent(r)
    && AnswerFor(r.userAnswers, questionSeq) == Some(QuizAnswer(questionSeq, answer, questionLastUpdate))
    && (forall q :: q != questionSeq ==> AnswerFor(r.userAnswers, q) == AnswerFor(s.userAnswers, q))
  }

  /**
   * Saving an answer into a consistent state keeps it consistent, records
   * the answer for its seq and leaves every other answer alone.  A new seq is
   * appended to the answered list and raises the count by one; an answered
   * seq keeps the list and the count.  The quiz itself is not touched.
   */
  lemma SaveAnswerMeaning(s: QuizState, questionSeq: int, answer: string, questionLastUpdate: Option<string>, now: int)
    requires Consistent(s)
    ensures var r := WithAnswer(s, questionSeq, answer, questionLastUpdate, now);
      && Recorded(s, r, questionSeq, answer, questionLastUpdate)
      && (questionSeq !in s.answeredQuestionSeqs ==>
            r.answeredQuestionSeqs == s.answeredQuestionSeqs + [questionSeq] && r.answeredQuestions == s.answeredQuestions + 1)
      && (questionSeq in s.answeredQuestionSeqs ==>
            r.answeredQuestionSeqs == s.answeredQuestionSeqs && r.answeredQuestions == s.answeredQuestions)
      && r.slug == s.slug && r.title == s.title && r.date == s.date && r.totalQuestions == s.totalQuestions
      && r.lastUpdated == now
  {
    if questionSeq !in s.answeredQuestionSeqs {
      SaveNewSeq(s, questionSeq, answer, questionLastUpdate, now);
    } else {
      SaveKnownSeq(s, questionSeq, answer, questionLastUpdate, now);
    }
  }

  lemma SaveNewSeq(s: QuizState, questionSeq: int, answer: string, questionLastUpdate: Option<string>, now: int)
    requires Consistent(s) && questionSeq !in s.answeredQuestionSeqs
    ensures Recorded(s, WithAnswer(s, questionSeq, answer, questionLastUpdate, now), questionSeq, answer, questionLastUpdate)
  {
    var r := WithAnswer(s, questionSeq, answer, questionLastUpdate, now);
    var given := QuizAnswer(questionSeq, answer, questionLastUpdate);
    var n := |s.userAnswers|;
    assert r.userAnswers[n] == given;
    forall i, j | 0 <= i < j < |r.answeredQuestionSeqs|
      ensures r.answeredQuestionSeqs[i] != r.answeredQuestionSeqs[j]
    {
      if j == n {
        assert r.answeredQuestionSeqs[i] == s.answeredQuestionSeqs[i];
      }
    }
    AnswerAtSeqIndex(r, questionSeq, n);
    forall q | q != questionSeq
      ensures AnswerFor(r.userAnswers, q) == AnswerFor(s.userAnswers, q)
    {
      FirstAnswerIndexFirst(s.userAnswers, q);
      FirstAnswerIndexFirst(r.userAnswers, q);
      var a := FirstAnswerIndex(s.userAnswers, q);
      if a != -1 {
        AnswerAtSeqIndex(s, q, a);
        assert r.answeredQuestionSeqs[a] == q;
        AnswerAtSeqIndex(r, q, a);
      } else {
        forall j | 0 <= j < |r.userAnswers|
          ensures r.userAnswers[j].questionSeq != q
        {
          if j < n {
            assert r.userAnswers[j] == s.userAnswers[j];
          }
        }
      }
    }
  }

  lemma SaveKnownSeq(s: QuizState, questionSeq: int, answer: string, questionLastUpdate: Option<string>, now: int)
    requires Consistent(s) && questionSeq in s.answeredQuestionSeqs
    ensures Recorded(s, WithAnswer(s, questionSeq, answer, questionLastUpdate, now), questionSeq, answer, questionLastUpdate)
  {
    var r := WithAnswer(s, questionSeq, answer, questionLastUpdate, now);
    var given := QuizAnswer(questionSeq, answer, questionLastUpdate);
    var i :| 0 <= i < |s.answeredQuestionSeqs| && s.answeredQuestionSeqs[i] == questionSeq;
    AnswerAtSeqIndex(s, questionSeq, i);
    assert r.userAnswers == s.userAnswers[i := given];
    AnswerAtSeqIndex(r, questionSeq, i);
    forall q | q != questionSeq
      ensures AnswerFor(r.userAnswers, q) == AnswerFor(s.userAnswers, q)
    {
      FirstAnswerIndexFirst(s.userAnswers, q);
      var a := FirstAnswerIndex(s.userAnswers, q);
      if a != -1 {
        AnswerAtSeqIndex(s, q, a);
        AnswerAtSeqIndex(r, q, a);
      } else {
        FirstAnswerIndexFirst(r.userAnswers, q);
        forall j | 0 <= j < |r.userAnswers|
          ensures r.userAnswers[j].questionSeq != q
        {
          if j != i {
            assert r.userAnswers[j] == s.userAnswers[j];
          }
        }
      }
    }
  }

  /** Saving the same answer twice at the same instant leaves what one save left. */
  lemma SaveAnswerIdempotent(s: QuizState, questionSeq: int, answer: string, questionLastUpdate: Option<string>, now: int)
    requires Consistent(s)
    ensures var once := WithAnswer(s, questionSeq, answer, questionLastUpdate, now);
      WithAnswer(once, questionSeq, answer, questionLastUpdate, now) == once
  {
    var once := WithAnswer(s, questionSeq, answer, questionLastUpdate, now);
    SaveAnswerMeaning(s, questionSeq, answer, questionLastUpdate, now);
    var i :| 0 <= i < |once.answeredQuestionSeqs| && once.answeredQuestionSeqs[i] == questionSeq;
    AnswerAtSeqIndex(once, questionSeq, i);
    var twice := WithAnswer(once, questionSeq, answer, questionLastUpdate, now);
    assert once.userAnswers[i] == QuizAnswer(questionSeq, answer, questionLastUpdate);
    assert twice.userAnswers == once.userAnswers;
  }

  /** `getUnansweredQuestions`: the questions whose seq is not answered, in their order; all of them without a state. */
  function UnansweredQuestions<T>(state: Option<QuizState>, questions: seq<T>, seqOf: T -> int): seq<T>
  {
    if state.None? then questions
    else NotAnswered(state.value.answeredQuestionSeqs, questions, seqOf)
  }

  function NotAnswered<T>(answered: seq<int>, questions: seq<T>, seqOf: T -> int): seq<T>
  {
    if |questions| == 0 then []
    else
      var last := questions[|questions| - 1];
      NotAnswered(answered, questions[..|questions| - 1], seqOf) + (if seqOf(last) in answered then [] else [last])
  }

  lemma {:induction false} NotAnsweredAppend<T>(answered: seq<int>, a: seq<T>, b: seq<T>, seqOf: T -> int)
    ensures NotAnswered(answered, a + b, seqOf) == NotAnswered(answered, a, seqOf) + NotAnswered(answered, b, seqOf)
    decreases |b|
  {
    if |b| == 0 {
      assert a + b == a;
    } else {
      var b' := b[..|b| - 1];
      assert (a + b)[..|a + b| - 1] == a + b';
      assert (a + b)[|a + b| - 1] == b[|b| - 1];
      NotAnsweredAppend(answered, a, b', seqOf);
    }
  }

  lemma {:induction false} NotAnsweredMembers<T>(answered: seq<int>, questions: seq<T>, seqOf: T -> int)
    ensures forall x :: x in NotAnswered(answered, questions, seqOf) <==> x in questions && seqOf(x) !in answered
  {
    if |questions| > 0 {
      NotAnsweredMembers(answered, questions[..|questions| - 1], seqOf);
      assert questions == questions[..|questions| - 1] + [questions[|questions| - 1]];
    }
  }

  lemma {:induction false} UnansweredNone<T>(s: QuizState, questions: seq<T>, seqOf: T -> int)
    requires s.answeredQuestionSeqs == []
    ensures NotAnswered(s.answeredQuestionSeqs, questions, seqOf) == questions
  {
    if |questions| > 0 {
      UnansweredNone(s, questions[..|questions| - 1], seqOf);
      assert questions == questions[..|questions| - 1] + [questions[|questions| - 1]];
    }
  }

  /**
   * A question is left exactly when its seq is not answered, and the filter
   * keeps the input order, so it works piece by piece.
   */
  lemma UnansweredMeaning<T>(state: Option<QuizState>, a: seq<T>, b: seq<T>, seqOf: T -> int)
    ensures forall x :: x in UnansweredQuestions(state, a, seqOf) <==>
      x in a && (state.None? || seqOf(x) !in state.value.answeredQuestionSeqs)
    ensures UnansweredQuestions(state, a + b, seqOf) == UnansweredQuestions(state, a, seqOf) + UnansweredQuestions(state, b, seqOf)
  {
    if state.Some? {
      NotAnsweredMembers(state.value.answeredQuestionSeqs, a, seqOf);
      NotAnsweredAppend(state.value.answeredQuestionSeqs, a, b, seqOf);
    }
  }

  /** Once an answer is saved for a seq, no question with that seq is left unanswered. */
  lemma SavedQuestionNotLeft<T>(s: QuizState, questionSeq: int, answer: string, questionLastUpdate: Option<string>, now: int, questions: seq<T>, seqOf: T -> int)
    ensures var left := UnansweredQuestions(Some(WithAnswer(s, questionSeq, answer, questionLastUpdate, now)), questions, seqOf);
      forall x :: x in left ==> x in questions && seqOf(x) != questionSeq
  {
    var seqs := WithAnswer(s, questionSeq, answer, questionLastUpdate, now).answeredQuestionSeqs;
    assert questionSeq in seqs by {
      if questionSeq !in s.answeredQuestionSeqs {
        assert seqs[|s.answeredQuestionSeqs|] == questionSeq;
      }
    }
    AnsweredNotLeft(seqs, questions, seqOf, questionSeq);
  }

  lemma AnsweredNotLeft<T>(answered: seq<int>, questions: seq<T>, seqOf: T -> int, questionSeq: int)
    requires questionSeq in answered
    ensures forall x :: x in NotAnswered(answered, questions, seqOf) ==> x in questions && seqOf(x) != questionSeq
  {
    NotAnsweredMembers(answered, questions, seqOf);
  }

  /** The unfinished states under the quiz keys of `keys`, in enumeration order. */
  function Unfinished(items: map<string, Item>, keys: seq<string>): seq<QuizState>
  {
    if |keys| == 0 then []
    else
      var key := keys[|keys| - 1];
      Unfinished(items, keys[..|keys| - 1])
        + (if StartsWith(key, StoragePrefix) && key in items && items[key].Quiz?
              && items[key].state.answeredQuestions < items[key].state.totalQuestions
           then [items[key].state] else [])
  }

  lemma {:induction false} UnfinishedMembers(items: map<string, Item>, keys: seq<string>)
    ensures forall s :: s in Unfinished(items, keys) <==>
      exists k :: k in keys && StartsWith(k, StoragePrefix) && k in items && items[k] == Quiz(s) && s.answeredQuestions < s.totalQuestions
  {
    if |keys| > 0 {
      UnfinishedMembers(items, keys[..|keys| - 1]);
      assert keys == keys[..|keys| - 1] + [keys[|keys| - 1]];
    }
  }

  /** `getUnfinishedQuizzes`: the stored states with questions left, the most recently updated first. */
  method GetUnfinishedQuizzes(store: Storage<Item>) returns (unfinished: seq<QuizState>)
    ensures unfinished == Sorting.SortDesc(Unfinished(store.items, store.keys), LastUpdated)
  {
    var found := [];
    var i := 0;
    while i < |store.keys|
      invariant i <= |store.keys|
      invariant found == Unfinished(store.items, store.keys[..i])
    {
      assert store.keys[..i + 1][..i] == store.keys[..i];
      var key := store.keys[i];
      if StartsWith(key, StoragePrefix) && key in store.items {
        var stored := store.items[key];
        if stored.Quiz? && stored.state.answeredQuestions < stored.state.totalQuestions {
          found := found + [stored.state];
        }
      }
      i := i + 1;
    }
    assert store.keys[..i] == store.keys;
    unfinished := Sorting.SortDesc(found, LastUpdated);
  }

  /**
   * The list `getUnfinishedQuizzes` returns holds exactly the stored quiz
   * states with fewer answers than questions, as often as they are stored,
   * newest first.
   */
  lemma UnfinishedQuizzesMeaning(items: map<string, Item>, keys: seq<string>)
    ensures var r := Sorting.SortDesc(Unfinished(items, keys), LastUpdated);
      && Sorting.SortedDesc(r, LastUpdated)
      && multiset(r) == multiset(Unfinished(items, keys))
      && forall s :: s in r <==>
           exists k :: k in keys && StartsWith(k, StoragePrefix) && k in items && items[k] == Quiz(s) && s.answeredQuestions < s.totalQuestions
  {
    var u := Unfinished(items, keys);
    var r := Sorting.SortDesc(u, LastUpdated);
    UnfinishedMembers(items, keys);
    forall s
      ensures s in r <==> s in u
    {
      assert s in r <==> s in multiset(r);
      assert s in u <==> s in multiset(u);
    }
  }

  /** One question as the quiz page knows it: its seq (`seq`) and when it was last edited. */
  datatype QuestionStamp = QuestionStamp(questionSeq: int, lastUpdate: string)

  /** `questions?.find(q => q.seq === questionSeq)`. */
  function FindQuestion(questions: Option<seq<QuestionStamp>>, questionSeq: int): Option<QuestionStamp>
    decreases if questions.Some? then |questions.value| else 0
  {
    if questions.None? || |questions.value| == 0 then None
    else if questions.value[0].questionSeq == questionSeq then Some(questions.value[0])
    else FindQuestion(Some(questions.value[1..]), questionSeq)
  }

  /** The answer was given to a version of its question that has been edited since. */
  predicate IsStale(a: QuizAnswer, questions: Option<seq<QuestionStamp>>)
  {
    var original := FindQuestion(questions, a.questionSeq);
    original.Some? && a.questionLastUpdate != Some(original.value.lastUpdate)
  }

  /** The seqs of the stale answers, in order. */
  function StaleSeqs(answers: seq<QuizAnswer>, questions: Option<seq<QuestionStamp>>): seq<int>
  {
    if |answers| == 0 then []
    else
      var last := answers[|answers| - 1];
      StaleSeqs(answers[..|answers| - 1], questions) + (if IsStale(last, questions) then [last.questionSeq] else [])
  }

  lemma {:induction false} StaleSeqsMembers(answers: seq<QuizAnswer>, questions: Option<seq<QuestionStamp>>)
    ensures forall q :: q in StaleSeqs(answers, questions) <==> exists a :: a in answers && IsStale(a, questions) && a.questionSeq == q
  {
    if |answers| > 0 {
      StaleSeqsMembers(answers[..|answers| - 1], questions);
      assert answers == answers[..|answers| - 1] + [answers[|answers| - 1]];
    }
  }

  /** The inner loop of `cleanupStaleQuizzes`: collect the seqs of the stale answers. */
  method CollectStale(answers: seq<QuizAnswer>, questions: Option<seq<QuestionStamp>>) returns (toRemove: seq<int>)
    ensures toRemove == StaleSeqs(answers, questions)
  {
    toRemove := [];
    var i := 0;
    while i < |answers|
      invariant i <= |answers|
      invariant toRemove == StaleSeqs(answers[..i], questions)
    {
      assert answers[..i + 1][..i] == answers[..i];
      var original := FindQuestion(questions, answers[i].questionSeq);
      if original.Some? && answers[i].questionLastUpdate != Some(original.value.lastUpdate) {
        toRemove := toRemove + [answers[i].questionSeq];
      }
      i := i + 1;
    }
    assert answers[..i] == answers;
  }

  function KeepAnswers(answers: seq<QuizAnswer>, removed: seq<int>): seq<QuizAnswer>
  {
    if |answers| == 0 then []
    else
      var last := answers[|answers| - 1];
      KeepAnswers(answers[..|answers| - 1], removed) + (if last.questionSeq in removed then [] else [last])
  }

  function KeepSeqs(seqs: seq<int>, removed: seq<int>): seq<int>
  {
    if |seqs| == 0 then []
    else
      var last := seqs[|seqs| - 1];
      KeepSeqs(seqs[..|seqs| - 1], removed) + (if last in removed then [] else [last])
  }

  /** The state without the answers whose seq is in `removed`. */
  function Pruned(s: QuizState, removed: seq<int>): QuizState
  {
    var answers := KeepAnswers(s.userAnswers, removed);
    s.(userAnswers := answers, answeredQuestionSeqs := KeepSeqs(s.answeredQuestionSeqs, removed), answeredQuestions := |answers|)
  }

  /** What the clean-up leaves of a stored state: nothing (the key is removed), or the state without its stale answers. */
  function CleanedState(s: QuizState, questions: Option<seq<QuestionStamp>>, today: string): Option<QuizState>
  {
    var stale := StaleSeqs(s.userAnswers, questions);
    if s.date != today then None
    else if |stale| == 0 then Some(s)
    else if |Pruned(s, stale).userAnswers| == 0 then None
    else Some(Pruned(s, stale))
  }

  /** The stored value under `key` survives the clean-up. */
  predicate Survives(key: string, v: Item, questions: Option<seq<QuestionStamp>>, today: string)
  {
    !StartsWith(key, StoragePrefix) || (v.Text? && v.text == "") || (v.Quiz? && CleanedState(v.state, questions, today).Some?)
  }

  /** The value a surviving key holds after the clean-up. */
  function CleanedValue(key: string, v: Item, questions: Option<seq<QuestionStamp>>, today: string): Item
  {
    if StartsWith(key, StoragePrefix) && v.Quiz? && CleanedState(v.state, questions, today).Some?
    then Quiz(CleanedState(v.state, questions, today).value)
    else v
  }

  /** The store after `cleanupStaleQuizzes(questions)` on day `today`. */
  function Cleaned(items: map<string, Item>, questions: Option<seq<QuestionStamp>>, today: string): (r: map<string, Item>)
    ensures forall k :: k in r ==> k in items
    ensures forall k | k in items && !StartsWith(k, StoragePrefix) :: k in r && r[k] == items[k]
  {
    map k | k in items && Survives(k, items[k], questions, today) :: CleanedValue(k, items[k], questions, today)
  }

  /** The value the first loop of the clean-up leaves under `key`: a pruned state it saves back, or the stored value. */
  function Visited(key: string, v: Item, questions: Option<seq<QuestionStamp>>): Item
  {
    if StartsWith(key, StoragePrefix) && v.Quiz? && |StaleSeqs(v.state.userAnswers, questions)| > 0
       && |Pruned(v.state, StaleSeqs(v.state.userAnswers, questions)).userAnswers| > 0
    then Quiz(Pruned(v.state, StaleSeqs(v.state.userAnswers, questions)))
    else v
  }

  /** The first loop of the clean-up puts `key` on the list of keys to remove. */
  predicate Doomed(key: string, v: Item, questions: Option<seq<QuestionStamp>>, today: string)
  {
    StartsWith(key, StoragePrefix) && !Survives(key, v, questions, today)
  }

  /** One pass of the first loop of `cleanupStaleQuizzes`, for the key `key`. */
  method VisitKey(store: Storage<Item>, key: string, questions: Option<seq<QuestionStamp>>, today: string) returns (remove: bool)
    requires store.Valid() && WellKeyed(store.items) && key in store.items
    modifies store
    ensures store.Valid() && WellKeyed(store.items) && store.keys == old(store.keys)
    ensures remove == Doomed(key, old(store.items)[key], questions, today)
    ensures store.items == old(store.items)[key := Visited(key, old(store.items)[key], questions)]
  {
    remove := false;
    if StartsWith(key, StoragePrefix) {
      var stored := store.items[key];
      match stored {
        case Text(text) =>
          remove := text != "";
        case Quiz(state) =>
          if state.date != today {
            remove := true;
          }
          var toRemove := CollectStale(state.userAnswers, questions);
          if |toRemove| > 0 {
            var pruned := state.(userAnswers := KeepAnswers(state.userAnswers, toRemove));
            pruned := pruned.(answeredQuestionSeqs := KeepSeqs(state.answeredQuestionSeqs, toRemove));
            pruned := pruned.(answeredQuestions := |pruned.userAnswers|);
            if pruned.answeredQuestions == 0 {
              remove := true;
            } else {
              store.SetItem(StorageKey(pruned.slug), Quiz(pruned));
            }
          }
      }
    }
  }

  /** The first loop of `cleanupStaleQuizzes`: save pruned states back and collect the keys to remove. */
  method VisitAll(store: Storage<Item>, questions: Option<seq<QuestionStamp>>, today: string) returns (keysToRemove: seq<string>)
    requires store.Valid() && WellKeyed(store.items)
    modifies store
    ensures store.Valid() && WellKeyed(store.items) && store.keys == old(store.keys)
    ensures store.items.Keys == old(store.items).Keys
    ensures forall k | k in old(store.items) :: store.items[k] == Visited(k, old(store.items)[k], questions)
    ensures forall k :: k in keysToRemove <==> k in old(store.items) && Doomed(k, old(store.items)[k], questions, today)
  {
    ghost var items0 := store.items;
    keysToRemove := [];
    var i := 0;
    while i < |store.keys|
      invariant i <= |store.keys| && store.keys == old(store.keys)
      invariant store.Valid() && WellKeyed(store.items)
      invariant store.items.Keys == items0.Keys
      invariant forall k | k in items0 :: store.items[k] == if k in store.keys[..i] then Visited(k, items0[k], questions) else items0[k]
      invariant forall k :: k in keysToRemove <==> k in store.keys[..i] && Doomed(k, items0[k], questions, today)
    {
      var key := store.keys[i];
      assert store.keys[..i + 1] == store.keys[..i] + [key];
      assert key !in store.keys[..i];
      var remove := VisitKey(store, key, questions, today);
      if remove {
        keysToRemove := keysToRemove + [key];
      }
      i := i + 1;
    }
    assert store.keys[..i] == store.keys;
  }

  /** `cleanupStaleQuizzes`: drop states of other days, stale answers, emptied states and unreadable entries. */
  method CleanupStaleQuizzes(store: Storage<Item>, questions: Option<seq<QuestionStamp>>, today: string)
    requires store.Valid() && WellKeyed(store.items)
    modifies store
    ensures store.Valid() && WellKeyed(store.items)
    ensures store.items == Cleaned(old(store.items), questions, today)
  {
    ghost var items0 := store.items;
    var keysToRemove := VisitAll(store, questions, today);
    ghost var items1 := store.items;
    RemoveKeys(store, keysToRemove);
    CleanupResult(items0, items1, keysToRemove, questions, today);
  }

  /** Removing the doomed keys from the visited store leaves the cleaned store, which stays well keyed. */
  lemma CleanupResult(items0: map<string, Item>, items1: map<string, Item>, keysToRemove: seq<string>,
                      questions: Option<seq<QuestionStamp>>, today: string)
    requires WellKeyed(items0) && WellKeyed(items1) && items1.Keys == items0.Keys
    requires forall k | k in items0 :: items1[k] == Visited(k, items0[k], questions)
    requires forall k :: k in keysToRemove <==> k in items0 && Doomed(k, items0[k], questions, today)
    ensures WithoutKeys(items1, keysToRemove) == Cleaned(items0, questions, today)
    ensures WellKeyed(WithoutKeys(items1, keysToRemove))
  {
    var after := WithoutKeys(items1, keysToRemove);
    forall k | k in items0
      ensures k in after <==> Survives(k, items0[k], questions, today)
      ensures k in after ==> after[k] == CleanedValue(k, items0[k], questions, today)
    {
      VisitedThenKept(k, items0[k], questions, today);
    }
  }

  /** A key that survives the first loop holds the value the clean-up promises. */
  lemma VisitedThenKept(key: string, v: Item, questions: Option<seq<QuestionStamp>>, today: string)
    ensures Survives(key, v, questions, today) <==> !Doomed(key, v, questions, today)
    ensures Survives(key, v, questions, today) ==> Visited(key, v, questions) == CleanedValue(key, v, questions, today)
  {
  }

  lemma {:induction false} KeepAnswersMembers(answers: seq<QuizAnswer>, removed: seq<int>)
    ensures forall a :: a in KeepAnswers(answers, removed) <==> a in answers && a.questionSeq !in removed
  {
    if |answers| > 0 {
      KeepAnswersMembers(answers[..|answers| - 1], removed);
      assert answers == answers[..|answers| - 1] + [answers[|answers| - 1]];
    }
  }

  lemma {:induction false} KeepSeqsMembers(seqs: seq<int>, removed: seq<int>)
    ensures forall q :: q in KeepSeqs(seqs, removed) <==> q in seqs && q !in removed
  {
    if |seqs| > 0 {
      KeepSeqsMembers(seqs[..|seqs| - 1], removed);
      assert seqs == seqs[..|seqs| - 1] + [seqs[|seqs| - 1]];
    }
  }

  lemma {:induction false} KeepSeqsDistinct(seqs: seq<int>, removed: seq<int>)
    requires Distinct(seqs)
    ensures Distinct(KeepSeqs(seqs, removed))
  {
    if |seqs| > 0 {
      var init := seqs[..|seqs| - 1];
      KeepSeqsDistinct(init, removed);
      KeepSeqsMembers(init, removed);
      assert seqs[|seqs| - 1] !in init;
    }
  }

  /** The answers and the seq list are filtered in lock step. */
  lemma {:induction false} KeepInLockStep(answers: seq<QuizAnswer>, seqs: seq<int>, removed: seq<int>)
    requires |answers| == |seqs| && forall i :: 0 <= i < |answers| ==> answers[i].questionSeq == seqs[i]
    ensures |KeepAnswers(answers, removed)| == |KeepSeqs(seqs, removed)|
    ensures forall i :: 0 <= i < |KeepAnswers(answers, removed)| ==> KeepAnswers(answers, removed)[i].questionSeq == KeepSeqs(seqs, removed)[i]
  {
    if |answers| > 0 {
      KeepInLockStep(answers[..|answers| - 1], seqs[..|seqs| - 1], removed);
    }
  }

  /** Pruning a consistent state leaves it consistent. */
  lemma PrunedConsistent(s: QuizState, removed: seq<int>)
    requires Consistent(s)
    ensures Consistent(Pruned(s, removed))
  {
    KeepInLockStep(s.userAnswers, s.answeredQuestionSeqs, removed);
    KeepSeqsDistinct(s.answeredQuestionSeqs, removed);
  }

  /** In a consistent state two answers with the same seq are the same answer. */
  lemma OneAnswerPerSeq(s: QuizState, a: QuizAnswer, b: QuizAnswer)
    requires Consistent(s) && a in s.userAnswers && b in s.userAnswers && a.questionSeq == b.questionSeq
    ensures a == b
  {
    var i :| 0 <= i < |s.userAnswers| && s.userAnswers[i] == a;
    var j :| 0 <= j < |s.userAnswers| && s.userAnswers[j] == b;
    assert s.answeredQuestionSeqs[i] == s.answeredQuestionSeqs[j];
  }

  /** Without stale answers there are no stale seqs. */
  lemma {:induction false} NoStaleSeqs(answers: seq<QuizAnswer>, questions: Option<seq<QuestionStamp>>)
    requires forall a :: a in answers ==> !IsStale(a, questions)
    ensures StaleSeqs(answers, questions) == []
  {
    if |answers| > 0 {
      var init := answers[..|answers| - 1];
      assert forall a :: a in init ==> a in answers;
      NoStaleSeqs(init, questions);
      assert answers[|answers| - 1] in answers;
    }
  }

  /**
   * What the clean-up leaves of one consistent stored state: it survives
   * exactly when it is dated today and has no answers or some answer that is
   * not stale; then it is consistent, keeps exactly its answers that are not
   * stale and is otherwise unchanged.
   */
  lemma CleanedStateMeaning(s: QuizState, questions: Option<seq<QuestionStamp>>, today: string)
    requires Consistent(s)
    ensures CleanedState(s, questions, today).Some? <==>
      s.date == today && (s.userAnswers == [] || exists a :: a in s.userAnswers && !IsStale(a, questions))
    ensures CleanedState(s, questions, today).Some? ==>
      var c := CleanedState(s, questions, today).value;
      && Consistent(c)
      && (forall a :: a in c.userAnswers <==> a in s.userAnswers && !IsStale(a, questions))
      && c == s.(userAnswers := c.userAnswers, answeredQuestionSeqs := c.answeredQuestionSeqs, answeredQuestions := c.answeredQuestions)
  {
    var stale := StaleSeqs(s.userAnswers, questions);
    StaleSeqsMembers(s.userAnswers, questions);
    KeepAnswersMembers(s.userAnswers, stale);
    PrunedConsistent(s, stale);
    var kept := KeepAnswers(s.userAnswers, stale);
    forall a
      ensures a in kept <==> a in s.userAnswers && !IsStale(a, questions)
    {
      if a in s.userAnswers && a.questionSeq in stale {
        var b :| b in s.userAnswers && IsStale(b, questions) && b.questionSeq == a.questionSeq;
        OneAnswerPerSeq(s, a, b);
      }
    }
    if |stale| == 0 {
      forall a | a in s.userAnswers
        ensures !IsStale(a, questions)
      {
        assert IsStale(a, questions) ==> a.questionSeq in stale;
      }
    }
    if s.userAnswers != [] && |kept| == 0 {
      forall a | a in s.userAnswers
        ensures IsStale(a, questions)
      {
        assert !IsStale(a, questions) ==> a in kept;
      }
    }
    if |kept| > 0 {
      assert kept[0] in kept;
    }
  }

  /**
   * `cleanupStaleQuizzes` on a store of consistent states: keys outside
   * "quiz-" are untouched; text under a quiz key survives only when it is
   * empty; a quiz state survives exactly when it is dated today and has no
   * answers or an answer that is not stale, and what survives is consistent,
   * dated today and free of stale answers.
   */
  lemma CleanupMeaning(items: map<string, Item>, questions: Option<seq<QuestionStamp>>, today: string)
    requires forall k | k in items && items[k].Quiz? :: Consistent(items[k].state)
    ensures var after := Cleaned(items, questions, today);
      && (forall k | k in items && !StartsWith(k, StoragePrefix) :: k in after && after[k] == items[k])
      && (forall k | k in items && StartsWith(k, StoragePrefix) && items[k].Text? :: k in after <==> items[k].text == "")
      && (forall k | k in items && StartsWith(k, StoragePrefix) && items[k].Quiz? ::
            (k in after <==> (items[k].state.date == today
              && (items[k].state.userAnswers == [] || exists a :: a in items[k].state.userAnswers && !IsStale(a, questions)))))
      && (forall k | k in after && StartsWith(k, StoragePrefix) && after[k].Quiz? ::
            && Consistent(after[k].state) && after[k].state.date == today
            && forall a :: a in after[k].state.userAnswers ==> !IsStale(a, questions))
  {
    var after := Cleaned(items, questions, today);
    forall k | k in items && items[k].Quiz?
      ensures CleanedState(items[k].state, questions, today).Some? <==> (items[k].state.date == today
        && (items[k].state.userAnswers == [] || exists a :: a in items[k].state.userAnswers && !IsStale(a, questions)))
    {
      CleanedStateMeaning(items[k].state, questions, today);
    }
    forall k | k in after && StartsWith(k, StoragePrefix) && after[k].Quiz?
      ensures && Consistent(after[k].state) && after[k].state.date == today
        && forall a :: a in after[k].state.userAnswers ==> !IsStale(a, questions)
    {
      CleanedStateMeaning(items[k].state, questions, today);
    }
  }

  /** A second clean-up on the same day with the same questions changes nothing. */
  lemma CleanupIdempotent(items: map<string, Item>, questions: Option<seq<QuestionStamp>>, today: string)
    ensures Cleaned(Cleaned(items, questions, today), questions, today) == Cleaned(items, questions, today)
  {
    var once := Cleaned(items, questions, today);
    forall k | k in once
      ensures Survives(k, once[k], questions, today) && CleanedValue(k, once[k], questions, today) == once[k]
    {
      if StartsWith(k, StoragePrefix) && items[k].Quiz? {
        CleanedStateSettled(items[k].state, questions, today);
      }
    }
  }

  /** A state the clean-up kept is kept again as it is. */
  lemma CleanedStateSettled(s: QuizState, questions: Option<seq<QuestionStamp>>, today: string)
    requires CleanedState(s, questions, today).Some?
    ensures var c := CleanedState(s, questions, today).value;
      CleanedState(c, questions, today) == Some(c)
  {
    var c := CleanedState(s, questions, today).value;
    var stale := StaleSeqs(s.userAnswers, questions);
    if |stale| > 0 {
      KeepAnswersMembers(s.userAnswers, stale);
      StaleSeqsMembers(s.userAnswers, questions);
      forall a | a in c.userAnswers
        ensures !IsStale(a, questions)
      {
        assert IsStale(a, questions) ==> a.questionSeq in stale;
      }
      NoStaleSeqs(c.userAnswers, questions);
    }
  }

  /** `getTodayDate`: year, month (from 0, as `getMonth` gives it) and day as YYYY-MM-DD. */
  function TodayDate(year: int, monthIndex: nat, day: nat): string
    requires monthIndex < 12 && 1 <= day <= 31
  {
    IntToString(year) + "-" + Pad2(monthIndex + 1) + "-" + Pad2(day)
  }

  lemma Pad2Injective(a: nat, b: nat)
    requires a < 100 && b < 100 && Pad2(a) == Pad2(b)
    ensures a == b
  {
    assert Pad2(a)[0] == Pad2(b)[0] && Pad2(a)[1] == Pad2(b)[1];
  }

  /**
   * The date text ends in a dash, two month digits, a dash and two day
   * digits, and different days give different texts, so comparing texts
   * (`isToday`) compares days.
   */
  lemma TodayDateMeaning(y1: int, m1: nat, d1: nat, y2: int, m2: nat, d2: nat)
    requires m1 < 12 && 1 <= d1 <= 31 && m2 < 12 && 1 <= d2 <= 31
    ensures var r := TodayDate(y1, m1, d1);
      && |r| >= 7 && r[|r| - 6] == '-' && r[|r| - 3] == '-'
      && (forall i :: |r| - 5 <= i < |r| && i != |r| - 3 ==> '0' <= r[i] <= '9')
    ensures TodayDate(y1, m1, d1) == TodayDate(y2, m2, d2) <==> y1 == y2 && m1 == m2 && d1 == d2
  {
    TodayDateShape(y1, m1, d1);
    if TodayDate(y1, m1, d1) == TodayDate(y2, m2, d2) {
      TodayDateInjective(y1, m1, d1, y2, m2, d2);
    }
  }

  /** The three parts of the date text and where they sit. */
  lemma TodayDateParts(y: int, m: nat, d: nat)
    requires m < 12 && 1 <= d <= 31
    ensures var r, n := TodayDate(y, m, d), |IntToString(y)|;
      && |r| == n + 6 && r[..n] == IntToString(y) && r[n] == '-' && r[n + 3] == '-'
      && r[n + 1..n + 3] == Pad2(m + 1) && r[n + 4..] == Pad2(d)
  {
  }

  lemma TodayDateShape(y: int, m: nat, d: nat)
    requires m < 12 && 1 <= d <= 31
    ensures var r := TodayDate(y, m, d);
      && |r| >= 7 && r[|r| - 6] == '-' && r[|r| - 3] == '-'
      && (forall i :: |r| - 5 <= i < |r| && i != |r| - 3 ==> '0' <= r[i] <= '9')
  {
    TodayDateParts(y, m, d);
    var r, n := TodayDate(y, m, d), |IntToString(y)|;
    forall i | |r| - 5 <= i < |r| && i != |r| - 3
      ensures '0' <= r[i] <= '9'
    {
      if i < n + 3 {
        assert r[i] == Pad2(m + 1)[i - n - 1];
      } else {
        assert r[i] == Pad2(d)[i - n - 4];
      }
    }
  }

  lemma TodayDateInjective(y1: int, m1: nat, d1: nat, y2: int, m2: nat, d2: nat)
    requires m1 < 12 && 1 <= d1 <= 31 && m2 < 12 && 1 <= d2 <= 31
    requires TodayDate(y1, m1, d1) == TodayDate(y2, m2, d2)
    ensures y1 == y2 && m1 == m2 && d1 == d2
  {
    TodayDateParts(y1, m1, d1);
    TodayDateParts(y2, m2, d2);
    IntToStringInjective(y1, y2);
    Pad2Injective(m1 + 1, m2 + 1);
    Pad2Injective(d1, d2);
  }

  /** Month and day are zero-padded: 5 January 2026 is "2026-01-05". */
  lemma TodayDateExample()
    ensures TodayDate(2026, 0, 5) == "2026-01-05"
  {
    assert NatToString(2) == "2";
    assert NatToString(20) == "20";
    assert NatToString(202) == "202";
    assert NatToString(2026) == "2026";
    assert Pad2(1) == "01" && Pad2(5) == "05";
  }

  /**
   * `init`, with the quiz keys of a previous user removed after they are all
   * collected (the loop as written is `WebStorage.RemovePrefixedAsWritten`).
   */
  method Init(store: Storage<Item>, fullname: string, today: string)
    requires store.Valid() && WellKeyed(store.items)
    modifies store
    ensures store.Valid() && WellKeyed(store.items)
    ensures store.items == Cleaned(AfterSignIn(old(store.items), AuthKey, StoragePrefix, fullname, Text(fullname)), None, today)
  {
    if fullname != "" && store.GetItem(AuthKey) != Some(Text(fullname)) {
      RemovePrefixed(store, StoragePrefix);
    }
    if fullname != "" {
      store.SetItem(AuthKey, Text(fullname));
    }
    CleanupStaleQuizzes(store, None, today);
  }

  /** `init` as written: the previous user's quiz keys are removed while `localStorage.key(i)` is walked. */
  method InitAsWritten(store: Storage<Item>, fullname: string, today: string)
    requires store.Valid() && WellKeyed(store.items)
    modifies store
    ensures store.Valid() && WellKeyed(store.items)
    ensures store.items == Cleaned(AfterSignInAsWritten(old(store.items), old(store.keys), AuthKey, StoragePrefix, fullname, Text(fullname)), None, today)
  {
    if fullname != "" && store.GetItem(AuthKey) != Some(Text(fullname)) {
      RemovePrefixedAsWritten(store, StoragePrefix);
    }
    if fullname != "" {
      store.SetItem(AuthKey, Text(fullname));
    }
    CleanupStaleQuizzes(store, None, today);
  }

  /** Two quiz keys in a row and a new user: the second key survives `init` as written. */
  lemma SignInAsWrittenKeepsKey()
    ensures "quiz-b" in AfterSignInAsWritten(map["quiz-a" := Text("a"), "quiz-b" := Text("b")], ["quiz-a", "quiz-b"], AuthKey, StoragePrefix, "new user", Text("new user"))
    ensures StartsWith("quiz-b", StoragePrefix)
  {
    var keys := ["quiz-a", "quiz-b"];
    assert StartsWith(keys[0], StoragePrefix);
    assert keys[..0] + keys[1..] == ["quiz-b"];
    assert AfterIndexedRemoval(keys, StoragePrefix, 0) == ["quiz-b"];
  }


  /**
   * Signing in as a different user leaves no quiz key and records the new
   * name; every key outside "quiz-" other than the auth key keeps its value.
   * Signing in as the recorded user changes nothing.
   */
  lemma SignInMeaning(items: map<string, Item>, fullname: string)
    requires fullname != ""
    ensures var after := AfterSignIn(items, AuthKey, StoragePrefix, fullname, Text(fullname));
      && AuthKey in after && after[AuthKey] == Text(fullname)
      && (forall k | k in items && !StartsWith(k, StoragePrefix) && k != AuthKey :: k in after && after[k] == items[k])
      && (forall k | k in after && k != AuthKey :: k in items)
      && (!(AuthKey in items && items[AuthKey] == Text(fullname)) ==> forall k | k in after :: !StartsWith(k, StoragePrefix))
      && (AuthKey in items && items[AuthKey] == Text(fullname) ==> after == items)
  {
    assert !StartsWith(AuthKey, StoragePrefix) by {
      assert AuthKey[0] != StoragePrefix[0];
    }
  }

  /** `validateQuizDate`: a stored state from another day is removed and reported invalid. */
  method ValidateQuizDate(store: Storage<Item>, slug: string, today: string) returns (valid: bool)
    requires store.Valid()
    modifies store
    ensures store.Valid()
    ensures valid <==> GetQuizState(old(store.items), slug).None? || GetQuizState(old(store.items), slug).value.date == today
    ensures valid ==> store.items == old(store.items) && store.keys == old(store.keys)
    ensures !valid ==> store.items == old(store.items) - {StorageKey(slug)}
  {
    var state := GetQuizState(store.items, slug);
    if state.None? {
      return true;
    }
    if state.value.date != today {
      store.RemoveItem(StorageKey(slug));
      return false;
    }
    return true;
  }
}
