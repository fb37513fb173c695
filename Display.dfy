/** What `updateDisplay` in app.js derives from the current ticket before
    writing it to the page: the number label, the question and the answer,
    with their fallbacks. */
module Display {
  import opened Wrappers
  import opened Text
  import opened Resolver

  /** Accepted spellings of each field, in the order the resolver tries them. */
  const NumberKeys: seq<string> := ["Номер билета", "номер билета", "Номер", "номер", "Билет", "билет"]
  const QuestionKeys: seq<string> := ["Вопрос", "вопрос", "Question", "question"]
  const AnswerKeys: seq<string> := ["Ответ", "ответ", "Answer", "answer"]

  /** Shown when no question is found. */
  const QuestionMissing: string := "Вопрос не найден"
  /** Shown when the answer is missing or blank. */
  const AnswerMissing: string := "(Ответ пока не добавлен)"

  /** The ticket number shown after "Билет № ": the resolved number text, or
      the 1-based position when there is none. */
  datatype Label = Named(text: string) | Ordinal(position: int)

  /** The card's contents: label, question, answer, and whether the answer
      carries the "empty answer" style. */
  datatype Card = Card(number: Label, question: string, answer: string, emptyAnswer: bool)

  /** JavaScript truthiness of a resolver result: `null` and `''` are falsy. */
  predicate Truthy(v: Option<string>) {
    v.Some? && v.value != ""
  }

  /** The answer text `getValue(ticket, answerKeys, true) || ''`. With empty
      answers allowed the resolver never returns `null`, so the fallback
      changes nothing: the text is exactly what the resolver returns. */
  function AnswerText(t: Record): (a: string)
    ensures GetValue(t, AnswerKeys, true) == Some(a)
  {
    AllowEmptyNeverNull(t, AnswerKeys);
    GetValue(t, AnswerKeys, true).GetOr("")
  }

  /** The card for ticket `t` at position `index`. Neither the question nor the
      answer shown is ever empty; the "empty answer" style is set exactly when
      the answer text is blank, and then the placeholder is shown instead of it;
      otherwise the answer is shown verbatim. */
  function DeriveCard(t: Record, index: int): (c: Card)
    ensures c.question != "" && c.answer != ""
    ensures c.number.Named? ==> c.number.text != ""
    ensures c.emptyAnswer <==> Blank(AnswerText(t))
    ensures c.answer == if c.emptyAnswer then AnswerMissing else AnswerText(t)
  {
    var num := GetValue(t, NumberKeys, false);
    var q := GetValue(t, QuestionKeys, false);
    var a := AnswerText(t);
    var blank := Strip(a) == "";
    Card(if Truthy(num) then Named(num.value) else Ordinal(index + 1),
         if Truthy(q) then q.value else QuestionMissing,
         if blank then AnswerMissing else a,
         blank)
  }

  /** The number label falls back to the 1-based position exactly when the
      number resolves to `null` or `''`; otherwise it is the resolved text. */
  lemma NumberFallback(t: Record, index: int)
    ensures DeriveCard(t, index).number == Ordinal(index + 1) <==> !Truthy(GetValue(t, NumberKeys, false))
    ensures Truthy(GetValue(t, NumberKeys, false)) ==>
      DeriveCard(t, index).number == Named(GetValue(t, NumberKeys, false).value)
  {
  }

  /** The question falls back to the placeholder whenever it resolves to
      `null` or `''`; otherwise it is the resolved text. */
  lemma QuestionFallback(t: Record, index: int)
    ensures !Truthy(GetValue(t, QuestionKeys, false)) ==> DeriveCard(t, index).question == QuestionMissing
    ensures Truthy(GetValue(t, QuestionKeys, false)) ==>
      DeriveCard(t, index).question == GetValue(t, QuestionKeys, false).value
  {
  }

  /** A question field that is present but holds `null`, `undefined` or `''`
      (under any of the accepted names, in any case) counts as missing: the
      placeholder is shown. */
  lemma EmptyQuestionShowsPlaceholder(t: Record, index: int)
    requires forall m, c :: 0 <= m < |t| && c in QuestionKeys && Lower(t[m].0) == Lower(c) ==>
      !Acceptable(t[m].1, false)
    ensures DeriveCard(t, index).question == QuestionMissing
  {
    NoAcceptableValue(t, QuestionKeys, false);
  }

  /** `{"Вопрос": ""}`: the question key is there, its value is empty, and
      the placeholder is shown. */
  lemma EmptyQuestionExample(t: Record)
    requires t == [("Вопрос", Str(""))]
    ensures DeriveCard(t, 0).question == QuestionMissing
  {
    EmptyQuestionShowsPlaceholder(t, 0);
  }

  /** A ticket with no property named like a number field (in any case) is
      labelled with its 1-based position. */
  lemma MissingNumberShowsPosition(t: Record, index: int)
    requires forall m, c :: 0 <= m < |t| && c in NumberKeys ==> Lower(t[m].0) != Lower(c)
    ensures DeriveCard(t, index).number == Ordinal(index + 1)
  {
    NoMatchingKey(t, NumberKeys, false);
  }

  /** A ticket with no property named like a question field shows the
      "question not found" placeholder. */
  lemma MissingQuestionShowsPlaceholder(t: Record, index: int)
    requires forall m, c :: 0 <= m < |t| && c in QuestionKeys ==> Lower(t[m].0) != Lower(c)
    ensures DeriveCard(t, index).question == QuestionMissing
  {
    NoMatchingKey(t, QuestionKeys, false);
  }

  /** A ticket with no property named like an answer field shows the "answer
      not yet added" placeholder with the empty-answer style. */
  lemma MissingAnswerShowsPlaceholder(t: Record, index: int)
    requires forall m, c :: 0 <= m < |t| && c in AnswerKeys ==> Lower(t[m].0) != Lower(c)
    ensures DeriveCard(t, index).emptyAnswer
    ensures DeriveCard(t, index).answer == AnswerMissing
  {
    NoMatchingKey(t, AnswerKeys, true);
  }

  /** An answer stored under the exact name "Ответ" with some non-blank text is
      shown verbatim, without the empty-answer style. */
  lemma ExactAnswerShown(t: Record, index: int, a: string)
    requires Get(t, "Ответ") == Some(Str(a)) && !Blank(a)
    ensures DeriveCard(t, index).answer == a && !DeriveCard(t, index).emptyAnswer
  {
    assert AnswerKeys[0] == "Ответ";
    assert Hit(t, AnswerKeys[0], true, false);
    ExactMatchWins(t, AnswerKeys, true, 0);
  }

  /** `{"Вопрос": "Q1", "Ответ": "A1"}` at position 0, a ticket with the exact
      Russian field names and no number field: its question and answer are
      shown, and it is labelled with its position, 1. */
  lemma WalkThroughFirstCard(t: Record)
    requires t == [("Вопрос", Str("Q1")), ("Ответ", Str("A1"))]
    ensures DeriveCard(t, 0) == Card(Ordinal(1), "Q1", "A1", false)
  {
    WalkThroughFirstNumber(t);
    WalkThroughFirstQuestion(t);
    WalkThroughFirstAnswer(t);
  }

  lemma WalkThroughFirstNumber(t: Record)
    requires t == [("Вопрос", Str("Q1")), ("Ответ", Str("A1"))]
    ensures DeriveCard(t, 0).number == Ordinal(1)
  {
    assert Lower("Вопрос")[0] == 'в' && Lower("Ответ")[0] == 'о';
    assert forall c :: c in NumberKeys ==> Lower(c)[0] == 'н' || Lower(c)[0] == 'б';
    MissingNumberShowsPosition(t, 0);
  }

  lemma WalkThroughFirstQuestion(t: Record)
    requires t == [("Вопрос", Str("Q1")), ("Ответ", Str("A1"))]
    ensures DeriveCard(t, 0).question == "Q1"
  {
    assert Keys(t) == ["Вопрос", "Ответ"];
    IndexOfFirst(Keys(t), "Вопрос", 0);
    FirstPresentCandidate(t, QuestionKeys, false, 0, Str("Q1"));
  }

  lemma WalkThroughFirstAnswer(t: Record)
    requires t == [("Вопрос", Str("Q1")), ("Ответ", Str("A1"))]
    ensures DeriveCard(t, 0).answer == "A1" && !DeriveCard(t, 0).emptyAnswer
  {
    assert Keys(t) == ["Вопрос", "Ответ"];
    IndexOfFirst(Keys(t), "Ответ", 1);
    assert !IsSpace("A1"[0]);
    ExactAnswerShown(t, 0, "A1");
  }

  /** `{"question": "Q2"}` at position 1, a ticket with only a lower-case
      English question: the question is found, the answer placeholder is
      shown with the empty-answer style, and the label is 2. */
  lemma WalkThroughSecondCard(t: Record)
    requires t == [("question", Str("Q2"))]
    ensures DeriveCard(t, 1) == Card(Ordinal(2), "Q2", AnswerMissing, true)
  {
    WalkThroughSecondNumber(t);
    WalkThroughSecondAnswer(t);
    WalkThroughSecondQuestion(t);
  }

  lemma WalkThroughSecondNumber(t: Record)
    requires t == [("question", Str("Q2"))]
    ensures DeriveCard(t, 1).number == Ordinal(2)
  {
    assert Lower("question")[0] == 'q';
    assert forall c :: c in NumberKeys ==> Lower(c)[0] == 'н' || Lower(c)[0] == 'б';
    MissingNumberShowsPosition(t, 1);
  }

  lemma WalkThroughSecondAnswer(t: Record)
    requires t == [("question", Str("Q2"))]
    ensures DeriveCard(t, 1).answer == AnswerMissing && DeriveCard(t, 1).emptyAnswer
  {
    assert Lower("question")[0] == 'q';
    assert forall c :: c in AnswerKeys ==> Lower(c)[0] == 'о' || Lower(c)[0] == 'a';
    MissingAnswerShowsPlaceholder(t, 1);
  }

  lemma WalkThroughSecondQuestion(t: Record)
    requires t == [("question", Str("Q2"))]
    ensures DeriveCard(t, 1).question == "Q2"
  {
    assert Keys(t) == ["question"];
    IndexOfFirst(Keys(t), "question", 0);
    FirstPresentCandidate(t, QuestionKeys, false, 3, Str("Q2"));
  }
}
