/** The two halves together: a ticket written by convert_excel_to_json.py is
    read by app.js, whose first candidate for each field is exactly the name
    the converter gives the recognised column. */
module Pipeline {
  import opened Text
  import opened Resolver
  import opened Display
  import opened Converter

  /** A converted ticket as app.js reads it back from tickets.json, every
      value a JSON string. The keys are taken in the order the converter
      wrote them, which is the order `JSON.parse` keeps for keys that are
      not array indices. */
  function AsRecord(t: Ticket): (r: Record)
    ensures Keys(r) == seq(|t|, i requires 0 <= i < |t| => t[i].0)
    ensures forall i :: 0 <= i < |t| ==> r[i] == (t[i].0, Str(t[i].1))
  {
    seq(|t|, i requires 0 <= i < |t| => (t[i].0, Str(t[i].1)))
  }

  /** The converted question column is found by its exact name and shown. */
  lemma ConvertedQuestionShown(t: Ticket, index: int, i: nat)
    requires i < |t| && t[i].0 == QuestionName && t[i].1 != ""
    requires forall j :: 0 <= j < i ==> t[j].0 != QuestionName
    ensures DeriveCard(AsRecord(t), index).question == t[i].1
  {
    var r := AsRecord(t);
    IndexOfFirst(Keys(r), QuestionName, i);
    FirstPresentCandidate(r, QuestionKeys, false, 0, Str(t[i].1));
  }

  /** The converted answer column, when not blank, is shown verbatim. */
  lemma ConvertedAnswerShown(t: Ticket, index: int, i: nat)
    requires i < |t| && t[i].0 == AnswerName && !Blank(t[i].1)
    requires forall j :: 0 <= j < i ==> t[j].0 != AnswerName
    ensures DeriveCard(AsRecord(t), index).answer == t[i].1
    ensures !DeriveCard(AsRecord(t), index).emptyAnswer
  {
    var r := AsRecord(t);
    IndexOfFirst(Keys(r), AnswerName, i);
    ExactAnswerShown(r, index, t[i].1);
  }

  /** The converted number column, when not empty, labels the card instead of
      the position. */
  lemma ConvertedNumberShown(t: Ticket, index: int, i: nat)
    requires i < |t| && t[i].0 == NumberName && t[i].1 != ""
    requires forall j :: 0 <= j < i ==> t[j].0 != NumberName
    ensures DeriveCard(AsRecord(t), index).number == Named(t[i].1)
  {
    var r := AsRecord(t);
    IndexOfFirst(Keys(r), NumberName, i);
    FirstPresentCandidate(r, NumberKeys, false, 0, Str(t[i].1));
    NumberFallback(r, index);
  }
}
