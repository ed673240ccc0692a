/** `toggleFaq` of QbixSolutions/static/js/main.js. A block of FAQ entries
    keeps, per question and per answer, whether it has the `active` class;
    answer `k` is the element right after question `k`. A block whose
    questions sit inside a `.faq-category` element is `grouped`: toggling
    first clears every question and answer of the category. */
module Faq {

  /** The `active` flags of the questions after toggling question `k`. */
  function ToggledQuestions(q: seq<bool>, k: nat, grouped: bool): (r: seq<bool>)
    requires k < |q|
    ensures |r| == |q|
  {
    if grouped then seq(|q|, j => j == k && !q[k]) else q[k := true]
  }

  /** The `active` flags of the answers after toggling question `k`. */
  function ToggledAnswers(q: seq<bool>, a: seq<bool>, k: nat, grouped: bool): (r: seq<bool>)
    requires k < |q| == |a|
    ensures |r| == |a|
  {
    if grouped then seq(|a|, j => j == k && !q[k])
    else if q[k] then a
    else a[k := true]
  }

  /** At most one flag is set. */
  predicate AtMostOne(s: seq<bool>) {
    forall i, j :: 0 <= i < j < |s| && s[i] ==> !s[j]
  }

  /** In a category, toggling an open question closes every question and answer. */
  lemma ToggleOpenClosesAll(q: seq<bool>, a: seq<bool>, k: nat)
    requires k < |q| == |a| && q[k]
    ensures forall j :: 0 <= j < |q| ==> !ToggledQuestions(q, k, true)[j] && !ToggledAnswers(q, a, k, true)[j]
  {
  }

  /** In a category, toggling a closed question leaves it and its answer the
      only open pair. */
  lemma ToggleClosedOpensOnlyIt(q: seq<bool>, a: seq<bool>, k: nat)
    requires k < |q| == |a| && !q[k]
    ensures forall j :: 0 <= j < |q| ==>
      (ToggledQuestions(q, k, true)[j] <==> j == k) && (ToggledAnswers(q, a, k, true)[j] <==> j == k)
  {
  }

  /** In a category at most one question is open after any toggle, whatever
      was open before. */
  lemma ToggleKeepsAtMostOne(q: seq<bool>, a: seq<bool>, k: nat)
    requires k < |q| == |a|
    ensures AtMostOne(ToggledQuestions(q, k, true)) && AtMostOne(ToggledAnswers(q, a, k, true))
    ensures ToggledQuestions(q, k, true) == ToggledAnswers(q, a, k, true)
  {
  }

  /** Outside a category the toggle only ever opens: a closed question opens
      together with its answer, an open one changes nothing, and only entry
      `k` can change. */
  lemma UngroupedToggleOnlyOpens(q: seq<bool>, a: seq<bool>, k: nat)
    requires k < |q| == |a|
    ensures ToggledQuestions(q, k, false)[k]
    ensures !q[k] ==> ToggledAnswers(q, a, k, false)[k]
    ensures q[k] ==> ToggledQuestions(q, k, false) == q && ToggledAnswers(q, a, k, false) == a
    ensures forall j :: 0 <= j < |q| && j != k ==>
      ToggledQuestions(q, k, false)[j] == q[j] && ToggledAnswers(q, a, k, false)[j] == a[j]
  {
  }

  class FaqBlock {
    const questions: array<bool>
    const answers: array<bool>
    const grouped: bool

    ghost predicate Valid()
      reads this
    {
      questions.Length == answers.Length && questions != answers
    }

    constructor (q: seq<bool>, a: seq<bool>, grouped: bool)
      requires |q| == |a|
      ensures Valid() && this.grouped == grouped
      ensures questions[..] == q && answers[..] == a
      ensures fresh(questions) && fresh(answers)
    {
      questions := new bool[|q|](i requires 0 <= i < |q| => q[i]);
      answers := new bool[|a|](i requires 0 <= i < |a| => a[i]);
      this.grouped := grouped;
    }

    /** `toggleFaq(question k)`. */
    method Toggle(k: nat)
      requires Valid() && k < questions.Length
      modifies questions, answers
      ensures Valid()
      ensures questions[..] == ToggledQuestions(old(questions[..]), k, grouped)
      ensures answers[..] == ToggledAnswers(old(questions[..]), old(answers[..]), k, grouped)
    {
      var isActive := questions[k];
      if grouped {
        for j := 0 to questions.Length
          invariant forall i :: 0 <= i < j ==> !questions[i]
          invariant forall i :: j <= i < questions.Length ==> questions[i] == old(questions[i])
          invariant answers[..] == old(answers[..])
        {
          questions[j] := false;
        }
        for j := 0 to answers.Length
          invariant forall i :: 0 <= i < j ==> !answers[i]
          invariant forall i :: j <= i < answers.Length ==> answers[i] == old(answers[i])
          invariant forall i :: 0 <= i < questions.Length ==> !questions[i]
        {
          answers[j] := false;
        }
      }
      if !isActive {
        questions[k] := true;
        answers[k] := true;
      }
    }
  }
}
