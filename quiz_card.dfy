/**
  One quiz question on screen (QuizCard.tsx). The card keeps three cells of state,
  initialised once from the `isQuizMode` it is mounted with; later renders pass the
  parent's current `isQuizMode`, which the handlers read but which never re-initialises
  the cells.
 */
module Card {
  import opened JsValue

  /** A question as the page receives it (quiz.ts lines 1-7). Nothing ties `answer` to
      `options` or restricts `difficulty`. */
  datatype Question = Question(
    question: string,
    options: seq<string>,
    answer: string,
    difficulty: string,
    explanation: string)

  class QuizCard {
    const question: Question
    /** The `isQuizMode` the card was mounted with (lines 14-16). */
    const mountedInQuizMode: bool

    var selectedOption: Option<string>
    var showExplanation: bool
    var isRevealed: bool

    /** How many times the card has called `onAnswer`. */
    ghost var reports: nat

    /** A card reports at most once, an option is selected exactly when it has reported,
        and a card that has reported is revealed. */
    ghost predicate Valid()
      reads this
    {
      reports <= 1 &&
      (reports == 0 <==> selectedOption.None?) &&
      (reports == 1 ==> isRevealed)
    }

    /** Lines 14-16: nothing selected; explanation shown and answer revealed exactly when
        the card is mounted outside quiz mode. */
    constructor(question: Question, isQuizMode: bool)
      ensures Valid()
      ensures this.question == question && mountedInQuizMode == isQuizMode
      ensures selectedOption.None? && showExplanation == !isQuizMode && isRevealed == !isQuizMode
      ensures reports == 0
    {
      this.question := question;
      mountedInQuizMode := isQuizMode;
      selectedOption := None;
      showExplanation := !isQuizMode;
      isRevealed := !isQuizMode;
      reports := 0;
    }

    /** Line 75 (and line 69): the option buttons are disabled, and the result is shown,
        when the card is revealed and the page is in quiz mode. */
    predicate OptionsDisabled(isQuizMode: bool)
      reads this
    {
      isRevealed && isQuizMode
    }

    /** Lines 18-27. A click counts only in quiz mode on a card not yet revealed, which is
        exactly when its buttons are enabled; it selects the option, reveals the card,
        shows the explanation and reports whether the option is the answer, once.
        `report` is the argument `onAnswer` is called with, `None` when it is not called. */
    method HandleOptionClick(option: string, isQuizMode: bool) returns (report: Option<bool>)
      requires Valid()
      modifies this
      ensures Valid()
      ensures report.Some? <==> isQuizMode && !old(OptionsDisabled(isQuizMode))
      ensures report.None? ==>
        selectedOption == old(selectedOption) && showExplanation == old(showExplanation) &&
        isRevealed == old(isRevealed) && reports == old(reports)
      ensures report.Some? ==>
        report.value == (option == question.answer) &&
        selectedOption == Some(option) && isRevealed && showExplanation &&
        reports == old(reports) + 1
    {
      if !isQuizMode || isRevealed {
        return None;
      }
      selectedOption := Some(option);
      isRevealed := true;
      showExplanation := true;
      reports := reports + 1;
      report := Some(option == question.answer);
    }

    /** Lines 112-114: outside quiz mode the toggle flips the explanation; in quiz mode
        there is no toggle. */
    method ToggleExplanation(isQuizMode: bool)
      requires Valid()
      modifies this
      ensures Valid()
      ensures showExplanation == (if isQuizMode then old(showExplanation) else !old(showExplanation))
      ensures selectedOption == old(selectedOption) && isRevealed == old(isRevealed) && reports == old(reports)
    {
      if !isQuizMode {
        showExplanation := !showExplanation;
      }
    }

    /** Lines 90-96: the mark in an option's badge. */
    function OptionMark(optIndex: nat, option: string, isQuizMode: bool): (m: Mark)
      requires optIndex < MaxLabelIndex
      reads this
    {
      var showResult := isRevealed && isQuizMode;
      var isCorrect := option == question.answer;
      var isSelected := selectedOption == Some(option);
      if showResult && isCorrect then Tick
      else if showResult && isSelected && !isCorrect then Cross
      else Letter(OptionLabel(optIndex))
    }
  }

  /** Once a card is answered in quiz mode, the chosen option shows a tick when it is the
      answer and a cross otherwise; every other option that is not the answer keeps its
      letter. */
  lemma MarksAfterAnswer(card: QuizCard, i: nat, option: string)
    requires card.Valid() && card.reports == 1 && i < MaxLabelIndex
    ensures card.selectedOption.Some?
    ensures option == card.selectedOption.value ==>
      card.OptionMark(i, option, true) == (if option == card.question.answer then Tick else Cross)
    ensures option != card.selectedOption.value && option != card.question.answer ==>
      card.OptionMark(i, option, true) == Letter(OptionLabel(i))
  {
  }

  /** Outside quiz mode no result is shown: every option shows its letter. */
  lemma MarksOutsideQuizMode(card: QuizCard, i: nat, option: string)
    requires i < MaxLabelIndex
    ensures card.OptionMark(i, option, false) == Letter(OptionLabel(i))
  {
  }

  /** What an option's badge shows: a tick, a cross, or the option's letter. */
  datatype Mark = Tick | Cross | Letter(c: char)

  /** Indices whose label code stays below the surrogate range. */
  const MaxLabelIndex: nat := 0xD800 - 65

  /** Line 95: `String.fromCharCode(65 + optIndex)`. */
  function OptionLabel(i: nat): (c: char)
    requires i < MaxLabelIndex
    ensures c as int == 65 + i
  {
    (65 + i) as char
  }

  /** The first four options are labelled A to D, and every label of the first 26 is an
      upper-case letter. */
  lemma OptionLabels()
    ensures OptionLabel(0) == 'A' && OptionLabel(1) == 'B' && OptionLabel(2) == 'C' && OptionLabel(3) == 'D'
    ensures forall i :: 0 <= i < 26 ==> 'A' <= OptionLabel(i) <= 'Z'
  {
  }

  /** Labels follow the option order, so no two options share one. */
  lemma OptionLabelsOrdered(i: nat, j: nat)
    requires i < j < MaxLabelIndex
    ensures OptionLabel(i) < OptionLabel(j)
  {
  }

  /** Lines 29-40. */
  function DifficultyStyles(difficulty: string): (r: string)
    ensures difficulty in {"easy", "medium", "hard"} ==> r == "difficulty-badge-" + difficulty
    ensures difficulty !in {"easy", "medium", "hard"} ==> r == "bg-muted text-muted-foreground"
  {
    match difficulty
    case "easy" => "difficulty-badge-easy"
    case "medium" => "difficulty-badge-medium"
    case "hard" => "difficulty-badge-hard"
    case _ => "bg-muted text-muted-foreground"
  }

  /** The three levels get three different badges, none of them the default one, and the
      match is case-sensitive. */
  lemma DifficultyStylesDistinct()
    ensures DifficultyStyles("easy") != DifficultyStyles("medium")
    ensures DifficultyStyles("medium") != DifficultyStyles("hard")
    ensures DifficultyStyles("easy") != DifficultyStyles("hard")
    ensures forall d :: d in {"easy", "medium", "hard"} ==> DifficultyStyles(d) != DifficultyStyles("")
    ensures DifficultyStyles("Easy") == DifficultyStyles("")
  {
    assert DifficultyStyles("easy")[17] != DifficultyStyles("medium")[17];
    assert DifficultyStyles("medium")[17] != DifficultyStyles("hard")[17];
    assert DifficultyStyles("easy")[17] != DifficultyStyles("hard")[17];
    assert DifficultyStyles("")[0] == 'b';
  }
}
