/**
  The quiz page (QuizDisplay.tsx): the quiz-mode flag, the score tally fed by the cards'
  `onAnswer` callbacks, and the links to related topics. The cards are mounted on the
  first render, while `isQuizMode` is still false, and React keeps them (keyed by index)
  across later renders.
 */
module Display {
  import opened Text
  import opened JsValue
  import opened Scrape
  import opened Card

  /** The number of elements of `s` below `n` is at most `n`, and a set of `n` of them
      holds all of them. */
  lemma {:induction false} IndexSetBound(s: set<nat>, n: nat)
    requires forall i :: i in s ==> i < n
    ensures |s| <= n
    ensures |s| == n ==> forall i :: 0 <= i < n ==> i in s
  {
    if n > 0 {
      var s' := s - {n - 1};
      IndexSetBound(s', n - 1);
      if n - 1 in s {
        assert s == s' + {n - 1};
      } else {
        assert s == s';
      }
    }
  }

  /** The cards are mounted once per question, each a separate object. */
  method MountCards(questions: seq<Question>, isQuizMode: bool) returns (cards: seq<QuizCard>)
    ensures |cards| == |questions|
    ensures forall i :: 0 <= i < |cards| ==>
      fresh(cards[i]) && cards[i].Valid() && cards[i].question == questions[i] &&
      cards[i].mountedInQuizMode == isQuizMode && cards[i].reports == 0 &&
      cards[i].selectedOption.None? && cards[i].isRevealed == !isQuizMode &&
      cards[i].showExplanation == !isQuizMode
    ensures forall i, j :: 0 <= i < j < |cards| ==> cards[i] != cards[j]
  {
    cards := [];
    for n := 0 to |questions|
      invariant |cards| == n
      invariant forall i :: 0 <= i < n ==>
        fresh(cards[i]) && cards[i].Valid() && cards[i].question == questions[i] &&
        cards[i].mountedInQuizMode == isQuizMode && cards[i].reports == 0 &&
        cards[i].selectedOption.None? && cards[i].isRevealed == !isQuizMode &&
        cards[i].showExplanation == !isQuizMode
      invariant forall i, j :: 0 <= i < j < n ==> cards[i] != cards[j]
    {
      var card := new QuizCard(questions[n], isQuizMode);
      cards := cards + [card];
    }
  }

  /** The indices of the cards in `cards` that have reported an answer. */
  ghost function Reported(cards: seq<QuizCard>): (r: set<nat>)
    reads cards
    ensures forall i :: i in r <==> 0 <= i < |cards| && cards[i].reports == 1
  {
    set i: nat | i < |cards| && cards[i].reports == 1
  }

  /** One valid card per question, each a separate object. */
  ghost predicate Mounted(cards: seq<QuizCard>, questions: seq<Question>)
    reads cards
  {
    |cards| == |questions| &&
    (forall i :: 0 <= i < |cards| ==> cards[i].Valid() && cards[i].question == questions[i]) &&
    (forall i, j :: 0 <= i < j < |cards| ==> cards[i] != cards[j])
  }

  class QuizDisplay {
    const questions: seq<Question>

    var isQuizMode: bool
    var score: int
    var answeredCount: int
    var cards: seq<QuizCard>

    /** The indices of the cards that have reported an answer. */
    ghost function Answered(): set<nat>
      reads this, cards
    {
      Reported(cards)
    }

    /** One card per question; the tally counts at most the cards that have reported,
        and the score at most the answers; outside quiz mode the tally is zero. */
    ghost predicate Valid()
      reads this, cards
    {
      Mounted(cards, questions) &&
      0 <= score <= answeredCount <= |Answered()| &&
      (!isQuizMode ==> score == 0 && answeredCount == 0)
    }

    /** Lines 14-16 and the first render (lines 144-151): not in quiz mode, nothing
        counted, and every card mounted outside quiz mode, hence revealed. */
    constructor(questions: seq<Question>)
      ensures Valid()
      ensures this.questions == questions
      ensures !isQuizMode && score == 0 && answeredCount == 0
      ensures forall i :: 0 <= i < |cards| ==>
        fresh(cards[i]) && !cards[i].mountedInQuizMode && cards[i].isRevealed && cards[i].reports == 0
    {
      this.questions := questions;
      var cs := MountCards(questions, false);
      cards := cs;
      isQuizMode := false;
      score := 0;
      answeredCount := 0;
    }

    /** Lines 18-21: one more answer, and one more point when it is correct. The tally
        keeps `0 <= score <= answeredCount`. */
    method HandleAnswer(correct: bool)
      modifies this
      ensures answeredCount == old(answeredCount) + 1
      ensures score == old(score) + (if correct then 1 else 0)
      ensures isQuizMode == old(isQuizMode) && cards == old(cards)
      ensures old(0 <= score <= answeredCount) ==> 0 <= score <= answeredCount
    {
      if correct {
        score := score + 1;
      }
      answeredCount := answeredCount + 1;
    }

    /** Lines 23-27: leave quiz mode and clear the tally. The cards keep their state. */
    method ResetQuiz()
      requires Valid()
      modifies this
      ensures Valid()
      ensures !isQuizMode && score == 0 && answeredCount == 0
      ensures cards == old(cards)
    {
      isQuizMode := false;
      score := 0;
      answeredCount := 0;
    }

    /** Line 134: the "Take Quiz" button, shown only outside quiz mode, turns quiz mode
        on and changes nothing else. */
    method TakeQuiz()
      requires Valid() && !isQuizMode
      modifies this
      ensures Valid()
      ensures isQuizMode
      ensures score == old(score) && answeredCount == old(answeredCount)
      ensures cards == old(cards)
    {
      isQuizMode := true;
    }

    /** Line 29. */
    predicate AllAnswered()
      reads this
    {
      answeredCount == |questions|
    }

    /** A click on option `option` of card `k`: the card decides whether it counts
        (QuizCard.tsx lines 18-27) and, if so, its report goes to `HandleAnswer`. */
    method ClickOption(k: nat, option: string) returns (report: Option<bool>)
      requires Valid() && k < |cards|
      modifies this, cards[k]
      ensures Valid()
      ensures report.Some? <==> isQuizMode && !old(cards[k].isRevealed)
      ensures report.Some? ==> report.value == (option == questions[k].answer)
      ensures report.Some? ==>
        answeredCount == old(answeredCount) + 1 &&
        score == old(score) + (if report.value then 1 else 0)
      ensures report.None? ==> answeredCount == old(answeredCount) && score == old(score)
      ensures report.Some? ==>
        cards[k].selectedOption == Some(option) && cards[k].isRevealed && cards[k].showExplanation &&
        Answered() == old(Answered()) + {k}
      ensures report.None? ==>
        cards[k].selectedOption == old(cards[k].selectedOption) &&
        cards[k].isRevealed == old(cards[k].isRevealed) &&
        cards[k].showExplanation == old(cards[k].showExplanation) &&
        Answered() == old(Answered())
      ensures isQuizMode == old(isQuizMode) && cards == old(cards)
    {
      ghost var before := Answered();
      report := ClickCard(k, option);
      if report.Some? {
        assert |Answered()| == |before| + 1 by {
          assert Answered() == before + {k};
        }
        HandleAnswer(report.value);
      }
    }

    /** The card's part of a click (QuizCard.tsx lines 18-27): only card `k` changes, and
        it joins the answered cards exactly when it reports. */
    method ClickCard(k: nat, option: string) returns (report: Option<bool>)
      requires Valid() && k < |cards|
      modifies cards[k]
      ensures Mounted(cards, questions)
      ensures report.Some? <==> isQuizMode && !old(cards[k].isRevealed)
      ensures report.Some? ==>
        report.value == (option == questions[k].answer) &&
        cards[k].selectedOption == Some(option) && cards[k].isRevealed && cards[k].showExplanation &&
        k !in old(Answered()) && Answered() == old(Answered()) + {k}
      ensures report.None? ==>
        cards[k].selectedOption == old(cards[k].selectedOption) &&
        cards[k].isRevealed == old(cards[k].isRevealed) &&
        cards[k].showExplanation == old(cards[k].showExplanation) &&
        Answered() == old(Answered())
    {
      var card := cards[k];
      assert forall i :: 0 <= i < |cards| && i != k ==> cards[i] != card;
      report := card.HandleOptionClick(option, isQuizMode);
    }

    /** Corrected "Take Quiz": entering quiz mode mounts fresh cards in quiz mode, so that
        every question can be answered once. */
    method StartQuiz()
      requires Valid() && !isQuizMode
      modifies this
      ensures Valid()
      ensures isQuizMode && score == 0 && answeredCount == 0
      ensures |cards| == |questions|
      ensures forall i :: 0 <= i < |cards| ==>
        fresh(cards[i]) && cards[i].mountedInQuizMode && !cards[i].isRevealed && cards[i].reports == 0
    {
      var cs := MountCards(questions, true);
      cards := cs;
      isQuizMode := true;
    }
  }

  /** While the cards stay mounted the tally never exceeds the number of questions. */
  lemma AnsweredBounded(d: QuizDisplay)
    requires d.Valid()
    ensures 0 <= d.score <= d.answeredCount <= |d.questions|
  {
    IndexSetBound(d.Answered(), |d.cards|);
  }

  /** When every question is counted as answered, every card has indeed reported. */
  lemma AllAnsweredMeansEveryCardReported(d: QuizDisplay)
    requires d.Valid() && d.AllAnswered()
    ensures forall i :: 0 <= i < |d.cards| ==> d.cards[i].reports == 1
  {
    IndexSetBound(d.Answered(), |d.cards|);
  }

  /** The page as written: after "Take Quiz" every click is ignored and nothing is ever
      counted, because the cards were mounted revealed. */
  method AnswerAfterTakeQuiz(questions: seq<Question>, k: nat, option: string)
    returns (report: Option<bool>, score: int, answeredCount: int, allAnswered: bool)
    requires k < |questions|
    ensures report.None? && score == 0 && answeredCount == 0 && !allAnswered
  {
    var d := new QuizDisplay(questions);
    d.TakeQuiz();
    report := d.ClickOption(k, option);
    score, answeredCount, allAnswered := d.score, d.answeredCount, d.AllAnswered();
  }

  /** The corrected page: after entering quiz mode the first click on a card counts and
      reports whether the option is the answer. */
  method AnswerAfterStartQuiz(questions: seq<Question>, k: nat, option: string)
    returns (report: Option<bool>, score: int, answeredCount: int)
    requires k < |questions|
    ensures report == Some(option == questions[k].answer)
    ensures answeredCount == 1 && score == (if option == questions[k].answer then 1 else 0)
  {
    var d := new QuizDisplay(questions);
    d.StartQuiz();
    report := d.ClickOption(k, option);
    score, answeredCount := d.score, d.answeredCount;
  }

  /* ---------------------------------------------------------------------------
     Related topics   (line 166)
     --------------------------------------------------------------------------- */

  /** Line 166: `encode` stands for `encodeURIComponent`. */
  function RelatedTopicLink(topic: string, encode: string -> string): (r: string)
    ensures StartsWith(r, ArticleBase)
    ensures r[|ArticleBase|..] == encode(ReplaceChar(topic, ' ', '_'))
  {
    ArticleBase + encode(ReplaceChar(topic, ' ', '_'))
  }

  /** What `encodeURIComponent` and `decodeURIComponent` guarantee and the round trip
      needs: a non-empty text encodes to a non-empty text without line terminators, `_`
      is left alone by the encoding, and a space stands for itself when decoding. */
  ghost predicate UriCodec(encode: string -> string, decode: string -> Option<string>) {
    (forall s :: s != [] ==> encode(s) != []) &&
    (forall s, k :: 0 <= k < |encode(s)| ==> !IsLineTerminator(encode(s)[k])) &&
    (forall s :: decode(ReplaceChar(encode(s), '_', ' ')) == Some(ReplaceChar(s, '_', ' ')))
  }

  lemma ReplaceBothWithSpace(t: string)
    ensures ReplaceChar(ReplaceChar(t, ' ', '_'), '_', ' ') == ReplaceChar(t, '_', ' ')
  {
  }

  /** A related-topic link is an article URL: the server takes the topic back as the
      title, with underscores read as spaces. */
  lemma RelatedTopicTitle(topic: string, encode: string -> string, decode: string -> Option<string>)
    requires topic != [] && UriCodec(encode, decode)
    ensures ArticleTitle(RelatedTopicLink(topic, encode), decode) == Ok(ReplaceChar(topic, '_', ' '))
  {
    var u := ReplaceChar(topic, ' ', '_');
    var e := encode(u);
    assert u != [];
    assert RelatedTopicLink(topic, encode) == ArticleBase + e;
    ArticlePathOfArticleUrl(e);
    ReplaceBothWithSpace(topic);
  }

  /** A topic without underscores survives the round trip exactly. */
  lemma RelatedTopicRoundTrip(topic: string, encode: string -> string, decode: string -> Option<string>)
    requires topic != [] && '_' !in topic && UriCodec(encode, decode)
    ensures ArticleTitle(RelatedTopicLink(topic, encode), decode) == Ok(topic)
  {
    RelatedTopicTitle(topic, encode, decode);
    assert ReplaceChar(topic, '_', ' ') == topic;
  }
}
