/** The quiz screen: the state its handlers step through (select an option, submit,
    go to the next question, restart), the elapsed-time display and the verdict shown
    with the final score. */
module Quiz {
  import opened Text
  import opened Results

  /** One parsed quiz item; only `answer` matters to the handlers. */
  datatype QuizQuestion = QuizQuestion(question: string, options: seq<string>, answer: string)

  /** All the component's state that the handlers read or set. */
  datatype QuizState = QuizState(
    questions: seq<QuizQuestion>,
    currentQuestion: nat,
    selectedOption: Option<string>,
    score: nat,
    showResults: bool,
    answered: bool,
    feedback: string,
    timer: nat,
    timerActive: bool)

  const CorrectFeedback := "Correct! \U{2705}"

  function IncorrectFeedback(answer: string): string {
    "Incorrect! The correct answer is: " + answer + " \U{274C}"
  }

  // ---------------------------------------------------------------------------
  // The transitions, as functions of the state
  // ---------------------------------------------------------------------------

  /** The state once the questions are parsed: first question, nothing selected, the
      timer running from zero. */
  function Loaded(questions: seq<QuizQuestion>): QuizState {
    QuizState(questions, 0, None, 0, false, false, "", 0, true)
  }

  /** `handleOptionSelect`. */
  function Select(q: QuizState, option: string): QuizState {
    if q.answered then q else q.(selectedOption := Some(option))
  }

  /** `handleSubmitAnswer`; it reads the current question only once something is
      selected. */
  function Submit(q: QuizState): QuizState
    requires q.selectedOption.Some? ==> q.currentQuestion < |q.questions|
  {
    match q.selectedOption
    case None => q
    case Some(option) =>
      var answer := q.questions[q.currentQuestion].answer;
      if option == answer then q.(score := q.score + 1, feedback := CorrectFeedback, answered := true)
      else q.(feedback := IncorrectFeedback(answer), answered := true)
  }

  /** `handleNextQuestion`. */
  function Next(q: QuizState): QuizState {
    if q.currentQuestion < |q.questions| - 1 then
      q.(currentQuestion := q.currentQuestion + 1, selectedOption := None, answered := false, feedback := "")
    else
      q.(showResults := true, timerActive := false)
  }

  /** `handleRestart`: everything but the questions back to its initial value. */
  function Restart(q: QuizState): QuizState {
    q.(currentQuestion := 0, selectedOption := None, score := 0, showResults := false,
       answered := false, feedback := "", timer := 0, timerActive := true)
  }

  /** What every reachable state satisfies: the current question exists (when there
      are questions at all), the score never exceeds the questions answered so far,
      a submitted answer was selected, and the timer is stopped on the results. */
  predicate Consistent(q: QuizState) {
    && (q.currentQuestion < |q.questions| || (q.questions == [] && q.currentQuestion == 0))
    && q.score <= q.currentQuestion + (if q.answered then 1 else 0)
    && (q.answered ==> q.selectedOption.Some? && q.currentQuestion < |q.questions|)
    && (q.showResults ==> !q.timerActive)
  }

  // ---------------------------------------------------------------------------
  // The component
  // ---------------------------------------------------------------------------

  class QuizPage {
    var questions: seq<QuizQuestion>
    var currentQuestion: nat
    var selectedOption: Option<string>
    var score: nat
    var showResults: bool
    var answered: bool
    var feedback: string
    var timer: nat
    var timerActive: bool

    function State(): QuizState
      reads this
    {
      QuizState(questions, currentQuestion, selectedOption, score, showResults, answered,
                feedback, timer, timerActive)
    }

    /** The component after a successful load of `parsed`. */
    constructor(parsed: seq<QuizQuestion>)
      ensures State() == Loaded(parsed)
    {
      questions := parsed;
      currentQuestion := 0;
      selectedOption := None;
      score := 0;
      showResults := false;
      answered := false;
      feedback := "";
      timer := 0;
      timerActive := true;
    }

    method SelectOption(option: string)
      modifies this
      ensures State() == Select(old(State()), option)
    {
      if answered {
        return;
      }
      selectedOption := Some(option);
    }

    method SubmitAnswer()
      requires selectedOption.Some? ==> currentQuestion < |questions|
      modifies this
      ensures State() == Submit(old(State()))
    {
      if selectedOption == None {
        return;
      }
      var currentQuestionData := questions[currentQuestion];
      var isCorrect := selectedOption.value == currentQuestionData.answer;
      if isCorrect {
        score := score + 1;
        feedback := CorrectFeedback;
      } else {
        feedback := IncorrectFeedback(currentQuestionData.answer);
      }
      answered := true;
    }

    method NextQuestion()
      modifies this
      ensures State() == Next(old(State()))
    {
      if currentQuestion < |questions| - 1 {
        currentQuestion := currentQuestion + 1;
        selectedOption := None;
        answered := false;
        feedback := "";
      } else {
        showResults := true;
        timerActive := false;
      }
    }

    method RestartQuiz()
      modifies this
      ensures State() == Restart(old(State()))
    {
      currentQuestion := 0;
      selectedOption := None;
      score := 0;
      showResults := false;
      answered := false;
      feedback := "";
      timer := 0;
      timerActive := true;
    }
  }

  // ---------------------------------------------------------------------------
  // Properties of the transitions
  // ---------------------------------------------------------------------------

  lemma LoadedConsistent(questions: seq<QuizQuestion>)
    ensures Consistent(Loaded(questions))
  {
  }

  /** Once an answer is submitted, picking another option changes nothing. */
  lemma SelectAfterAnswer(q: QuizState, option: string)
    requires q.answered
    ensures Select(q, option) == q
  {
  }

  lemma SelectKeepsConsistent(q: QuizState, option: string)
    requires Consistent(q)
    ensures Consistent(Select(q, option))
    ensures Select(q, option).score == q.score
  {
  }

  /** Submitting with nothing selected changes nothing; otherwise the question is
      answered and the score goes up by one exactly when the selection is the answer. */
  lemma SubmitScores(q: QuizState)
    requires q.selectedOption.Some? ==> q.currentQuestion < |q.questions|
    ensures q.selectedOption.None? ==> Submit(q) == q
    ensures q.selectedOption.Some? ==>
      var answer := q.questions[q.currentQuestion].answer;
      && Submit(q).answered
      && Submit(q).score == q.score + (if q.selectedOption.value == answer then 1 else 0)
      && Submit(q).feedback == (if q.selectedOption.value == answer then CorrectFeedback else IncorrectFeedback(answer))
      && Submit(q).(score := q.score, feedback := q.feedback, answered := q.answered) == q
  {
  }

  /** The submit button is offered only while the question is not yet answered. */
  lemma SubmitKeepsConsistent(q: QuizState)
    requires Consistent(q) && !q.answered
    requires q.selectedOption.Some? ==> q.currentQuestion < |q.questions|
    ensures Consistent(Submit(q))
  {
  }

  /** Next moves to the following question with a clean slate, or, on the last one,
      shows the results and stops the timer; the score is untouched either way. */
  lemma NextSteps(q: QuizState)
    requires Consistent(q)
    ensures Consistent(Next(q))
    ensures Next(q).score == q.score
    ensures q.currentQuestion + 1 < |q.questions| ==>
      Next(q).currentQuestion == q.currentQuestion + 1 && !Next(q).answered
      && Next(q).selectedOption == None && Next(q).feedback == ""
    ensures q.currentQuestion + 1 >= |q.questions| ==>
      Next(q).showResults && !Next(q).timerActive && Next(q).currentQuestion == q.currentQuestion
  {
  }

  /** Restart gives the state a fresh load of the same questions gives. */
  lemma RestartIsReload(q: QuizState)
    ensures Restart(q) == Loaded(q.questions)
    ensures Consistent(Restart(q))
  {
  }

  /** In every consistent state the score is at most the number of questions. */
  lemma ScoreBounded(q: QuizState)
    requires Consistent(q)
    ensures q.score <= |q.questions|
  {
  }

  // ---------------------------------------------------------------------------
  // Display
  // ---------------------------------------------------------------------------

  /** Seconds shown with two digits. */
  function TwoDigits(secs: nat): string {
    (if secs < 10 then "0" else "") + NatToString(secs)
  }

  /** `formatTime`: minutes, a colon, and the seconds padded to two digits. */
  function FormatTime(seconds: nat): string {
    NatToString(seconds / 60) + ":" + TwoDigits(seconds % 60)
  }

  lemma TwoDigitsReadsBack(secs: nat)
    requires secs < 100
    ensures var t := TwoDigits(secs);
      |t| == 2 && AllDigits(t) && DigitsValue(t) == secs
  {
    var t := TwoDigits(secs);
    if secs < 10 {
      assert t == ['0', DigitChar(secs)];
      assert t[..1] == ['0'] && t[..1][..0] == [];
      assert DigitsValue(t[..1]) == 0;
    } else {
      DigitsValueOfNatToString(secs);
      assert NatToString(secs) == NatToString(secs / 10) + [DigitChar(secs % 10)];
    }
  }

  /** The display reads back: the digits before the colon are the minutes, and the two
      digits after it are the remaining seconds. */
  lemma FormatTimeReadsBack(seconds: nat)
    ensures var t := FormatTime(seconds);
      var k := LeadingDigits(t);
      && k + 3 == |t| && t[k] == ':'
      && AllDigits(t[k + 1..])
      && DigitsValue(t[..k]) == seconds / 60
      && DigitsValue(t[k + 1..]) == seconds % 60 < 60
      && 60 * DigitsValue(t[..k]) + DigitsValue(t[k + 1..]) == seconds
  {
    var m := NatToString(seconds / 60);
    var s := TwoDigits(seconds % 60);
    var t := FormatTime(seconds);
    assert t == m + ([':'] + s);
    LeadingDigitsOfNumber(seconds / 60, [':'] + s);
    TwoDigitsReadsBack(seconds % 60);
    DigitsValueOfNatToString(seconds / 60);
    assert t[..|m|] == m;
    assert t[|m| + 1..] == s;
  }

  /** Sixty-five seconds show as one minute and five seconds. */
  lemma FormatTimeExample()
    ensures FormatTime(65) == "1:05"
  {
    assert NatToString(1) == "1" && NatToString(5) == "5";
  }

  /** `Math.round(score / total * 100)`, in exact arithmetic: the nearest whole
      percentage, halves rounded up. */
  function Percentage(score: nat, total: nat): (p: nat)
    requires total > 0
  {
    (200 * score + total) / (2 * total)
  }

  /** The percentage is within half a point of the exact ratio `100 * score / total`,
      the upper half-point included. */
  lemma PercentageIsNearest(score: nat, total: nat)
    requires total > 0
    ensures var p := Percentage(score, total);
      2 * (p * total) <= 200 * score + total < 2 * (p * total) + 2 * total
  {
    var n := 200 * score + total;
    var d := 2 * total;
    var p := n / d;
    assert n == p * d + n % d && 0 <= n % d < d;
    assert p * d == 2 * (p * total);
  }

  /** No questions right gives 0, all right gives 100, and in between it stays in
      range. */
  lemma PercentageBounds(score: nat, total: nat)
    requires 0 < total && score <= total
    ensures Percentage(score, total) <= 100
    ensures score == 0 ==> Percentage(score, total) == 0
    ensures score == total ==> Percentage(score, total) == 100
  {
    var a := 200 * score + total;
    var d := 2 * total;
    assert a < d * 101;
    DivBelow(a, d, 101);
    if score == 0 {
      DivIs(a, d, 0);
    }
    if score == total {
      assert d * 100 <= a < d * 101;
      DivIs(a, d, 100);
    }
  }

  /** Whole-number division is below any bound the dividend is below a multiple of. */
  lemma DivBelow(a: nat, d: nat, k: nat)
    requires d > 0 && a < d * k
    ensures a / d < k
  {
    assert d * (a / d) <= a;
    MulCancel(a / d, k, d);
  }

  lemma DivIs(a: nat, d: nat, k: nat)
    requires d > 0 && d * k <= a < d * (k + 1)
    ensures a / d == k
  {
    DivBelow(a, d, k + 1);
    assert a < d * (a / d) + d;
    MulCancel(k, a / d + 1, d);
  }

  lemma MulCancel(x: nat, y: nat, d: nat)
    requires d > 0 && d * x < d * y
    ensures x < y
  {
    if x >= y {
      MulMonotone(y, x, d);
    }
  }

  lemma MulMonotone(x: nat, y: nat, d: nat)
    requires x <= y
    ensures d * x <= d * y
  {
    assert d * y == d * x + d * (y - x);
  }

  datatype Verdict = Verdict(message: string, color: string)

  /** The message and colour the results screen shows for a percentage. */
  function ResultVerdict(percentage: int): Verdict {
    if percentage >= 90 then Verdict("Excellent work!", "text-green-600")
    else if percentage >= 70 then Verdict("Great job!", "text-blue-600")
    else if percentage >= 50 then Verdict("Good effort!", "text-yellow-600")
    else Verdict("Keep practicing!", "text-red-600")
  }

  /** A better percentage never gets a worse verdict. */
  function Rank(v: Verdict): nat {
    if v.message == "Excellent work!" then 3
    else if v.message == "Great job!" then 2
    else if v.message == "Good effort!" then 1
    else 0
  }

  lemma VerdictMonotone(p: int, p': int)
    requires p <= p'
    ensures Rank(ResultVerdict(p)) <= Rank(ResultVerdict(p'))
  {
  }

  /** A perfect run is excellent and a run with nothing right is told to keep
      practising, whatever the number of questions. */
  lemma VerdictOfExtremes(total: nat)
    requires total > 0
    ensures ResultVerdict(Percentage(total, total)).message == "Excellent work!"
    ensures ResultVerdict(Percentage(0, total)).message == "Keep practicing!"
  {
    PercentageBounds(total, total);
    PercentageBounds(0, total);
  }
}
