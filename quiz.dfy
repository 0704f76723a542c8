/** The quiz state held by the App component: the two selected factors, the
    answer buffer, the submission and correctness flags and the score, with
    the handlers that change them. */
module Quiz {
  import opened Numerals

  /** The numbers offered by both selection grids. */
  const GridNumbers: seq<int> := [1, 2, 3, 4, 5, 6, 7, 8, 9, 10, 11, 12]

  /** The state the app starts in. */
  const InitialTable := 7
  const InitialMultiplier := 5
  const InitialScore := 35

  /** The factors the grids can produce, and their products. */
  lemma GridProducts(a: int, b: int)
    requires a in GridNumbers && b in GridNumbers
    ensures 1 <= a * b <= 144
  {
    assert 1 <= a <= 12 && 1 <= b <= 12;
    assert a * b <= 12 * b <= 144;
  }

  /** The check of handleSubmit: parseInt of the buffer compared strictly
      with the product, NaN (the empty buffer) matching nothing. The buffers
      judged right for a positive product are exactly its decimal digits
      after any number of zeros. */
  function IsRightAnswer(answer: string, product: int): (r: bool)
    requires AllWestern(answer)
    ensures answer == [] ==> !r
    ensures product > 0 ==> (r <==> answer[LeadingZeros(answer)..] == DecimalDigits(product))
  {
    var ok := ParseDecimal(answer) == Some(product);
    if product > 0 then ParsesTo(answer, product); ok else ok
  }

  class App {
    var selectedTable: int
    var selectedMultiplier: int
    /** Always Western digits only: handleAnswerChange sanitises what it stores. */
    var userAnswer: string
    var isSubmitted: bool
    var isCorrect: bool
    var score: nat

    ghost predicate Valid()
      reads this
    {
      && selectedTable in GridNumbers
      && selectedMultiplier in GridNumbers
      && AllWestern(userAnswer)
      && (isCorrect ==> isSubmitted)
    }

    /** After a submission, the verdict shown is the verdict on the buffer
        as it now stands. */
    ghost predicate VerdictCurrent()
      reads this
      requires Valid()
    {
      isSubmitted ==> isCorrect == IsRightAnswer(userAnswer, CorrectAnswer())
    }

    constructor ()
      ensures Valid() && VerdictCurrent()
      ensures selectedTable == InitialTable && selectedMultiplier == InitialMultiplier
      ensures userAnswer == [] && !isSubmitted && !isCorrect && score == InitialScore
    {
      selectedTable := InitialTable;
      selectedMultiplier := InitialMultiplier;
      userAnswer := [];
      isSubmitted := false;
      isCorrect := false;
      score := InitialScore;
    }

    /** The derived correct answer: the product of the two factors, which
        the grids keep within 1..144. */
    function CorrectAnswer(): (r: int)
      reads this
      requires Valid()
      ensures 1 <= r <= 144
      ensures r == selectedTable * selectedMultiplier
    {
      GridProducts(selectedTable, selectedMultiplier);
      selectedTable * selectedMultiplier
    }

    /** resetQuiz: back to an unanswered question with an empty buffer. */
    method ResetQuiz()
      requires Valid()
      modifies this
      ensures Valid() && VerdictCurrent()
      ensures !isSubmitted && userAnswer == [] && !isCorrect
      ensures selectedTable == old(selectedTable) && selectedMultiplier == old(selectedMultiplier)
      ensures score == old(score)
    {
      isSubmitted := false;
      userAnswer := [];
      isCorrect := false;
    }

    /** handleTableSelect: only the grid's buttons call it. */
    method SelectTable(num: int)
      requires Valid() && num in GridNumbers
      modifies this
      ensures Valid() && VerdictCurrent()
      ensures selectedTable == num && selectedMultiplier == old(selectedMultiplier)
      ensures userAnswer == [] && !isSubmitted && !isCorrect
      ensures score == old(score)
    {
      selectedTable := num;
      ResetQuiz();
    }

    /** handleMultiplierSelect: only the grid's buttons call it. */
    method SelectMultiplier(num: int)
      requires Valid() && num in GridNumbers
      modifies this
      ensures Valid() && VerdictCurrent()
      ensures selectedMultiplier == num && selectedTable == old(selectedTable)
      ensures userAnswer == [] && !isSubmitted && !isCorrect
      ensures score == old(score)
    {
      selectedMultiplier := num;
      ResetQuiz();
    }

    /** handleAnswerChange, with no guard of its own: the buffer becomes the
        sanitised input, whatever the flags say (after a submission only the
        disabled input field stops edits; see EditAfterSubmission). */
    method ChangeAnswer(rawValue: string)
      requires Valid()
      modifies this
      ensures Valid()
      ensures userAnswer == Sanitize(rawValue)
      ensures selectedTable == old(selectedTable) && selectedMultiplier == old(selectedMultiplier)
      ensures isSubmitted == old(isSubmitted) && isCorrect == old(isCorrect)
      ensures score == old(score)
    {
      var westernValue := ConvertToWestern(Some(rawValue));
      var numericValue := KeepWesternDigits(westernValue);
      userAnswer := numericValue;
    }

    /** handleSubmit, with no guard of its own: marks the question answered,
        judges the buffer against the product and adds one to the score when
        the buffer is right. */
    method Submit()
      requires Valid()
      modifies this
      ensures Valid() && VerdictCurrent()
      ensures isSubmitted
      ensures isCorrect == IsRightAnswer(userAnswer, CorrectAnswer())
      ensures score == if isCorrect then old(score) + 1 else old(score)
      ensures selectedTable == old(selectedTable) && selectedMultiplier == old(selectedMultiplier)
      ensures userAnswer == old(userAnswer)
    {
      isSubmitted := true;
      var answerIsCorrect := IsRightAnswer(userAnswer, CorrectAnswer());
      isCorrect := answerIsCorrect;
      if answerIsCorrect {
        score := score + 1;
      }
    }

    /** What the answer field shows: the buffer in Eastern digits. */
    function AnswerField(sep: Option<char>): (r: string)
      reads this
      requires Valid() && SeparatorOk(sep)
      ensures ValueOf(userAnswer) <= MaxExactInteger ==>
        Sanitize(r) == if userAnswer == [] then [] else DecimalDigits(ValueOf(userAnswer))
    {
      DisplayRoundTrip(Text(userAnswer), sep);
      ToEastern(Text(userAnswer), sep)
    }

    /** What the correct-answer field shows: nothing before a submission,
        the product in Eastern digits after one. */
    function CorrectAnswerField(sep: Option<char>): (r: string)
      reads this
      requires Valid() && SeparatorOk(sep)
      ensures r == [] <==> !isSubmitted
      ensures isSubmitted ==> Sanitize(r) == DecimalDigits(CorrectAnswer())
    {
      DisplayRoundTrip(Number(CorrectAnswer()), sep);
      if isSubmitted then ToEastern(Number(CorrectAnswer()), sep) else []
    }
  }

  /** The Eastern rendering of 35, from the number or from its digits. */
  lemma ThirtyFiveShown()
    ensures ToEastern(Number(35), None) == "٣٥"
    ensures ToEastern(Text("35"), None) == "٣٥"
  {
    assert ValueOf("35") == 35 by { assert "35"[..1] == "3"; }
    assert DecimalDigits(35) == "35";
    assert Group("35", None) == "35";
    assert MapToEastern("35") == "٣٥" by {
      var e := MapToEastern("35");
      assert e[0] == '٣' && e[1] == '٥';
    }
  }

  /** The answer ٣٥ as typed is stored as 35. */
  lemma ThirtyFiveRead()
    ensures Sanitize("٣٥") == "35"
  {
    var w := MapToWestern("٣٥");
    assert w[0] == '3' && w[1] == '5';
    assert w == "35";
    KeepWesternDigitsFixes(w);
  }

  /** The Western sample answers pass the sanitiser unchanged. */
  lemma SamplesStored()
    ensures Sanitize("35") == "35" && Sanitize("12") == "12" && Sanitize("035") == "035"
  {
    assert Sanitize("35") == "35" by { SanitizeFixes("35"); }
    assert Sanitize("12") == "12" by { SanitizeFixes("12"); }
    assert Sanitize("035") == "035" by { SanitizeFixes("035"); }
  }

  /** How the sample answers are judged against 7 x 5. */
  lemma SamplesJudged()
    ensures IsRightAnswer("35", 35) && IsRightAnswer("035", 35) && !IsRightAnswer("12", 35)
  {
    assert ValueOf("12") == 12 by { assert "12"[..1] == "1"; }
    assert IsRightAnswer("035", 35) by { ParsesTo("035", 35); }
    assert "035"[1..] == "35";
    assert DecimalDigits(35) == "35";
  }

  /** Table 7, multiplier 5, answer typed as ٣٥: judged right, the score goes
      from 35 to 36, and the answer field shows ٣٥. */
  method CorrectEasternAnswer() returns (correct: bool, score: nat, shown: string)
    ensures correct && score == 36 && shown == "٣٥"
  {
    SamplesStored();
    SamplesJudged();
    var app := new App();
    app.ChangeAnswer("٣٥");
    ThirtyFiveRead();
    app.Submit();
    shown := app.AnswerField(None);
    ThirtyFiveShown();
    correct, score := app.isCorrect, app.score;
  }

  /** Table 7, multiplier 5, answer 12: judged wrong, the score stays 35,
      and the correct-answer field shows ٣٥. */
  method WrongAnswer() returns (correct: bool, score: nat, shown: string)
    ensures !correct && score == 35 && shown == "٣٥"
  {
    SamplesStored();
    SamplesJudged();
    var app := new App();
    app.ChangeAnswer("12");
    app.Submit();
    shown := app.CorrectAnswerField(None);
    ThirtyFiveShown();
    correct, score := app.isCorrect, app.score;
  }

  /** A leading zero does not matter: 035 is right for 7 x 5. */
  method LeadingZeroAnswer() returns (correct: bool, score: nat)
    ensures correct && score == 36
  {
    SamplesStored();
    SamplesJudged();
    var app := new App();
    app.ChangeAnswer("035");
    app.Submit();
    correct, score := app.isCorrect, app.score;
  }

  /** Submitting the empty buffer is not refused by the handler: parseInt
      gives NaN, the answer is judged wrong and the score stays. */
  method EmptySubmission() returns (submitted: bool, correct: bool, score: nat)
    ensures submitted && !correct && score == 35
  {
    var app := new App();
    app.Submit();
    submitted, correct, score := app.isSubmitted, app.isCorrect, app.score;
  }

  /** The submit button stays enabled after an answer: submitting a right
      answer a second time adds to the score again. */
  method RepeatedSubmission() returns (score: nat)
    ensures score == 37
  {
    SamplesStored();
    SamplesJudged();
    var app := new App();
    app.ChangeAnswer("35");
    app.Submit();
    app.Submit();
    score := app.score;
  }

  /** Selecting table 9 after an answer: back to an unanswered question with
      an empty buffer, the multiplier and the score kept. */
  method ReselectAfterAnswer() returns (submitted: bool, correct: bool, answer: string,
                                        product: int, score: nat)
    ensures !submitted && !correct && answer == [] && product == 45 && score == 36
  {
    SamplesStored();
    SamplesJudged();
    var app := new App();
    app.ChangeAnswer("35");
    app.Submit();
    app.SelectTable(9);
    submitted, correct, answer := app.isSubmitted, app.isCorrect, app.userAnswer;
    product, score := app.CorrectAnswer(), app.score;
  }

  /** An edit after a submission (what the disabled attribute prevents) goes
      through the handler and leaves a verdict that no longer fits the
      buffer. */
  method EditAfterSubmission() returns (correct: bool, answer: string)
    ensures correct && answer == "12"
    ensures !IsRightAnswer(answer, InitialTable * InitialMultiplier)
  {
    SamplesStored();
    SamplesJudged();
    var app := new App();
    app.ChangeAnswer("35");
    app.Submit();
    app.ChangeAnswer("12");
    correct, answer := app.isCorrect, app.userAnswer;
  }
}
