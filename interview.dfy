/** Interview levels and question counts (types/interview.ts): the tier a job experience
    maps to, the range of question counts of each tier, and the draw within that range. */
module Interview {
  import opened Wrappers
  import JsParseInt

  datatype InterviewLevel = Beginner | Intermediate | Advanced

  /** The discriminator shared by questions and answers. */
  datatype QuestionType = Text | Code

  /** A generated question: a text question with its model answer, or a coding exercise. */
  datatype Question =
    | TextQuestion(question: string, answer: string)
    | CodeQuestion(question: string, codeSnippet: string, language: string,
                   instructions: string, expectedOutput: Option<string>)
  {
    function Type(): QuestionType {
      if TextQuestion? then Text else Code
    }
  }

  datatype InterviewConfig = InterviewConfig(
    jobPosition: string, jobDesc: string, jobExperience: string, interviewLevel: InterviewLevel)

  /** One answer given during an interview; the optional fields are absent for text answers. */
  datatype AnswerRecord = AnswerRecord(
    question: string, userAns: string, kind: QuestionType,
    codeLanguage: Option<string>, originalCode: Option<string>, modifiedCode: Option<string>,
    isVoiceAnswer: Option<bool>)

  /** An inclusive range of question counts. */
  datatype CountRange = CountRange(min: int, max: int)

  /** The position of a level in the order beginner < intermediate < advanced. */
  function Rank(level: InterviewLevel): nat {
    match level
    case Beginner => 0
    case Intermediate => 1
    case Advanced => 2
  }

  /** The question-count range of each level. */
  function GetQuestionCountRange(level: InterviewLevel): (r: CountRange)
    ensures 5 <= r.min <= r.max <= 15
  {
    match level
    case Beginner => CountRange(5, 8)
    case Intermediate => CountRange(8, 12)
    case Advanced => CountRange(10, 15)
  }

  /** The documented ranges: beginner 5 to 8, intermediate 8 to 12, advanced 10 to 15. */
  lemma DocumentedRanges()
    ensures GetQuestionCountRange(Beginner) == CountRange(5, 8)
    ensures GetQuestionCountRange(Intermediate) == CountRange(8, 12)
    ensures GetQuestionCountRange(Advanced) == CountRange(10, 15)
  {
  }

  /** A higher level never asks for fewer questions at either end of its range. */
  lemma RangeMonotone(a: InterviewLevel, b: InterviewLevel)
    requires Rank(a) <= Rank(b)
    ensures GetQuestionCountRange(a).min <= GetQuestionCountRange(b).min
    ensures GetQuestionCountRange(a).max <= GetQuestionCountRange(b).max
  {
  }

  /** The question count drawn for `level`; `offset` stands for the random draw
      `Math.floor(Math.random() * (max - min + 1))`. */
  function GenerateRandomQuestionCount(level: InterviewLevel, offset: nat): (n: int)
    requires offset <= GetQuestionCountRange(level).max - GetQuestionCountRange(level).min
    ensures GetQuestionCountRange(level).min <= n <= GetQuestionCountRange(level).max
  {
    GetQuestionCountRange(level).min + offset
  }

  /** Every count of the range is drawn by some offset, so the draw covers the range exactly. */
  lemma EveryCountCanBeDrawn(level: InterviewLevel, n: int)
    requires GetQuestionCountRange(level).min <= n <= GetQuestionCountRange(level).max
    ensures exists offset: nat :: offset <= GetQuestionCountRange(level).max - GetQuestionCountRange(level).min
                                && GenerateRandomQuestionCount(level, offset) == n
  {
    var offset: nat := n - GetQuestionCountRange(level).min;
    assert GenerateRandomQuestionCount(level, offset) == n;
  }

  /** For any `u` with `0 <= u < 1` (what `Math.random()` returns), `floor(u * (max - min + 1))`
      is an offset that `GenerateRandomQuestionCount` accepts. */
  lemma RandomFloorIsOffset(level: InterviewLevel, u: real)
    requires 0.0 <= u < 1.0
    ensures var width := GetQuestionCountRange(level).max - GetQuestionCountRange(level).min + 1;
            0 <= (u * width as real).Floor <= width - 1
  {
    var width := GetQuestionCountRange(level).max - GetQuestionCountRange(level).min + 1;
    assert 0.0 <= u * width as real < width as real;
  }

  /** `parseInt(jobExperience) || 0`: the years of experience, 0 when no integer can be
      read (NaN is falsy). */
  function ExperienceYears(jobExperience: string): (years: int)
    ensures JsParseInt.ParseInt(jobExperience).None? ==> years == 0
    ensures JsParseInt.ParseInt(jobExperience).Some? ==> years == JsParseInt.ParseInt(jobExperience).value
    // The first two clauses fix the result; the next two restate it as the
    // falsy-or-zero if-and-only-if and its converse.
    ensures years == 0 <==> JsParseInt.ParseInt(jobExperience) in {None, Some(0)}
    ensures years != 0 ==> JsParseInt.ParseInt(jobExperience) == Some(years)
  {
    match JsParseInt.ParseInt(jobExperience)
    case None => 0
    case Some(v) => v
  }

  /** The level predicted from the job; only the experience is consulted. */
  function PredictInterviewLevel(jobPosition: string, jobDesc: string, jobExperience: string): (level: InterviewLevel)
    ensures level == Beginner <==> ExperienceYears(jobExperience) <= 2
    ensures level == Intermediate <==> 3 <= ExperienceYears(jobExperience) <= 5
    ensures level == Advanced <==> ExperienceYears(jobExperience) > 5
  {
    var experience := ExperienceYears(jobExperience);
    if experience <= 2 then Beginner
    else if experience <= 5 then Intermediate
    else Advanced
  }

  /** The position and the description never change the level. */
  lemma LevelIgnoresPositionAndDescription(p1: string, d1: string, p2: string, d2: string, e: string)
    ensures PredictInterviewLevel(p1, d1, e) == PredictInterviewLevel(p2, d2, e)
  {
  }

  /** More experience never gives a lower level. */
  lemma LevelMonotone(p: string, d: string, e1: string, e2: string)
    requires ExperienceYears(e1) <= ExperienceYears(e2)
    ensures Rank(PredictInterviewLevel(p, d, e1)) <= Rank(PredictInterviewLevel(p, d, e2))
  {
  }

  /** Text from which no integer can be read counts as no experience: beginner. */
  lemma NaNIsBeginner(p: string, d: string, e: string)
    requires JsParseInt.ParseInt(e).None?
    ensures ExperienceYears(e) == 0
    ensures PredictInterviewLevel(p, d, e) == Beginner
  {
  }

  /** A number of years written in decimal, with any leading white space and any trailing
      text that cannot continue the number (" years", ".5"), gets the level of that number. */
  lemma LevelOfWrittenYears(p: string, d: string, ws: string, years: int, rest: string)
    requires JsParseInt.AllWhiteSpace(ws)
    requires rest == [] || !JsParseInt.IsRadixDigit(rest[0], 10)
    requires years == 0 && rest != [] ==> rest[0] != 'x' && rest[0] != 'X'
    ensures ExperienceYears(ws + JsParseInt.DecimalString(years) + rest) == years
    ensures PredictInterviewLevel(p, d, ws + JsParseInt.DecimalString(years) + rest) ==
            if years <= 2 then Beginner else if years <= 5 then Intermediate else Advanced
  {
    JsParseInt.DecimalRoundTrip(ws, years, rest);
  }

  /** A fraction is cut: `"5.9"` is five years, intermediate. */
  lemma FractionalYearsAreCut(p: string, d: string)
    ensures PredictInterviewLevel(p, d, "5.9") == Intermediate
  {
    assert "5.9" == [] + JsParseInt.DecimalString(5) + ".9";
    LevelOfWrittenYears(p, d, [], 5, ".9");
  }

  /** Negative years are beginner. */
  lemma NegativeYearsAreBeginner(p: string, d: string)
    ensures PredictInterviewLevel(p, d, "-4") == Beginner
  {
    JsParseInt.NegativeNumber();
  }

  /** Text without a number is beginner. */
  lemma LettersAreBeginner(p: string, d: string)
    ensures PredictInterviewLevel(p, d, "abc") == Beginner
  {
    JsParseInt.LettersAreNaN();
  }

  /** Six years are advanced. */
  lemma SixYearsAreAdvanced(p: string, d: string)
    ensures PredictInterviewLevel(p, d, "6") == Advanced
  {
    assert "6" == [] + JsParseInt.DecimalString(6) + [];
    LevelOfWrittenYears(p, d, [], 6, []);
  }

  /** `"0x10"` is read in radix 16 as sixteen years: advanced. */
  lemma HexYearsAreAdvanced(p: string, d: string)
    ensures PredictInterviewLevel(p, d, "0x10") == Advanced
  {
    JsParseInt.HexPrefix();
  }
}
