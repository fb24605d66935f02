/** `generate_questions`: for each of the first five `". "`-separated segments of a
    text, an open-ended question and a four-option multiple-choice question about the
    stripped segment. */
module Questions {
  import opened Text

  const Separator := ". "
  const MaxSegments := 5

  datatype Question =
    | OpenEnded(question: string)
    | MultipleChoice(question: string, options: seq<string>, answer: string)

  const OpenPrefix := "What is the meaning of: '"
  const ChoicePrefix := "What is the correct meaning of: '"
  const PromptSuffix := "'?"
  const Letters := "ABCD"

  function OpenPrompt(subject: string): string {
    OpenPrefix + subject + PromptSuffix
  }

  function ChoicePrompt(subject: string): string {
    ChoicePrefix + subject + PromptSuffix
  }

  /** `Option A for '...'`, and so on for B, C and D. */
  function OptionText(letter: char, subject: string): string {
    "Option " + [letter] + " for '" + subject + "'"
  }

  function Options(subject: string): (options: seq<string>)
    ensures |options| == |Letters|
  {
    seq(|Letters|, i requires 0 <= i < |Letters| => OptionText(Letters[i], subject))
  }

  /** The two questions about one stripped segment, in the order they are appended. */
  function QuestionsAbout(subject: string): (qs: seq<Question>)
    ensures |qs| == 2
  {
    [ OpenEnded(OpenPrompt(subject)),
      MultipleChoice(ChoicePrompt(subject), Options(subject), OptionText('A', subject)) ]
  }

  /** `line.strip()` of every segment. */
  function Subjects(segments: seq<string>): (subjects: seq<string>)
    ensures |subjects| == |segments|
    ensures forall i :: 0 <= i < |segments| ==> subjects[i] == Trim(segments[i], Python)
  {
    seq(|segments|, i requires 0 <= i < |segments| => Trim(segments[i], Python))
  }

  /** The questions about all the given subjects, subject by subject. */
  function AllQuestions(subjects: seq<string>): (qs: seq<Question>)
    ensures |qs| == 2 * |subjects|
  {
    if subjects == [] then []
    else AllQuestions(subjects[..|subjects| - 1]) + QuestionsAbout(subjects[|subjects| - 1])
  }

  /** `lines[:5]`. */
  function Leading(lines: seq<string>): (r: seq<string>)
    ensures |r| == if |lines| <= MaxSegments then |lines| else MaxSegments
    ensures r == lines[..|r|]
  {
    if |lines| <= MaxSegments then lines else lines[..MaxSegments]
  }

  /** `generate_questions`. */
  method GenerateQuestions(text: string) returns (questions: seq<Question>)
    ensures questions == AllQuestions(Subjects(Leading(Split(text, Separator))))
  {
    var lines := Split(text, Separator);
    questions := QuestionsFromSegments(lines);
  }

  /** The loop of `generate_questions`, over the segments of the text. */
  method QuestionsFromSegments(lines: seq<string>) returns (questions: seq<Question>)
    ensures questions == AllQuestions(Subjects(Leading(lines)))
  {
    var first := if |lines| <= MaxSegments then lines else lines[..MaxSegments];
    questions := [];
    for idx := 0 to |first|
      invariant questions == AllQuestions(Subjects(first[..idx]))
    {
      var cleanLine := Trim(first[idx], Python);
      SubjectsSnoc(first, idx);
      questions := AppendQuestions(questions, cleanLine);
    }
    assert first[..|first|] == first;
  }

  /** The two appends of one loop round: the open-ended question, then the
      multiple-choice one. */
  method AppendQuestions(questions: seq<Question>, cleanLine: string) returns (r: seq<Question>)
    ensures r == questions + QuestionsAbout(cleanLine)
  {
    r := questions + [OpenEnded(OpenPrompt(cleanLine))];
    r := r + [MultipleChoice(ChoicePrompt(cleanLine), Options(cleanLine), OptionText('A', cleanLine))];
  }

  /** One more segment adds the two questions about it at the end. */
  lemma SubjectsSnoc(segments: seq<string>, i: nat)
    requires i < |segments|
    ensures AllQuestions(Subjects(segments[..i + 1]))
      == AllQuestions(Subjects(segments[..i])) + QuestionsAbout(Trim(segments[i], Python))
  {
    var s := Subjects(segments[..i + 1]);
    assert s[..i] == Subjects(segments[..i]);
  }

  // ---------------------------------------------------------------------------
  // Properties
  // ---------------------------------------------------------------------------

  /** Two questions per segment, for at most five segments. */
  lemma QuestionCount(lines: seq<string>)
    ensures |AllQuestions(Subjects(Leading(lines)))|
      == 2 * (if |lines| <= MaxSegments then |lines| else MaxSegments)
  {
  }

  /** Subject `j` gives questions `2 j` and `2 j + 1`: open-ended first, then
      multiple choice. */
  lemma {:induction false} QuestionsAt(subjects: seq<string>, j: nat)
    requires j < |subjects|
    ensures AllQuestions(subjects)[2 * j] == QuestionsAbout(subjects[j])[0]
    ensures AllQuestions(subjects)[2 * j + 1] == QuestionsAbout(subjects[j])[1]
  {
    var n := |subjects| - 1;
    var init := subjects[..n];
    if j < n {
      QuestionsAt(init, j);
      assert init[j] == subjects[j];
    }
  }

  /** Open-ended questions sit at even positions and multiple-choice ones at odd
      positions; each multiple-choice question has four options and its answer is
      the first. */
  lemma QuestionKinds(subjects: seq<string>, j: nat)
    requires j < |subjects|
    ensures AllQuestions(subjects)[2 * j].OpenEnded?
    ensures var q := AllQuestions(subjects)[2 * j + 1];
      q.MultipleChoice? && |q.options| == 4 && q.answer == q.options[0]
  {
    QuestionsAt(subjects, j);
  }

  /** A text with no `". "` in it, the empty text among them, gives exactly two
      questions, both about the whole stripped text. */
  lemma SingleSegment(text: string)
    requires !Contains(text, Separator)
    ensures AllQuestions(Subjects(Leading(Split(text, Separator)))) == QuestionsAbout(Trim(text, Python))
  {
    SplitWithoutSeparator(text, Separator);
    assert Subjects([text]) == [Trim(text, Python)];
    assert [Trim(text, Python)][..0] == [];
  }

  /** The subject quoted in a prompt: what lies between the prefix and `'?`. */
  function Subject(prompt: string, prefix: string): string {
    if |prompt| < |prefix| + |PromptSuffix| then ""
    else prompt[|prefix|..|prompt| - |PromptSuffix|]
  }

  /** The stripped segment can be read back out of both prompts, so different
      segments give different questions. */
  lemma SubjectReadsBack(subject: string)
    ensures Subject(OpenPrompt(subject), OpenPrefix) == subject
    ensures Subject(ChoicePrompt(subject), ChoicePrefix) == subject
  {
    assert (OpenPrefix + subject + PromptSuffix)[|OpenPrefix|..|OpenPrefix| + |subject|] == subject;
    assert (ChoicePrefix + subject + PromptSuffix)[|ChoicePrefix|..|ChoicePrefix| + |subject|] == subject;
  }

  /** Every option names the stripped segment it is about. */
  lemma OptionsNameSubject(subject: string, i: nat)
    requires i < |Letters|
    ensures var o := Options(subject)[i];
      o == "Option " + [Letters[i]] + " for '" + subject + "'"
      && o[|o| - |subject| - 1..|o| - 1] == subject
  {
    var o := Options(subject)[i];
    assert o == "Option " + [Letters[i]] + " for '" + subject + "'";
    assert o[|o| - |subject| - 1..|o| - 1] == subject;
  }
}
