/**
 * The question records the pages share (the application's `Question`,
 * `QuestionOption` and blank shapes), as far as the modelled code reads or
 * writes them.
 */
module Questions {
  import opened Wrappers

  /** An identifier drawn from `uuidv4()`. The model hands identifiers out
      from a counter, so two identifiers drawn at different times differ. */
  type Id = nat

  datatype QuestionType = MultipleChoice | TrueFalse | FillInBlank

  datatype QuestionOption = QuestionOption(id: Id, text: string, latex: Option<string>)

  /** One `[___]` of a fill-in-the-blank question: the expected answer and
      the other accepted answers, if any. */
  datatype Blank = Blank(id: Id, answer: string, alternatives: Option<seq<string>>)

  /** `questionType` is unset for questions the bulk-text parser builds;
      `blanks` is set only on fill-in-the-blank questions. */
  datatype Question = Question(
    id: Id,
    questionType: Option<QuestionType>,
    text: string,
    latex: Option<string>,
    imagePath: Option<string>,
    options: seq<QuestionOption>,
    correctOptionIndex: int,
    blanks: Option<seq<Blank>>)
}
