/**
 * The question editor of the preview page: the editing state (no
 * question, a new one, or an existing one), the option handlers, the
 * validation that turns the editor's contents into a question for the
 * test store, the guard on saving the test, and the share strings.
 * Calls into the test store are returned as values; the store itself is
 * not part of this model.
 */
module QuestionEditor {
  import opened Wrappers
  import opened Text
  import opened Questions
  import opened Seqs

  /** `editingQuestionId`: `null`, `'new'`, or the id of a stored question. */
  datatype Editing = NotEditing | NewQuestion | EditingQuestion(id: Id)

  /** The object handed to `addQuestion` / `updateQuestion`. */
  datatype QuestionData = QuestionData(
    questionType: QuestionType,
    text: string,
    options: seq<QuestionOption>,
    correctOptionIndex: int)

  datatype StoreCall = AddQuestion(data: QuestionData) | UpdateQuestion(id: Id, data: QuestionData)

  /** What `handleSaveQuestion` does: stop with an alert, or save (with a
      store call unless nothing was being edited) and close the editor. */
  datatype SaveResult = Rejected(message: string) | Saved(call: Option<StoreCall>)

  const EmptyTextMessage: string := "Question text cannot be empty"
  const TooFewOptionsMessage: string := "At least two options are required"

  // ---------------------------------------------------------------------
  // Validation
  // ---------------------------------------------------------------------

  /** `option.text.trim()` is truthy. */
  predicate NonBlank(option: QuestionOption) {
    Trim(option.text) != []
  }

  /** `options.filter(option => option.text.trim())`. */
  function ValidOptions(options: seq<QuestionOption>): seq<QuestionOption> {
    Filter(options, NonBlank)
  }

  /** The saved options are exactly the editor's non-blank ones, each as
      often as the editor holds it, in the editor's order. */
  lemma ValidOptionsAreTheNonBlankOnes(options: seq<QuestionOption>, o: QuestionOption)
    ensures o in ValidOptions(options) <==> o in options && NonBlank(o)
    ensures multiset(ValidOptions(options))[o] == if NonBlank(o) then multiset(options)[o] else 0
    ensures Subsequence(ValidOptions(options), options)
  {
    FilterMembers(options, NonBlank, o);
    FilterCounts(options, NonBlank, o);
    FilterSubsequence(options, NonBlank);
  }

  /** The checks of `handleSaveQuestion` and the question it builds with
      `savedIndex` as its correct option: a blank text is refused first,
      then fewer than two non-blank options; otherwise a new question is
      added, an edited one updated under its id, and with nothing being
      edited no call is made. */
  function Decide(editing: Editing, text: string, options: seq<QuestionOption>, savedIndex: int): (r: SaveResult)
    ensures r.Rejected? <==> Trim(text) == [] || |ValidOptions(options)| < 2
    ensures Trim(text) == [] ==> r == Rejected(EmptyTextMessage)
    ensures Trim(text) != [] && |ValidOptions(options)| < 2 ==> r == Rejected(TooFewOptionsMessage)
    ensures r.Saved? ==> (r.call.None? <==> editing.NotEditing?)
    ensures r.Saved? && editing.NewQuestion? ==> r.call.value.AddQuestion?
    ensures r.Saved? && editing.EditingQuestion? ==> r.call.value.UpdateQuestion? && r.call.value.id == editing.id
    ensures r.Saved? && r.call.Some? ==>
      && r.call.value.data.questionType == MultipleChoice
      && r.call.value.data.text == Trim(text)
      && r.call.value.data.options == ValidOptions(options)
      && |r.call.value.data.options| >= 2
  {
    if Trim(text) == [] then Rejected(EmptyTextMessage)
    else if |ValidOptions(options)| < 2 then Rejected(TooFewOptionsMessage)
    else
      var data := QuestionData(MultipleChoice, Trim(text), ValidOptions(options), savedIndex);
      match editing
      case NewQuestion => Saved(Some(AddQuestion(data)))
      case EditingQuestion(id) => Saved(Some(UpdateQuestion(id, data)))
      case NotEditing => Saved(None)
  }

  /** `handleSaveQuestion` as written: the reset of `correctOptionIndex`
      only schedules a state change, so the question is built with the
      editor's index as it was. */
  function SaveAsWritten(editing: Editing, text: string, options: seq<QuestionOption>, correct: int): (r: SaveResult)
    ensures r.Rejected? <==> Trim(text) == [] || |ValidOptions(options)| < 2
    ensures r.Saved? && r.call.Some? ==> r.call.value.data.correctOptionIndex == correct
  {
    Decide(editing, text, options, correct)
  }

  /** What `ValidOptions` keeps of one option. */
  function Kept(o: QuestionOption): seq<QuestionOption> {
    if NonBlank(o) then [o] else []
  }

  /** `ValidOptions` takes in one more option at the end when it is not
      blank. */
  lemma ValidOptionsSnoc(options: seq<QuestionOption>, o: QuestionOption)
    ensures ValidOptions(options + [o]) == ValidOptions(options) + Kept(o)
  {
    assert (options + [o])[..|options|] == options;
  }

  /** A one-letter text is not blank. */
  lemma LetterNotBlank(id: Id, c: char)
    requires !IsSpace(c)
    ensures NonBlank(QuestionOption(id, [c], None))
  {
    TrimOf([], [c], []);
    assert [] + [c] + [] == [c];
  }

  /** `ValidOptions` of four options, one at a time. */
  lemma ValidOptionsOfFour(o0: QuestionOption, o1: QuestionOption, o2: QuestionOption, o3: QuestionOption)
    ensures ValidOptions([o0] + [o1] + [o2] + [o3]) == Kept(o0) + Kept(o1) + Kept(o2) + Kept(o3)
  {
    ValidOptionsSnoc([], o0);
    assert [] + [o0] == [o0];
    ValidOptionsSnoc([o0], o1);
    ValidOptionsSnoc([o0] + [o1], o2);
    ValidOptionsSnoc([o0] + [o1] + [o2], o3);
  }

  /** Whenever the marked index lies at or past the number of non-blank
      options, the question is saved with an index outside its options. */
  lemma StaleIndexOutOfRange(editing: Editing, text: string, options: seq<QuestionOption>, correct: int)
    requires SaveAsWritten(editing, text, options, correct).Saved? && !editing.NotEditing?
    requires correct >= |ValidOptions(options)|
    ensures var data := SaveAsWritten(editing, text, options, correct).call.value.data;
      data.correctOptionIndex >= |data.options|
  {
    assert SaveAsWritten(editing, text, options, correct).call.value.data.options == ValidOptions(options);
  }

  /** With the third and fourth options left blank and the fourth one
      marked correct, the saved question has two options and correct
      index 3. */
  lemma StaleIndexIsSaved()
    ensures var options := [QuestionOption(0, "a", None)] + [QuestionOption(1, "b", None)]
                          + [QuestionOption(2, "", None)] + [QuestionOption(3, "", None)];
      var r := SaveAsWritten(NewQuestion, "q", options, 3);
      r.Saved? && r.call.Some? && |r.call.value.data.options| == 2
      && r.call.value.data.correctOptionIndex == 3
  {
    var o0, o1, o2, o3 := QuestionOption(0, "a", None), QuestionOption(1, "b", None),
                          QuestionOption(2, "", None), QuestionOption(3, "", None);
    LetterNotBlank(0, 'a');
    LetterNotBlank(1, 'b');
    LetterNotBlank(9, 'q');
    ValidOptionsOfFour(o0, o1, o2, o3);
    assert Kept(o0) == [o0] && Kept(o1) == [o1] && Kept(o2) == [] && Kept(o3) == [];
    assert ValidOptions([o0] + [o1] + [o2] + [o3]) == [o0, o1];
  }

  /** With the first option left blank and the second one marked correct,
      the saved index points at what was the third option. */
  lemma IndexShiftsPastBlankOption()
    ensures var options := [QuestionOption(0, "", None)] + [QuestionOption(1, "x", None)]
                          + [QuestionOption(2, "y", None)] + [QuestionOption(3, "", None)];
      var r := SaveAsWritten(NewQuestion, "q", options, 1);
      r.Saved? && r.call.Some?
      && r.call.value.data.options[r.call.value.data.correctOptionIndex].text == "y"
  {
    var o0, o1, o2, o3 := QuestionOption(0, "", None), QuestionOption(1, "x", None),
                          QuestionOption(2, "y", None), QuestionOption(3, "", None);
    LetterNotBlank(1, 'x');
    LetterNotBlank(2, 'y');
    LetterNotBlank(9, 'q');
    ValidOptionsOfFour(o0, o1, o2, o3);
    assert Kept(o0) == [] && Kept(o1) == [o1] && Kept(o2) == [o2] && Kept(o3) == [];
    assert ValidOptions([o0] + [o1] + [o2] + [o3]) == [o1, o2];
  }

  /** The correct option's position among the saved options: the number of
      non-blank options before it, or 0 when the marked option is blank
      or out of range. */
  function CorrectedIndex(options: seq<QuestionOption>, correct: int): (r: int)
    ensures 0 <= r
    ensures |ValidOptions(options)| > 0 ==> r < |ValidOptions(options)|
    ensures 0 <= correct < |options| && NonBlank(options[correct]) ==>
      r < |ValidOptions(options)| && ValidOptions(options)[r] == options[correct]
  {
    if 0 <= correct < |options| && NonBlank(options[correct]) then
      var before := options[..correct];
      FilterAt(options, NonBlank, correct);
      |ValidOptions(before)|
    else 0
  }

  /** `handleSaveQuestion` with the index it evidently means to save: the
      editor's choice carried over to the filtered options. */
  function Save(editing: Editing, text: string, options: seq<QuestionOption>, correct: int): (r: SaveResult)
    ensures r.Rejected? <==> Trim(text) == [] || |ValidOptions(options)| < 2
    ensures Trim(text) == [] ==> r == Rejected(EmptyTextMessage)
    ensures r.Saved? ==> (r.call.None? <==> editing.NotEditing?)
    ensures r.Saved? && editing.NewQuestion? ==> r.call.value.AddQuestion?
    ensures r.Saved? && editing.EditingQuestion? ==> r.call.value.UpdateQuestion? && r.call.value.id == editing.id
  {
    Decide(editing, text, options, CorrectedIndex(options, correct))
  }

  /** The question saved: a multiple-choice question with the trimmed text,
      the non-blank options, and a correct index inside them that names the
      option the editor marked whenever that option has text. */
  lemma SaveBuildsQuestion(editing: Editing, text: string, options: seq<QuestionOption>, correct: int)
    requires Save(editing, text, options, correct).Saved? && !editing.NotEditing?
    ensures var data := Save(editing, text, options, correct).call.value.data;
      && data.questionType == MultipleChoice
      && data.text == Trim(text)
      && data.options == ValidOptions(options)
      && 0 <= data.correctOptionIndex < |data.options|
      && (0 <= correct < |options| && NonBlank(options[correct]) ==>
            data.options[data.correctOptionIndex] == options[correct])
  {
  }

  /** When no option is blank and the marked one is in range, the source's
      index is already the right one: both versions save the same. */
  lemma AsWrittenAgreesWithoutBlanks(editing: Editing, text: string, options: seq<QuestionOption>, correct: int)
    requires forall k :: 0 <= k < |options| ==> NonBlank(options[k])
    requires 0 <= correct < |options|
    ensures SaveAsWritten(editing, text, options, correct) == Save(editing, text, options, correct)
  {
    FilterKeepsAll(options[..correct], NonBlank);
    assert CorrectedIndex(options, correct) == correct;
  }

  /** `handleUpdateOption(index, text)`: option `index` gets the new text
      and keeps its id; the others stay. */
  function UpdateOption(options: seq<QuestionOption>, index: nat, text: string): (r: seq<QuestionOption>)
    requires index < |options|
    ensures |r| == |options|
    ensures r[index].id == options[index].id && r[index].latex == options[index].latex && r[index].text == text
    ensures forall k :: 0 <= k < |options| && k != index ==> r[k] == options[k]
  {
    options[index := options[index].(text := text)]
  }

  // ---------------------------------------------------------------------
  // Saving the test and sharing it
  // ---------------------------------------------------------------------

  const NoQuestionsMessage: string := "Your test must have at least one question"

  datatype SaveTestResult = NoTest | SaveTestRejected(message: string) | TestSaved

  /** `handleSaveTest` with the current test's questions, if there is a
      current test: it is saved only with at least one question. */
  function SaveTest(currentTest: Option<seq<Question>>): (r: SaveTestResult)
    ensures r == TestSaved <==> currentTest.Some? && |currentTest.value| > 0
    ensures r == NoTest <==> currentTest.None?
    ensures currentTest.Some? && |currentTest.value| == 0 ==> r == SaveTestRejected(NoQuestionsMessage)
  {
    match currentTest
    case None => NoTest
    case Some(questions) => if |questions| == 0 then SaveTestRejected(NoQuestionsMessage) else TestSaved
  }

  const SharePath: string := "/student-test/"

  /** The link a student opens: the page's origin, the path, the code. */
  function ShareUrl(origin: string, testCode: string): (r: string)
    ensures |r| == |origin| + |SharePath| + |testCode|
  {
    origin + SharePath + testCode
  }

  /** The code read back from a link of this origin. */
  function CodeOfUrl(origin: string, url: string): Option<string> {
    var n := |origin| + |SharePath|;
    if n <= |url| && url[..n] == origin + SharePath then Some(url[n..]) else None
  }

  /** A shared link leads back to its test code. */
  lemma ShareUrlRoundTrip(origin: string, testCode: string)
    ensures CodeOfUrl(origin, ShareUrl(origin, testCode)) == Some(testCode)
  {
    var url := ShareUrl(origin, testCode);
    var n := |origin| + |SharePath|;
    assert url[..n] == origin + SharePath;
    assert url[n..] == testCode;
  }

  /** `testCode.slice(0, 8).toUpperCase()`, with `upper` standing for
      `toUpperCase`. */
  function DisplayCode(testCode: string, upper: string -> string): (r: string)
    ensures |testCode| <= 8 ==> r == upper(testCode)
    ensures |testCode| > 8 ==> r == upper(testCode[..8])
  {
    if |testCode| <= 8 then upper(testCode) else upper(testCode[..8])
  }

  /** Two codes that agree in their first eight characters display alike. */
  lemma DisplayCodeReadsEight(a: string, b: string, upper: string -> string)
    requires |a| >= 8 && |b| >= 8 && a[..8] == b[..8]
    ensures DisplayCode(a, upper) == DisplayCode(b, upper)
  {
    if |a| == 8 {
      assert a[..8] == a;
    }
    if |b| == 8 {
      assert b[..8] == b;
    }
  }

  // ---------------------------------------------------------------------
  // The editor
  // ---------------------------------------------------------------------

  /** The editor state of the preview page. `nextId` stands for `uuidv4`:
      every identifier below it has been handed out. */
  class PreviewPage {
    var editingQuestionId: Editing
    var questionText: string
    var options: seq<QuestionOption>
    var correctOptionIndex: int
    var nextId: Id

    /** Nothing is being edited. */
    predicate Closed()
      reads this
    {
      editingQuestionId == NotEditing && questionText == [] && options == [] && correctOptionIndex == 0
    }

    constructor(firstId: Id)
      ensures Closed() && nextId == firstId
    {
      editingQuestionId := NotEditing;
      questionText := [];
      options := [];
      correctOptionIndex := 0;
      nextId := firstId;
    }

    /** `handleEditQuestion(question)`: the editor takes the question's id,
        text, options and correct index. */
    method HandleEditQuestion(question: Question)
      modifies this
      ensures editingQuestionId == EditingQuestion(question.id)
      ensures questionText == question.text && options == question.options
      ensures correctOptionIndex == question.correctOptionIndex
      ensures nextId == old(nextId)
    {
      editingQuestionId := EditingQuestion(question.id);
      questionText := question.text;
      options := question.options;
      correctOptionIndex := question.correctOptionIndex;
    }

    /** `handleAddQuestion`: a new question with four empty options, each
        with a new id, and the first one marked correct. */
    method HandleAddQuestion()
      modifies this
      ensures editingQuestionId == NewQuestion && questionText == [] && correctOptionIndex == 0
      ensures |options| == 4
      ensures forall k :: 0 <= k < 4 ==> options[k] == QuestionOption(old(nextId) + k, [], None)
      ensures nextId == old(nextId) + 4
    {
      var empty := [];
      var id := nextId;
      while |empty| < 4
        invariant |empty| <= 4 && id == nextId + |empty|
        invariant forall j :: 0 <= j < |empty| ==> empty[j] == QuestionOption(nextId + j, [], None)
      {
        empty := empty + [QuestionOption(id, [], None)];
        id := id + 1;
      }
      editingQuestionId := NewQuestion;
      questionText := [];
      options := empty;
      nextId := id;
      correctOptionIndex := 0;
    }

    /** Typing into the question text area. */
    method SetQuestionText(text: string)
      modifies this
      ensures questionText == text
      ensures editingQuestionId == old(editingQuestionId) && options == old(options)
      ensures correctOptionIndex == old(correctOptionIndex) && nextId == old(nextId)
    {
      questionText := text;
    }

    /** `handleUpdateOption(index, text)`, called from the input of option
        `index` of the editor. */
    method HandleUpdateOption(index: nat, text: string)
      requires index < |options|
      modifies this
      ensures options == UpdateOption(old(options), index, text)
      ensures editingQuestionId == old(editingQuestionId) && questionText == old(questionText)
      ensures correctOptionIndex == old(correctOptionIndex) && nextId == old(nextId)
    {
      options := UpdateOption(options, index, text);
    }

    /** The radio button of option `index`. */
    method SelectCorrectOption(index: nat)
      requires index < |options|
      modifies this
      ensures correctOptionIndex == index
      ensures editingQuestionId == old(editingQuestionId) && questionText == old(questionText)
      ensures options == old(options) && nextId == old(nextId)
    {
      correctOptionIndex := index;
    }

    /** `handleCancelEdit`. */
    method HandleCancelEdit()
      modifies this
      ensures Closed() && nextId == old(nextId)
    {
      editingQuestionId := NotEditing;
      questionText := [];
      options := [];
      correctOptionIndex := 0;
    }

    /** `handleSaveQuestion`: on a rejection the editor stays as it was;
        otherwise the store call is made, with the editor's index as it
        stood, and the editor is closed. */
    method HandleSaveQuestion() returns (result: SaveResult)
      modifies this
      ensures result == SaveAsWritten(old(editingQuestionId), old(questionText), old(options), old(correctOptionIndex))
      ensures result.Rejected? ==>
        && editingQuestionId == old(editingQuestionId) && questionText == old(questionText)
        && options == old(options) && correctOptionIndex == old(correctOptionIndex)
      ensures result.Saved? ==> Closed()
      ensures nextId == old(nextId)
    {
      result := SaveAsWritten(editingQuestionId, questionText, options, correctOptionIndex);
      if result.Saved? {
        HandleCancelEdit();
      }
    }
  }
}
