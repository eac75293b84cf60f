# Question authoring core of the assessment app, in Dafny

This project models the parts of the assessment app's authoring screens that
hold logic of their own:

- the bulk-text question parser of the manual-entry page (`parseQuestions`),
  with the page's image map, its LaTeX insertion at the text cursor and its
  preview and submit handlers;
- the fill-in-the-blank question view: the prompt cut at every `[___]`, the
  answer typed into one box, and the check of one blank;
- the question editor of the preview page: its editing state, the option
  handlers, the validation that turns the editor into a stored question, the
  guard on saving a test, and the share link and code;
- the LaTeX template picker: its search and its expanded categories.

Modules:

| module | file | contents |
|---|---|---|
| `Wrappers` | `Wrappers.dfy` | `Option` |
| `Seqs` | `Seqs.dfy` | `FilterMap`, `Filter`, `LastOf`, `Subsequence` and their lemmas |
| `Text` | `Text.dfy` | JavaScript `trim`, `split`, `includes`, `indexOf`, `replace` of a string |
| `Questions` | `Questions.dfy` | the question, option and blank records |
| `BulkParser` | `BulkParser.dfy` | `parseQuestions` |
| `ManualEntry` | `ManualEntry.dfy` | the rest of the manual-entry page |
| `FillInBlank` | `FillInBlank.dfy` | the fill-in-the-blank view |
| `QuestionEditor` | `QuestionEditor.dfy` | the preview page's editor |
| `LatexHelper` | `LatexHelper.dfy` | the template picker |

Each regular expression of the parser is written out as a recogniser that
says whether the pattern matches at one index. `Text.FirstMatch` then looks
for the leftmost match, as `String.prototype.match` does.

`uuidv4` is modelled as a counter. A method is given the first free
identifier and returns the next one, and the identifiers it hands out are
strictly increasing, so no two are equal. `toLowerCase` and `toUpperCase` are
the parameters `lower` and `upper`.

Calls into the test store (`addQuestion`, `updateQuestion`, `saveTest`) are
returned as values, and so is navigation. `onAnswer` receives the array
that `HandleAnswerChange` returns.

The text is cut into blocks with the lookahead `/(?=Q\d+\.)/`, which cuts
in front of every `Q<digits>.` in the text, in the middle of a line too, and
not only at line starts as in the page's placeholder example
(src/pages/ManualEntryPage.tsx:257-263). The model cuts where the code does.

## Model

| member | source | states |
|---|---|---|
| BulkParser.ParseQuestions | src/pages/ManualEntryPage.tsx:60-125 | the loop over the blocks returns, once identifiers are erased, exactly the questions `ParseText` determines; every one is well formed (four options, correct index in 0..3); the identifiers drawn are strictly increasing and lie between `firstId` and the returned `nextId` |
| BulkParser.ReadBlock | src/pages/ManualEntryPage.tsx:64-121 | one pass of the block loop yields the question `ParseBlock` determines, with increasing fresh identifiers |
| BulkParser.ReadHeader | src/pages/ManualEntryPage.tsx:71-88 | the prompt's text, LaTeX and image as the loop body computes them agree with `ReadPrompt`, with an empty LaTeX body read as none, as the fallback to `undefined` on line 116 does |
| BulkParser.ReadOptionLines | src/pages/ManualEntryPage.tsx:90-110 | the loop over the lines after the first yields the options `OptionsUpTo` determines, in line order, and the answer index `AnswerUpTo` determines; option identifiers are fresh and increasing |
| BulkParser.BlocksFrom | src/pages/ManualEntryPage.tsx:62 | the scan that cuts a text into blocks yields at least one block |
| BulkParser.SplitBlocksConcat | src/pages/ManualEntryPage.tsx:62 | cutting the text into blocks loses nothing: the blocks joined are the text |
| BulkParser.SplitBlocksStartAtMarkers | src/pages/ManualEntryPage.tsx:62 | every block after the first begins with `Q<digits>.`, wherever that stood in its line |
| BulkParser.SplitBlocksHaveNoInnerMarker | src/pages/ManualEntryPage.tsx:62 | no block holds a `Q<digits>.` after its first character, so every marker opens a block |
| BulkParser.BlocksFromConcat | src/pages/ManualEntryPage.tsx:62 | the blocks from a start index on, joined, are the rest of the text |
| BulkParser.BlocksFromMarkers | src/pages/ManualEntryPage.tsx:62 | every block after the first starts with a marker |
| BulkParser.BlocksFromNoInner | src/pages/ManualEntryPage.tsx:62 | no block from a start index on holds an inner marker |
| BulkParser.MarkerAt | src/pages/ManualEntryPage.tsx:62 | a `Q\d+\.` match at `i` is a `Q`, at least one digit and a dot, all inside the string |
| BulkParser.ParseBlockEmpty | src/pages/ManualEntryPage.tsx:65 | a block that is white space only yields nothing |
| BulkParser.ParseBlockHeaderless | src/pages/ManualEntryPage.tsx:67-69 | a block whose first trimmed line does not match `Q\d+\.\s+(.*)` yields nothing |
| BulkParser.ParseBlockOfHeader | src/pages/ManualEntryPage.tsx:67-121 | a block with a header yields the question assembled from the prompt, the options and the last answer of its lines |
| BulkParser.ParseBlock | src/pages/ManualEntryPage.tsx:112-121 | a block yields a question only with exactly four options and a correct index in 0..3 |
| BulkParser.ParsedQuestionsAreWellFormed | src/pages/ManualEntryPage.tsx:95-121 | every parsed question has four options and a correct index in 0..3, because answers are only the letters A to D |
| BulkParser.ParsedWellFormed | src/pages/ManualEntryPage.tsx:112-121 | questions whose erasure is the parse of a text are all well formed |
| BulkParser.NoAnswerNoQuestion | src/pages/ManualEntryPage.tsx:91-121 | a block with no `Answer:` line yields nothing, however many options it has |
| BulkParser.LastAnswerWins | src/pages/ManualEntryPage.tsx:107-109 | with several answer lines, the last one gives the correct index |
| BulkParser.LineStep | src/pages/ManualEntryPage.tsx:93-110 | a line matching the option pattern adds one option and never sets the answer, even if it also holds `Answer:`; an answer line sets the index; any other line changes nothing |
| BulkParser.AnswerAt | src/pages/ManualEntryPage.tsx:96-108 | an `Answer:\s+([A-D])` match gives an index in 0..3 |
| BulkParser.MatchAnswer | src/pages/ManualEntryPage.tsx:96-108 | the leftmost answer match gives an index in 0..3 |
| BulkParser.AnswerOf | src/pages/ManualEntryPage.tsx:98-109 | the answer a line contributes is in 0..3 |
| BulkParser.AnswerUpTo | src/pages/ManualEntryPage.tsx:91-109 | the answer index after any number of lines is -1 (none yet) or in 0..3 |
| BulkParser.ParseBlocksAppend | src/pages/ManualEntryPage.tsx:62-124 | blocks are read independently and in order: two runs of blocks yield the questions of the first followed by those of the second |
| BulkParser.DroppedBlock | src/pages/ManualEntryPage.tsx:64-121 | a block that yields nothing leaves the questions of its neighbours unchanged |
| BulkParser.TagAt | src/pages/ManualEntryPage.tsx:73-74 | a `[image:`/`[latex:` tag matched at `i` is a substring of the text at `i` |
| BulkParser.MatchTagLeftmost | src/pages/ManualEntryPage.tsx:73-74 | the tag found is the leftmost one: no tag starts earlier, and none exists when nothing is found |
| BulkParser.TagRemoval | src/pages/ManualEntryPage.tsx:81-104 | `replace(match[0], '')` removes exactly the matched tag, because no earlier occurrence of its text exists |
| BulkParser.TagFirstOccurrence | src/pages/ManualEntryPage.tsx:81-86 | the text of the leftmost tag occurs nowhere earlier, so `indexOf` finds it where the tag was matched |
| BulkParser.TagAtRepeats | src/pages/ManualEntryPage.tsx:73-74 | wherever a tag's whole text occurs again, a tag matches there too |
| BulkParser.ReadPromptImage | src/pages/ManualEntryPage.tsx:73-80 | the prompt gets an image exactly when its first image tag's trimmed key maps to non-empty data, and the image is that data |
| BulkParser.ReadPromptImageCut | src/pages/ManualEntryPage.tsx:77-83 | without a LaTeX tag, a resolved image tag is cut out of the prompt, which is then trimmed |
| BulkParser.ReadPromptImageKept | src/pages/ManualEntryPage.tsx:77-83 | without a LaTeX tag, a prompt whose image tag is missing or does not resolve keeps its text untouched and has neither image nor LaTeX |
| BulkParser.ReadPromptLatex | src/pages/ManualEntryPage.tsx:74-88 | the prompt's LaTeX is the trimmed body of its first LaTeX tag; it is absent with no tag or a blank body |
| BulkParser.ReadPromptLatexCut | src/pages/ManualEntryPage.tsx:85-88 | without a resolved image tag, the first LaTeX tag is cut out of the prompt's text, which is then trimmed |
| BulkParser.ReadPromptBothTagsText | src/pages/ManualEntryPage.tsx:77-88 | with a resolved image tag and a LaTeX tag, the text is the prompt with the image tag cut out and trimmed, then the LaTeX tag's text replaced and the result trimmed |
| BulkParser.ReadPromptBothTags | src/pages/ManualEntryPage.tsx:77-88 | with both tags, the first occurrence of the LaTeX tag's text left after the image cut is cut out and the rest trimmed; when the image cut destroyed every occurrence, the text is the image-cut prompt unchanged |
| BulkParser.ReadOptionUntagged | src/pages/ManualEntryPage.tsx:99-106 | an option without a LaTeX tag keeps its text verbatim and has no LaTeX |
| BulkParser.ReadOptionTag | src/pages/ManualEntryPage.tsx:99-106 | with a LaTeX tag, the option's LaTeX is the tag's trimmed body and its text is the rest with the tag cut out, trimmed |
| BulkParser.ConsecutiveIds | src/pages/ManualEntryPage.tsx:103 | options numbered one after another have strictly increasing identifiers in the range drawn |
| BulkParser.KeepStep | src/pages/ManualEntryPage.tsx:113-114 | appending a kept question keeps every identifier so far distinct and in range |
| BulkParser.ParseStep | src/pages/ManualEntryPage.tsx:112-113 | one more block read keeps the questions so far equal to the parse of the blocks read |
| BulkParser.BlockStep | src/pages/ManualEntryPage.tsx:64-121 | one pass of the block loop keeps the questions so far equal to the parse of the blocks read, and their identifiers increasing and in the range drawn |
| BulkParser.AllBlocksRead | src/pages/ManualEntryPage.tsx:62-124 | once every block is read, the questions are the parse of the text and all well formed |
| BulkParser.OptionLineRead | src/pages/ManualEntryPage.tsx:95-104 | an option line read appends its option, numbered next, and leaves the answer index |
| BulkParser.OtherLineRead | src/pages/ManualEntryPage.tsx:105-107 | a line that is not an option sets the answer index when it holds `Answer:` and otherwise changes nothing |
| BulkParser.OneMoreId | src/pages/ManualEntryPage.tsx:113-114 | the question's identifier, drawn after its options' identifiers, keeps them increasing and in range |
| ManualEntry.Upload | src/pages/ManualEntryPage.tsx:43-46 | an upload maps the file name to its data and leaves every other key as it was |
| ManualEntry.UploadAllKeys | src/pages/ManualEntryPage.tsx:39-49 | after the uploads of one file list, the keys are the old keys and the uploaded names |
| ManualEntry.LastUploadWins | src/pages/ManualEntryPage.tsx:39-49 | a name's data is that of the last file uploaded under it |
| ManualEntry.UploadAllKeeps | src/pages/ManualEntryPage.tsx:39-49 | a name no uploaded file carries keeps its entry, or stays absent |
| ManualEntry.UploadTwice | src/pages/ManualEntryPage.tsx:43-46 | of two uploads under one name, the second is the one kept |
| ManualEntry.Remove | src/pages/ManualEntryPage.tsx:52-57 | removing deletes only the named key and leaves every other entry unchanged |
| ManualEntry.RemoveAfterUpload | src/pages/ManualEntryPage.tsx:43-57 | removing a name undoes its upload |
| ManualEntry.Snippet | src/pages/ManualEntryPage.tsx:161 | the inserted text is the eight-character opening `[latex: `, the expression and `]` |
| ManualEntry.Clamp | src/pages/ManualEntryPage.tsx:161 | `slice` cuts at the cursor, or at the end when the cursor lies past it |
| ManualEntry.InsertTemplate | src/pages/ManualEntryPage.tsx:157-172 | the new text is the text before the cursor, the snippet, then the rest; the new selection is the old cursor plus the length of the expression plus 8 |
| ManualEntry.InsertThenCut | src/pages/ManualEntryPage.tsx:161 | cutting the snippet out of the new text gives back the old text |
| ManualEntry.CursorBeforeClosingBracket | src/pages/ManualEntryPage.tsx:161-166 | with the cursor inside the text, the new selection sits on the snippet's `]`, right after the expression |
| ManualEntry.InsertedTagReadsBack | src/pages/ManualEntryPage.tsx:157-161 | an inserted expression that starts with a non-space and holds no `]` is read back by the parser's LaTeX pattern at the insertion point |
| ManualEntry.SnippetIsTag | src/pages/ManualEntryPage.tsx:157-161 | the inserted `[latex: ...]` snippet is matched as a LaTeX tag at its own position, with the expression as its body |
| ManualEntry.ManualEntryPage.constructor | src/pages/ManualEntryPage.tsx:13-19 | the page starts with an empty text, no error, no images, no preview and no cursor |
| ManualEntry.ManualEntryPage.SetBulkText | src/pages/ManualEntryPage.tsx:254 | typing replaces the text and nothing else |
| ManualEntry.ManualEntryPage.HandleImageUpload | src/pages/ManualEntryPage.tsx:35-50 | without a file list nothing changes; otherwise the image map becomes that after every file's upload, and nothing else changes |
| ManualEntry.ManualEntryPage.RemoveImage | src/pages/ManualEntryPage.tsx:52-58 | the image map loses the named key, and nothing else changes |
| ManualEntry.ManualEntryPage.HandleTextareaSelect | src/pages/ManualEntryPage.tsx:174-178 | with a text area, the cursor becomes its selection start; nothing else changes |
| ManualEntry.ManualEntryPage.HandlePreview | src/pages/ManualEntryPage.tsx:127-136 | the preview becomes the parse of the text, the error is cleared and the preview section flips; the preview stays well formed with fresh identifiers |
| ManualEntry.ManualEntryPage.HandleSubmit | src/pages/ManualEntryPage.tsx:138-155 | a non-empty preview is submitted as it is, otherwise the parse of the text; with no question the error is set to the message and nothing is added or navigated; otherwise every question is added in order and the page navigates |
| ManualEntry.ManualEntryPage.InsertLatexTemplate | src/pages/ManualEntryPage.tsx:157-172 | without a text area or a remembered cursor nothing changes; otherwise the text is `InsertTemplate`'s and the selection is set to its cursor |
| FillInBlank.Submitted | src/components/questions/QuestionTypes/FillInBlankQuestion.tsx:30 | a slot past the end or never written reads as unanswered |
| FillInBlank.ChangeAnswer | src/components/questions/QuestionTypes/FillInBlankQuestion.tsx:21-26 | the copied array holds the value at the index, every other slot as before, and is long enough for the index |
| FillInBlank.FillInBlankQuestion.HandleAnswerChange | src/components/questions/QuestionTypes/FillInBlankQuestion.tsx:21-26 | the new answers become the state and are what is passed on; only the changed slot differs |
| FillInBlank.FillInBlankQuestion.constructor | src/components/questions/QuestionTypes/FillInBlankQuestion.tsx:16-19 | the answers passed in are the first state |
| FillInBlank.InputValue | src/components/questions/QuestionTypes/FillInBlankQuestion.tsx:47 | a box shows its answer, or the empty string when unanswered |
| FillInBlank.LowerAll | src/components/questions/QuestionTypes/FillInBlankQuestion.tsx:32 | the alternatives are lower-cased one by one |
| FillInBlank.IsCorrect | src/components/questions/QuestionTypes/FillInBlankQuestion.tsx:28-34 | a blank is correct only if it is defined and answered |
| FillInBlank.IsCorrectIff | src/components/questions/QuestionTypes/FillInBlankQuestion.tsx:28-34 | a blank is correct exactly when it is defined, answered, and its lower-cased, trimmed answer is the lower-cased expected answer or a lower-cased alternative |
| FillInBlank.UntrimmedAnswerNeverMatches | src/components/questions/QuestionTypes/FillInBlankQuestion.tsx:30-33 | an expected answer that begins or ends with white space is never matched, since only the submitted side is trimmed |
| FillInBlank.ChangeKeepsOtherVerdicts | src/components/questions/QuestionTypes/FillInBlankQuestion.tsx:21-34 | typing into one box leaves every other blank's verdict unchanged, and that box's verdict depends on the typed value only |
| FillInBlank.HeadHasNoPlaceholder | src/components/questions/QuestionTypes/FillInBlankQuestion.tsx:36 | the text before the first `[___]` holds none |
| FillInBlank.SplitOnBlanksAlternate | src/components/questions/QuestionTypes/FillInBlankQuestion.tsx:36 | the pieces of the capturing split alternate: there is one more text piece than placeholders, and the placeholders sit exactly at the odd indices |
| FillInBlank.SplitOnBlanksTextPieces | src/components/questions/QuestionTypes/FillInBlankQuestion.tsx:36 | no text piece holds a placeholder |
| FillInBlank.SplitOnBlanksConcat | src/components/questions/QuestionTypes/FillInBlankQuestion.tsx:36 | the pieces joined give back the prompt |
| FillInBlank.Render | src/components/questions/QuestionTypes/FillInBlankQuestion.tsx:41-47 | one rendered piece per split piece |
| FillInBlank.BoxesNumbered | src/components/questions/QuestionTypes/FillInBlankQuestion.tsx:41-48 | with placeholders at the odd indices, the boxes read left to right belong to blanks 0, 1, 2, … and there are as many as placeholders |
| FillInBlank.PromptBoxes | src/components/questions/QuestionTypes/FillInBlankQuestion.tsx:36-48 | the k-th box of a prompt belongs to blank k, and there are as many boxes as `[___]` in the prompt |
| QuestionEditor.ValidOptionsAreTheNonBlankOnes | src/pages/PreviewPage.tsx:72 | the saved options are exactly the editor's options with non-blank text, each as many times as the editor holds it, in the editor's order |
| QuestionEditor.ValidOptionsSnoc | src/pages/PreviewPage.tsx:72 | the filter keeps one more trailing option exactly when its text is not blank |
| QuestionEditor.Decide | src/pages/PreviewPage.tsx:66-96 | saving is rejected exactly when the trimmed text is empty or fewer than two options have text, with the empty-text message first; otherwise a new question is added, an edited one updated under its id, and nothing is called when nothing is edited; the question is multiple choice with the trimmed text and the non-blank options |
| QuestionEditor.Save | src/pages/PreviewPage.tsx:66-96 | the corrected save is rejected exactly when the code's is, with the empty-text message first, and makes the same kind of store call under the same id |
| QuestionEditor.SaveBuildsQuestion | src/pages/PreviewPage.tsx:72-87 | the saved question is multiple choice, with the trimmed text and the non-blank options; its correct index lies among them and names the option marked in the editor whenever that one has text |
| QuestionEditor.CorrectedIndex | src/pages/PreviewPage.tsx:78-80 | the saved index is in range of the saved options and names the marked option when it has text |
| QuestionEditor.SaveAsWritten | src/pages/PreviewPage.tsx:66-96 | the save as the code builds it is rejected in the same cases, and its question carries the editor's correct index unchanged |
| QuestionEditor.StaleIndexOutOfRange | src/pages/PreviewPage.tsx:78-87 | whenever the marked index is at or past the number of non-blank options, the saved question's index lies outside its options |
| QuestionEditor.StaleIndexIsSaved | src/pages/PreviewPage.tsx:78-87 | two options with text and the fourth marked correct save a question whose index 3 is past its two options |
| QuestionEditor.IndexShiftsPastBlankOption | src/pages/PreviewPage.tsx:72-86 | with the first option blank and the second marked, the saved index names what was the third option |
| QuestionEditor.AsWrittenAgreesWithoutBlanks | src/pages/PreviewPage.tsx:72-87 | when no option is blank and the marked one is in range, the code as written and the corrected save agree |
| QuestionEditor.UpdateOption | src/pages/PreviewPage.tsx:105-109 | option `index` gets the new text and keeps its id and LaTeX; every other option stays |
| QuestionEditor.SaveTest | src/pages/PreviewPage.tsx:111-121 | without a current test nothing happens; a test is saved exactly when it has at least one question, and rejected with the message when it has none |
| QuestionEditor.ShareUrl | src/pages/PreviewPage.tsx:129 | the link is the origin, `/student-test/` and the test code |
| QuestionEditor.ShareUrlRoundTrip | src/pages/PreviewPage.tsx:129 | the test code is read back from its link |
| QuestionEditor.DisplayCode | src/pages/PreviewPage.tsx:354 | the displayed code is the upper-cased first eight characters of the test code, or all of it when shorter |
| QuestionEditor.DisplayCodeReadsEight | src/pages/PreviewPage.tsx:354 | two codes that agree in their first eight characters display alike |
| QuestionEditor.PreviewPage.constructor | src/pages/PreviewPage.tsx:21-24 | the editor starts closed |
| QuestionEditor.PreviewPage.HandleEditQuestion | src/pages/PreviewPage.tsx:47-52 | the editor takes the question's id, text, options and correct index |
| QuestionEditor.PreviewPage.HandleAddQuestion | src/pages/PreviewPage.tsx:54-64 | the editor is in the new-question state with empty text, four empty options with four fresh identifiers, and the first option marked |
| QuestionEditor.PreviewPage.SetQuestionText | src/pages/PreviewPage.tsx:200 | typing replaces the question text and nothing else |
| QuestionEditor.PreviewPage.HandleUpdateOption | src/pages/PreviewPage.tsx:105-109 | the options become `UpdateOption`'s; nothing else changes |
| QuestionEditor.PreviewPage.SelectCorrectOption | src/pages/PreviewPage.tsx:234 | the clicked option becomes the correct one; nothing else changes |
| QuestionEditor.PreviewPage.HandleCancelEdit | src/pages/PreviewPage.tsx:98-103 | the editor closes: no id, empty text, no options, index 0 |
| QuestionEditor.PreviewPage.HandleSaveQuestion | src/pages/PreviewPage.tsx:66-96 | the result is `SaveAsWritten` of the editor's state, so the store call carries the editor's index as it stood; a rejection leaves the editor as it was, a save closes it |
| LatexHelper.Narrow | src/components/LatexHelper.tsx:115-121 | every category is kept, under its name and in its place, with its items narrowed |
| LatexHelper.NarrowedItems | src/components/LatexHelper.tsx:117-121 | an item stays in its category exactly when the lower-cased term is part of its lower-cased name, LaTeX or description, as many times as the category holds it; the kept items keep their order |
| LatexHelper.FilteredTemplates | src/components/LatexHelper.tsx:115-122 | every category shown holds at least one item |
| LatexHelper.ShownCategories | src/components/LatexHelper.tsx:122 | a narrowed category is shown exactly when it still holds items, as many times as it occurs among the narrowed ones, and the shown categories keep their order |
| LatexHelper.CategoryShownIffMatch | src/components/LatexHelper.tsx:115-122 | a category is shown exactly when one of its items matches the search |
| LatexHelper.EmptySearchKeepsAll | src/components/LatexHelper.tsx:118-122 | with an empty search, templates whose categories all hold items come back unchanged |
| LatexHelper.EmptySearchShowsAllTemplates | src/components/LatexHelper.tsx:18-122 | the empty search shows every built-in category with all its items |
| LatexHelper.ToggleCategory | src/components/LatexHelper.tsx:96-101 | the category's flag flips, a missing flag reading as false, and every other flag stays |
| LatexHelper.ToggleTwice | src/components/LatexHelper.tsx:96-101 | toggling a category twice restores every flag as read |

## Left out

- The page sections' expand/collapse (`toggleSection`, `expandedSections`): only the preview flag that `handlePreview` flips is kept, as `previewExpanded`.
- `FileReader`: the data URL of a file is given, not decoded. The readers finish asynchronously, and the model applies the uploads in list order. A different finishing order can change which of two files with the same name wins.
- `setTimeout`, `focus`, `alert`, `navigate`, `navigator.clipboard` (`copyTestCode`, the picker's `handleCopy` and its copied flags), and the share modal: browser effects. Alerts and navigation are returned as values.
- The `try`/`catch` of `handlePreview` and `handleSubmit`: the parser as modelled cannot throw, so the "Failed to parse" message is never set.
- The test store (`addQuestion`, `updateQuestion`, `saveTest`, `removeQuestion`) and the `useEffect` that loads the test and its code: they are outside this model. Store calls are returned as `StoreCall`s.
- `uuidv4`: modelled as a counter of natural numbers. The editor's `'new'` marker is a state of its own, so the model cannot show a stored question whose id is the string `'new'` or empty.
- `toLowerCase` and `toUpperCase`: their Unicode case mapping is not modelled. They are the parameters `lower` and `upper`.
- Plain objects used as maps (`images`, `expandedCategories`) are modelled as `map`s. Keys that clash with `Object.prototype` members are not modelled.
- QuestionEditor.PreviewPage.HandleUpdateOption: requires `index < |options|`. The only caller is the input of option `index` in the rendered option list (src/pages/PreviewPage.tsx:212-224). A call with any other index would grow a sparse array, and that is not modelled.
- QuestionEditor.PreviewPage.SelectCorrectOption: requires `index < |options|`, for the same reason (src/pages/PreviewPage.tsx:212-234).
- ManualEntry.ManualEntryPage.HandleSubmit: `added` is returned rather than passed to a store. The store's own handling of it is not modelled.
- Strings are sequences of Unicode scalar values, where JavaScript counts UTF-16 code units. Positions and lengths, such as the cursor move by `latex.length + 8` in `insertLatexTemplate` and the eight characters of the displayed test code, agree with JavaScript's only for text without characters beyond U+FFFF. Lone surrogates are not modelled.
- The rendering of the pages (markup, styles, `MathRenderer`) is not modelled.

## Findings

| source | as written | input that shows it | evidently intended | confidence | as-written member | corrected member |
|---|---|---|---|---|---|---|
| src/pages/PreviewPage.tsx:78-87 | `setCorrectOptionIndex(0)` only schedules the reset, so the question is built with the old index, which can be past the saved options | options `a`, `b`, blank, blank with the fourth marked: the saved question has 2 options and correct index 3 | the saved index lies among the saved options | not executed | QuestionEditor.StaleIndexIsSaved | QuestionEditor.CorrectedIndex |
| src/pages/PreviewPage.tsx:72-87 | the options are filtered but the index is not moved with them, so a blank option before the marked one shifts the answer | options blank, `x`, `y`, blank with `x` marked: the saved question marks `y` | the saved index names the option the editor marked | not executed | QuestionEditor.IndexShiftsPastBlankOption | QuestionEditor.Save |

`QuestionEditor.SaveAsWritten` is the save as the code builds it, and both
counterexample lemmas are stated about it. `QuestionEditor.Save` and
`QuestionEditor.CorrectedIndex` carry the editor's choice over to the
filtered options. `QuestionEditor.SaveBuildsQuestion` proves the intended
property about the corrected save. The editor class saves as the code does,
with `SaveAsWritten`, and `QuestionEditor.StaleIndexOutOfRange` states the
first row's discrepancy for every input.
