/**
 * The fill-in-the-blank question view: the prompt cut at every `[___]`
 * into text and input boxes, the answer typed into one box, and the check
 * of one blank's answer. `lower` stands for `toLowerCase`, whose mapping
 * of characters is not modelled.
 */
module FillInBlank {
  import opened Wrappers
  import opened Text
  import opened Questions
  import opened Seqs

  // ---------------------------------------------------------------------
  // Answers
  // ---------------------------------------------------------------------

  /** `answers[index]`: `None` past the end of the array and for a slot
      that was never written. */
  function Submitted(answers: seq<Option<string>>, index: nat): (r: Option<string>)
    ensures r.Some? ==> index < |answers| && answers[index] == r
  {
    if index < |answers| then answers[index] else None
  }

  /** `handleAnswerChange(index, value)`: a copy of the answers with slot
      `index` set to `value`. Writing past the end lengthens the array and
      leaves the slots in between unwritten. */
  method ChangeAnswer(current: seq<Option<string>>, index: nat, value: string)
    returns (newAnswers: seq<Option<string>>)
    ensures |newAnswers| == if index < |current| then |current| else index + 1
    ensures Submitted(newAnswers, index) == Some(value)
    ensures forall j: nat :: j != index ==> Submitted(newAnswers, j) == Submitted(current, j)
  {
    var length := if index < |current| then |current| else index + 1;
    var copy := new Option<string>[length];
    var i := 0;
    while i < length
      invariant 0 <= i <= length
      invariant forall j :: 0 <= j < i ==> copy[j] == Submitted(current, j)
    {
      copy[i] := Submitted(current, i);
      i := i + 1;
    }
    copy[index] := Some(value);
    newAnswers := copy[..];
  }

  /** The text an input box shows: `currentAnswers[k] || ''`. */
  function InputValue(answers: seq<Option<string>>, k: nat): (r: string)
    ensures Submitted(answers, k).Some? ==> r == Submitted(answers, k).value
    ensures Submitted(answers, k).None? ==> r == []
  {
    match Submitted(answers, k)
    case Some(v) => v
    case None => []
  }

  // ---------------------------------------------------------------------
  // Checking a blank
  // ---------------------------------------------------------------------

  function LowerAll(xs: seq<string>, lower: string -> string): (r: seq<string>)
    ensures |r| == |xs|
    ensures forall k :: 0 <= k < |xs| ==> r[k] == lower(xs[k])
  {
    if |xs| == 0 then [] else LowerAll(xs[..|xs| - 1], lower) + [lower(xs[|xs| - 1])]
  }

  /** `isCorrect(index)`: the blank must exist and have been answered; the
      answer, lower-cased and then trimmed, must equal the lower-cased
      expected answer or one of the lower-cased alternatives. */
  function IsCorrect(blanks: Option<seq<Blank>>, answers: seq<Option<string>>, index: nat,
                     lower: string -> string): (r: bool)
    ensures r ==> blanks.Some? && index < |blanks.value|
    ensures r ==> Submitted(answers, index).Some?
  {
    if blanks.None? || index >= |blanks.value| then false
    else
      var blank := blanks.value[index];
      match Submitted(answers, index)
      case None => false
      case Some(submitted) =>
        var answer := Trim(lower(submitted));
        var alternatives := if blank.alternatives.Some? then LowerAll(blank.alternatives.value, lower) else [];
        answer == lower(blank.answer) || answer in alternatives
  }

  /** The answers a blank accepts, as lower-cased strings. */
  function Accepted(blank: Blank, lower: string -> string): set<string> {
    {lower(blank.answer)}
      + (if blank.alternatives.Some?
         then set alt | alt in blank.alternatives.value :: lower(alt)
         else {})
  }

  /** `isCorrect` holds exactly when the blank is defined, answered, and
      the trimmed lower-cased answer is one its accepted forms. */
  lemma IsCorrectIff(blanks: Option<seq<Blank>>, answers: seq<Option<string>>, index: nat,
                     lower: string -> string)
    ensures IsCorrect(blanks, answers, index, lower) <==>
      && blanks.Some? && index < |blanks.value|
      && Submitted(answers, index).Some?
      && Trim(lower(Submitted(answers, index).value)) in Accepted(blanks.value[index], lower)
  {
    if blanks.Some? && index < |blanks.value| && Submitted(answers, index).Some? {
      var blank := blanks.value[index];
      var answer := Trim(lower(Submitted(answers, index).value));
      if blank.alternatives.Some? {
        var alts := blank.alternatives.value;
        var lowered := LowerAll(alts, lower);
        if answer in lowered {
          var k :| 0 <= k < |lowered| && lowered[k] == answer;
          assert alts[k] in alts;
        }
        if answer in set alt | alt in alts :: lower(alt) {
          var alt :| alt in alts && lower(alt) == answer;
          var k :| 0 <= k < |alts| && alts[k] == alt;
          assert lowered[k] == answer;
        }
      }
    }
  }

  /** An expected answer whose lower-cased form begins or ends with white
      space is never matched: the submitted answer is trimmed, the
      expected one is not. */
  lemma UntrimmedAnswerNeverMatches(blanks: seq<Blank>, answers: seq<Option<string>>, index: nat,
                                    lower: string -> string)
    requires index < |blanks| && blanks[index].alternatives.None?
    requires var e := lower(blanks[index].answer); |e| > 0 && (IsSpace(e[0]) || IsSpace(e[|e| - 1]))
    ensures !IsCorrect(Some(blanks), answers, index, lower)
  {
    if Submitted(answers, index).Some? {
      TrimShape(lower(Submitted(answers, index).value));
    }
  }

  /** Typing into box `index` leaves the verdict on every other blank as it
      was, and the verdict on blank `index` depends on the typed value only. */
  lemma ChangeKeepsOtherVerdicts(blanks: Option<seq<Blank>>, before: seq<Option<string>>,
                                 after: seq<Option<string>>, index: nat, value: string,
                                 lower: string -> string, j: nat)
    requires Submitted(after, index) == Some(value)
    requires forall i: nat :: i != index ==> Submitted(after, i) == Submitted(before, i)
    ensures j != index ==> IsCorrect(blanks, after, j, lower) == IsCorrect(blanks, before, j, lower)
    ensures IsCorrect(blanks, after, index, lower) <==>
      blanks.Some? && index < |blanks.value| && Trim(lower(value)) in Accepted(blanks.value[index], lower)
  {
    IsCorrectIff(blanks, after, index, lower);
  }

  // ---------------------------------------------------------------------
  // The prompt with its boxes
  // ---------------------------------------------------------------------

  const Placeholder: string := "[___]"

  /** Even pieces are text without a placeholder, odd pieces are the
      placeholder, and there is one more text piece than placeholders. */
  predicate Alternating(parts: seq<string>) {
    && |parts| % 2 == 1
    && forall k :: 0 <= k < |parts| ==> (parts[k] == Placeholder <==> k % 2 == 1)
  }

  /** `text.split(/(\[___\])/g)`: the text between placeholders, with each
      placeholder kept as a piece of its own because the pattern captures. */
  function SplitOnBlanks(text: string): (parts: seq<string>)
    decreases |text|
  {
    match IndexOf(text, Placeholder, 0)
    case None => [text]
    case Some(i) => [text[..i], Placeholder] + SplitOnBlanks(text[i + |Placeholder|..])
  }

  /** The text before the first placeholder holds none. */
  lemma HeadHasNoPlaceholder(text: string, i: nat)
    requires IndexOf(text, Placeholder, 0) == Some(i)
    ensures !Contains(text[..i], Placeholder) && text[..i] != Placeholder
  {
    var head := text[..i];
    var r := IndexOf(head, Placeholder, 0);
    if r.Some? {
      assert text[r.value..r.value + |Placeholder|] == head[r.value..r.value + |Placeholder|];
      assert OccursAt(text, Placeholder, r.value);
    }
  }

  /** The pieces alternate between text and placeholders. */
  lemma {:induction false} SplitOnBlanksAlternate(text: string)
    ensures Alternating(SplitOnBlanks(text))
    decreases |text|
  {
    match IndexOf(text, Placeholder, 0)
    case None =>
    case Some(i) =>
      var tail := text[i + |Placeholder|..];
      SplitOnBlanksAlternate(tail);
      HeadHasNoPlaceholder(text, i);
      var rest := SplitOnBlanks(tail);
      var parts := [text[..i], Placeholder] + rest;
      forall k | 2 <= k < |parts|
        ensures parts[k] == Placeholder <==> k % 2 == 1
      {
        assert parts[k] == rest[k - 2];
      }
      assert SplitOnBlanks(text) == parts;
  }

  /** No text piece holds a placeholder. */
  predicate TextPiecesClean(parts: seq<string>) {
    forall k :: 0 <= k < |parts| && k % 2 == 0 ==> !Contains(parts[k], Placeholder)
  }

  lemma {:induction false} SplitOnBlanksTextPieces(text: string)
    ensures TextPiecesClean(SplitOnBlanks(text))
    decreases |text|
  {
    match IndexOf(text, Placeholder, 0)
    case None =>
    case Some(i) =>
      var tail := text[i + |Placeholder|..];
      SplitOnBlanksTextPieces(tail);
      HeadHasNoPlaceholder(text, i);
      var rest := SplitOnBlanks(tail);
      var parts := [text[..i], Placeholder] + rest;
      forall k | 2 <= k < |parts| && k % 2 == 0
        ensures !Contains(parts[k], Placeholder)
      {
        assert parts[k] == rest[k - 2] && (k - 2) % 2 == 0;
      }
      assert SplitOnBlanks(text) == parts;
  }

  /** Together the pieces are the prompt again. */
  lemma {:induction false} SplitOnBlanksConcat(text: string)
    ensures Concat(SplitOnBlanks(text)) == text
    decreases |text|
  {
    match IndexOf(text, Placeholder, 0)
    case None =>
    case Some(i) =>
      var tail := text[i + |Placeholder|..];
      SplitOnBlanksConcat(tail);
      var parts := [text[..i], Placeholder] + SplitOnBlanks(tail);
      assert parts[1..] == [Placeholder] + SplitOnBlanks(tail);
      assert Concat(parts) == text[..i] + (Placeholder + tail);
      assert text == text[..i] + (Placeholder + tail);
  }

  /** What the prompt shows: a piece of text, or the box for a blank. */
  datatype Piece = TextPiece(text: string) | InputBox(blank: nat)

  /** `parts.map(...)`: a placeholder at index `p` becomes the box of blank
      `floor(p / 2)`, any other piece its text. */
  function Render(parts: seq<string>): (r: seq<Piece>)
    ensures |r| == |parts|
  {
    if |parts| == 0 then []
    else
      var p := |parts| - 1;
      Render(parts[..p]) + [if parts[p] == Placeholder then InputBox(p / 2) else TextPiece(parts[p])]
  }

  function BoxOf(piece: Piece): Option<nat> {
    if piece.InputBox? then Some(piece.blank) else None
  }

  /** The numbers `0 .. n-1` in order. */
  function UpTo(n: nat): (r: seq<nat>)
    ensures |r| == n
  {
    if n == 0 then [] else UpTo(n - 1) + [n - 1]
  }

  /** The boxes of a split prompt, read left to right, belong to blanks
      `0, 1, 2, ...`: the k-th placeholder edits blank k, and there are as
      many boxes as placeholders. */
  lemma {:induction false} BoxesNumbered(parts: seq<string>)
    requires forall k :: 0 <= k < |parts| ==> (parts[k] == Placeholder <==> k % 2 == 1)
    ensures FilterMap(Render(parts), BoxOf) == UpTo(|parts| / 2)
  {
    if |parts| > 0 {
      var p := |parts| - 1;
      var init := parts[..p];
      assert forall k :: 0 <= k < |init| ==> init[k] == parts[k];
      BoxesNumbered(init);
      var pieces := Render(parts);
      assert pieces[..p] == Render(init);
    }
  }

  /** The boxes of the prompt of `text` are numbered `0 .. n-1`, `n` being
      the number of placeholders. */
  lemma PromptBoxes(text: string)
    ensures var parts := SplitOnBlanks(text);
      FilterMap(Render(parts), BoxOf) == UpTo(|parts| / 2)
  {
    SplitOnBlanksAlternate(text);
    BoxesNumbered(SplitOnBlanks(text));
  }

  // ---------------------------------------------------------------------
  // The component
  // ---------------------------------------------------------------------

  /** The view of one question and the answers typed into it so far. */
  class FillInBlankQuestion {
    const question: Question
    var currentAnswers: seq<Option<string>>

    /** The answers passed in (none by default) are the first state. */
    constructor(question: Question, answers: seq<string>)
      ensures this.question == question
      ensures |currentAnswers| == |answers|
      ensures forall k :: 0 <= k < |answers| ==> currentAnswers[k] == Some(answers[k])
    {
      this.question := question;
      currentAnswers := seq(|answers|, k requires 0 <= k < |answers| => Some(answers[k]));
    }

    /** `handleAnswerChange(index, value)`: the new answers become the
        state and are what `onAnswer` receives. */
    method HandleAnswerChange(index: nat, value: string) returns (sent: seq<Option<string>>)
      modifies this
      ensures currentAnswers == sent
      ensures Submitted(sent, index) == Some(value)
      ensures forall j: nat :: j != index ==> Submitted(sent, j) == Submitted(old(currentAnswers), j)
    {
      sent := ChangeAnswer(currentAnswers, index, value);
      currentAnswers := sent;
    }
  }
}
