/**
 * The manual-entry page apart from its parser: the map of uploaded images
 * (`handleImageUpload`, `removeImage`), the LaTeX snippet inserted at the
 * text cursor (`insertLatexTemplate`), and the page state its handlers
 * update (`handlePreview`, `handleSubmit`, `handleTextareaSelect`).
 */
module ManualEntry {
  import opened Wrappers
  import opened Text
  import opened Questions
  import opened BulkParser

  // ---------------------------------------------------------------------
  // Uploaded images
  // ---------------------------------------------------------------------

  /** A file as `FileReader` hands it over: its name and its data URL. */
  datatype ImageFile = ImageFile(name: string, data: string)

  /** `{ ...prev, [name]: data }`: `name` now maps to `data`, every other
      key keeps its entry. */
  function Upload(images: map<string, string>, name: string, data: string): (r: map<string, string>)
    ensures name in r && r[name] == data
    ensures forall k :: k != name ==> (k in r <==> k in images)
    ensures forall k :: k != name && k in images ==> r[k] == images[k]
  {
    images[name := data]
  }

  /** `delete newImages[fileName]` on a copy: `name` is gone, every other
      key keeps its entry. */
  function Remove(images: map<string, string>, name: string): (r: map<string, string>)
    ensures name !in r
    ensures forall k :: k != name ==> (k in r <==> k in images)
    ensures forall k :: k in r ==> r[k] == images[k]
  {
    images - {name}
  }

  /** The second of two uploads under one name is the one kept. */
  lemma UploadTwice(images: map<string, string>, name: string, a: string, b: string)
    ensures Upload(Upload(images, name, a), name, b) == Upload(images, name, b)
  {
  }

  /** Removing an image undoes its upload, whether or not the name was in
      use before. */
  lemma RemoveAfterUpload(images: map<string, string>, name: string, data: string)
    ensures Remove(Upload(images, name, data), name) == Remove(images, name)
  {
  }

  /** The uploads of one `handleImageUpload`, applied in the order their
      readers finish. */
  function UploadAll(images: map<string, string>, files: seq<ImageFile>): map<string, string>
  {
    if |files| == 0 then images
    else
      var last := files[|files| - 1];
      Upload(UploadAll(images, files[..|files| - 1]), last.name, last.data)
  }

  /** After the uploads, the keys are the old ones and the uploaded names. */
  lemma {:induction false} UploadAllKeys(images: map<string, string>, files: seq<ImageFile>, k: string)
    ensures k in UploadAll(images, files) <==> k in images || exists j :: 0 <= j < |files| && files[j].name == k
  {
    if |files| > 0 {
      var init := files[..|files| - 1];
      UploadAllKeys(images, init, k);
      if exists j :: 0 <= j < |init| && init[j].name == k {
        var j :| 0 <= j < |init| && init[j].name == k;
        assert files[j].name == k;
      }
      if exists j :: 0 <= j < |files| && files[j].name == k {
        var j :| 0 <= j < |files| && files[j].name == k;
        if j < |init| {
          assert init[j].name == k;
        }
      }
    }
  }

  /** The data of a name is that of the last file uploaded under it. */
  lemma {:induction false} LastUploadWins(images: map<string, string>, files: seq<ImageFile>, j: nat)
    requires j < |files|
    requires forall i :: j < i < |files| ==> files[i].name != files[j].name
    ensures files[j].name in UploadAll(images, files)
    ensures UploadAll(images, files)[files[j].name] == files[j].data
  {
    if j < |files| - 1 {
      var init := files[..|files| - 1];
      assert init[j] == files[j];
      LastUploadWins(images, init, j);
    }
  }

  /** A name no file carries keeps its entry, or its absence. */
  lemma {:induction false} UploadAllKeeps(images: map<string, string>, files: seq<ImageFile>, k: string)
    requires forall j :: 0 <= j < |files| ==> files[j].name != k
    ensures k in UploadAll(images, files) <==> k in images
    ensures k in images ==> UploadAll(images, files)[k] == images[k]
  {
    if |files| > 0 {
      var init := files[..|files| - 1];
      assert forall j :: 0 <= j < |init| ==> init[j] == files[j];
      UploadAllKeeps(images, init, k);
    }
  }

  // ---------------------------------------------------------------------
  // Inserting a LaTeX template
  // ---------------------------------------------------------------------

  /** The text `insertLatexTemplate` puts in: an opening of eight
      characters, the expression, and the closing bracket. */
  function Snippet(latex: string): (r: string)
    ensures |r| == |latex| + 9
    ensures r[..8] == "[latex: " && r[8..|r| - 1] == latex && r[|r| - 1] == ']'
  {
    "[latex: " + latex + "]"
  }

  /** Where `slice` cuts: an index past the end is the end. */
  function Clamp(cursor: nat, length: nat): (c: nat)
    ensures c <= length && (c == cursor || (c == length && length < cursor))
  {
    if cursor <= length then cursor else length
  }

  /** The new text and the new selection of an insertion. */
  datatype Insertion = Insertion(text: string, cursor: nat)

  /** `insertLatexTemplate(latex)` with the remembered cursor `cursor`:
      the text before the cursor, the snippet, then the rest of the text.
      The new selection lies `|latex| + 8` past the old cursor. */
  function InsertTemplate(text: string, cursor: nat, latex: string): (r: Insertion)
    ensures |r.text| == |text| + |latex| + 9
    ensures var c := Clamp(cursor, |text|);
      && r.text[..c] == text[..c]
      && r.text[c..c + |latex| + 9] == Snippet(latex)
      && r.text[c + |latex| + 9..] == text[c..]
    ensures r.cursor == cursor + |latex| + 8
  {
    var c := Clamp(cursor, |text|);
    var t := text[..c] + Snippet(latex) + text[c..];
    assert t[..c] == text[..c];
    assert t[c..c + |latex| + 9] == Snippet(latex);
    assert t[c + |latex| + 9..] == text[c..];
    Insertion(t, cursor + |latex| + 8)
  }

  /** Cutting the snippet out again gives back the text. */
  lemma InsertThenCut(text: string, cursor: nat, latex: string)
    ensures var r := InsertTemplate(text, cursor, latex).text;
      var c := Clamp(cursor, |text|);
      r[..c] + r[c + |latex| + 9..] == text
  {
    var c := Clamp(cursor, |text|);
    assert text == text[..c] + text[c..];
  }

  /** With the cursor inside the text, the new selection sits on the
      snippet's closing bracket, right after the expression. */
  lemma CursorBeforeClosingBracket(text: string, cursor: nat, latex: string)
    requires cursor <= |text|
    ensures var r := InsertTemplate(text, cursor, latex);
      && r.cursor < |r.text| && r.text[r.cursor] == ']'
      && r.text[cursor + 8..r.cursor] == latex
  {
    var r := InsertTemplate(text, cursor, latex);
    var s := Snippet(latex);
    assert r.text[cursor..cursor + |latex| + 9] == s;
    assert r.text[r.cursor] == s[|s| - 1];
    assert r.text[cursor + 8..r.cursor] == s[8..|s| - 1];
  }

  /** Wherever a snippet stands in a text, the parser's LaTeX tag pattern
      matches there, the whole snippet being the tag and the expression its
      body, provided the expression starts with a non-space and holds no
      `]`. */
  lemma SnippetIsTag(s: string, c: nat, latex: string)
    requires |latex| > 0 && !IsSpace(latex[0]) && ']' !in latex
    requires c + |latex| + 9 <= |s| && s[c..c + |latex| + 9] == Snippet(latex)
    ensures TagAt(s, c, LatexOpen) == Some(TagMatch(c, Snippet(latex), latex))
  {
    var snip := Snippet(latex);
    var close := c + |latex| + 8;
    assert forall k :: c <= k <= close ==> s[k] == snip[k - c] by {
      forall k | c <= k <= close
        ensures s[k] == snip[k - c]
      {
        assert s[c..close + 1][k - c] == s[k];
      }
    }
    assert OccursAt(s, LatexOpen, c) by {
      assert s[c..c + |LatexOpen|] == snip[..7];
    }
    assert FindChar(s, ']', c + 7) == Some(close) by {
      forall k | c + 7 <= k < close
        ensures s[k] != ']'
      {
        if k > c + 7 {
          assert s[k] == latex[k - c - 8];
        }
      }
      FindCharIs(s, ']', c + 7, close);
    }
    assert RunEnd(s, c + 7, IsSpace) == c + 8 by {
      assert RunEnd(s, c + 8, IsSpace) == c + 8;
    }
    assert s[c + 8..close] == latex by {
      assert s[c + 8..close] == snip[8..|snip| - 1];
    }
  }

  /** An expression that starts with a non-space and holds no `]` is
      read back by the parser's LaTeX tag pattern at the insertion point,
      the whole snippet being the tag. */
  lemma InsertedTagReadsBack(text: string, cursor: nat, latex: string)
    requires |latex| > 0 && !IsSpace(latex[0]) && ']' !in latex
    ensures var c := Clamp(cursor, |text|);
      TagAt(InsertTemplate(text, cursor, latex).text, c, LatexOpen)
        == Some(TagMatch(c, Snippet(latex), latex))
  {
    SnippetIsTag(InsertTemplate(text, cursor, latex).text, Clamp(cursor, |text|), latex);
  }

  // ---------------------------------------------------------------------
  // The page
  // ---------------------------------------------------------------------

  const NoQuestionsMessage: string := "No valid questions found. Please check the format."

  /** Questions fit for the preview: complete, with distinct identifiers
      all below `nextId`. */
  predicate PreviewFits(preview: seq<Question>, nextId: Id) {
    && (forall k :: 0 <= k < |preview| ==> WellFormed(preview[k]))
    && Increasing(IdsOf(preview)) && Within(IdsOf(preview), 0, nextId)
  }

  /** What the parser returns fits the preview, with the identifier source
      moved past it. */
  lemma ParsedFits(questions: seq<Question>, firstId: Id, nextId: Id)
    requires forall k :: 0 <= k < |questions| ==> WellFormed(questions[k])
    requires IdsFresh(questions, firstId, nextId)
    ensures PreviewFits(questions, nextId)
  {
  }

  /** Fitting the preview survives the identifier source moving on. */
  lemma FitsLater(preview: seq<Question>, nextId: Id, later: Id)
    requires PreviewFits(preview, nextId) && nextId <= later
    ensures PreviewFits(preview, later)
  {
  }

  /** The state of the manual-entry page. `nextId` is the fresh-identifier
      source standing for `uuidv4`: every identifier below it has been
      handed out. */
  class ManualEntryPage {
    var bulkText: string
    var error: Option<string>
    var images: map<string, string>
    var preview: seq<Question>
    var previewExpanded: bool
    var cursorPosition: Option<nat>
    var nextId: Id

    /** The questions shown in the preview are complete, and the identifier
        source has moved past all of theirs. */
    predicate Valid()
      reads this
    {
      PreviewFits(preview, nextId)
    }

    constructor()
      ensures Valid()
      ensures bulkText == [] && error == None && images == map[] && preview == []
      ensures !previewExpanded && cursorPosition == None && nextId == 0
    {
      bulkText := [];
      error := None;
      images := map[];
      preview := [];
      previewExpanded := false;
      cursorPosition := None;
      nextId := 0;
    }

    /** Typing into the text area. */
    method SetBulkText(text: string)
      modifies this
      ensures bulkText == text
      ensures error == old(error) && images == old(images) && preview == old(preview)
      ensures previewExpanded == old(previewExpanded) && cursorPosition == old(cursorPosition)
      ensures nextId == old(nextId)
    {
      bulkText := text;
    }

    /** `handleImageUpload`: nothing without a file list, otherwise every
        file's upload in the order the readers finish. */
    method HandleImageUpload(files: Option<seq<ImageFile>>)
      modifies this
      ensures images == if files.None? then old(images) else UploadAll(old(images), files.value)
      ensures bulkText == old(bulkText) && error == old(error) && preview == old(preview)
      ensures previewExpanded == old(previewExpanded) && cursorPosition == old(cursorPosition)
      ensures nextId == old(nextId)
    {
      if files.Some? {
        var uploaded := images;
        var i := 0;
        while i < |files.value|
          invariant 0 <= i <= |files.value|
          invariant uploaded == UploadAll(images, files.value[..i])
        {
          assert files.value[..i + 1][..i] == files.value[..i];
          uploaded := Upload(uploaded, files.value[i].name, files.value[i].data);
          i := i + 1;
        }
        assert files.value[..i] == files.value;
        images := uploaded;
      }
    }

    /** `removeImage(fileName)`. */
    method RemoveImage(fileName: string)
      modifies this
      ensures images == Remove(old(images), fileName)
      ensures bulkText == old(bulkText) && error == old(error) && preview == old(preview)
      ensures previewExpanded == old(previewExpanded) && cursorPosition == old(cursorPosition)
      ensures nextId == old(nextId)
    {
      images := Remove(images, fileName);
    }

    /** `handleTextareaSelect`: remembers the selection start when the text
        area is there. */
    method HandleTextareaSelect(selectionStart: Option<nat>)
      modifies this
      ensures cursorPosition == if selectionStart.Some? then selectionStart else old(cursorPosition)
      ensures bulkText == old(bulkText) && error == old(error) && images == old(images)
      ensures preview == old(preview) && previewExpanded == old(previewExpanded)
      ensures nextId == old(nextId)
    {
      if selectionStart.Some? {
        cursorPosition := selectionStart;
      }
    }

    /** `handlePreview`: the preview becomes the parse of the text, the
        error is cleared and the preview section is toggled. */
    method HandlePreview()
      requires Valid()
      modifies this
      ensures Valid()
      ensures ParsedFrom(preview, bulkText, images)
      ensures old(nextId) <= nextId && Within(IdsOf(preview), old(nextId), nextId)
      ensures error == None && previewExpanded == !old(previewExpanded)
      ensures bulkText == old(bulkText) && images == old(images) && cursorPosition == old(cursorPosition)
    {
      var parsed, next := ParseQuestions(bulkText, images, nextId);
      ParsedFits(parsed, nextId, next);
      preview, nextId := parsed, next;
      error := None;
      previewExpanded := !previewExpanded;
    }

    /** `handleSubmit`: the preview if it holds anything, else a fresh parse
        of the text. With no question the error is set and nothing is
        added; otherwise `added` goes to the store in order and the page
        navigates away, leaving the error as it was. */
    method HandleSubmit() returns (added: seq<Question>, navigated: bool)
      requires Valid()
      modifies this
      ensures Valid()
      ensures |old(preview)| > 0 ==> added == old(preview)
      ensures |old(preview)| == 0 ==> ParsedFrom(added, bulkText, images)
      ensures forall k :: 0 <= k < |added| ==> WellFormed(added[k])
      ensures navigated <==> |added| > 0
      ensures error == if |added| == 0 then Some(NoQuestionsMessage) else old(error)
      ensures old(nextId) <= nextId
      ensures bulkText == old(bulkText) && images == old(images) && preview == old(preview)
      ensures previewExpanded == old(previewExpanded) && cursorPosition == old(cursorPosition)
    {
      var questions;
      if |preview| > 0 {
        questions := preview;
      } else {
        var before := nextId;
        questions, nextId := ParseQuestions(bulkText, images, nextId);
        FitsLater(preview, before, nextId);
      }
      if |questions| == 0 {
        error := Some(NoQuestionsMessage);
        return [], false;
      }
      added, navigated := questions, true;
    }

    /** `insertLatexTemplate(latex)` with `hasTextarea` telling whether the
        text area is mounted. It does nothing without a text area or a
        remembered cursor; otherwise the snippet goes in at the cursor and
        `selection` is where the text area's selection is put afterwards.
        The remembered cursor itself is not moved. */
    method InsertLatexTemplate(latex: string, hasTextarea: bool) returns (selection: Option<nat>)
      modifies this
      ensures !hasTextarea || old(cursorPosition).None? ==> bulkText == old(bulkText) && selection == None
      ensures hasTextarea && old(cursorPosition).Some? ==>
        var r := InsertTemplate(old(bulkText), old(cursorPosition).value, latex);
        bulkText == r.text && selection == Some(r.cursor)
      ensures error == old(error) && images == old(images) && preview == old(preview)
      ensures previewExpanded == old(previewExpanded) && cursorPosition == old(cursorPosition)
      ensures nextId == old(nextId)
    {
      if !hasTextarea || cursorPosition.None? {
        return None;
      }
      var r := InsertTemplate(bulkText, cursorPosition.value, latex);
      bulkText := r.text;
      selection := Some(r.cursor);
    }
  }
}
