/** The text handling of `pdf_utils.py`: the page loop of `extract_text_from_pdf`
    and the line-classification loop of `create_pdf_from_text`. PyPDF2's reader
    is replaced by a `PdfDocument` value that says which calls raise; the
    reportlab `Paragraph`/`Spacer` objects are replaced by `Block` values that
    record the style chosen for each line and its text. */
module PdfUtils {
  import opened Wrappers
  import opened PyText

  // ---------------------------------------------------------------------------
  // Rendering: create_pdf_from_text
  // ---------------------------------------------------------------------------

  /** The bullet character U+2022. */
  const BulletMark: char := '\U{2022}'

  /** The `bulletText` given to every bullet paragraph. */
  const BulletText: string := [BulletMark]

  /** One element of the reportlab story: a `Spacer(1, 4)` or a `Paragraph` in
      the name, header, bullet or body style. */
  datatype Block =
    | Spacer
    | Title(text: string)
    | Header(text: string)
    | Bullet(text: string, bulletText: string)
    | Body(text: string)

  /** The block produced for the line at position `idx`: the rules are tried
      in order on the stripped line. */
  function Classify(idx: nat, raw: string): (b: Block)
    ensures b.Spacer? <==> AllSpace(raw)
    ensures b.Title? ==> idx == 0
    ensures !b.Spacer? ==> b.text == Strip(raw) && b.text != []
  {
    var line := Strip(raw);
    if line == [] then Spacer
    else if idx == 0 then Title(line)
    else if IsUpper(line) && |line| > 3 then Header(line)
    else if StartsWith(line, BulletMark) || StartsWith(line, '-') then Bullet(line, BulletText)
    else Body(line)
  }

  /** The story for a list of lines: one block per line, in order, each line
      classified with its own position. */
  function Classified(lines: seq<string>): (story: seq<Block>)
    ensures |story| == |lines|
    ensures forall i :: 0 <= i < |lines| ==> story[i] == Classify(i, lines[i])
  {
    if lines == [] then []
    else
      var n := |lines| - 1;
      var init := Classified(lines[..n]);
      ClassifiedStep(lines, init);
      init + [Classify(n, lines[n])]
  }

  /** The blocks of all but the last line, followed by the last line's block,
      classify every line. */
  lemma ClassifiedStep(lines: seq<string>, init: seq<Block>)
    requires |lines| > 0 && |init| == |lines| - 1
    requires forall i :: 0 <= i < |init| ==> init[i] == Classify(i, lines[..|init|][i])
    ensures forall i :: 0 <= i < |lines| ==>
      (init + [Classify(|init|, lines[|init|])])[i] == Classify(i, lines[i])
  {
    var n := |init|;
    forall i | 0 <= i < |lines|
      ensures (init + [Classify(n, lines[n])])[i] == Classify(i, lines[i])
    {
      if i < n {
        assert lines[..n][i] == lines[i];
      }
    }
  }

  /** The story `create_pdf_from_text` hands to `doc.build` for `text`:
      never empty, one block more than the text has line feeds. */
  function Story(text: string): (story: seq<Block>)
    ensures |story| == multiset(text)['\n'] + 1
  {
    SplitCount(text);
    Classified(Split(text))
  }

  /** The loop of `create_pdf_from_text`: split the text on line feeds, strip
      each line and append the block its rules select. */
  method CreateStory(text: string) returns (story: seq<Block>)
    ensures story == Story(text)
  {
    story := [];
    var lines := Split(text);
    var idx := 0;
    while idx < |lines|
      invariant 0 <= idx <= |lines|
      invariant story == Classified(lines[..idx])
    {
      var line := Strip(lines[idx]);
      var block;
      if line == [] {
        block := Spacer;
      } else if idx == 0 {
        block := Title(line);
      } else if IsUpper(line) && |line| > 3 {
        block := Header(line);
      } else if StartsWith(line, BulletMark) || StartsWith(line, '-') {
        block := Bullet(line, BulletText);
      } else {
        block := Body(line);
      }
      assert block == Classify(idx, lines[idx]);
      StoryStep(lines, idx, story, block);
      story := story + [block];
      idx := idx + 1;
    }
    assert lines[..idx] == lines;
  }

  /** Appending the block of line `idx` to the story of the lines before it
      gives the story of the lines up to and including it. */
  lemma StoryStep(lines: seq<string>, idx: nat, story: seq<Block>, block: Block)
    requires idx < |lines|
    requires story == Classified(lines[..idx]) && block == Classify(idx, lines[idx])
    ensures story + [block] == Classified(lines[..idx + 1])
  {
    ClassifiedAppend(lines, idx);
  }

  /** The story of one more line is the story so far and that line's block. */
  lemma ClassifiedAppend(lines: seq<string>, idx: nat)
    requires idx < |lines|
    ensures Classified(lines[..idx + 1]) == Classified(lines[..idx]) + [Classify(idx, lines[idx])]
  {
    assert lines[..idx + 1][..idx] == lines[..idx];
  }

  // ---------------------------------------------------------------------------
  // Classification rules, one line at a time
  // ---------------------------------------------------------------------------

  /** A line becomes a spacer exactly when it is all whitespace, at any
      position, the first included. */
  lemma SpacerIffBlank(idx: nat, raw: string)
    ensures Classify(idx, raw) == Spacer <==> AllSpace(raw)
  {
  }

  /** Only position 0 can be a title, and a non-blank first line always is,
      whatever its case or first character. */
  lemma TitleIffFirstNonBlank(idx: nat, raw: string)
    ensures Classify(idx, raw).Title? <==> idx == 0 && !AllSpace(raw)
  {
  }

  /** After the first line, a non-blank line is a header exactly when the
      line is upper-case and its stripped form has more than three
      characters; surrounding whitespace does not affect the case test. */
  lemma {:induction false} HeaderRule(idx: nat, raw: string)
    requires idx > 0 && !AllSpace(raw)
    ensures Classify(idx, raw).Header? <==> IsUpper(raw) && |Strip(raw)| > 3
  {
    StripKeepsIsUpper(raw);
  }

  /** The header rule is tried before the bullet rule: an upper-case line of
      more than three characters that starts with a marker is a header. */
  lemma HeaderBeforeBullet(idx: nat, raw: string)
    requires idx > 0
    requires IsUpper(Strip(raw)) && |Strip(raw)| > 3
    requires StartsWith(Strip(raw), '-') || StartsWith(Strip(raw), BulletMark)
    ensures Classify(idx, raw) == Header(Strip(raw))
  {
  }

  /** "- JAVA" after the first line is a header, not a bullet; on the first
      line it is the title. */
  lemma HyphenCapitalsExample()
    ensures Classify(1, "- JAVA") == Header("- JAVA")
    ensures Classify(0, "- JAVA") == Title("- JAVA")
  {
    assert !IsSpace('-') && !IsSpace('A');
    StripUnique("- JAVA", 0, 6);
    assert IsUpperChar("- JAVA"[2]);
  }

  /** The short capital line "  CV " is body text "CV". */
  lemma ShortCapitalsExample()
    ensures Classify(1, "  CV ") == Body("CV")
  {
    StripUnique("  CV ", 2, 4);
  }

  /** After the first line, a non-blank line that is not a header is a bullet
      exactly when it starts with a bullet mark or a hyphen, and every bullet
      carries the bullet text U+2022. */
  lemma BulletRule(idx: nat, raw: string)
    requires idx > 0 && !AllSpace(raw)
    requires !(IsUpper(Strip(raw)) && |Strip(raw)| > 3)
    ensures Classify(idx, raw).Bullet? <==> StartsWith(Strip(raw), BulletMark) || StartsWith(Strip(raw), '-')
    ensures Classify(idx, raw).Bullet? ==> Classify(idx, raw).bulletText == [BulletMark]
  {
  }

  /** Body is what is left: a non-blank line after the first that is neither
      a header nor starts with a marker. */
  lemma BodyRule(idx: nat, raw: string)
    ensures Classify(idx, raw).Body? <==>
      idx > 0 && !AllSpace(raw) &&
      !(IsUpper(Strip(raw)) && |Strip(raw)| > 3) &&
      !(StartsWith(Strip(raw), BulletMark) || StartsWith(Strip(raw), '-'))
  {
  }

  /** Every paragraph carries the stripped line: non-empty, with no
      whitespace at either end, never the raw line with its padding. */
  lemma {:induction false} BlockTextIsStripped(idx: nat, raw: string)
    requires !Classify(idx, raw).Spacer?
    ensures Classify(idx, raw).text == Strip(raw)
    ensures var t := Classify(idx, raw).text; t != [] && !IsSpace(t[0]) && !IsSpace(t[|t| - 1])
    ensures Strip(Classify(idx, raw).text) == Classify(idx, raw).text
  {
  }

  // ---------------------------------------------------------------------------
  // Whole-story properties
  // ---------------------------------------------------------------------------

  /** One block per element of `text.split('\n')`, in order: as many blocks
      as line feeds plus one. */
  lemma {:induction false} StoryBlockPerLine(text: string)
    ensures |Story(text)| == multiset(text)['\n'] + 1
    ensures forall i :: 0 <= i < |Story(text)| ==> Story(text)[i] == Classify(i, Split(text)[i])
  {
    SplitCount(text);
  }

  /** The empty text gives a single spacer. */
  lemma StoryOfEmptyText()
    ensures Story("") == [Spacer]
  {
  }

  /** Rendering lines joined with line feeds classifies exactly those lines. */
  lemma StoryOfLines(lines: seq<string>)
    requires |lines| > 0
    requires forall i :: 0 <= i < |lines| ==> '\n' !in lines[i]
    ensures Story(Join(lines)) == Classified(lines)
  {
    SplitJoin(lines);
  }

  /** The story's last block is a paragraph whose text ends with `e`. */
  predicate EndsInParagraph(story: seq<Block>, e: string) {
    |story| > 0 &&
    var b := story[|story| - 1];
    !b.Spacer? && EndsWith(b.text, e)
  }

  /** A text ending in a line-feed-free tail with non-whitespace ends
      renders to a story whose last block is a paragraph ending in that tail. */
  lemma StoryEndsWith(text: string, e: string)
    requires EndsWith(text, e) && '\n' !in e
    requires e != [] && !IsSpace(e[0]) && !IsSpace(e[|e| - 1])
    ensures EndsInParagraph(Story(text), e)
  {
    LastPieceKeepsTail(text, e);
    ClassifiedEndsWith(Split(text), e);
  }

  /** When the last line ends in a tail with non-whitespace ends, so does the
      paragraph it becomes. */
  lemma ClassifiedEndsWith(lines: seq<string>, e: string)
    requires |lines| > 0
    requires EndsWith(lines[|lines| - 1], e)
    requires e != [] && !IsSpace(e[0]) && !IsSpace(e[|e| - 1])
    ensures EndsInParagraph(Classified(lines), e)
  {
    var n := |lines| - 1;
    StripKeepsTail(lines[n], e);
    assert Classified(lines)[n] == Classify(n, lines[n]);
  }

  /** A story has at most one title, at position 0, and it has one exactly
      when the first line is not blank. */
  lemma TitleOnlyAtTop(text: string)
    ensures forall i :: 0 <= i < |Story(text)| && Story(text)[i].Title? ==> i == 0
    ensures Story(text)[0].Title? <==> !AllSpace(Split(text)[0])
  {
  }

  // ---------------------------------------------------------------------------
  // Extraction: extract_text_from_pdf
  // ---------------------------------------------------------------------------

  /** What PyPDF2 does with an uploaded file: whether `PdfReader(file)`
      succeeds, and for each page what `page.extract_text()` returns, `None`
      standing for a page whose extraction raises. */
  datatype PdfDocument = PdfDocument(opens: bool, pages: seq<Option<string>>)

  predicate AllPagesRead(pages: seq<Option<string>>) {
    forall i :: 0 <= i < |pages| ==> pages[i].Some?
  }

  /** The page texts of a document whose pages all read. */
  function Texts(pages: seq<Option<string>>): (texts: seq<string>)
    requires AllPagesRead(pages)
    ensures |texts| == |pages|
    ensures forall i :: 0 <= i < |pages| ==> texts[i] == pages[i].value
  {
    if pages == [] then []
    else
      var n := |pages| - 1;
      assert forall i :: 0 <= i < n ==> pages[..n][i] == pages[i];
      Texts(pages[..n]) + [pages[n].value]
  }

  /** Each page text followed by a line feed, all concatenated. */
  function Joined(texts: seq<string>): (r: string)
    ensures |r| >= |texts|
    ensures texts != [] ==> r[|r| - 1] == '\n'
  {
    if texts == [] then []
    else
      var n := |texts| - 1;
      Joined(texts[..n]) + texts[n] + "\n"
  }

  /** The result of `extract_text_from_pdf`: the joined page texts, or the
      empty string when any step raises. */
  function Extracted(doc: PdfDocument): (r: string)
    ensures !(doc.opens && AllPagesRead(doc.pages)) ==> r == ""
    ensures doc.opens && AllPagesRead(doc.pages) && doc.pages != [] ==> r != [] && r[|r| - 1] == '\n'
  {
    if doc.opens && AllPagesRead(doc.pages) then Joined(Texts(doc.pages)) else ""
  }

  /** The loop of `extract_text_from_pdf`: append each page's text and a line
      feed; an exception at any page abandons the partial text. */
  method ExtractText(doc: PdfDocument) returns (text: string)
    ensures text == Extracted(doc)
  {
    if !doc.opens {
      return "";
    }
    text := "";
    var i := 0;
    while i < |doc.pages|
      invariant 0 <= i <= |doc.pages|
      invariant AllPagesRead(doc.pages[..i])
      invariant text == Joined(Texts(doc.pages[..i]))
    {
      if doc.pages[i].None? {
        assert !AllPagesRead(doc.pages);
        return "";
      }
      ExtractStep(doc.pages, i);
      text := text + doc.pages[i].value + "\n";
      i := i + 1;
    }
    assert doc.pages[..i] == doc.pages;
  }

  /** One page more: its text and a line feed are appended. */
  lemma ExtractStep(pages: seq<Option<string>>, i: nat)
    requires i < |pages| && pages[i].Some? && AllPagesRead(pages[..i])
    ensures AllPagesRead(pages[..i + 1])
    ensures Joined(Texts(pages[..i + 1])) == Joined(Texts(pages[..i])) + pages[i].value + "\n"
  {
    var done := pages[..i + 1];
    assert done[..i] == pages[..i];
    assert AllPagesRead(done);
    assert Texts(done) == Texts(pages[..i]) + [pages[i].value];
    assert Texts(done)[..i] == Texts(pages[..i]);
  }

  /** Joining with trailing line feeds is `'\n'.join` of the texts with one
      empty piece added at the end. */
  lemma {:induction false} JoinedIsJoin(texts: seq<string>)
    ensures Joined(texts) == Join(texts + [""])
  {
    if texts != [] {
      var n := |texts| - 1;
      var init, last := texts[..n], texts[n];
      assert texts == init + [last];
      if init == [] {
        assert texts + [""] == [last, ""];
        assert Join([last, ""]) == last + "\n" + Join([""]);
      } else {
        JoinedIsJoin(init);
        JoinAppend(init, "");
        JoinAppend(init, last);
        JoinAppend(texts, "");
        Assoc(Join(init), "\n", last);
        calc {
          Joined(texts);
          Joined(init) + last + "\n";
          Join(init + [""]) + last + "\n";
          { assert Join(init + [""]) == Join(init) + "\n"; }
          Join(init) + "\n" + last + "\n";
          Join(init + [last]) + "\n";
          Join(texts + [""]);
        }
      }
    }
  }

  /** Splitting the extracted text gives the lines of every page, page after
      page, followed by the empty piece after the last line feed. */
  lemma JoinedSplit(texts: seq<string>)
    ensures Split(Joined(texts)) == SplitEach(texts) + [""]
  {
    JoinedIsJoin(texts);
    SplitJoinEach(texts + [""]);
    SplitEachAppend(texts, "");
    assert Split("") == [""];
  }

  /** The extracted text is all whitespace exactly when every page text is. */
  lemma {:induction false} JoinedAllSpace(texts: seq<string>)
    ensures AllSpace(Joined(texts)) <==> forall i :: 0 <= i < |texts| ==> AllSpace(texts[i])
  {
    if texts != [] {
      var n := |texts| - 1;
      JoinedAllSpace(texts[..n]);
      AllSpaceConcat(Joined(texts[..n]), texts[n]);
      AllSpaceConcat(Joined(texts[..n]) + texts[n], "\n");
      assert IsSpace('\n');
      assert forall i :: 0 <= i < n ==> texts[..n][i] == texts[i];
    }
  }

  /** A document that opens and whose pages all read gives a non-empty text
      as soon as it has a page, even a page with no text. */
  lemma ExtractedNonEmpty(doc: PdfDocument)
    requires doc.opens && AllPagesRead(doc.pages) && |doc.pages| > 0
    ensures Extracted(doc) != [] && Extracted(doc)[|Extracted(doc)| - 1] == '\n'
  {
  }

  /** Any exception, opening the file or reading a page, yields exactly "". */
  lemma ExtractFailureIsEmpty(doc: PdfDocument)
    requires !doc.opens || exists i :: 0 <= i < |doc.pages| && doc.pages[i].None?
    ensures Extracted(doc) == ""
  {
  }
}
