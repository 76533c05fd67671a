# Resume shortener: verified model of its text handling

The resume shortener takes an uploaded multi-page resume PDF and extracts its
text. It asks a hosted chat-completion model to shorten the text to one page,
renders the answer as a styled PDF and sends that back as a download. Almost
everything it does is delegated to Flask, PyPDF2, the OpenAI client and
reportlab. This project models the logic that is its own:

- **PdfUtils** (`pdf_utils.dfy`, for `pdf_utils.py`):
  - `ExtractText` is the page loop of `extract_text_from_pdf`. It appends each
    page's text and a line feed, and it gives `""` when anything raises.
  - `CreateStory` is the loop of `create_pdf_from_text`. It splits the text
    on line feeds and strips each line. Then it classifies each line, in
    order, as a spacer, title, header, bullet or body block.
  - Both are methods with loop invariants. They are proved equal to the
    specification functions `Extracted` and `Story`, which are built from
    `Joined` and from the per-line `Classify`.
- **App** (`app.dfy`, for `app.py`):
  - `Compress` is the return/fallback branch of `compress_resume_with_ai`.
  - `Convert` is the guard chain of `convert_resume`. It reports the HTTP
    answer and the foreign steps the request reached (extraction, the remote
    call, rendering), so that "extraction is not attempted" and "the model is
    never called" can be stated.
- **PyText** (`py_text.dfy`): the Python string built-ins those two files use:
  `split('\n')`, `strip()`, `isupper()`, `startswith` and `s[:n]`. It keeps
  Python's edge cases: `"".split('\n') == ['']`, and a trailing line feed
  gives a trailing empty piece. `isupper()` is computed by a left-to-right
  scan, `UpperScan`, the way CPython computes it.
  - `Join` is `'\n'.join`. The source never calls it. It is the reference
    used to state that `split('\n')` loses nothing (`JoinSplit`) and to
    describe the extracted text (`JoinedIsJoin`).
- **Wrappers** (`wrappers.dfy`): `Option`, used for a foreign call that may
  raise.

Foreign calls become inputs:
- A PDF file is a `PdfDocument`: whether `PdfReader` opens it, and for each
  page either the text `extract_text()` returns or `None` when that raises.
- The chat-completion call is its reply, with `None` when it raises.
- The generated PDF is its story: the sequence of `Block`s given to `doc.build`.
- Whether reportlab accepts that story is a boolean input of `Convert`.
  `Paragraph` parses each line as markup and `doc.build` lays the story out;
  either may raise. Nothing in `convert_resume` catches that, so the answer is
  a server error (500).

Behaviour of the code worth noting:
- A blank first line does not become the title. It is a spacer, and then the
  document has no title at all.
- "Entirely upper-case" is Python's `isupper()`. This needs at least one
  cased letter and no lower-case letter, so digits and punctuation are
  allowed: `"C++ / SQL"` is a header.
- Every line produces a block; blank lines produce spacers.

## Model

| member | source | states |
|---|---|---|
| PyText.AsciiSpaces | pdf_utils.py:75 | `IsSpace`, the whitespace set behind `strip()`, is on the ASCII range exactly space, tab, line feed, carriage return, vertical tab, form feed and the separators 0x1C-0x1F; next line, no-break space and the ideographic space are whitespace too; whitespace is never upper- or lower-case |
| PyText.Strip | pdf_utils.py:75 | `strip()` leaves nothing exactly when the line is all whitespace; otherwise the result starts and ends with a non-whitespace character |
| PyText.StripUnique | pdf_utils.py:75 | any slice whose surroundings are all whitespace and whose ends are not whitespace is the stripped line, so `strip()` removes exactly the outer whitespace |
| PyText.StripIdempotent | pdf_utils.py:75 | stripping a stripped line changes nothing |
| PyText.StripKeepsTail | pdf_utils.py:75 | a tail of the line whose first and last characters are not whitespace is still a tail after `strip()` |
| PyText.UpperScan | pdf_utils.py:83 | the left-to-right `isupper()` scan answers true exactly when an upper-case character is seen and no lower-case one |
| PyText.IsUpper | pdf_utils.py:83 | `isupper()` holds exactly when the string has an upper-case letter and no lower-case letter |
| PyText.IsUpperSlice | pdf_utils.py:83 | cutting uncased characters off both ends of a string does not change `isupper()` |
| PyText.StripKeepsIsUpper | pdf_utils.py:83 | `isupper()` of the stripped line equals `isupper()` of the raw line |
| PyText.StartsWithPrefix | pdf_utils.py:86 | `StartsWith`, the model of `line.startswith(c)`, holds exactly when the one-character string `c` is a prefix of the line, so the empty line starts with nothing |
| PyText.Prefix | app.py:82 | `content[:1000]` is a prefix of `content` of length `min(len, 1000)` |
| PyText.Split | pdf_utils.py:73 | `split('\n')` yields at least one piece |
| PyText.SplitPiecesHaveNoNewline | pdf_utils.py:73 | no piece of `split('\n')` contains a line feed |
| PyText.SplitCount | pdf_utils.py:73 | `split('\n')` yields one more piece than the text has line feeds |
| PyText.SplitCons | pdf_utils.py:73 | a leading line feed starts a new piece; any other leading character joins the first piece |
| PyText.JoinSplit | pdf_utils.py:73 | joining the pieces of `split('\n')` with line feeds gives back the text |
| PyText.SplitJoin | pdf_utils.py:73 | splitting a join of line-feed-free pieces gives back those pieces |
| PyText.SplitPrefix | pdf_utils.py:73 | a line-feed-free text put in front extends only the first piece |
| PyText.SplitNewline | pdf_utils.py:73 | splitting `a + '\n' + b` gives the pieces of `a` followed by the pieces of `b` |
| PyText.SplitJoinEach | pdf_utils.py:73 | splitting a join gives the pieces of each joined part in order, even when the parts contain line feeds |
| PyText.SplitEachAppend | pdf_utils.py:73 | the pieces of a list with one more part are the pieces so far followed by that part's pieces |
| PyText.LastPieceIsSuffix | pdf_utils.py:73 | the last piece of `split('\n')` is a suffix of the text, preceded by a line feed unless it is the whole text |
| PyText.LastPieceKeepsTail | pdf_utils.py:73 | a line-feed-free tail of the text is a tail of its last piece |
| PyText.JoinConcat | pdf_utils.py:73 | joining two non-empty lists puts one line feed between their joins |
| PyText.JoinAppend | pdf_utils.py:73 | appending a piece to a join adds one line feed and the piece |
| PdfUtils.Classify | pdf_utils.py:75-89 | a line becomes a spacer exactly when it is all whitespace; only position 0 can be a title; every paragraph carries the non-empty stripped line (the rules in full are the lemmas below) |
| PdfUtils.Classified | pdf_utils.py:72-89 | one block per line, in the same order, and block `i` is the classification of line `i` at position `i` |
| PdfUtils.Story | pdf_utils.py:72-89 | the story has one block more than the text has line feeds |
| PdfUtils.CreateStory | pdf_utils.py:72-89 | the story built by the loop with its `continue` is the specified story of the text |
| PdfUtils.ClassifiedAppend | pdf_utils.py:74-89 | one more line appends exactly that line's block to the story |
| PdfUtils.SpacerIffBlank | pdf_utils.py:75-78 | a line becomes a spacer exactly when it is all whitespace, at any position, the first included |
| PdfUtils.TitleIffFirstNonBlank | pdf_utils.py:80-81 | a block is a title exactly when it is at position 0 and its line is not blank, whatever its case or first character |
| PdfUtils.HeaderRule | pdf_utils.py:83-84 | after the first line, a non-blank line is a header exactly when it is upper-case and its stripped form has more than three characters |
| PdfUtils.HeaderBeforeBullet | pdf_utils.py:83-87 | an upper-case line of more than three characters starting with a hyphen or bullet mark is a header, not a bullet |
| PdfUtils.HyphenCapitalsExample | pdf_utils.py:80-87 | "- JAVA" after the first line is a header, not a bullet; on the first line it is the title |
| PdfUtils.ShortCapitalsExample | pdf_utils.py:75-89 | the short capital line "  CV " is body text "CV" |
| PdfUtils.BulletRule | pdf_utils.py:86-87 | after the first line, a non-blank non-header line is a bullet exactly when it starts with a bullet mark or a hyphen; its bullet text is the bullet mark |
| PdfUtils.BodyRule | pdf_utils.py:88-89 | a block is body text exactly when it is a non-blank line after the first that is neither a header nor starts with a marker |
| PdfUtils.BlockTextIsStripped | pdf_utils.py:75-89 | every paragraph carries the stripped line: non-empty, with no whitespace at either end, unchanged by stripping again |
| PdfUtils.StoryBlockPerLine | pdf_utils.py:73-74 | the story has one block per line-feed-separated line, line-feed count plus one, each the classification of its line |
| PdfUtils.StoryOfEmptyText | pdf_utils.py:73-78 | the empty text renders as a single spacer |
| PdfUtils.StoryOfLines | pdf_utils.py:73-89 | rendering lines joined by line feeds classifies exactly those lines, in order |
| PdfUtils.ClassifiedEndsWith | pdf_utils.py:75-89 | when the last line ends in a tail with non-whitespace ends, the last block is a paragraph whose text ends in that tail |
| PdfUtils.StoryEndsWith | pdf_utils.py:73-89 | a text ending in a line-feed-free tail with non-whitespace ends renders to a story whose last block is a paragraph ending in that tail |
| PdfUtils.TitleOnlyAtTop | pdf_utils.py:80-81 | only position 0 can hold a title; there is one exactly when the first line is not blank |
| PdfUtils.Texts | pdf_utils.py:13-14 | when every page reads, there is one text per page, the text that page returned |
| PdfUtils.Joined | pdf_utils.py:12-14 | the concatenation is at least one character per page and ends with a line feed when there is a page |
| PdfUtils.Extracted | pdf_utils.py:10-17 | any exception gives ""; a file that opens with readable pages gives a text ending in a line feed as soon as it has a page |
| PdfUtils.ExtractText | pdf_utils.py:10-17 | the loop's result is the pages' texts each followed by a line feed when the file opens and every page reads, and "" otherwise |
| PdfUtils.ExtractStep | pdf_utils.py:13-14 | reading one more page appends its text and a line feed |
| PdfUtils.JoinedIsJoin | pdf_utils.py:12-14 | the concatenation equals `'\n'.join(texts + [''])` |
| PdfUtils.JoinedSplit | pdf_utils.py:12-14 | splitting the extracted text gives the lines of every page, page after page, followed by one trailing empty piece |
| PdfUtils.JoinedAllSpace | pdf_utils.py:12-14 | the extracted text is all whitespace exactly when every page text is |
| PdfUtils.ExtractedNonEmpty | pdf_utils.py:12-15 | a file that opens and whose pages all read gives a non-empty text ending in a line feed as soon as it has a page |
| PdfUtils.ExtractFailureIsEmpty | pdf_utils.py:16-17 | failing to open the file or to read any page yields exactly "" |
| App.Compress | app.py:68-82 | on a reply, the reply unchanged; on failure, `min(len, 1000) + 3` characters: a prefix of the content followed by "..." |
| App.FallbackKeepsShortContent | app.py:82 | content of at most 1000 characters comes back whole, followed by "..." |
| App.FallbackRendersText | app.py:80-82 | the fallback text never renders to a trailing spacer: its last block is a paragraph whose text ends with "..." |
| App.Convert | app.py:90-118 | the foreign steps are reached in order with none skipped; a download is sent exactly when all three were reached and rendering succeeded; a plain answer exactly when the remote service was not called |
| App.MissingFieldRejected | app.py:92-93 | without a `resume` field the answer is ("No file uploaded", 400) and no foreign step runs |
| App.EmptyFilenameRejected | app.py:95-98 | an empty file name gives ("No file selected", 400) and extraction is not attempted |
| App.BlankTextRejected | app.py:101-104 | whitespace-only extracted text gives ("Could not extract text from PDF", 400) after extraction only; neither the remote reply nor the renderer can affect the answer |
| App.UnreadableFileRejected | app.py:101-104 | a file that does not open, or a page whose extraction raises, ends in the extraction error through the "" sentinel |
| App.BlankPagesRejected | app.py:101-104 | a file that opens and whose every page reads, but whose every page text is whitespace, is rejected with the extraction error, although the extracted text is not empty when the file has a page |
| App.DownloadIffChecksPass | app.py:92-118 | the answer is a download exactly when all three checks pass and the story renders; it is then the story of the compressed text, sent as attachment `converted_resume.pdf` with type `application/pdf`, after extraction, compression and rendering |
| App.RenderingFailureIsServerError | app.py:91-121 | a story reportlab rejects is not caught: a request that passed every check ends in a 500 after extraction, the remote call and rendering |
| App.ErrorsAreBadRequests | app.py:92-104 | every plain answer is a 400 with one of the three fixed messages and never follows a remote call |
| App.TextualPdfDownloads | app.py:101-118 | a named file that opens, whose every page reads and one of whose pages holds a non-whitespace character is converted: downloaded as `converted_resume.pdf` when the story renders, a 500 when it does not |
| App.FallbackIsRendered | app.py:107-110 | when every check passes and the remote call fails, the downloaded story renders `content[:1000] + "..."` |

## Left out

- Flask routing, `render_template`, `send_file` and the CORS set-up (app.py:9-20, 85-87) are web-framework plumbing. The response is reduced to its body and status, or to the download's story, file name, mimetype and attachment flag. A server error keeps only its status.
- Loading `.env`, `GITHUB_TOKEN`, `PORT` and `app.run` (app.py:21-27, 123-125) are process configuration.
- The OpenAI chat-completion call and its prompt (app.py:32-77) are a foreign network call. The model takes the reply as an input, with `None` for a call that raises. The prompt's only link to the model is that the content is inserted into it.
- App.Compress: a reply whose `message.content` is `None` is not modelled. The source would then return `None`, and `create_pdf_from_text` would raise outside any handler, giving a server error.
- PyPDF2 parsing and `page.extract_text()` (pdf_utils.py:11, 14) are a foreign library. A `PdfDocument` gives their outcomes. A page whose `extract_text()` returns `None` makes `+ "\n"` raise; it is represented like a page whose extraction raises.
- ReportLab styles, fonts, colours, margins, the spacer's 1-by-4 size and `doc.build` layout and pagination (pdf_utils.py:21-70, 91-93) are an external typesetting engine. Blocks record only their kind and text. Which lines reportlab's markup parser rejects is not modelled; `Convert` takes only whether the story renders.
- The `print` in the fallback and the commented-out 500 handler (app.py:81, 120-121) are a side effect and dead code.
- PyText.IsUpper (and PyText.UpperScan, PyText.StripKeepsIsUpper): `isupper()` uses ASCII letter case only; every non-ASCII character counts as uncased. A line whose only cased letters are non-ASCII (such as "É") is not a header in the model, while Python calls it upper-case; conversely "STRAßE" is upper-case in the model, because ß counts as uncased, while Python's `isupper()` is False for it. The full Unicode case tables are not modelled. `strip()` uses Python's full whitespace set.
- App.Convert: `request.files` is a multi-dictionary. The model keeps only the first file per field name, the one `request.files['resume']` returns.
