/** The request logic of `app.py`: the fallback of `compress_resume_with_ai`
    and the guard chain of `convert_resume`. The chat-completion call is
    replaced by its reply, `None` when the call raises; the uploaded file by
    the `PdfDocument` PyPDF2 would see; the generated PDF by its story. */
module App {
  import opened Wrappers
  import opened PyText
  import opened PdfUtils

  /** The multipart field that carries the upload. */
  const ResumeField: string := "resume"

  const NoFileUploaded: string := "No file uploaded"
  const NoFileSelected: string := "No file selected"
  const CouldNotExtract: string := "Could not extract text from PDF"
  const BadRequest: nat := 400

  const DownloadName: string := "converted_resume.pdf"
  const PdfMimetype: string := "application/pdf"

  /** How much of the original text the fallback keeps, and what it appends. */
  const FallbackLength: nat := 1000
  const Ellipsis: string := "..."

  // ---------------------------------------------------------------------------
  // compress_resume_with_ai
  // ---------------------------------------------------------------------------

  /** The compressed resume: the remote reply unchanged, or on failure the
      first thousand characters of the content followed by "...". */
  function Compress(content: string, reply: Option<string>): (r: string)
    ensures reply.Some? ==> r == reply.value
    ensures reply.None? ==> |r| == Min(|content|, FallbackLength) + |Ellipsis|
    ensures reply.None? ==> r[..|r| - |Ellipsis|] <= content && r[|r| - |Ellipsis|..] == Ellipsis
  {
    match reply
    case Some(answer) => answer
    case None => Prefix(content, FallbackLength) + Ellipsis
  }

  /** A content of at most a thousand characters survives the fallback whole. */
  lemma FallbackKeepsShortContent(content: string)
    requires |content| <= FallbackLength
    ensures Compress(content, None) == content + "..."
  {
  }

  /** The fallback is never blank, so its rendering ends in a paragraph, not
      a spacer, and that paragraph's text ends with "...". */
  lemma FallbackRendersText(content: string)
    ensures EndsInParagraph(Story(Compress(content, None)), "...")
  {
    var r := Compress(content, None);
    assert EndsWith(r, "...");
    StoryEndsWith(r, "...");
  }

  // ---------------------------------------------------------------------------
  // convert_resume
  // ---------------------------------------------------------------------------

  /** One uploaded file: its client-side file name and its contents as PyPDF2
      would read them. */
  datatype Upload = Upload(filename: string, document: PdfDocument)

  /** A plain-text error reply, the generated PDF sent as an attachment, or
      the server error Flask answers with when an exception escapes the
      handler (the handler's own `except` clause is commented out). */
  datatype Response =
    | Plain(body: string, status: nat)
    | Download(story: seq<Block>, asAttachment: bool, downloadName: string, mimetype: string)
    | ServerError(status: nat)

  const InternalServerError: nat := 500

  /** The foreign steps a request reaches: text extraction, the remote
      compression call and PDF generation. */
  datatype Step = Extraction | Compression | Rendering

  datatype Handled = Handled(response: Response, steps: seq<Step>)

  /** All three checks of `convert_resume` pass: a `resume` field, a
      non-empty file name and extracted text that is not all whitespace. */
  predicate ChecksPass(files: map<string, Upload>) {
    ResumeField in files && files[ResumeField].filename != "" &&
    !AllSpace(Extracted(files[ResumeField].document))
  }

  /** `convert_resume` on the uploaded files (first file per field name), the
      reply the remote service would give, and whether reportlab accepts the
      story: `Paragraph` parses each line as markup and `doc.build` lays it
      out, and either may raise. The steps are reached in order, none is
      skipped, and a download is sent exactly when all three were reached
      and rendering succeeded. */
  function Convert(files: map<string, Upload>, reply: Option<string>, rendered: bool): (h: Handled)
    ensures h.steps <= [Extraction, Compression, Rendering]
    ensures h.response.Download? <==> h.steps == [Extraction, Compression, Rendering] && rendered
    ensures h.response.Plain? <==> Compression !in h.steps
  {
    if ResumeField !in files then
      Handled(Plain(NoFileUploaded, BadRequest), [])
    else
      var file := files[ResumeField];
      if file.filename == "" then
        Handled(Plain(NoFileSelected, BadRequest), [])
      else
        var content := Extracted(file.document);
        if Strip(content) == [] then
          Handled(Plain(CouldNotExtract, BadRequest), [Extraction])
        else
          var compressed := Compress(content, reply);
          if rendered then
            Handled(Download(Story(compressed), true, DownloadName, PdfMimetype),
                    [Extraction, Compression, Rendering])
          else
            Handled(ServerError(InternalServerError), [Extraction, Compression, Rendering])
  }

  /** No `resume` field: "No file uploaded", before anything else is looked at. */
  lemma MissingFieldRejected(files: map<string, Upload>, reply: Option<string>, rendered: bool)
    requires ResumeField !in files
    ensures Convert(files, reply, rendered) == Handled(Plain("No file uploaded", 400), [])
  {
  }

  /** An empty file name: "No file selected", and extraction is not attempted. */
  lemma EmptyFilenameRejected(files: map<string, Upload>, reply: Option<string>, rendered: bool)
    requires ResumeField in files && files[ResumeField].filename == ""
    ensures Convert(files, reply, rendered) == Handled(Plain("No file selected", 400), [])
  {
  }

  /** Whitespace-only extracted text: "Could not extract text from PDF"; the
      remote service is never called and nothing is rendered, so neither its
      reply nor the renderer can matter. */
  lemma BlankTextRejected(files: map<string, Upload>, reply: Option<string>, rendered: bool,
                          otherReply: Option<string>, otherRendered: bool)
    requires ResumeField in files && files[ResumeField].filename != ""
    requires AllSpace(Extracted(files[ResumeField].document))
    ensures Convert(files, reply, rendered) ==
      Handled(Plain("Could not extract text from PDF", 400), [Extraction])
    ensures Convert(files, otherReply, otherRendered) == Convert(files, reply, rendered)
  {
  }

  /** A file PyPDF2 cannot open, or a page whose extraction raises, ends in
      the extraction error through the "" sentinel. */
  lemma UnreadableFileRejected(files: map<string, Upload>, reply: Option<string>, rendered: bool)
    requires ResumeField in files && files[ResumeField].filename != ""
    requires var doc := files[ResumeField].document;
      !doc.opens || exists i :: 0 <= i < |doc.pages| && doc.pages[i].None?
    ensures Convert(files, reply, rendered).response == Plain("Could not extract text from PDF", 400)
  {
  }

  /** A file that opens and whose every page reads, but whose every page
      text is whitespace, is rejected too, although the extracted text itself
      is not empty when the file has a page. */
  lemma BlankPagesRejected(files: map<string, Upload>, reply: Option<string>, rendered: bool)
    requires ResumeField in files && files[ResumeField].filename != ""
    requires var doc := files[ResumeField].document;
      doc.opens && AllPagesRead(doc.pages) &&
      forall i :: 0 <= i < |doc.pages| ==> AllSpace(doc.pages[i].value)
    ensures Convert(files, reply, rendered).response == Plain("Could not extract text from PDF", 400)
  {
    JoinedAllSpace(Texts(files[ResumeField].document.pages));
  }

  /** A request is answered with a download exactly when it passes all three
      checks and the story renders; the download is the rendering of the
      compressed text, named `converted_resume.pdf`, typed `application/pdf`,
      sent as an attachment, after extraction, compression and rendering in
      that order. */
  lemma DownloadIffChecksPass(files: map<string, Upload>, reply: Option<string>, rendered: bool)
    ensures Convert(files, reply, rendered).response.Download? <==> ChecksPass(files) && rendered
    ensures Convert(files, reply, rendered).response.Download? ==>
      var content := Extracted(files[ResumeField].document);
      Convert(files, reply, rendered) == Handled(
        Download(Story(Compress(content, reply)), true, "converted_resume.pdf", "application/pdf"),
        [Extraction, Compression, Rendering])
  {
  }

  /** A story reportlab rejects is not caught: the request that passed every
      check ends in a 500 after the remote call has been made. */
  lemma RenderingFailureIsServerError(files: map<string, Upload>, reply: Option<string>, rendered: bool)
    ensures Convert(files, reply, rendered).response.ServerError? <==> ChecksPass(files) && !rendered
    ensures Convert(files, reply, rendered).response.ServerError? ==>
      Convert(files, reply, rendered) ==
        Handled(ServerError(500), [Extraction, Compression, Rendering])
  {
  }

  /** Every plain answer is a 400 with one of the three fixed messages, and
      no such answer has reached the remote service. */
  lemma ErrorsAreBadRequests(files: map<string, Upload>, reply: Option<string>, rendered: bool)
    ensures var h := Convert(files, reply, rendered);
      h.response.Plain? ==>
        h.response.status == 400 &&
        h.response.body in {"No file uploaded", "No file selected", "Could not extract text from PDF"} &&
        Compression !in h.steps
  {
  }

  /** A named file that opens, whose every page reads and one of whose pages
      holds a non-whitespace character is converted: downloaded when the story
      renders, a server error when it does not. A single page whose
      extraction raises makes the whole text "" instead. */
  lemma {:induction false} TextualPdfDownloads(files: map<string, Upload>, reply: Option<string>, k: nat)
    requires ResumeField in files && files[ResumeField].filename != ""
    requires var doc := files[ResumeField].document;
      doc.opens && AllPagesRead(doc.pages) &&
      k < |doc.pages| && !AllSpace(doc.pages[k].value)
    ensures Convert(files, reply, true).response.Download?
    ensures Convert(files, reply, true).response.downloadName == "converted_resume.pdf"
    ensures Convert(files, reply, false).response == ServerError(500)
  {
    JoinedAllSpace(Texts(files[ResumeField].document.pages));
  }

  /** When the remote call fails, the PDF renders the truncated original. */
  lemma FallbackIsRendered(files: map<string, Upload>)
    requires ChecksPass(files)
    ensures var content := Extracted(files[ResumeField].document);
      Convert(files, None, true).response.story == Story(Prefix(content, 1000) + "...")
  {
  }
}
