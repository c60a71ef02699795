/**
 * The responses of the two POST handlers of api/index.py, `summarize_pdf`
 * and `summarize_youtube`, as functions of what they receive: the upload's
 * file name and extracted text, or the request's URL and the transcript
 * text fetched for the id.  Extraction and fetching happen outside the
 * model; their results are parameters here.
 */
module Handlers {
  import opened PyStr
  import opened Summarizer
  import opened VideoIds

  /** The JSON object a handler returns: `{"summary": …}` or `{"error": …}`. */
  datatype Response = Summary(summary: string) | Error(error: string)

  const PdfPreviewWidth: nat := 300
  const TranscriptPreviewWidth: nat := 200

  const NoPdfText: string := "No text found in PDF (try text-based PDF)"
  const InvalidUrlPrefix: string := "Invalid YouTube URL. Video ID should be 11 chars: "
  const NoTranscript: string := "No transcript available for this video (private/unlisted?)"

  /**
   * What `get_youtube_transcript` returns when both ways of fetching fail.
   * It is written in two pieces so that the lemmas below can name each piece:
   * reasoning about one 50-character literal makes the verifier unfold the
   * summariser character by character.
   */
  const TranscriptSentinel: string := "No transcript available" + " - video subtitles disabled"

  /** The `📄 **name**` heading line of a PDF summary, with its blank line. */
  function PdfHeading(filename: string): string {
    "\U{1F4C4} **" + filename + "**\n\n"
  }

  /** The two header lines of a YouTube summary, up to the preview text. */
  function VideoHeading(id: string): string {
    "\U{1F3A5} **YouTube Video**\nVideo ID: " + id + "\n\nPreview: "
  }

  /** Between the preview and the bullet summary. */
  const PreviewEnd: string := "...\n\n"

  /** `summarize_pdf` once the text has been extracted from the upload. */
  function PdfResponse(filename: string, text: string): Response {
    if text == [] then Error(NoPdfText)
    else Summary(PdfHeading(filename) + Take(text, PdfPreviewWidth) + PreviewEnd + SmartSummary(text))
  }

  /**
   * `summarize_youtube` for a request whose URL is `url` and for which the
   * transcript fetch produces `transcript`.  The fetch happens only once the
   * id has been accepted, so for a rejected id `transcript` is never read.
   */
  function YoutubeResponse(url: string, transcript: string): Response {
    VideoResponse(ExtractVideoId(url), transcript)
  }

  /** The part of `summarize_youtube` after the id has been extracted. */
  function VideoResponse(id: string, transcript: string): Response {
    if !ValidVideoId(id) then Error(InvalidUrlPrefix + id)
    else if transcript == [] then Error(NoTranscript)
    else Summary(VideoHeading(id) + Take(transcript, TranscriptPreviewWidth) + PreviewEnd + SmartSummary(transcript))
  }

  /**
   * Empty text is the only error; otherwise the summary names the file,
   * previews at most the first 300 characters of the text and ends with
   * the bullet summary of the whole text.
   */
  lemma {:induction false} PdfResponseShape(filename: string, text: string)
    ensures PdfResponse(filename, text).Error? <==> text == []
    ensures PdfResponse(filename, text).Error? ==> PdfResponse(filename, text).error == NoPdfText
    ensures PdfResponse(filename, text).Summary? ==>
      var s := PdfResponse(filename, text).summary;
      var n := Min(PdfPreviewWidth, |text|);
      && |s| == |PdfHeading(filename)| + n + |PreviewEnd| + |SmartSummary(text)|
      && s[..|PdfHeading(filename)|] == PdfHeading(filename)
      && s[|PdfHeading(filename)|..|PdfHeading(filename)| + n] == text[..n]
      && s[|PdfHeading(filename)| + n..|PdfHeading(filename)| + n + |PreviewEnd|] == PreviewEnd
      && s[|s| - |SmartSummary(text)|..] == SmartSummary(text)
  {
    if text != [] {
      PiecesShape(PdfHeading(filename), Take(text, PdfPreviewWidth), PreviewEnd, SmartSummary(text));
    }
  }

  /** A short but non-empty PDF text is shown whole, followed by the fallback bullets. */
  lemma {:induction false} PdfShortText(filename: string, text: string)
    requires 0 < |text| < MinTextLength
    ensures PdfResponse(filename, text) == Summary(PdfHeading(filename) + text + PreviewEnd + Fallback)
  {
    ShortTextFallback(text);
    assert Take(text, PdfPreviewWidth) == text;
  }

  /**
   * A URL whose id is rejected gets the error naming that id, whatever the
   * transcript would have been.
   */
  lemma {:induction false} RejectedIdIgnoresTranscript(url: string, t1: string, t2: string)
    requires !ValidVideoId(ExtractVideoId(url))
    ensures YoutubeResponse(url, t1) == YoutubeResponse(url, t2) == Error(InvalidUrlPrefix + ExtractVideoId(url))
  {
    VideoResponseShape(ExtractVideoId(url), t1);
    VideoResponseShape(ExtractVideoId(url), t2);
  }

  /**
   * A YouTube request yields a summary exactly when the id is accepted and
   * the transcript is non-empty; the summary then shows the id, previews at
   * most 200 characters of the transcript and ends with its bullet summary.
   */
  lemma {:induction false} VideoResponseShape(id: string, transcript: string)
    ensures VideoResponse(id, transcript).Summary? <==> ValidVideoId(id) && transcript != []
    ensures !ValidVideoId(id) ==> VideoResponse(id, transcript) == Error(InvalidUrlPrefix + id)
    ensures ValidVideoId(id) && transcript == [] ==> VideoResponse(id, transcript) == Error(NoTranscript)
    ensures VideoResponse(id, transcript).Summary? ==>
      var s := VideoResponse(id, transcript).summary;
      var h := VideoHeading(id);
      var n := Min(TranscriptPreviewWidth, |transcript|);
      && |s| == |h| + n + |PreviewEnd| + |SmartSummary(transcript)|
      && s[..|h|] == h
      && s[|h|..|h| + n] == transcript[..n]
      && s[|h| + n..|h| + n + |PreviewEnd|] == PreviewEnd
      && s[|s| - |SmartSummary(transcript)|..] == SmartSummary(transcript)
  {
    if ValidVideoId(id) && transcript != [] {
      PiecesShape(VideoHeading(id), Take(transcript, TranscriptPreviewWidth), PreviewEnd, SmartSummary(transcript));
    }
  }

  /** Where each of the four pieces of a response sits in their concatenation. */
  lemma {:induction false} PiecesShape(h: string, p: string, e: string, m: string)
    ensures var s := h + p + e + m;
      && |s| == |h| + |p| + |e| + |m|
      && s[..|h|] == h
      && s[|h|..|h| + |p|] == p
      && s[|h| + |p|..|h| + |p| + |e|] == e
      && s[|s| - |m|..] == m
  {
    var s := h + p + e + m;
    assert s == h + (p + e + m);
    assert s[|h|..|h| + |p|] == p;
    assert s == (h + p) + e + m;
    assert s[|h| + |p|..|h| + |p| + |e|] == e;
    assert s == (h + p + e) + m;
  }

  /** The id shown in a YouTube summary is always 11 characters long. */
  lemma {:induction false} SummaryIdLength(url: string, transcript: string)
    requires YoutubeResponse(url, transcript).Summary?
    ensures |ExtractVideoId(url)| == IdLength
  {
    VideoResponseShape(ExtractVideoId(url), transcript);
  }

  /** Text with no marker, such as `not a url`, is answered with the error for the empty id. */
  // The URL is a parameter equal to the literal, so that the verifier does not unfold on a literal.
  lemma {:induction false} NotAUrlResponse(url: string, transcript: string)
    requires url == "not a url"
    ensures YoutubeResponse(url, transcript) == Error(InvalidUrlPrefix)
  {
    NotAUrlExample(url);
    assert InvalidUrlPrefix + "" == InvalidUrlPrefix;
  }

  /**
   * The sentinel text of a failed transcript fetch is long enough to be
   * summarised and has no sentence terminator, so it becomes the one bullet
   * of the summary instead of being reported as an error.
   */
  lemma {:induction false} SentinelSummary()
    ensures |TranscriptSentinel| == MinTextLength
    ensures SmartSummary(TranscriptSentinel) == Header + BulletMark + TranscriptSentinel + Ellipsis
  {
    var a, b := "No transcript available", " - video subtitles disabled";
    SentinelPiecesSummary(a, b);
  }

  // The two pieces are parameters equal to the literals, so that the verifier does not unfold on a literal.
  lemma {:induction false} SentinelPiecesSummary(a: string, b: string)
    requires a == "No transcript available" && b == " - video subtitles disabled"
    ensures |a + b| == MinTextLength
    ensures SmartSummary(a + b) == Header + BulletMark + (a + b) + Ellipsis
  {
    SentinelPiecesClean(a, b);
    OneSentenceSummary(a + b);
    BulletShape(a + b);
  }

  // As above, the pieces are parameters equal to the literals.
  lemma {:induction false} SentinelPiecesClean(a: string, b: string)
    requires a == "No transcript available" && b == " - video subtitles disabled"
    ensures |a + b| == MinTextLength && NoTerminator(a + b)
    ensures !IsSpace((a + b)[0]) && !IsSpace((a + b)[|a + b| - 1])
  {
    assert NoTerminator(a);
    assert NoTerminator(b);
    NoTerminatorConcat(a, b);
    assert (a + b)[0] == a[0] && (a + b)[|a + b| - 1] == b[|b| - 1];
  }

  /**
   * A valid URL whose transcript cannot be fetched gets a summary, not the
   * no-transcript error: the sentinel is non-empty.
   */
  lemma {:induction false} FailedFetchIsSummarised(url: string)
    requires ValidVideoId(ExtractVideoId(url))
    ensures YoutubeResponse(url, TranscriptSentinel).Summary?
    ensures var s := YoutubeResponse(url, TranscriptSentinel).summary;
      s == VideoHeading(ExtractVideoId(url)) + TranscriptSentinel + PreviewEnd + (Header + BulletMark + TranscriptSentinel + Ellipsis)
  {
    SentinelSummary();
    ShortTranscriptResponse(ExtractVideoId(url), TranscriptSentinel);
  }

  /** A non-empty transcript of at most 200 characters for an accepted id is previewed whole. */
  lemma {:induction false} ShortTranscriptResponse(id: string, transcript: string)
    requires ValidVideoId(id) && 0 < |transcript| <= TranscriptPreviewWidth
    ensures VideoResponse(id, transcript) ==
      Summary(VideoHeading(id) + transcript + PreviewEnd + SmartSummary(transcript))
  {
    assert Take(transcript, TranscriptPreviewWidth) == transcript;
  }
}
