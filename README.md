# AI-Summarizer core in Dafny

AI-Summarizer is a small Flask service. It takes a PDF upload or a YouTube
URL and replies with an extractive bullet summary of the text. This project
models three parts of `api/index.py` and proves properties about them:

- **`smart_summary`** (module `Summarizer`, file `summarizer.dfy`):
  - text shorter than 50 characters gets a fixed three-line fallback;
  - otherwise the text is split on runs of `.`, `!` and `?`, and each
    fragment is stripped;
  - the first eight stripped fragments longer than 20 characters become
    bullets under a fixed header; each bullet shows at most the first 100
    characters of its fragment, followed by `...`.
- **Video-id extraction and validation** (module `VideoIds`, file
  `video_ids.dfy`):
  - the URL is stripped, and the first of the markers `v=`, `youtu.be/`,
    `embed/` and `youtube.com/shorts/` it contains picks the branch;
  - the branch takes what follows the first occurrence of the marker, up to
    the next `&` (for `v=`) or `?` (for the others), or up to the marker's
    next occurrence, whichever comes first;
  - an id is accepted when it has 11 characters and is alphanumeric once
    `-` and `_` are removed.
- **The two POST handlers' responses** (module `Handlers`, file
  `handlers.dfy`): the `summary` or `error` payload built from the file name
  and extracted text, or from the URL and the transcript text.

The Python string operations these rely on live in module `PyStr`
(`pystr.dfy`): `str.strip()` with Python's whitespace set, `s[:n]`, `in`,
`str.split(sep)` and `str.replace(c, '')`. Strings are sequences of Unicode
scalar values.

The PDF text and the transcript are parameters of the handler functions.
Reading the PDF, fetching the transcript, Flask and the printing are not
modelled.

Two behaviours of the code are easy to miss:

- The fourth branch is taken when the URL contains `youtube.com/shorts/`
  anywhere (line 89), and none of the earlier markers. The id is then taken
  after the first `shorts/` (line 90). The test is on the text of the URL, not
  on its host. A URL that contains none of `v=`, `youtu.be/`, `embed/` or
  `youtube.com/shorts/` gives the empty id, even when it has a `shorts/` path.
- When both transcript fetches fail, `get_youtube_transcript` returns the
  50-character sentinel `No transcript available - video subtitles disabled`
  (line 50). It is not empty, so `summarize_youtube` summarises it as if it
  were a transcript. The model does the same: `Handlers.SentinelSummary` and
  `Handlers.FailedFetchIsSummarised` state the resulting response.

## Model

| member | source | states |
|---|---|---|
| `PyStr.Strip` | api/index.py:17 | `s.strip()` is the infix of `s` with every dropped leading and trailing character whitespace, and it neither starts nor ends with whitespace |
| `PyStr.StripIdempotent` | api/index.py:17 | stripping twice is stripping once |
| `PyStr.FindFrom` | api/index.py:83-90 | the result is the first occurrence of the pattern at or after the start, or none when there is no occurrence |
| `PyStr.Split` | api/index.py:84-90 | `s.split(sep)` has at least one piece, and at least two exactly when `sep in s` |
| `PyStr.SplitJoin` | api/index.py:84-90 | joining the pieces of `s.split(sep)` with `sep` gives back `s` |
| `PyStr.SplitPiecesFree` | api/index.py:84-90 | no piece of `s.split(sep)` contains `sep` |
| `PyStr.SplitSecond` | api/index.py:84-90 | a step used by the other lemmas, following from the definition of `PyStr.Split`: piece 1 of the split is the first piece of what follows the first occurrence of `sep` |
| `PyStr.Remove` | api/index.py:94 | `s.replace(c, '')` contains no `c`, contains only characters of `s`, keeps every character of `s` other than `c`, and is `s` itself when `s` has no `c` |
| `PyStr.RemoveConcat` | api/index.py:94 | removal distributes over concatenation, so the other characters keep their order and number; with the contract of `PyStr.Remove` on one-character strings this determines the result exactly |
| `PyStr.Contains` | api/index.py:83-89 | Python's `pat in s`: its meaning, an occurrence at some position, is stated by `PyStr.FindFrom` and `PyStr.Split` |
| `PyStr.Take` | api/index.py:17 | `s[:n]` is the prefix of length `min(n, len(s))` |
| `Summarizer.Fragments` | api/index.py:16 | `re.split(r'[.!?]+', text)`: at least one fragment; its meaning is stated by `Summarizer.FragmentsSplit` and `Summarizer.SplitUnique` |
| `Summarizer.FragmentsSplit` | api/index.py:16 | the computed fragments and terminator runs rebuild the text; no fragment contains a terminator; each run is a non-empty run of terminators; only the first and last fragment can be empty |
| `Summarizer.SplitUnique` | api/index.py:16 | any decomposition with those properties is the one computed, so the fragments are exactly what `re.split(r'[.!?]+', text)` returns |
| `Summarizer.Qualifying` | api/index.py:17 | the comprehension before `[:8]`: at most as many strings as fragments; its meaning is stated by `Summarizer.QualifyingInOrder` |
| `Summarizer.QualifyingInOrder` | api/index.py:17 | the comprehension keeps exactly the fragments whose stripped form is longer than 20 characters, stripped, in their original order |
| `Summarizer.KeptFragments` | api/index.py:16-17 | the kept fragments are the first `min(8, n)` of the `n` qualifying ones; each is a stripped fragment of the text; their positions strictly increase |
| `Summarizer.KeptClean` | api/index.py:16-17 | every kept fragment is longer than 20 characters, contains no terminator, and neither starts nor ends with whitespace |
| `Summarizer.FragmentsClean` | api/index.py:16 | no fragment of `re.split(r'[.!?]+', text)` contains a terminator |
| `Summarizer.LongOnesClean` | api/index.py:17 | when no input string has a terminator or whitespace at either end, neither has any string the length filter keeps |
| `Summarizer.Kept` | api/index.py:17 | at most eight fragments are kept |
| `Summarizer.SmartSummary` | api/index.py:10-23 | `smart_summary(text)`; what it returns is stated by `Summarizer.ShortTextFallback`, `Summarizer.LongTextShape` and `Summarizer.OneSentenceSummary`, and `Summarizer.BuildSummary` computes it with the source's loop |
| `Summarizer.ShortTextFallback` | api/index.py:12-13 | every text shorter than 50 characters gets the fallback message |
| `Summarizer.LongTextShape` | api/index.py:19-23 | a text of 50 or more characters gets the header followed by one bullet per kept fragment, in order (this clause follows from the definition of `Summarizer.SmartSummary` and is a step for the other lemmas); with no qualifying fragment the output is the header alone |
| `Summarizer.Bullet` | api/index.py:21 | one bullet line; its shape is stated by `Summarizer.BulletShape` |
| `Summarizer.BulletShape` | api/index.py:21 | a bullet is the bullet mark, the first `min(100, n)` characters of the fragment, and `...` plus a newline even when nothing was cut |
| `Summarizer.BulletLinesConcat` | api/index.py:20-21 | the bullets of a concatenation of lists are the concatenation of their bullets |
| `Summarizer.BuildSummary` | api/index.py:10-23 | the loop that appends one bullet per kept fragment to the header computes `SmartSummary` |
| `Summarizer.AppendBullets` | api/index.py:19-21 | appending one bullet per sentence with `+=` to a start text gives that text followed by the bullets of all the sentences, in order |
| `Summarizer.OneSentenceSummary` | api/index.py:12-23 | a text of 50 or more characters with no terminator and no surrounding whitespace is summarised as a single bullet of itself |
| `VideoIds.ExtractVideoId` | api/index.py:78-90 | the id candidate from the request's URL; its meaning is stated by `VideoIds.ExtractVideoIdBranches`, `VideoIds.FieldUnique` and `VideoIds.ExtractVideoIdCuts` |
| `VideoIds.ExtractVideoIdBranches` | api/index.py:78-90 | on the stripped URL, the markers are tried in order and only the first one present is used; its branch yields the field after the marker, cut at `&` for `v=` and at `?` for the others; the shorts branch cuts after `shorts/`; with no marker the id is empty |
| `VideoIds.FieldUnique` | api/index.py:84-90 | the field after a marker is unique, so the branch results above determine the id |
| `VideoIds.ExtractVideoIdCuts` | api/index.py:84-90 | an id from the `v=` branch contains no `&`; an id from any other branch contains no `?` |
| `VideoIds.ValidVideoId` | api/index.py:94 | the validation test; its meaning is stated by `VideoIds.ValidVideoIdIff` |
| `VideoIds.ValidVideoIdIff` | api/index.py:94 | an id is accepted exactly when it has 11 characters, each a letter, a digit, `-` or `_`, and at least one of them a letter or a digit |
| `VideoIds.PunctuationOnlyRejected` | api/index.py:94 | an id made only of `-` and `_`, including the empty id, is rejected |
| `VideoIds.WatchUrlExample` | api/index.py:83-84 | `https://www.youtube.com/watch?v=dQw4w9WgXcQ` gives the id `dQw4w9WgXcQ` |
| `VideoIds.ShortLinkExample` | api/index.py:85-86 | `https://youtu.be/dQw4w9WgXcQ?t=5` gives `dQw4w9WgXcQ`; the query is cut off |
| `VideoIds.ShortsExample` | api/index.py:89-90 | `https://youtube.com/shorts/abcDEF12345` gives `abcDEF12345`, even though `youtu` and an `s` occur before the marker |
| `VideoIds.ShortsIdValid` | api/index.py:94 | `abcDEF12345` is accepted |
| `VideoIds.DemoIdValid` | api/index.py:94 | `dQw4w9WgXcQ`, the id of the two examples above, is accepted |
| `VideoIds.NotAUrlExample` | api/index.py:82-95 | `not a url` has no marker, so it gives the empty id, which is rejected |
| `Handlers.PdfResponse` | api/index.py:63-69 | `summarize_pdf` once the text is extracted; its meaning is stated by `Handlers.PdfResponseShape` and `Handlers.PdfShortText` |
| `Handlers.PdfResponseShape` | api/index.py:63-69 | the PDF handler returns an error exactly when the text is empty; otherwise the summary is the file-name heading, the first `min(300, n)` characters of the text, `...` and a blank line, and the bullet summary of the whole text |
| `Handlers.PdfShortText` | api/index.py:63-69 | non-empty text shorter than 50 characters is shown whole, followed by the fallback bullets |
| `Handlers.YoutubeResponse` | api/index.py:77-105 | `summarize_youtube` for a URL and the transcript fetched for its id: the response for the extracted id; its meaning is stated by `Handlers.VideoResponseShape`, `Handlers.RejectedIdIgnoresTranscript` and `Handlers.SummaryIdLength` |
| `Handlers.VideoResponse` | api/index.py:94-105 | the part of `summarize_youtube` after extraction; its meaning is stated by `Handlers.VideoResponseShape` |
| `Handlers.VideoResponseShape` | api/index.py:94-105 | a summary is returned exactly when the id is accepted and the transcript is non-empty; a rejected id gets the error naming it; an empty transcript gets the no-transcript error; a summary shows the id, the first `min(200, n)` characters of the transcript, `...` and a blank line, and its bullet summary |
| `Handlers.RejectedIdIgnoresTranscript` | api/index.py:94-97 | a URL with a rejected id gets the same error whatever the transcript would have been, because the fetch happens only after validation |
| `Handlers.SummaryIdLength` | api/index.py:94-105 | the id shown in a YouTube summary always has 11 characters |
| `Handlers.NotAUrlResponse` | api/index.py:82-95 | `not a url` is answered with the invalid-URL error for the empty id |
| `Handlers.SentinelSummary` | api/index.py:50 | the fetch-failure sentinel has 50 characters and no terminator, so its summary is the header and one bullet of the sentinel itself |
| `Handlers.FailedFetchIsSummarised` | api/index.py:97-105 | for an accepted id whose transcript cannot be fetched, the response is a summary previewing and summarising the sentinel, not the no-transcript error |

## Left out

- Flask routing, `request.files` and `request.get_json()`, and `jsonify` are not modelled. A response is the `Response` datatype.
- Text extraction with PyPDF2 (`extract_text_from_pdf`, api/index.py:25-34) is not modelled: it is a foreign library. Its result, the text, is a parameter of `Handlers.PdfResponse`.
- The transcript fetch (`get_youtube_transcript`, api/index.py:36-50) is not modelled: it calls the network through a foreign library. Its result is a parameter of `Handlers.YoutubeResponse`. Only the sentinel it returns when both fetches fail (line 50) is modelled, as `Handlers.TranscriptSentinel`.
- The catch-all `except` handlers (api/index.py:70-71 and 106-108) are not modelled. These include a missing `file` part, a missing `url` key, a body that is not JSON, and any library failure, because the model has no exceptions.
- The `print` calls and the `/` route that renders the HTML page are not modelled: they are I/O.
- `Handlers.PdfResponse`: the file name is taken as a string; Flask's `filename` being `None`, which the f-string would show as `None`, is not modelled.
- Python strings may hold lone surrogate code points (a JSON `url` of `"\ud800"`, say); a Dafny `char` is a Unicode scalar value, so such strings are not modelled.
- `PyStr.IsAlnum`: Python's `str.isalnum` accepts every Unicode letter and digit; the model accepts ASCII letters and digits only. As a result, `VideoIds.ValidVideoId` rejects an 11-character id with non-ASCII letters that Python would accept.
