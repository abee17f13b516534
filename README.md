# ReadPdf: the document-to-speech flow of `MainActivity`

This project models the control flow of the app's only activity. The user picks a PDF. The activity copies it into the single cache file `cacheDir/selected.pdf`. It extracts the text with PDFBox, trims it, and rejects blank text. Then it asks the TextToSpeech engine to speak the text with `QUEUE_FLUSH` and the utterance id `"pdf_read"`. The status line shows Loading, then Error or Done. The engine's language set-up (`onInit`: `es_ES`, falling back to `es`) and its shutdown (`onDestroy`) are modelled too.

Layout:

- `text.dfy`, module `Text`: Kotlin's `String.trim()` and `isBlank()`. Both use one whitespace predicate. The lemmas show that, once text is trimmed, blank means empty.
- `speech.dfy`, module `Speech`: the TextToSpeech constants and locales the activity uses, the engine calls kept as a log, and the calls `onInit` makes.
- `main_activity.dfy`, module `ReadPdf`: the class `MainActivity` with its state and methods. Beside it are the reference functions that the methods are proved against (`SlotAfterCopy`, `Load`, `Outcome`, `FinalStatus`, `SpeechCalls`) and lemmas about them. Module `ReadPdfScenarios` works through a document whose text layer reads `"  Hello world  "`.

The state is a class. `status` is the status line and `shown` (ghost) is every status written, in order. `cache` is the cache file: `None` while it does not exist. `hasTts` says whether `tts != null`. `ttsCalls` logs the calls made on the engine. The class invariant `Valid()` says two things. The status line is the last status written, or the initial text if none was written. Every speak request in the log carries non-empty, trimmed text with QUEUE_FLUSH and `"pdf_read"`. Every foreign stage is a parameter describing its outcome:

- `Source`: `openInputStream` throws, returns null, or yields bytes. When it yields bytes, the copy either completes or throws and leaves an arbitrary file behind.
- `extract: seq<byte> -> Extraction`: `PDDocument.load`, `getText` and `document.close()`, either an exception from any of them or the raw text. If the cache file does not exist, load throws.
- `OnInit`: the init status and the result of `setLanguage(es_ES)` are parameters.

Behaviour of the code worth knowing:

- A null input stream is not an error. `copyToCache` still returns the cache file. The run then reads whatever an earlier run left there, or fails at load if there is no file (`NullStreamRereadsStaleCopy`).
- A copy that fails partway does not delete the partial file. The model leaves an arbitrary slot value.
- `speak` is called on whatever engine exists, ready or not, and that request is logged. With `tts == null` nothing is spoken and the status still becomes Done.
- After its initial text (`Idle`), the status line only ever shows Loading, Error or Done.

## Model

| member | source | states |
|---|---|---|
| `Text.InRangesIffListed` | app/src/main/java/com/example/readpdf/MainActivity.kt:80 | the recursive range scan behind the whitespace test accepts a character exactly when some listed range holds it |
| `Text.IsWhitespace` | app/src/main/java/com/example/readpdf/MainActivity.kt:80-89 | the whitespace test that `trim()` and `isBlank()` share: TAB, LF, VT, FF, CR and space are whitespace; digits and Latin letters are not |
| `Text.IsBlank` | app/src/main/java/com/example/readpdf/MainActivity.kt:89 | `isBlank()`: the text is blank exactly when the leading whitespace `trim()` would skip covers all of it |
| `Text.LeadingWhitespace` | app/src/main/java/com/example/readpdf/MainActivity.kt:80 | the count of leading characters that `trim()` skips: every one of them is whitespace, and the character after them, if any, is not |
| `Text.TrailingWhitespace` | app/src/main/java/com/example/readpdf/MainActivity.kt:80 | the count of trailing characters that `trim()` drops: every one of them is whitespace, and the character before them, if any, is not |
| `Text.Trim` | app/src/main/java/com/example/readpdf/MainActivity.kt:80 | `trim()` gives the contiguous slice of the input that starts after the leading whitespace and has only whitespace after it; the slice neither starts nor ends with whitespace |
| `Text.TrimIsTheOnlyCore` | app/src/main/java/com/example/readpdf/MainActivity.kt:80 | any split of the text into a blank head, a core that is empty or neither starts nor ends with whitespace, and a blank tail has `trim()`'s result as its core |
| `Text.BlankIffTrimsToEmpty` | app/src/main/java/com/example/readpdf/MainActivity.kt:80-89 | raw text is blank (empty or whitespace only) if and only if it trims to the empty string |
| `Text.TrimmedBlankIffEmpty` | app/src/main/java/com/example/readpdf/MainActivity.kt:89 | for trimmed text, `isBlank()` holds exactly when the text is empty |
| `Text.TrimIdempotent` | app/src/main/java/com/example/readpdf/MainActivity.kt:80 | trimming already-trimmed text changes nothing |
| `Speech.LanguageCalls` | app/src/main/java/com/example/readpdf/MainActivity.kt:59-67 | no language call unless init is SUCCESS; then `es_ES` first, and a second call with `es` exactly when the first result is LANG_MISSING_DATA or LANG_NOT_SUPPORTED; never more than two calls |
| `ReadPdf.SlotAfterCopy` | app/src/main/java/com/example/readpdf/MainActivity.kt:101-107 | the cache file after a copy: only a stream that opened can change it, and a completed copy leaves exactly the stream's bytes |
| `ReadPdf.Load` | app/src/main/java/com/example/readpdf/MainActivity.kt:78 | loading a cache file that does not exist throws; otherwise the PDF library decides on the file's bytes |
| `ReadPdf.Outcome` | app/src/main/java/com/example/readpdf/MainActivity.kt:69-98 | where a run stops: at the copy exactly when the copy throws; text that reaches the speak step is non-empty and already trimmed |
| `ReadPdf.FinalStatus` | app/src/main/java/com/example/readpdf/MainActivity.kt:72-97 | a run leaves Done exactly when its text reached the speak step, and Error otherwise; never Idle or Loading |
| `ReadPdf.SpeechCalls` | app/src/main/java/com/example/readpdf/MainActivity.kt:96 | a run makes at most one engine call, and makes one exactly when its text reached the speak step and the engine exists: the text, QUEUE_FLUSH, `"pdf_read"` |
| `ReadPdf.OutcomeStages` | app/src/main/java/com/example/readpdf/MainActivity.kt:69-98 | a run stops at the copy exactly when the copy throws; it stops at extraction exactly when load or getText throws; it stops for lack of text exactly when the raw text is blank; otherwise it speaks the trimmed raw text, which is non-empty and has no whitespace at either end |
| `ReadPdf.RunKeepsRequestsValid` | app/src/main/java/com/example/readpdf/MainActivity.kt:89-96 | whatever the copy, the library and the engine do, a run adds only speak requests whose text is non-empty and already trimmed, flushing the queue, with id `"pdf_read"` |
| `ReadPdf.CopyFailureSkipsExtraction` | app/src/main/java/com/example/readpdf/MainActivity.kt:71-75 | when copyToCache returns null, the run ends in Error with no engine call, and its outcome does not depend on the PDF library at all, so no extraction happens |
| `ReadPdf.NullStreamRereadsStaleCopy` | app/src/main/java/com/example/readpdf/MainActivity.kt:100-113 | a null stream is not a copy failure and leaves the cache file as it was; after a completed copy of some bytes, a pick whose stream is null ends exactly like that earlier pick |
| `ReadPdf.CopyReplacesSlot` | app/src/main/java/com/example/readpdf/MainActivity.kt:101-107 | a completed copy makes the cache file equal to the stream's bytes, whatever it held before; copying the same source twice leaves the same file as copying it once |
| `ReadPdf.ExtractFailureIsError` | app/src/main/java/com/example/readpdf/MainActivity.kt:77-87 | an exception from load or getText ends the run in Error with no engine call |
| `ReadPdf.BlankTextIsNeverSpoken` | app/src/main/java/com/example/readpdf/MainActivity.kt:89-93 | blank extracted text ends the run in Error (no readable text) with no engine call |
| `ReadPdf.ReadableTextIsSpoken` | app/src/main/java/com/example/readpdf/MainActivity.kt:95-97 | non-blank extracted text ends the run in Done with the trimmed text; with an engine there is exactly one request (the trimmed text, QUEUE_FLUSH, "pdf_read"), and without one there is none |
| `ReadPdf.MainActivity.constructor` | app/src/main/java/com/example/readpdf/MainActivity.kt:25-26 | a new activity shows its initial status, has no engine and no engine calls, and keeps any cache file left from an earlier launch |
| `ReadPdf.MainActivity.OnCreate` | app/src/main/java/com/example/readpdf/MainActivity.kt:50 | after onCreate the engine exists; the invariant is kept |
| `ReadPdf.MainActivity.OnDestroy` | app/src/main/java/com/example/readpdf/MainActivity.kt:53-57 | an existing engine gets stop and then shutdown; with no engine nothing is called; the invariant is kept |
| `ReadPdf.MainActivity.OnInit` | app/src/main/java/com/example/readpdf/MainActivity.kt:59-67 | with an engine, the calls appended are those of `LanguageCalls`; without one, `setLanguage` yields null and nothing is called |
| `ReadPdf.MainActivity.SetStatus` | app/src/main/java/com/example/readpdf/MainActivity.kt:30-97 | every `statusText.text = …` write (lines 30, 72, 85, 90 and 97): the status line becomes the new status, which is appended to the statuses shown, and the invariant is kept |
| `ReadPdf.MainActivity.CopyToCache` | app/src/main/java/com/example/readpdf/MainActivity.kt:100-113 | returns null exactly when an exception is thrown, and otherwise the file `selected.pdf`, including when the stream is null; the cache file becomes `SlotAfterCopy` of its old content |
| `ReadPdf.MainActivity.ReadPdf` | app/src/main/java/com/example/readpdf/MainActivity.kt:69-98 | exactly one status is written, Done or Error as `Outcome` decides; the cache file is updated by the copy; the engine log grows by at most the one flushing speak request |
| `ReadPdf.MainActivity.PickPdf` | app/src/main/java/com/example/readpdf/MainActivity.kt:28-36 | a null uri changes nothing; otherwise Loading is written, then the single final status of the run, with the cache and engine log updated as `ReadPdf` states |
| `ReadPdfScenarios.HelloWorldIsTrimmed` | app/src/main/java/com/example/readpdf/MainActivity.kt:80 | `"  Hello world  "` trims to `"Hello world"` |
| `ReadPdfScenarios.HelloWorldRun` | app/src/main/java/com/example/readpdf/MainActivity.kt:77-97 | a document whose raw text is `"  Hello world  "` ends in Done, with one request: `"Hello world"`, QUEUE_FLUSH, `"pdf_read"` |

## Left out

- PDFBox parsing and text extraction: a foreign library. It is the parameter `extract`, and a missing cache file counts as a load exception.
- `document.close()` as resource release, and the fact that it is skipped when `getText` throws. An exception from `close()` sits inside the same `try` and is modelled: it is an `ExtractThrows` outcome of `extract`, so the run ends in Error with nothing spoken.
- ContentResolver, FileOutputStream and `copyTo` stream mechanics: platform I/O. They are the `Source` parameter. A copy that fails partway leaves an arbitrary file content (`CopyThrows(leftover)`).
- Throwables that are not `Exception` (for example `OutOfMemoryError`) escape the `catch` blocks in the code. The model has no outcome for them.
- TextToSpeech audio playback, the asynchronous timing of `onInit`, and the speak call's return value: a concurrent platform service. Only the log of calls is kept. The flush semantics of QUEUE_FLUSH (a new request replaces the one playing) are recorded as the queue mode of each request, not simulated.
- `setLanguage`'s second result (for `es`): the code ignores it.
- Android UI: `setContentView`, buttons, string resources, `registerForActivityResult`, and `PDFBoxResourceLoader.init`. This is presentation plumbing. The status line is the `Status` datatype.
- `Log` calls: they have no observable effect on the modelled state.
- Threading: everything runs on the UI thread, one callback at a time, so interleaved runs are not modelled.
- `Text.IsWhitespace`: covers Kotlin's `Char.isWhitespace()` for the Unicode version whose Zs/Zl/Zp sets it lists; the platform's own character tables may follow a different Unicode version. Characters are Unicode scalar values, not UTF-16 code units, and every whitespace character is in the basic plane. No lemma about trimming depends on the exact set.
