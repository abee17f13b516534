/** The document-to-speech control flow of the app's single activity: a pick
    callback that starts reading, a pipeline that copies the picked document
    into a one-file cache, extracts and trims its text, rejects blank text and
    hands the rest to the speech engine, and the engine's language set-up and
    shutdown. Each foreign stage (the content resolver, the PDF library, the
    engine's answers) is a parameter that says how that stage turned out. */
module ReadPdf {
  import opened Text
  import opened Speech

  newtype byte = x: int | 0 <= x < 256

  datatype Option<T> = None | Some(value: T)

  /** What the status line shows: the layout's initial text, then one of the
      loading, error and done strings. */
  datatype Status = Idle | Loading | Error | Done

  /** How copying an opened stream into the cache file ended. When it throws,
      the file holds whatever was written before the failure (or was not
      created at all): `leftover` is that arbitrary content. */
  datatype CopyOutcome = CopyCompletes | CopyThrows(leftover: Option<seq<byte>>)

  /** What the content resolver does for the picked uri: openInputStream()
      throws, returns null, or yields a stream of `data` whose copy ends as
      `copy` says. */
  datatype Source = OpenThrows | OpenNull | Opened(data: seq<byte>, copy: CopyOutcome)

  /** PDDocument.load(), PDFTextStripper.getText() and PDDocument.close(): an
      exception from any of the three, or the raw text of the document. */
  datatype Extraction = ExtractThrows | Extracted(raw: string)

  /** The name of the one cache file, cacheDir/selected.pdf. */
  const CacheFileName: string := "selected.pdf"

  /** The utterance id of every speak request. */
  const UtteranceId: string := "pdf_read"

  /** copyToCache() ends in an exception, so it returns null. */
  predicate CopyFails(source: Source) {
    source.OpenThrows? || (source.Opened? && source.copy.CopyThrows?)
  }

  /** The content of the cache file after copyToCache(): a completed copy
      replaces it with the stream's bytes, a failed copy leaves whatever was
      written, and a stream that throws on opening or is null leaves it as it
      was. Only a stream that opened can change the file, and a completed
      copy leaves exactly the stream's bytes. */
  function SlotAfterCopy(slot: Option<seq<byte>>, source: Source): (r: Option<seq<byte>>)
    ensures r != slot ==> source.Opened?
    ensures !CopyFails(source) && source.Opened? ==> r == Some(source.data)
  {
    match source
    case OpenThrows => slot
    case OpenNull => slot
    case Opened(data, CopyCompletes) => Some(data)
    case Opened(_, CopyThrows(leftover)) => leftover
  }

  /** Loading the cache file: a file that does not exist makes load() throw;
      otherwise the PDF library, given as `extract`, decides on the file's
      bytes. */
  function Load(slot: Option<seq<byte>>, extract: seq<byte> -> Extraction): (e: Extraction)
    ensures slot.None? ==> e.ExtractThrows?
    ensures slot.Some? ==> e == extract(slot.value)
  {
    if slot.Some? then extract(slot.value) else ExtractThrows
  }

  /** Where one run of readPdf() stops. */
  datatype RunOutcome = CopyFailed | ExtractFailed | NoReadableText | Spoken(text: string)

  /** The stage at which readPdf() stops, given the cache content before the
      run, the picked source and the PDF library. It is the reference that the
      imperative MainActivity.ReadPdf is proved against. A run stops at the
      copy exactly when the copy throws, and text that reaches the speak step
      is non-empty and already trimmed. */
  function Outcome(slot: Option<seq<byte>>, source: Source, extract: seq<byte> -> Extraction): (o: RunOutcome)
    ensures o.CopyFailed? <==> CopyFails(source)
    ensures o.Spoken? ==> o.text != [] && Trim(o.text) == o.text
  {
    if CopyFails(source) then CopyFailed
    else
      match Load(SlotAfterCopy(slot, source), extract)
      case ExtractThrows => ExtractFailed
      case Extracted(raw) =>
        var text := Trim(raw);
        TrimIdempotent(raw);
        TrimmedBlankIffEmpty(raw);
        if IsBlank(text) then NoReadableText else Spoken(text)
  }

  /** Which stage a run stops at, stated against the stages themselves: the
      copy exactly when it throws, extraction exactly when load or getText
      throws, the blank check exactly when the raw text is blank (before
      trimming); otherwise the trimmed raw text is spoken, and it is non-empty
      with no whitespace at either end. */
  lemma OutcomeStages(slot: Option<seq<byte>>, source: Source, extract: seq<byte> -> Extraction)
    ensures var o := Outcome(slot, source, extract);
            var loaded := Load(SlotAfterCopy(slot, source), extract);
            (o.CopyFailed? <==> CopyFails(source)) &&
            (o.ExtractFailed? <==> !CopyFails(source) && loaded.ExtractThrows?) &&
            (o.NoReadableText? <==> !CopyFails(source) && loaded.Extracted? && IsBlank(loaded.raw)) &&
            (o.Spoken? ==> loaded.Extracted? && o.text == Trim(loaded.raw) &&
                           o.text != [] && !IsWhitespace(o.text[0]) && !IsWhitespace(o.text[|o.text| - 1]))
  {
    var loaded := Load(SlotAfterCopy(slot, source), extract);
    if !CopyFails(source) && loaded.Extracted? {
      var text := Trim(loaded.raw);
      BlankIffTrimsToEmpty(loaded.raw);
      TrimmedBlankIffEmpty(loaded.raw);
      assert IsBlank(text) <==> IsBlank(loaded.raw);
      if text != [] {
        assert Outcome(slot, source, extract) == Spoken(text);
      }
    }
  }

  /** The status a run leaves on screen: Done exactly when the text reached
      the speak step, Error for every earlier stop; never Idle or Loading. */
  function FinalStatus(o: RunOutcome): (s: Status)
    ensures s == Done <==> o.Spoken?
    ensures s == Done || s == Error
  {
    if o.Spoken? then Done else Error
  }

  /** The engine calls a run makes: one flushing speak of the trimmed text when
      the run got that far and the engine exists, none otherwise. */
  function SpeechCalls(o: RunOutcome, hasTts: bool): (calls: seq<EngineCall>)
    ensures |calls| <= 1
    ensures calls != [] <==> o.Spoken? && hasTts
    ensures calls != [] ==> calls[0] == Speak(o.text, QueueFlush, UtteranceId)
  {
    if o.Spoken? && hasTts then [Speak(o.text, QueueFlush, UtteranceId)] else []
  }

  /** A speak request the activity can make: validated text (non-empty and
      already trimmed), QUEUE_FLUSH and the utterance id "pdf_read". */
  predicate ValidRequest(c: EngineCall) {
    c.Speak? ==> c.text != [] && Trim(c.text) == c.text && c.queueMode == QueueFlush && c.utteranceId == UtteranceId
  }

  /** Every speak request in an engine log is one the activity can make. */
  predicate RequestsValid(calls: seq<EngineCall>) {
    forall i :: 0 <= i < |calls| ==> ValidRequest(calls[i])
  }

  /** Only validated text reaches the engine: whatever a run appends to a log
      of valid requests leaves it valid. */
  lemma RunKeepsRequestsValid(calls: seq<EngineCall>, slot: Option<seq<byte>>, source: Source,
                              extract: seq<byte> -> Extraction, hasTts: bool)
    requires RequestsValid(calls)
    ensures RequestsValid(calls + SpeechCalls(Outcome(slot, source, extract), hasTts))
  {
    var o := Outcome(slot, source, extract);
    if o.Spoken? && hasTts {
      OutcomeStages(slot, source, extract);
      TrimIdempotent(Load(SlotAfterCopy(slot, source), extract).raw);
      assert ValidRequest(Speak(o.text, QueueFlush, UtteranceId));
    }
  }

  /** A run whose copy throws ends in Error before any extraction: its
      outcome is the same whatever the PDF library would have done, and the
      engine is not called. */
  lemma CopyFailureSkipsExtraction(slot: Option<seq<byte>>, source: Source,
                                   extract: seq<byte> -> Extraction, other: seq<byte> -> Extraction, hasTts: bool)
    requires CopyFails(source)
    ensures Outcome(slot, source, extract) == Outcome(slot, source, other) == CopyFailed
    ensures FinalStatus(Outcome(slot, source, extract)) == Error
    ensures SpeechCalls(Outcome(slot, source, extract), hasTts) == []
  {
  }

  /** copyToCache() returns the file unless something throws, and a null
      stream leaves the cache file untouched: the run then reads whatever an
      earlier run left there. After a completed copy of `data`, a pick whose
      stream is null ends exactly as that earlier pick did. */
  lemma NullStreamRereadsStaleCopy(slot: Option<seq<byte>>, data: seq<byte>, extract: seq<byte> -> Extraction)
    ensures !CopyFails(OpenNull) && SlotAfterCopy(slot, OpenNull) == slot
    ensures var earlier := Opened(data, CopyCompletes);
            Outcome(SlotAfterCopy(slot, earlier), OpenNull, extract) == Outcome(slot, earlier, extract)
  {
  }

  /** A completed copy leaves the cache file equal to the stream, whatever it
      held before; and copying the same source twice gives the same file as
      copying it once. */
  lemma CopyReplacesSlot(slot: Option<seq<byte>>, other: Option<seq<byte>>, source: Source)
    ensures source.Opened? && source.copy.CopyCompletes? ==>
              SlotAfterCopy(slot, source) == SlotAfterCopy(other, source) == Some(source.data)
    ensures SlotAfterCopy(SlotAfterCopy(slot, source), source) == SlotAfterCopy(slot, source)
  {
  }

  /** An extraction that throws ends the run in Error without speaking. */
  lemma ExtractFailureIsError(slot: Option<seq<byte>>, source: Source, extract: seq<byte> -> Extraction, hasTts: bool)
    requires !CopyFails(source) && Load(SlotAfterCopy(slot, source), extract) == ExtractThrows
    ensures FinalStatus(Outcome(slot, source, extract)) == Error
    ensures SpeechCalls(Outcome(slot, source, extract), hasTts) == []
  {
  }

  /** A document whose text is blank (empty or whitespace only) ends the run
      in Error and is never spoken. */
  lemma BlankTextIsNeverSpoken(slot: Option<seq<byte>>, source: Source, extract: seq<byte> -> Extraction,
                               raw: string, hasTts: bool)
    requires !CopyFails(source) && Load(SlotAfterCopy(slot, source), extract) == Extracted(raw)
    requires IsBlank(raw)
    ensures Outcome(slot, source, extract) == NoReadableText
    ensures FinalStatus(Outcome(slot, source, extract)) == Error
    ensures SpeechCalls(Outcome(slot, source, extract), hasTts) == []
  {
  }

  /** A document with non-blank text ends the run in Done; with an engine,
      exactly one request is made: the trimmed text, QUEUE_FLUSH, "pdf_read".
      Without one, nothing is spoken and the run still ends in Done. */
  lemma ReadableTextIsSpoken(slot: Option<seq<byte>>, source: Source, extract: seq<byte> -> Extraction,
                             raw: string, hasTts: bool)
    requires !CopyFails(source) && Load(SlotAfterCopy(slot, source), extract) == Extracted(raw)
    requires !IsBlank(raw)
    ensures Outcome(slot, source, extract) == Spoken(Trim(raw))
    ensures FinalStatus(Outcome(slot, source, extract)) == Done
    ensures SpeechCalls(Outcome(slot, source, extract), hasTts) ==
              if hasTts then [Speak(Trim(raw), QueueFlush, UtteranceId)] else []
  {
  }

  class MainActivity {
    /** The status line. */
    var status: Status
    /** Every status the activity has written, oldest first. */
    ghost var shown: seq<Status>
    /** The cache file cacheDir/selected.pdf: None while it does not exist. */
    var cache: Option<seq<byte>>
    /** tts != null. */
    var hasTts: bool
    /** The calls made on the engine, oldest first. */
    var ttsCalls: seq<EngineCall>

    /** The status line shows the last status written, or the initial text;
        and every speak request made so far carries validated text. */
    ghost predicate Valid()
      reads this
    {
      (status == if shown == [] then Idle else shown[|shown| - 1]) &&
      RequestsValid(ttsCalls)
    }

    /** A fresh activity: no engine yet, nothing spoken, and a cache file that
        may survive from an earlier launch. */
    constructor (cached: Option<seq<byte>>)
      ensures Valid() && status == Idle && shown == []
      ensures cache == cached && !hasTts && ttsCalls == []
    {
      status := Idle;
      shown := [];
      cache := cached;
      hasTts := false;
      ttsCalls := [];
    }

    /** onCreate(): the engine is created. */
    method OnCreate()
      requires Valid()
      modifies this`hasTts
      ensures Valid() && hasTts
    {
      hasTts := true;
    }

    /** onDestroy(): stop, then shut down, an engine that exists. */
    method OnDestroy()
      requires Valid()
      modifies this`ttsCalls
      ensures Valid()
      ensures ttsCalls == old(ttsCalls) + (if hasTts then [Stop, Shutdown] else [])
    {
      if hasTts {
        ttsCalls := ttsCalls + [Stop];
        ttsCalls := ttsCalls + [Shutdown];
      }
    }

    /** onInit(): on Success, ask for es_ES and fall back to es when the engine
        answers that es_ES is missing data or not supported. Without an engine,
        `tts?.setLanguage` yields null and nothing is called. */
    method OnInit(initStatus: int, spainResult: int)
      requires Valid()
      modifies this`ttsCalls
      ensures Valid()
      ensures ttsCalls == old(ttsCalls) + (if hasTts then LanguageCalls(initStatus, spainResult) else [])
    {
      if initStatus == Success {
        var result: Option<int> := None;
        if hasTts {
          ttsCalls := ttsCalls + [SetLanguage(SpainSpanish)];
          result := Some(spainResult);
        }
        if result == Some(LangMissingData) || result == Some(LangNotSupported) {
          ttsCalls := ttsCalls + [SetLanguage(Spanish)];
        }
      }
    }

    /** Writes the status line. */
    method SetStatus(s: Status)
      requires Valid()
      modifies this`status, this`shown
      ensures Valid() && status == s && shown == old(shown) + [s]
    {
      status := s;
      shown := shown + [s];
    }

    /** copyToCache(): returns the cache file unless an exception is thrown,
        in which case it returns null. */
    method CopyToCache(source: Source) returns (file: Option<string>)
      modifies this`cache
      ensures file.None? <==> CopyFails(source)
      ensures file.Some? ==> file.value == CacheFileName
      ensures cache == SlotAfterCopy(old(cache), source)
    {
      match source {
        case OpenThrows =>
          file := None;
        case OpenNull =>
          file := Some(CacheFileName);
        case Opened(data, copy) =>
          match copy {
            case CopyCompletes =>
              cache := Some(data);
              file := Some(CacheFileName);
            case CopyThrows(leftover) =>
              cache := leftover;
              file := None;
          }
      }
    }

    /** readPdf(): copy, load and trim, reject blank text, speak; the first
        failure writes Error and returns. Exactly one status is written. */
    method ReadPdf(source: Source, extract: seq<byte> -> Extraction)
      requires Valid()
      modifies this`status, this`shown, this`cache, this`ttsCalls
      ensures Valid()
      ensures cache == SlotAfterCopy(old(cache), source)
      ensures shown == old(shown) + [FinalStatus(Outcome(old(cache), source, extract))]
      ensures ttsCalls == old(ttsCalls) + SpeechCalls(Outcome(old(cache), source, extract), hasTts)
    {
      var tempFile := CopyToCache(source);
      if tempFile.None? {
        SetStatus(Error);
        return;
      }

      var loaded := Load(cache, extract);
      if loaded.ExtractThrows? {
        SetStatus(Error);
        return;
      }
      var text := Trim(loaded.raw);

      if IsBlank(text) {
        SetStatus(Error);
        return;
      }

      if hasTts {
        ttsCalls := ttsCalls + [Speak(text, QueueFlush, UtteranceId)];
      }
      SetStatus(Done);
    }

    /** The pick callback: a null uri changes nothing; otherwise the status
        shows Loading and the document is read. */
    method PickPdf(uri: Option<Source>, extract: seq<byte> -> Extraction)
      requires Valid()
      modifies this`status, this`shown, this`cache, this`ttsCalls
      ensures Valid()
      ensures uri.None? ==>
                status == old(status) && shown == old(shown) && cache == old(cache) && ttsCalls == old(ttsCalls)
      ensures uri.Some? ==>
                var o := Outcome(old(cache), uri.value, extract);
                shown == old(shown) + [Loading, FinalStatus(o)] &&
                cache == SlotAfterCopy(old(cache), uri.value) &&
                ttsCalls == old(ttsCalls) + SpeechCalls(o, hasTts)
    {
      if uri.Some? {
        SetStatus(Loading);
        ReadPdf(uri.value, extract);
      }
    }
  }
}

/** The worked example of a document whose text layer reads
    "  Hello world  ". */
module ReadPdfScenarios {
  import opened Text
  import opened Speech
  import opened ReadPdf

  /** "  Hello world  " starts with two blanks. */
  lemma HelloWorldLeading()
    ensures LeadingWhitespace("  Hello world  ") == 2
  {
    var s0, s1, s2 := "  Hello world  ", " Hello world  ", "Hello world  ";
    assert IsWhitespace(' ') && !IsWhitespace('H');
    assert s0[0] == ' ' && s0[1..] == s1;
    assert s1[0] == ' ' && s1[1..] == s2;
    assert s2[0] == 'H';
  }

  /** "Hello world  " ends with two blanks. */
  lemma HelloWorldTrailing()
    ensures TrailingWhitespace("Hello world  ") == 2
  {
    var s2, e1, e2 := "Hello world  ", "Hello world ", "Hello world";
    assert IsWhitespace(' ') && !IsWhitespace('d');
    assert s2[|s2| - 1] == ' ' && s2[..|s2| - 1] == e1;
    assert e1[|e1| - 1] == ' ' && e1[..|e1| - 1] == e2;
    assert e2[|e2| - 1] == 'd';
  }

  /** Raw text "  Hello world  " is spoken as "Hello world". */
  lemma HelloWorldIsTrimmed()
    ensures Trim("  Hello world  ") == "Hello world"
  {
    HelloWorldLeading();
    assert "  Hello world  "[2..] == "Hello world  ";
    HelloWorldTrailing();
    assert "Hello world  "[..11] == "Hello world";
  }

  /** A document whose extracted text is "  Hello world  " ends the run in
      Done, spoken as "Hello world" with QUEUE_FLUSH and "pdf_read". */
  lemma HelloWorldRun(slot: Option<seq<byte>>, source: Source, extract: seq<byte> -> Extraction)
    requires !CopyFails(source) && Load(SlotAfterCopy(slot, source), extract) == Extracted("  Hello world  ")
    ensures Outcome(slot, source, extract) == Spoken("Hello world")
    ensures FinalStatus(Outcome(slot, source, extract)) == Done
    ensures SpeechCalls(Outcome(slot, source, extract), true) == [Speak("Hello world", QueueFlush, "pdf_read")]
  {
    HelloWorldIsTrimmed();
    assert !IsBlank("  Hello world  ") by {
      assert "  Hello world  "[2] == 'H' && !IsWhitespace('H');
    }
  }
}
