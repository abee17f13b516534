/** The part of Android's TextToSpeech engine that the activity talks to: the
    constants it compares against, the locales it asks for, and the calls it
    makes, kept as a log. Audio playback itself is not modelled. */
module Speech {

  /** TextToSpeech.SUCCESS, the init status that reports a ready engine. */
  const Success: int := 0

  /** TextToSpeech.LANG_MISSING_DATA, a setLanguage() result. */
  const LangMissingData: int := -1

  /** TextToSpeech.LANG_NOT_SUPPORTED, a setLanguage() result. */
  const LangNotSupported: int := -2

  /** TextToSpeech.QUEUE_FLUSH: drop whatever is queued or playing. */
  const QueueFlush: int := 0

  /** java.util.Locale, by language and country (empty when not given). */
  datatype Locale = Locale(language: string, country: string)

  /** Locale("es", "ES"), the language asked for first. */
  const SpainSpanish: Locale := Locale("es", "ES")

  /** Locale("es"), the fallback. */
  const Spanish: Locale := Locale("es", "")

  /** One call on the engine, in the order the activity makes them. */
  datatype EngineCall =
    | Speak(text: string, queueMode: int, utteranceId: string)
    | SetLanguage(locale: Locale)
    | Stop
    | Shutdown

  /** setLanguage() answered that the locale cannot be used as it is. */
  predicate LanguageUnavailable(result: int) {
    result == LangMissingData || result == LangNotSupported
  }

  /** The calls onInit() makes on an engine that exists: nothing unless the
      engine reports Success; then es_ES, and es as well when es_ES is
      missing data or not supported. */
  function LanguageCalls(initStatus: int, spainResult: int): (calls: seq<EngineCall>)
    ensures initStatus != Success <==> calls == []
    ensures calls != [] ==> calls[0] == SetLanguage(SpainSpanish)
    ensures |calls| == 2 <==> initStatus == Success && LanguageUnavailable(spainResult)
    ensures |calls| == 2 ==> calls[1] == SetLanguage(Spanish)
    ensures |calls| <= 2
  {
    if initStatus != Success then []
    else if LanguageUnavailable(spainResult) then [SetLanguage(SpainSpanish), SetLanguage(Spanish)]
    else [SetLanguage(SpainSpanish)]
  }
}
