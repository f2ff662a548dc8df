/** The reconciliation step of `recognize_speech`
    (offline_online_whisper_flask_chatbot.py, lines 67-91): the local
    Whisper transcript is taken as given, optionally checked against the
    online transcription service, and one text and one language are
    returned. Every call into the audio stack, the local model, the
    connectivity probe and the online service is an input here. */
module Transcription {
  import opened Wrappers
  import opened Text

  /** The outcome of a call that may raise an exception. */
  datatype Outcome<T> = Returned(value: T) | Raised

  /** What the local model yields: its text and, when it reports one,
      the detected language. */
  datatype LocalResult = LocalResult(text: string, language: Option<string>)

  /** The pipeline's answer: the text to act on and its language. */
  datatype Transcript = Transcript(text: string, language: string)

  /** What the `except` branch returns: no text, language "en". */
  const NoTranscript := Transcript("", "en")

  /** The language attached to a local result, "en" when none is given. */
  function LanguageOf(res: LocalResult): (lang: string)
    ensures res.language.None? ==> lang == "en"
    ensures res.language.Some? ==> lang == res.language.value
  {
    res.language.GetOr("en")
  }

  /** `openai.api_key` is truthy: set and not empty. */
  predicate KeyPresent(apiKey: Option<string>) {
    apiKey.Some? && apiKey.value != ""
  }

  /** The tie-break of line 78: the stripped online text replaces the
      stripped local text when it is non-empty and differs from it
      ignoring case. */
  predicate PrefersOnline(localText: string, onlineText: string) {
    Strip(onlineText) != "" && Lower(Strip(onlineText)) != Lower(Strip(localText))
  }

  /** The online service is consulted only when connected and a key is
      set (line 73). */
  predicate Consulted(connected: bool, apiKey: Option<string>) {
    connected && KeyPresent(apiKey)
  }

  /** The answer of `recognize_speech` given the outcomes of the local
      transcription, the connectivity probe, the key and the online call.
      An exception anywhere in the `try` block, the online call included,
      ends in `NoTranscript`. The result is one of the two candidates,
      stripped, or the empty sentinel; never a blend. */
  function Reconcile(local: Outcome<LocalResult>, connected: bool, apiKey: Option<string>,
                     online: Outcome<string>): (t: Transcript)
    ensures Strip(t.text) == t.text
    ensures t == NoTranscript
            || (local.Returned? && t.language == LanguageOf(local.value)
                && (t.text == Strip(local.value.text)
                    || (Consulted(connected, apiKey) && online.Returned? && t.text == Strip(online.value))))
  {
    match local
    case Raised => NoTranscript
    case Returned(res) =>
      StripIdempotent(res.text);
      var textLocal := Strip(res.text);
      var lang := LanguageOf(res);
      if Consulted(connected, apiKey) then
        match online
        case Raised => NoTranscript
        case Returned(o) =>
          StripIdempotent(o);
          if PrefersOnline(res.text, o) then Transcript(Strip(o), lang)
          else Transcript(textLocal, lang)
      else Transcript(textLocal, lang)
  }

  /** The online text is chosen exactly when the service was consulted,
      answered, and its stripped text is non-empty and differs from the
      local text ignoring case; otherwise the stripped local text is kept.
      Either way the language is the local one. */
  lemma {:induction false} ReconcileTieBreak(res: LocalResult, connected: bool, apiKey: Option<string>, o: string)
    ensures var t := Reconcile(Returned(res), connected, apiKey, Returned(o));
      && t.language == LanguageOf(res)
      && (Consulted(connected, apiKey) && PrefersOnline(res.text, o) ==> t.text == Strip(o))
      && (!(Consulted(connected, apiKey) && PrefersOnline(res.text, o)) ==> t.text == Strip(res.text))
  {
  }

  /** Every failure gives exactly ("", "en"): a local failure, or an
      online failure once the service is consulted. */
  lemma ReconcileFailure(local: Outcome<LocalResult>, connected: bool, apiKey: Option<string>,
                         online: Outcome<string>)
    requires local.Raised? || (Consulted(connected, apiKey) && online.Raised?)
    ensures Reconcile(local, connected, apiKey, online) == Transcript("", "en")
  {
  }

  /** Offline, or without a key, the online outcome is irrelevant: the
      stripped local text and its language are returned. */
  lemma ReconcileOffline(res: LocalResult, connected: bool, apiKey: Option<string>,
                         o1: Outcome<string>, o2: Outcome<string>)
    requires !Consulted(connected, apiKey)
    ensures Reconcile(Returned(res), connected, apiKey, o1)
            == Reconcile(Returned(res), connected, apiKey, o2)
            == Transcript(Strip(res.text), LanguageOf(res))
  {
  }

  /** When both candidates agree ignoring case, the local text is kept
      with its own letter case. */
  lemma ReconcileAgreement(res: LocalResult, connected: bool, apiKey: Option<string>, o: string)
    requires Lower(Strip(o)) == Lower(Strip(res.text))
    ensures Reconcile(Returned(res), connected, apiKey, Returned(o))
            == Transcript(Strip(res.text), LanguageOf(res))
  {
  }

  /** An online text of a different length than the local one, both
      already stripped, replaces the local text. */
  lemma OnlineCorrection(localText: string, onlineText: string, lang: string)
    requires Strip(localText) == localText && Strip(onlineText) == onlineText
    requires onlineText != "" && |localText| != |onlineText|
    ensures Reconcile(Returned(LocalResult(localText, Some(lang))), true, Some("key"),
                      Returned(onlineText)) == Transcript(onlineText, lang)
  {
    assert Lower(Strip(onlineText)) != Lower(Strip(localText)) by {
      assert |Lower(onlineText)| != |Lower(localText)|;
    }
    assert Consulted(true, Some("key"));
    assert PrefersOnline(localText, onlineText);
    ReconcileTieBreak(LocalResult(localText, Some(lang)), true, Some("key"), onlineText);
  }

  /** A correction from the online service replaces the text and keeps
      the local language: "hello wrld" becomes "hello world". */
  lemma CorrectionExample(localText: string, onlineText: string)
    requires localText == "hello wrld" && onlineText == "hello world"
    ensures Reconcile(Returned(LocalResult(localText, Some("en"))), true, Some("key"),
                      Returned(onlineText)) == Transcript(onlineText, "en")
  {
    StripUnchanged(localText);
    StripUnchanged(onlineText);
    OnlineCorrection(localText, onlineText, "en");
  }
}
