/** The two input handlers `handle_voice_input` and `handle_text_input`
    (offline_online_whisper_flask_chatbot.py, lines 134-154), without the
    chat window and the speech output: each passes its text to the
    resolver only when there is something to pass. */
module Handlers {
  import opened Wrappers
  import opened Text
  import opened Transcription
  import Memory

  /** The guard of lines 136-137: an empty transcript is dropped;
      anything else is handed on as it is. */
  function VoiceQuery(t: Transcript): (q: Option<string>)
    ensures q.None? <==> t.text == ""
    ensures q.Some? ==> q.value == t.text
  {
    if t.text == "" then None else Some(t.text)
  }

  /** The guard of lines 146-147: the entry is stripped, dropped when
      nothing but whitespace was typed, and otherwise handed on stripped. */
  function TextQuery(entry: string): (q: Option<string>)
    ensures q.None? <==> forall k :: 0 <= k < |entry| ==> IsSpace(entry[k])
    ensures q.Some? ==> q.value == Strip(entry) && Strip(q.value) == q.value
  {
    var s := Strip(entry);
    StripIdempotent(entry);
    if s == "" then None else Some(s)
  }

  /** A failed transcription never reaches the resolver. */
  lemma FailedVoiceNotResolved(local: Outcome<LocalResult>, connected: bool, apiKey: Option<string>,
                               online: Outcome<string>)
    requires local.Raised? || (Consulted(connected, apiKey) && online.Raised?)
    ensures VoiceQuery(Reconcile(local, connected, apiKey, online)) == None
  {
    ReconcileFailure(local, connected, apiKey, online);
  }

  /** A local transcript that is only whitespace, offline, never reaches
      the resolver either. */
  lemma BlankVoiceNotResolved(res: LocalResult, connected: bool, apiKey: Option<string>,
                              online: Outcome<string>)
    requires !Consulted(connected, apiKey)
    requires forall k :: 0 <= k < |res.text| ==> IsSpace(res.text[k])
    ensures VoiceQuery(Reconcile(Returned(res), connected, apiKey, online)) == None
  {
    ReconcileOffline(res, connected, apiKey, online, online);
  }

  /** `handle_voice_input`: transcribe (with the outcomes of the external
      calls as inputs), then resolve unless the transcript is empty.
      Returns the bot's reply, or `None` when nothing was resolved; in that
      case the memory is untouched. */
  method HandleVoiceInput(store: Memory.MemoryStore, local: Outcome<LocalResult>, connected: bool,
                          apiKey: Option<string>, online: Outcome<string>, hour: nat, minute: nat)
    returns (reply: Option<string>)
    requires store.Valid() && hour < 24 && minute < 60
    modifies store
    ensures store.Valid()
    ensures Memory.RecallFresh(old(store.State())) ==> Memory.RecallFresh(store.State())
    ensures var t := Reconcile(local, connected, apiKey, online);
      if t.text == "" then reply.None? && store.State() == old(store.State())
      else reply.Some? && (store.State(), reply.value) == Memory.Respond(old(store.State()), t.text, hour, minute)
  {
    var t := Reconcile(local, connected, apiKey, online);
    var q := VoiceQuery(t);
    if q.None? {
      return None;
    }
    var response := store.Resolve(q.value, hour, minute);
    reply := Some(response);
  }

  /** `handle_text_input`: strip the typed entry and resolve it unless it
      is blank. Returns the bot's reply, or `None` when nothing was
      resolved; in that case the memory is untouched. */
  method HandleTextInput(store: Memory.MemoryStore, entry: string, hour: nat, minute: nat)
    returns (reply: Option<string>)
    requires store.Valid() && hour < 24 && minute < 60
    modifies store
    ensures store.Valid()
    ensures Memory.RecallFresh(old(store.State())) ==> Memory.RecallFresh(store.State())
    ensures Strip(entry) == "" ==> reply.None? && store.State() == old(store.State())
    ensures Strip(entry) != "" ==>
      reply.Some? && (store.State(), reply.value) == Memory.Respond(old(store.State()), Strip(entry), hour, minute)
  {
    var q := TextQuery(entry);
    if q.None? {
      return None;
    }
    var response := store.Resolve(q.value, hour, minute);
    reply := Some(response);
  }
}
