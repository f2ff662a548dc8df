# Hybrid offline/online voice chatbot: decision core in Dafny

This project models the decision logic of the hybrid voice assistant
script `offline_online_whisper_flask_chatbot.py` and proves properties of it:

- **Response resolver** (`get_bot_response`). The input is lower-cased. The
  `chat_memory` table is searched for a stored input that contains the query.
  On a hit, that row's stored response is returned and nothing is written.
  On a miss, an ordered keyword rule table answers, and the exchange is
  appended to the table.
- **Memory table.** This is an append-only log of `(id, user_input,
  bot_response)` rows. SQLite `AUTOINCREMENT` assigns the ids: the first is
  1 and each new one is one more than the last. It appears twice: as a
  value (`Memory.Memory`, with the pure exchange `Memory.Respond`) and as
  the live object the script updates in place (`Memory.MemoryStore`, whose
  methods are proved against the value model).
- **Transcript reconciliation** (the `try` block of `recognize_speech`).
  The local Whisper result, the connectivity probe, the API key and the
  online transcription outcome are all inputs. The chosen text is the
  stripped online text when it is non-empty and differs from the stripped
  local text ignoring case; otherwise it is the stripped local text. The
  language always comes from the local result, defaulting to "en". An
  exception gives `("", "en")`.
- **Input guards** of `handle_voice_input` and `handle_text_input`. An
  empty transcript, or a typed entry that is blank after stripping, never
  reaches the resolver, so nothing is written.
- The `%I:%M %p` time of the time reply, as defined for `strftime` in
  section 7.27.3.5 of ISO/IEC 9899:2011: a 12-hour clock 01-12, zero-padded
  minutes, and "AM" or "PM".

Files: `wrappers.dfy` (Option), `text.dfy` (Python's `lower`, `strip` and
`in` on strings), `clock.dfy`, `rules.dfy`, `memory.dfy`,
`transcription.dfy` and `handlers.dfy`.

Modelling notes:

- The recall query (lines 109-110) has no `ORDER BY`, so SQLite promises
  no order among several matching rows. The model takes the first match
  in insertion order.
- The current time (`datetime.now()`) is passed in as `hour` (0-23) and
  `minute` (0-59).
- An exception from the online call is not caught on its own. That call
  (lines 75-77) sits inside the same `try` as everything else, so an
  exception there reaches the `except` at line 89, and the result is
  `("", "en")`, not the local transcript
  (`Transcription.ReconcileFailure`).

## Model

| member | source | states |
|---|---|---|
| Text.Lower | offline_online_whisper_flask_chatbot.py:105 | `lower()` keeps the length and case-folds every character position by position |
| Text.LowerIdempotent | offline_online_whisper_flask_chatbot.py:105 | lower-casing an already lower-cased input changes nothing, so a stored input matches its own query again |
| Text.Contains | offline_online_whisper_flask_chatbot.py:109-115 | Python `in` on strings and the `LIKE '%q%'` test; no `ensures` of its own, its meaning is stated by `Text.ContainsIff`: it holds exactly when the pattern occurs at some index |
| Text.ContainsIff | offline_online_whisper_flask_chatbot.py:109 | the substring test used for `LIKE '%q%'` and for `in` holds exactly when the pattern occurs at some index |
| Text.ContainsAntisymmetric | offline_online_whisper_flask_chatbot.py:109 | two strings that contain each other are equal, so a proper superstring is never contained in a shorter string |
| Text.Strip | offline_online_whisper_flask_chatbot.py:69 | `strip()` gives the slice of the input left after cutting off a whitespace prefix and a whitespace suffix; it neither starts nor ends with whitespace, and it is empty exactly when the input is all whitespace |
| Text.StripUnchanged | offline_online_whisper_flask_chatbot.py:69 | a non-empty text that neither starts nor ends with whitespace is unchanged by `strip()` |
| Text.StripIdempotent | offline_online_whisper_flask_chatbot.py:77 | stripping a stripped text changes nothing |
| Clock.Hour12 | offline_online_whisper_flask_chatbot.py:120 | `%I` lies in 1..12 and agrees with the 24-hour hour modulo 12 |
| Clock.FormatTime | offline_online_whisper_flask_chatbot.py:120 | `%I:%M %p` has 8 characters: two digits, a colon, two digits, a space, then "AM" exactly before noon and "PM" otherwise |
| Clock.ParseFormat | offline_online_whisper_flask_chatbot.py:120 | the time can be read back from its rendering: parsing the rendering gives the original hour and minute |
| Clock.FormatInjective | offline_online_whisper_flask_chatbot.py:120 | different times of day never render alike |
| Clock.FormatMidnightNoon | offline_online_whisper_flask_chatbot.py:120 | hour 0 renders as 12 AM and hour 12 as 12 PM |
| Clock.FormatMorning | offline_online_whisper_flask_chatbot.py:120 | a morning hour below 10 is zero-padded, as in 09:30 AM |
| Clock.FormatAfternoon | offline_online_whisper_flask_chatbot.py:120 | hour 13 renders as 01 PM and hour 23 as 11 PM |
| Rules.FirstMatchingIsFirst | offline_online_whisper_flask_chatbot.py:115-126 | an ordered rule table picks an entry whose keyword occurs and no earlier entry matches; the fallback is picked exactly when no entry matches |
| Rules.Classify | offline_online_whisper_flask_chatbot.py:115-126 | the `if`/`elif` chain that picks the rule; no `ensures` of its own, its meaning is stated by `Rules.ClassifyIsFirstMatch`: the first rule in source order whose keyword occurs, else the fallback |
| Rules.ClassifyIsFirstMatch | offline_online_whisper_flask_chatbot.py:115-126 | the if/elif chain is the first-match reading of the table hello/hi, "your name", "time", "bye", "thank", then fallback |
| Rules.Reply | offline_online_whisper_flask_chatbot.py:116-126 | the reply literal of each rule and the time reply of line 120; no `ensures` of its own, its meaning is stated by `Rules.ReplyNamesRule` and `Rules.ReplyInjective`: each reply names its rule and the time reply names its time |
| Rules.RuleResponse | offline_online_whisper_flask_chatbot.py:115-126 | the reply the chain gives for a lower-cased input; no `ensures` of its own, its meaning is stated by `Rules.ClassifyIsFirstMatch` and `Rules.ReplyNamesRule`: the reply of the first matching rule |
| Rules.ReplyNamesRule | offline_online_whisper_flask_chatbot.py:115-126 | the rule that produced a reply can be read back from the reply |
| Rules.ReplyInjective | offline_online_whisper_flask_chatbot.py:115-126 | the six replies are pairwise different and the time reply determines the time it shows |
| Rules.GreetingBeforeTime | offline_online_whisper_flask_chatbot.py:115-120 | "this time" gets the greeting, not the time reply, because "hi" occurs in it and the greeting rule comes first |
| Memory.FirstMatchFrom | offline_online_whisper_flask_chatbot.py:109-110 | the index returned is of a matching row with no matching row before it; none means no row matches |
| Memory.Recalled | offline_online_whisper_flask_chatbot.py:109-112 | recall finds something exactly when some stored input contains the query |
| Memory.Append | offline_online_whisper_flask_chatbot.py:129-130 | the `INSERT` adds exactly one row with the given input and response after the unchanged earlier rows, under an id above every id in the table, as the `AUTOINCREMENT` key of line 26 hands out, and keeps the table invariant |
| Memory.Respond | offline_online_whisper_flask_chatbot.py:104-131 | an exchange keeps the table invariant, keeps every stored input outside the inputs stored before it, never changes or removes earlier rows, and adds at most one row |
| Memory.RespondHit | offline_online_whisper_flask_chatbot.py:109-112 | on a hit the stored response of the first matching row is returned and the table is left unchanged |
| Memory.RespondMiss | offline_online_whisper_flask_chatbot.py:114-131 | on a miss the rule response is returned, and exactly one row is appended with the lower-cased input, that response and an id above every existing id |
| Memory.RespondWritesIffMiss | offline_online_whisper_flask_chatbot.py:109-131 | the table is left unchanged exactly when some stored input contains the lower-cased query |
| Memory.RespondTwice | offline_online_whisper_flask_chatbot.py:104-131 | repeating an input straight after the first exchange returns the same response, at any time, and writes no duplicate row |
| Memory.RecallSurvivesExchange | offline_online_whisper_flask_chatbot.py:109-131 | once a query has a first matching row, every later exchange leaves that row in place and it stays the first match |
| Memory.RepeatAfterOther | offline_online_whisper_flask_chatbot.py:104-131 | repeating an input after any other exchange in between still returns the first response, at any time, and writes nothing |
| Memory.StoredInputRecallsItsResponse | offline_online_whisper_flask_chatbot.py:104-112 | in a table built by exchanges, every stored input gets its own stored response back, at any time, and nothing is written |
| Memory.StoredResponseNamesRule | offline_online_whisper_flask_chatbot.py:115-131 | the response stored on a miss records which rule of the table produced it |
| Memory.SuperstringMisses | offline_online_whisper_flask_chatbot.py:109 | a query that is a proper superstring of the only stored input does not recall it, and a row is appended |
| Memory.RecallExample | offline_online_whisper_flask_chatbot.py:105-112 | with "pizza" stored, the input "Pizza" replays the stored answer and writes nothing |
| Memory.FreshGreeting | offline_online_whisper_flask_chatbot.py:114-131 | on an empty table, an input containing "hello" gets the greeting and is stored lower-cased with id 1 |
| Memory.MemoryStore.constructor | offline_online_whisper_flask_chatbot.py:22-32 | a freshly created table is empty, will hand out id 1 first, and trivially has no stored input inside an earlier one |
| Memory.MemoryStore.Recall | offline_online_whisper_flask_chatbot.py:109-110 | the scan returns a response exactly when some row matches, and then it is the response of the first matching row |
| Memory.MemoryStore.Insert | offline_online_whisper_flask_chatbot.py:129-130 | the insert appends one row under the next id, which is above every existing id, and keeps the invariant |
| Memory.MemoryStore.Resolve | offline_online_whisper_flask_chatbot.py:104-131 | the new table and the response are exactly those of the value-level exchange `Respond`; the table invariant and the no-input-inside-an-earlier-one property are kept |
| Transcription.LanguageOf | offline_online_whisper_flask_chatbot.py:70 | the language is the one the local result reports, or "en" when it reports none |
| Transcription.KeyPresent | offline_online_whisper_flask_chatbot.py:73 | the truthiness of `openai.api_key`: set and not empty; no `ensures` of its own, its meaning is stated by `Transcription.ReconcileOffline`: without a key the online outcome is never used |
| Transcription.Consulted | offline_online_whisper_flask_chatbot.py:73 | the guard `internet_connected() and openai.api_key`; no `ensures` of its own, its meaning is stated by `Transcription.ReconcileTieBreak` and `Transcription.ReconcileOffline`: the online text can be chosen only when it holds |
| Transcription.PrefersOnline | offline_online_whisper_flask_chatbot.py:78 | the tie-break: a non-empty stripped online text that differs ignoring case; no `ensures` of its own, its meaning is stated by `Transcription.ReconcileTieBreak`: the online text is chosen exactly when the service is consulted and this holds |
| Transcription.Reconcile | offline_online_whisper_flask_chatbot.py:67-91 | the result is always stripped. It is either `("", "en")`, or the local language with the stripped local text, or the local language with the stripped online text when the service was consulted |
| Transcription.ReconcileTieBreak | offline_online_whisper_flask_chatbot.py:73-84 | the online text is chosen exactly when the service is consulted and its stripped text is non-empty and differs ignoring case; otherwise the local text is chosen, and the language is always the local one |
| Transcription.ReconcileFailure | offline_online_whisper_flask_chatbot.py:89-91 | a local failure, or an online failure once the service is consulted, gives exactly `("", "en")` |
| Transcription.ReconcileOffline | offline_online_whisper_flask_chatbot.py:73-84 | when offline or without a key, the online outcome does not matter and the stripped local text is returned |
| Transcription.ReconcileAgreement | offline_online_whisper_flask_chatbot.py:78-82 | when both candidates agree ignoring case, the local text is kept with its own letter case |
| Transcription.OnlineCorrection | offline_online_whisper_flask_chatbot.py:73-80 | with the service consulted, an already stripped, non-empty online text whose length differs from the local text replaces it, and the local language is kept |
| Transcription.CorrectionExample | offline_online_whisper_flask_chatbot.py:78-80 | local "hello wrld" with online "hello world" gives `("hello world", "en")` |
| Handlers.VoiceQuery | offline_online_whisper_flask_chatbot.py:136-137 | an empty transcript is dropped; any other text is passed on unchanged |
| Handlers.TextQuery | offline_online_whisper_flask_chatbot.py:146-147 | a typed entry is dropped exactly when it is all whitespace; otherwise its stripped form is passed on |
| Handlers.FailedVoiceNotResolved | offline_online_whisper_flask_chatbot.py:89-91 | a failed transcription never reaches the resolver |
| Handlers.BlankVoiceNotResolved | offline_online_whisper_flask_chatbot.py:134-137 | an all-whitespace local transcript, when offline, never reaches the resolver |
| Handlers.HandleVoiceInput | offline_online_whisper_flask_chatbot.py:134-139 | an empty transcript gives no reply and leaves the table unchanged; otherwise the reply and the new table are those of `Respond` on the transcript |
| Handlers.HandleTextInput | offline_online_whisper_flask_chatbot.py:145-151 | a blank entry gives no reply and leaves the table unchanged; otherwise the reply and the new table are those of `Respond` on the stripped entry |

## Left out

- Text.Lower: folds only the ASCII letters A-Z. Python's `str.lower()` also folds other Unicode letters (and can change the length), and that is not modelled. This changes two results for non-ASCII letters. The tie-break (`Transcription.PrefersOnline`) differs: with local "École" and online "école", the program keeps "École", while the model picks "école". Recall in `Memory.Respond` also distinguishes upper- and lower-case non-ASCII letters that the program folds together.
- Memory.Append and Memory.MemoryStore.Insert always succeed. In the program, `cursor.execute` and `conn.commit` (lines 109 and 129-130) can raise `sqlite3.Error`. Nothing catches it, so the handler ends with no reply, and a failed insert writes no row. Ids are unbounded integers here, while `AUTOINCREMENT` fails with SQLITE_FULL once the largest id reaches 2^63-1. Neither storage failure nor the id ceiling is modelled.
- The `LIKE` operator treats `%` and `_` typed in the query as wildcards, and folds case for ASCII only. Recall is modelled as a plain substring test on text that is already lower-cased.
- The `timestamp` column default and the durability of `commit` are not modelled. The store starts empty; reopening a database that already holds rows is not modelled.
- Tkinter window construction and the chat-window updates are user interface and are not modelled.
- Concurrency is not modelled. Each voice exchange runs on a thread of its own (line 180), while a typed exchange runs on the Tk thread, and both use the one shared `cursor` (lines 22-23, opened with `check_same_thread=False`). A `fetchone` (line 110) can then read the result of the other exchange's `SELECT`, and two overlapping misses can both append a row. The model runs exchanges one after another, so `Memory.RecallFresh`, `Memory.StoredInputRecallsItsResponse`, `Memory.RespondTwice` and `Memory.RepeatAfterOther` hold only for exchanges that do not overlap.
- Microphone capture and the temporary WAV file are I/O. The mean downmix and the `librosa` resampling are floating-point numerics. Neither is modelled.
- The local Whisper model, the online `transcriptions.create` call and the `internet_connected` probe are foreign or network calls. Their outcomes are inputs (`Outcome`, `connected`, `apiKey`).
- Speech output through `pyttsx3`, including the choice of voice by language in `speak`, is a side effect and is not modelled.
- `datetime.now()` is a clock. The hour and minute are parameters, and `%p` is taken in the "C" locale ("AM"/"PM").
