# Kindlinho bot session model

Kindlinho is a private Telegram bot. Its owner sends it EPUB files and the bot
e-mails each one to a Kindle address. `/kindle` starts a sending session and
`/stop` ends it with a summary. A watchdog thread ends a session that has been
idle for two hours. The whole bot lives in `main.py`. Its core is the session
`state` dictionary and the handlers that change it under one lock:

- `titles.dfy` (module `Titles`) holds the file-name handling. This is the
  case-insensitive `.epub` test that gates uploads, and `prettify_title`, which
  turns a file name into the title shown in the confirmation reply. It is
  modelled with pure functions and lemmas. Whitespace is Python's `isspace` set,
  which both `\s` and `str.strip` use. `$` in `\.epub$` also matches just before
  a final newline, as it does in Python.
- `session_spec.dfy` (module `SessionSpec`) models `state` as a value
  (`SessionView`). It has one function per locked block, one function per
  handler, the watchdog tick, and runs of events. It also holds the properties
  the handlers promise. Its upload function `DocumentHandled`, which the event
  runs and the class use, is the corrected handler of the first finding below;
  `DocumentHandledAsWritten` is the handler as main.py writes it.
- `session.dfy` (module `Bot`) holds the class `Session`. Its fields are those of
  `state`. It has one method per locked block and one method per handler, which
  calls the block methods in the order the source does. Each method's `ensures`
  ties the new state and the reply to the matching `SessionSpec` function.

Time is an integer number of seconds passed in as `now`. The owner check
`only_owner` is `OnlyOwner(sender, ownerId)` over an optional sender id. The
outcomes of the download and of the e-mail are `Outcome` inputs. A reply is a
`Reply` value rather than a formatted text.

Two behaviours of the code are worth stating plainly:

- `/stop` clears the counters even when Kindle mode was already off
  (main.py:170-183).
- The watchdog's summary carries the three counts and not the error list
  (main.py:112-118).

## Model

| member | source | states |
|---|---|---|
| Titles.PrettifyTitle | main.py:60-67 | the title has no `_` or `-`, no leading or trailing whitespace, and every whitespace character is a single plain space |
| Titles.ReplaceSeparators | main.py:64 | each `_` and `-` becomes a space and every other character is kept, at the same position |
| Titles.HasEpubExtension | main.py:220 | defines the upload gate: the last five characters, lower-cased, are `.epub` |
| Titles.HasEpubExtensionCharwise | main.py:220 | the gate holds exactly when the name ends in a dot followed by e, p, u, b, each in either case |
| Titles.StripEpubExtension | main.py:62 | defines the removal of one final `.epub` in any case, also just before a final newline |
| Titles.Collapse | main.py:66 | defines `re.sub(r"\s+", " ", s)`: every maximal whitespace run becomes one space |
| Titles.Strip | main.py:66 | defines `str.strip()`: the leading and the trailing whitespace runs removed |
| Titles.LeadingSpaces | main.py:66 | the length of the leading whitespace run that `strip` removes on the left |
| Titles.KeptLength | main.py:66 | the length left after `strip` removes the trailing whitespace run |
| Titles.WordLength | main.py:66 | the length of the longest whitespace-free prefix |
| Titles.StripShape | main.py:66 | `strip` leaves text that neither starts nor ends with whitespace, and keeps single spacing and the absence of separators |
| Titles.CollapseShape | main.py:66 | `re.sub(r"\s+", " ")` gives empty text only for empty input, keeps the first character (a space for leading whitespace), yields single spacing and adds no separators |
| Titles.WordsAreWords | main.py:66 | every word split off is non-empty and free of whitespace |
| Titles.CollapseStripIsJoinedWords | main.py:66 | collapsing whitespace then stripping equals the whitespace-separated words joined by single spaces |
| Titles.PrettifyTitleIsJoinedWords | main.py:60-67 | the title is the words of the name, after the extension is removed and separators become spaces, joined by single spaces |
| Titles.StripEpubRemovesOneExtension | main.py:62 | a name ending in `.epub` in any letter case loses exactly that one extension |
| Titles.StripEpubKeepsOtherNames | main.py:62 | a name not ending in `.epub` (optionally followed by one newline) is unchanged |
| Titles.CollapseKeepsSingleSpaced | main.py:66 | already single-spaced text is unchanged by collapsing |
| Titles.StripKeepsTrimmed | main.py:66 | text without surrounding whitespace is unchanged by `strip` |
| Titles.PrettifyCleanStem | main.py:60-67 | when replacing the separators already gives clean text, the title is exactly that text |
| Titles.PrettifyTitleSeparatorsExample | main.py:60-67 | "Some_Book-Title.epub" becomes "Some Book Title" |
| Titles.PrettifyTitleCleanExample | main.py:60-67 | "already clean.epub" becomes "already clean" |
| Titles.PrettifyTitleDoubleExtensionExample | main.py:62 | "a.epub.EPUB" becomes "a.epub": only the last extension goes |
| Titles.PrettifyTitleRunExample | main.py:64-66 | "a__-b.epub" becomes "a b": a run of separators becomes one space |
| SessionSpec.OnlyOwner | main.py:53-54 | defines the owner check: the message has a sender and its id is the owner's |
| SessionSpec.Touched | main.py:56-58 | defines `touch`: only the last activity changes, to `now` |
| SessionSpec.Activated | main.py:152-157 | defines the `/kindle` block: mode on, counters and errors cleared |
| SessionSpec.Stopped | main.py:170-183 | defines the `/stop` block: the old mode, a snapshot of the counters and errors, and the state with the mode off and everything cleared |
| SessionSpec.Ticked | main.py:106-127 | defines one watchdog wake-up: when the mode is on and two hours have passed, the counts to report and the cleared state with the mode off; otherwise nothing |
| SessionSpec.RecordedReceived | main.py:224-225 | defines the block that counts a received upload |
| SessionSpec.RecordedSent | main.py:241-242 | defines the block that counts a delivered upload |
| SessionSpec.RecordedFailure | main.py:232-234 | defines the block that counts a failed upload and appends its error line (also main.py:248-250) |
| SessionSpec.DownloadErrorText | main.py:234 | defines the error line for a failed download |
| SessionSpec.DeliveryErrorText | main.py:250 | defines the error line for a failed e-mail |
| SessionSpec.StartHandled | main.py:134-145 | defines `/start`: refused for strangers, otherwise touch and welcome |
| SessionSpec.KindleHandled | main.py:147-162 | defines `/kindle`: refused for strangers, otherwise touch then the activation block |
| SessionSpec.StopHandled | main.py:164-200 | defines `/stop`: refused for strangers, otherwise touch, the stop block, and the resting reply or the summary with the first ten errors |
| SessionSpec.DocumentHandled | main.py:205-252 | defines the corrected upload handler: owner check, touch, mode check, default name, extension check, then the counting blocks by the download and delivery outcomes |
| SessionSpec.DocumentHandledAsWritten | main.py:239-252 | defines the upload handler as written: a failing success reply is handled as a delivery failure after the upload was counted as sent |
| SessionSpec.FileNameOrDefault | main.py:217 | a missing or empty file name becomes "livro.epub"; any other name is kept |
| SessionSpec.FirstErrors | main.py:195-196 | the summary lists a prefix of the errors, all of them up to ten, and exactly ten when there are more |
| SessionSpec.KindleResets | main.py:147-162 | `/kindle` turns the mode on, clears every counter and the error list, and records the activity |
| SessionSpec.StrangerChangesNothing | main.py:53-54 | a message from anyone but the owner, or with no sender, changes nothing, not even the last activity |
| SessionSpec.StopResetsAndSnapshots | main.py:168-183 | `/stop` always leaves the mode off with everything cleared, and its snapshot holds the values from before the call |
| SessionSpec.StopRestsIffOff | main.py:185-200 | `/stop` answers "already resting" exactly when the mode was off; otherwise it reports the old counts and the first ten errors |
| SessionSpec.SecondStopRests | main.py:164-187 | a second `/stop` in a row always finds the bot resting |
| SessionSpec.TickIdleChangesNothing | main.py:106-109 | a watchdog tick changes nothing unless the mode is on and two hours have passed since the last activity |
| SessionSpec.TickFires | main.py:109-123 | a tick that fires turns the mode off, clears everything, reports only the three counts, and does not move the last activity |
| SessionSpec.TickReportsIffExpired | main.py:106-127 | a tick reports a summary exactly when it fires, never moves the last activity, and keeps the counters settled |
| SessionSpec.UploadWhileOffIgnored | main.py:210-214 | an upload while the mode is off only records the activity and asks for `/kindle` |
| SessionSpec.UploadNotEpubIgnored | main.py:216-222 | an upload whose name does not end in `.epub` only records the activity |
| SessionSpec.MissingNameIsEpub | main.py:217-220 | a document without a name is taken as "livro.epub" and so passes the extension test |
| SessionSpec.ErrorTextsStartWithName | main.py:234 | both error lines begin with the file name |
| SessionSpec.UploadAccepted | main.py:224-252 | an accepted upload adds one to `received` and one to exactly one of `sent_ok` and `sent_fail`; a failure appends one error starting with the file name; a success replies with the prettified title |
| SessionSpec.StepKeepsConsistent | main.py:224-252 | every event keeps exactly one error line per failed upload |
| SessionSpec.StepKeepsSettled | main.py:134-252 | handled one at a time, every event keeps `received == sent_ok + sent_fail`, with nothing counted while the mode is off |
| SessionSpec.RunKeepsSettled | main.py:134-252 | any sequence of events handled one at a time keeps the counters settled |
| SessionSpec.RunAppend | main.py:134-252 | running one more event is one more step after the run |
| SessionSpec.StepActivity | main.py:56-58 | an event moves the last activity to its time exactly when it comes from the owner |
| SessionSpec.RunActivityIsLastOwnerTime | main.py:56-58 | after any run the last activity is the time of the owner's latest message; the watchdog and strangers never move it |
| SessionSpec.ActivityMonotone | main.py:56-58 | with a clock that never runs backwards, the last activity never decreases |
| SessionSpec.LastOwnerTimeBound | main.py:56-58 | the latest owner time is no earlier than the start when no event's time is earlier than the start |
| SessionSpec.StopDuringUploadUnbalances | main.py:224-243 | a `/stop` between an upload's two locked blocks leaves one sent document that the cleared counters never received |
| SessionSpec.KindleDuringUploadMiscounts | main.py:147-162 | a `/kindle` between an upload's two locked blocks makes the next `/stop` report one document sent out of none received |
| SessionSpec.WatchdogDuringUploadMiscounts | main.py:106-127 | the watchdog alone can split an upload's two locked blocks when the delivery takes two hours or more: the later success leaves one sent document, none received and the mode off |
| SessionSpec.SerialStopSummaryBalanced | main.py:189-194 | with the corrected upload handler and messages handled one at a time from the start of the process, every `/stop` summary reports as many received documents as sent and failed ones |
| SessionSpec.AsWrittenSettledIffReplyDelivered | main.py:239-252 | as written, an accepted upload keeps the counters settled exactly when it is not the case that the e-mail went out and the confirmation reply then failed |
| SessionSpec.ReplyFailureCountsTwice | main.py:239-252 | as written, an upload whose e-mail went out but whose confirmation reply failed is counted as sent and as failed |
| SessionSpec.AsWrittenAgreesWhenReplyOk | main.py:239-252 | the as-written handler keeps one error per failure, and equals the corrected one when the reply succeeds |
| SessionSpec.DocumentCountsOnce | main.py:205-252 | the corrected handler counts each accepted upload exactly once, so the counters stay settled |
| Bot.Session.constructor | main.py:39-46 | a new session is off, with zero counters, no errors and the start time as last activity |
| Bot.Session.Touch | main.py:56-58 | only the last activity changes, to `now` |
| Bot.Session.IsKindleMode | main.py:96-98 | returns the mode and changes nothing |
| Bot.Session.Activate | main.py:152-157 | the mode is on and the counters and errors are cleared |
| Bot.Session.StopAndSnapshot | main.py:170-183 | returns whether the mode was on and the old counters and errors, and leaves the mode off with everything cleared |
| Bot.Session.RecordReceived | main.py:224-225 | `received` grows by one and nothing else changes |
| Bot.Session.RecordSent | main.py:241-242 | `sent_ok` grows by one and nothing else changes |
| Bot.Session.RecordFailure | main.py:232-234 | `sent_fail` grows by one and the message is appended to the errors |
| Bot.Session.IdleTick | main.py:106-127 | the watchdog tick: reports exactly when the idle limit is reached, and never moves the last activity |
| Bot.Session.CmdStart | main.py:134-145 | the owner's `/start` records the activity; anyone else's is refused without a state change |
| Bot.Session.CmdKindle | main.py:147-162 | behaves as `SessionSpec.KindleHandled` |
| Bot.Session.CmdStop | main.py:164-200 | behaves as `SessionSpec.StopHandled` |
| Bot.Session.HandleDocument | main.py:205-252 | behaves as the corrected `SessionSpec.DocumentHandled` |
| Bot.StopDuringDelivery | main.py:164-243 | the interleaving in which `/stop` runs between an upload's two locked blocks ends with `received == 0` and `sent_ok == 1` |

## Left out

- The Flask web server, the webhook endpoints and `set_webhook` are not part of this model. They only pass updates to the handlers.
- The Telegram calls are not modelled. Sending a reply or a message is represented by the returned `Reply` or `IdleSummary`.
- The exact reply texts and their HTML markup are represented by `Reply` constructors. The error lines are the exception: they are modelled to the character, with the exception text as a `reason` string.
- The SMTP delivery and the Telegram download are `Outcome` inputs, `Ok` or `Failed(reason)`.
- Reading the configuration from the environment, and the start-up checks on it, are not modelled. The owner id is a constructor parameter.
- The idle monitor's endless loop, its 30-second sleep and the threads are not modelled. One wake-up is `IdleTick`. Concurrency appears only through the interleaving lemmas (`StopDuringUploadUnbalances`, `KindleDuringUploadMiscounts`, `WatchdogDuringUploadMiscounts`) and the method `StopDuringDelivery`, which run the locked blocks in another order.
- The clock is an integer parameter rather than a float from `time.time()`.
- Lower-casing is ASCII only. For the five characters of `.epub` this agrees with Python's Unicode `lower()`.
- Exceptions raised by the other reply calls are not modelled. They happen after the state change of their handler, so the state is the same.
- SessionSpec.UploadAccepted: holds for the corrected upload handler `DocumentHandled`. As written, an upload whose confirmation reply fails is counted as sent and as failed (see Findings and `SessionSpec.AsWrittenSettledIffReplyDelivered`).
- SessionSpec.StepKeepsSettled: holds for events whose upload step is the corrected handler. As written, the step breaks `received == sent_ok + sent_fail` when the confirmation reply fails (see Findings).
- SessionSpec.RunKeepsSettled: holds for runs whose upload step is the corrected handler. As written, a run breaks the balance at the first upload whose confirmation reply fails (see Findings).
- SessionSpec.SerialStopSummaryBalanced: holds for runs whose upload step is the corrected handler. As written, `/kindle`, then an upload whose e-mail goes out but whose confirmation reply fails, then `/stop` reports 1 received, 1 sent and 1 failed (see the first finding).
- Bot.Session.HandleDocument: follows the corrected handler of the finding below. The as-written double counting is modelled by `SessionSpec.DocumentHandledAsWritten`.

## Findings

| source | as written | input that shows it | evidently intended | confidence | as-written member | corrected member |
|---|---|---|---|---|---|---|
| main.py:239-252 | the success reply at line 245 is inside the `try` that catches delivery errors, so if that reply fails the upload is counted in `sent_ok` and again in `sent_fail`, with an error line and a "not delivered" reply | an accepted upload "a.epub" whose e-mail is sent but whose confirmation reply raises: `received` 1, `sent_ok` 1, `sent_fail` 1 | a delivered book is counted once as sent, whatever happens to the confirmation | not executed | SessionSpec.ReplyFailureCountsTwice | SessionSpec.DocumentCountsOnce |
| main.py:224-243 | an upload counts itself in two separate locked blocks, so a `/kindle` handled between them clears the counters and the later success is counted in the new session | an upload is received, `/kindle` is handled, the e-mail then succeeds, and `/stop` reports `received` 0, `sent_ok` 1, `sent_fail` 0 | the summary counts every sent document among the received ones | not executed; needs two messages handled at the same time, or a delivery of two hours or more with the watchdog firing | SessionSpec.KindleDuringUploadMiscounts | SessionSpec.SerialStopSummaryBalanced |
