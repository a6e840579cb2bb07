# Missed-call follow-up service: a Dafny model

The service turns missed phone calls into WhatsApp follow-ups. A call
forwarded by Twilio (`POST /twilio/voice`) opens a follow-up row for the
caller and sends a WhatsApp notice at once. An inbound WhatsApp message
(`POST /webhook`) is always logged. If its body is the keyword
`simulate_missed_call` it opens a follow-up too. Once a minute a timer
tick looks at every open follow-up at least one minute old:

- if the caller has written since the miss, the tick closes the follow-up
  silently;
- otherwise the tick sends a reminder and then closes it.

`GET /webhook` answers the WhatsApp verification handshake.

The model is functional:

- the two SQLite tables are sequences of immutable records;
- time is a natural number of seconds;
- each WhatsApp send inside a tick is an oracle answer (`nat -> bool`, the
  outcome of the k-th send of the tick).

Modules:

- `Store`: the `followups` and `messages` tables, the tick's SELECT, the reply lookup, the `UPDATE ... SET done = 1`, and the INSERTs.
- `Text`: JavaScript `trim` and (ASCII) `toLowerCase`, as used by the keyword test.
- `Ingress`: the verification handshake, the message webhook and the voice webhook.
- `Reconcile`: the tick. `RunBatch` is the loop of the code over the selected snapshot, against the live table. `Sweep` is an independent reference walk over table positions. `MeetsSpec` is a declarative description of a tick built from `ResolveAll`, `Notifiable` and `Delivered`.
- `Lifecycle`: sequences of events (messages, calls, ticks), what every event preserves, and concrete scenarios.

Where the code's behaviour is easy to misread:

- A failed send inside the tick is not caught per row. It escapes the loop to the outer handler, so the failing follow-up stays open and the rest of that tick's batch is not looked at. The next tick selects them again.
- Numbers are compared as raw strings on both channels. There is no normalisation.
- Nothing stops two ticks from overlapping. The model runs one event at a time.
- The message webhook replies to every message: an acknowledgement, or the simulated missed-call notice for the keyword.
- The service never writes the sentinel body `__missed_call__` itself. An inbound message whose body is exactly `__missed_call__` is logged but not counted as a reply.

## Model

| member | source | states |
|---|---|---|
| Store.SelectOpen | server.js:207-214 | A row is in the batch iff it is in the table, has `done = 0`, and its miss is at least 60 s before `now`; the batch is no longer than the table. |
| Store.SelectOpenOnce | server.js:207-214 | The batch holds no row more often than the table does; with distinct ids, every eligible row is in the batch exactly once. |
| Store.SelectOpenNone | server.js:207-214 | A table with no open row past the grace window yields an empty batch. |
| Store.HasReply | server.js:219-228 | A follow-up has a reply iff some logged message has exactly the same number, was created strictly after the miss, and is not the sentinel body. |
| Store.HasReplyAppend | server.js:219-228 | Appending a message adds a reply for a follow-up exactly when that message answers it; an existing reply is never lost. |
| Store.MarkDone | server.js:232 | The update by id sets `done` on the rows with that id, changes no other column, and leaves every other row as it was. |
| Store.MarkDoneIdempotent | server.js:246 | Marking a row done twice is the same as marking it once. |
| Store.AppendMessage | server.js:122-125 | The insert appends one message with the sender, the body and the current time; follow-ups and the id counter are unchanged. |
| Store.CreateFollowup | server.js:131 | The insert appends one open row with the next id, the caller's number and the current time. It keeps the store invariant: distinct ids, all below the next id. |
| Text.Trim | server.js:117 | The trimmed body has whitespace at neither end and is no longer than the body. |
| Text.TrimPadded | server.js:117 | Trimming removes exactly the whitespace padding around a string that has none at its ends. |
| Text.LowerAscii | server.js:117 | Lower-casing keeps the length and maps each ASCII capital to its small letter, character by character. |
| Ingress.VerifyWebhook | server.js:73-77 | The challenge is echoed iff mode is `subscribe` and the token is present, non-empty and equal to the configured token; otherwise the answer is 403. |
| Ingress.MessageWebhook | server.js:112-153 | Without a message nothing changes. With one, it is appended to the log with body defaulting to "". A follow-up for the sender, stamped now, is added iff the normalised body is the keyword. One reply goes to the sender. The answer is always 200. |
| Ingress.TriggerPadded | server.js:117-128 | The keyword is recognised whatever whitespace surrounds it and whatever the case of its ASCII letters; nothing else is. |
| Ingress.MessageReplies | server.js:122-125 | The logged message becomes a reply to exactly the follow-ups of the same number that it postdates, unless its body is the sentinel. |
| Ingress.TriggerIsNotItsOwnReply | server.js:122-131 | The follow-up opened by the keyword is not answered by the message that opened it. |
| Ingress.VoiceWebhook | server.js:166-180 | A call always appends one open follow-up for the caller before the send, leaves the message log alone, and sends exactly one notice to the caller. |
| Reconcile.RunBatch | server.js:216-247 | The loop keeps the table's length and each row's identity. It never reopens a row. It ends aborted iff its last attempt failed, and every earlier attempt succeeded. |
| Reconcile.Tick | server.js:202-251 | A tick never touches the message log or the id counter, keeps the number of follow-ups, and stops exactly at its first failed send. |
| Reconcile.NotifiableMembers | server.js:216-234 | The rows owed a reminder are exactly the eligible rows without a reply. |
| Reconcile.SweepMeetsSpec | server.js:216-250 | The reference walk satisfies the declarative description of a tick. |
| Reconcile.BatchIsSweep | server.js:216-247 | The loop over the snapshot, updating by id, gives the same rows, sends and outcome as the reference walk. This needs distinct ids. |
| Reconcile.TickIsSweep | server.js:202-251 | A tick on a table with distinct ids is the reference walk over the whole table. |
| Reconcile.TickSpec | server.js:202-251 | A tick meets the description. Either every owed send succeeded, all eligible rows are closed and the sends are exactly the owed rows in table order, or it stopped at the first failing row with the earlier rows processed and the later ones untouched. |
| Reconcile.TickFrame | server.js:207-246 | Every row after a tick is unchanged, or was eligible and is now the same row with `done` set. |
| Reconcile.TickSendsOnlyUnanswered | server.js:219-240 | Every send goes to the number of an eligible row without a reply, no row gets two, and a row with a reply never gets one. |
| Reconcile.TickDoneOnlyAfterDelivery | server.js:240-246 | An unanswered row is closed only if its send succeeded. A failed send leaves the row as it was. |
| Reconcile.TickCompleted | server.js:216-247 | A tick that completes closes every eligible row and sends, successfully, to every eligible row without a reply. |
| Reconcile.TickAborted | server.js:240-250 | A tick that aborts does so at one row. Its last attempt is the failed send to that row. That row stays selectable at every later time. It and all later rows are unchanged. Every earlier eligible row is closed. |
| Reconcile.FailingRowBlocksLaterRows | server.js:240-250 | After an aborted tick, a tick at the same time whose first send also fails stops at the same row, leaves every row as it was, and makes only that one failed attempt. So a row whose send keeps failing blocks every later due row on a tick at the same time. |
| Reconcile.TickPreservesValid | server.js:232-246 | A tick keeps the store invariant. |
| Reconcile.TickCompletedIsQuiescent | server.js:207-214 | After a completed tick, a second tick at the same time selects nothing, sends nothing and changes nothing, whatever its sends would do. |
| Lifecycle.StepExtends | server.js:122-246 | Any single event only appends rows and messages and only sets `done` on open follow-ups. |
| Lifecycle.RunExtends | server.js:122-246 | Over any sequence of events, no follow-up or message is removed or altered and no follow-up is reopened. |
| Lifecycle.FreshFollowupWaitsGrace | server.js:166-214 | A follow-up opened by a call is left open, and gets no reminder, from any tick within its first minute. |
| Lifecycle.ScenarioGraceWindow | server.js:166-246 | A call at 1000: a tick at 1030 does nothing; a tick at 1060 sends one reminder and closes the row. |
| Lifecycle.ScenarioReplied | server.js:122-233 | A call answered by a message 30 s later is closed silently by the next due tick, whatever sends would do. |
| Lifecycle.ScenarioRetry | server.js:240-250 | A failed reminder leaves the row open; the next tick retries it and succeeds. |
| Lifecycle.ScenarioFailureSkipsRestOfBatch | server.js:240-250 | When the first reminder of a tick fails, the second due row of the same tick is neither sent to nor closed. |
| Lifecycle.ScenarioNumberFormatsDiffer | server.js:219-228 | A message from "33612345678" after a call from "+33612345678" does not answer its follow-up; the due tick sends the reminder and closes it. |
| Lifecycle.ScenarioSameNumberIndependent | server.js:219-228 | Two follow-ups of one number with a message between them: the earlier one is closed silently, the later one gets a reminder. |

## Left out

- Express routing, body parsing, the payload path `entry[0].changes[0].value.messages[0]`, and the TwiML Hangup string. The message webhook's answer is always 200. The voice webhook always answers with the Hangup document, whatever the send does; the model returns no response for it.
- The outcome of the sends in the two webhooks. Each send is the last effect before the response, and its failure is swallowed. The model returns the sends as data.
- sqlite3, the schema and the promise wrappers. Storage errors are not modelled: an INSERT or UPDATE that fails, and with it the case where the message insert fails before the follow-up insert. The tables are sequences; `AUTOINCREMENT` is a counter starting at 1.
- A `NULL` caller number (Twilio sends `From` without a value, or the message lacks `from`). Numbers are strings.
- Query parameters given more than once (Express then yields arrays). A parameter is absent or one string.
- Wall-clock reads. Each request reads the clock once, and both of the message webhook's inserts share that second. The tick's `datetime('now', '-1 minute')` is `now - 60` on whole seconds.
- The order of the batch. The SELECT has no ORDER BY. The model takes table (id) order, the order of a plain scan of the table.
- Overlapping ticks, and requests racing with a tick. These are concurrency; events are applied one at a time.
- Message texts, the `CALENDLY_LINK` default, environment configuration and logging. Sends carry a tag naming which text they would carry.
- Text.LowerAscii: lower-cases ASCII letters only. `toLowerCase` also folds other scripts, but the keyword is pure ASCII. No non-ASCII character lower-cases to an ASCII letter of the keyword, except U+212A KELVIN SIGN, which maps to `k`, and the keyword has no `k`. So the keyword test is exact.
- Reconcile.TickSpec: stated for tables with distinct ids. The id column is the primary key, so every reachable store has them (`Store.Valid`, kept by every event).
- Text.Trim: its own contract states only that the result is tight and no longer than the input. That it is exactly the input minus its whitespace padding is stated by `Text.TrimPadded`.
- Reconcile.FailingRowBlocksLaterRows: stated for a second tick at the same time only. At a later time, rows before the failing one may have become due in the meantime. Event times are not ordered in the model, so nothing rules out a row before it with a later miss time.
- Store.SelectOpen: its own contract states membership and a length bound. How often each row occurs in the batch is stated by `Store.SelectOpenOnce`.
