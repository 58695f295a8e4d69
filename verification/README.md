# Message sync core of the Telegram Pro chat client

The client (`main.py`) is a Flet chat app around a small message-sync state
machine. Its local SQLite database holds a `messages` table keyed by message
id, a `processed_events` table of feed event ids already applied, and a
`known_users` table of last-seen times. A background loop polls the feed and
applies each batch of events to the database. A new event is applied once and
recorded as processed. Redelivered events are skipped. The chat view is a
query over the `messages` table: the public room (`"global"`) or a direct
chat between the signed-in user and a peer, oldest first. The side drawer
lists the other known users, most recently seen first. Login and send are
guarded by Python's `str.strip()`.

This project models that machine as pure functions over an immutable store:

- `wrappers.dfy`: `Option`, `Result` and `Outcome`.
- `strings.dfy`: `str.strip()`, and the text order SQLite uses for `ORDER BY timestamp`.
- `event_store.dfy`: the tables as maps and sets, presence updates, and the primary-key insert.
- `sync_client.dfy`: applying one polled batch, and its idempotence. It also holds the lock model behind the finding below.
- `sorting.dfy`: ordered insertion under a total preorder, used by both `ORDER BY` queries.
- `view_builder.dfy`: the chat-history query and the known-users query.
- `app.dfy`: login, send, and what happens when the feed echoes a sent message back.

`time.time()` is replaced by a logical clock kept in the store. Every presence
update writes the clock and then advances it. So last-seen values are
pairwise distinct (`EventStore.Valid`). The credential lookup is a function
parameter. The HTTP exchange appears only as the payload `send_message` posts
and the events a poll returns.

Three points of the code are easy to misread:

- The comment at main.py:288 calls the bubble of `send_message` an optimistic update, but only the UI is updated. `send_message` writes nothing to the store. The message enters the store when a poll delivers it back.
- A message event whose payload id is already stored is not silently absorbed. The `INSERT` violates the primary key and the batch is aborted (`Failure(DuplicateMessageId(id))`).
- The history query has no tie-breaker. Rows with equal timestamps come in unspecified order, so the model promises only what the `ORDER BY` fixes.

## Model

| member | source | states |
|---|---|---|
| EventStore.Empty | main.py:34-45 | A fresh database has all tables empty, and the presence invariant holds |
| EventStore.Touch | main.py:53-56 | The presence upsert gives the user the current clock value and makes them the most recently seen user; every other user's record stays the same, and the store invariant is kept |
| EventStore.PutMessage | main.py:38-43 | Inserting under an existing primary key fails and writes no second row; otherwise the new row is added under its id, and existing rows and other tables stay the same |
| EventStore.MarkProcessed | main.py:267 | Recording a new event id adds it to the processed set and changes no other table. Recording an id that is already there violates the table's primary key (main.py:37) and is refused |
| SyncClient.MessageOf | main.py:260-263 | A message event becomes the row (sender = event user, recipient = payload `to` or `"global"` when absent, text = payload text, timestamp = event timestamp) |
| SyncClient.ApplyEvent | main.py:256-267 | A processed event leaves the store unchanged. A non-message event is only marked processed. A new message whose id is already stored fails. Otherwise the new message is stored under its payload id, its author's presence is touched, and the event is marked processed |
| SyncClient.ApplyBatchEffect | main.py:254-268 | After a batch succeeds: every event id is processed, no stored message is lost or changed, `new_messages` is true exactly when rows were added, only message authors gain presence records, and the store invariant is kept. A failure names the payload id of one of the batch's message events |
| SyncClient.ApplyBatchSplit | main.py:255-267 | Applying a concatenated batch is applying its first part and then its second |
| SyncClient.ProcessedBatchIsNoOp | main.py:257-258 | A batch whose every event id is already processed changes nothing and inserts nothing |
| SyncClient.RedeliveryIsNoOp | main.py:254-268 | Redelivering an applied batch leaves the resulting store unchanged |
| SyncClient.RepeatWithinBatchIsSkipped | main.py:255-267 | An event whose id occurred earlier in the same batch has no effect |
| SyncClient.DoubledBatchIsOnce | main.py:254-268 | A response that holds a batch twice has the same effect as holding it once |
| SyncClient.NonMessageBatchOnlyMarksProcessed | main.py:259-267 | Events with another action only mark their ids processed: no message is inserted and no presence is touched |
| SyncClient.PolledTwiceStoresOnce | main.py:254-268 | Polling the same `e1`/`m1` event twice leaves exactly one message `m1` and one processed id `e1` |
| SyncClient.ReusedMessageIdIsRefused | main.py:261-264 | A second event that carries the stored id `m_bob_1` is refused, and the store keeps one row for that id |
| SyncClient.UpdateLastSeen | main.py:53-56 | `update_last_seen` as written blocks forever exactly when its caller already holds `db_lock`; otherwise it performs the presence upsert |
| SyncClient.ApplyEventHoldingLock | main.py:254-267 | The loop body as written never completes on a new message. On every other event it agrees with `ApplyEvent` |
| SyncClient.FirstMessageBlocksPollLoop | main.py:254-265 | On an empty store, the first message event blocks the loop as written, while the intended step succeeds |
| Strings.Trim | main.py:74-76 | `str.strip()` returns the middle of its input with blank text removed on both sides, and the result neither starts nor ends with whitespace. It is empty exactly when the input is blank |
| Strings.TimeLeTotal | main.py:207 | Any two timestamps are comparable under SQLite's text order |
| Strings.TimeLeTrans | main.py:207 | SQLite's text order is transitive |
| Strings.TimeLeAntisymmetric | main.py:207 | Two timestamps that each sort no later than the other are equal |
| ViewBuilder.ByTime | main.py:207 | `ORDER BY timestamp ASC` is a total preorder on rows: it compares their timestamps as text |
| ViewBuilder.QueryConversation | main.py:204-216 | The history query returns exactly the stored messages of the chat, each with its stored contents and each once, non-decreasing by timestamp. For the public room these are the messages whose recipient is `"global"`, whoever sent them. For a peer they are the messages between that peer and the signed-in user, in either direction |
| ViewBuilder.DirectChatIsPair | main.py:209-211 | The direct-chat filter holds exactly when {sender, recipient} equals {peer, self} |
| ViewBuilder.DirectChatIsSymmetric | main.py:210-211 | Both participants of a direct chat get the same messages |
| ViewBuilder.ViewsAgreeUpToOrder | main.py:206-211 | Any two results of the history query hold the same rows, each once, and show the same timestamp at every position: they differ only by reordering rows with equal timestamps |
| ViewBuilder.SortedRowsShareTimestamps | main.py:207 | Two oldest-first orderings of the same rows have the same timestamp at every position |
| ViewBuilder.SyncKeepsRows | main.py:206-211 | Every row shown before a sync is still shown after it |
| ViewBuilder.ByRecency | main.py:171 | `ORDER BY last_seen DESC` is a total preorder on known users |
| ViewBuilder.ListPresence | main.py:166-172 | The drawer lists every known user except the signed-in one, each once, by last-seen time, non-increasing |
| ViewBuilder.MoreRecentListedFirst | main.py:171 | When last-seen values are distinct, a more recently seen user is listed before a less recently seen one |
| ViewBuilder.TouchOrderIsListOrder | main.py:171 | Touching A, then B, then A again lists A before B |
| App.Start | main.py:24-30 | The app starts over the database file as an earlier run left it (`CREATE TABLE IF NOT EXISTS` keeps its rows), with nobody signed in and the public room open |
| App.Login | main.py:73-89 | A username or password that is blank after stripping is refused before the lookup. A failed lookup is refused. Either refusal changes nothing. A match signs in the stripped username and touches only that user's presence |
| App.FailedLoginChangesNothing | main.py:84-89 | From any state of the app, a login whose stripped credentials fail the lookup is refused and leaves the app unchanged: the signed-in user stays the same and no presence record is touched |
| App.Send | main.py:277-297 | Blank text posts nothing. Otherwise the payload is {username: signed-in user, action: "message", data: {id, stripped non-empty text, to: open chat}} |
| App.Echo | main.py:256-263 | An assumption about the feed, which is not part of main.py: the event it later delivers for a posted body carries the body's user, action and data unchanged, and an event id and a timestamp of its own. These are the fields the poll loop reads |
| App.SentMessageArrivesByPoll | main.py:259-265 | When a poll delivers the echo of a sent message, the message is stored under its send id. It is stored from the signed-in user to the chat that was open, so it belongs to that chat's history, and the sender's presence is touched |

## Findings

| source | as written | input that shows it | evidently intended | confidence | as-written member | corrected member |
|---|---|---|---|---|---|---|
| main.py:254-265 | The poll loop holds `db_lock`, a `threading.Lock`, while it applies a batch. For each new message it calls `update_last_seen`, which enters `with self.db_lock` again. The lock is not reentrant, so the poll thread waits forever, and every later database access by the UI waits with it | On an empty store, a first poll that returns one event `{id: "e1", action: "message", ...}` | Touch the author's presence inside the same locked section, without acquiring the lock again | high (not executed) | SyncClient.ApplyEventHoldingLock | SyncClient.ApplyEvent |

## Left out

- The Flet UI is not modelled: login and main views, snack bars, theme toggle, drawer events, `switch_chat` and bubble rendering. The open chat is a field of `App.Client` that nothing here changes.
- `add_bubble_to_ui`'s duplicate check is not a guarantee of the model. The key is set on the inner container, but a keyless row is what gets appended, so the check never matches.
- HTTP is not modelled: `requests.get`/`post`, timeouts and status checks. A poll's events are an input, and a send's result is the payload it would post.
- Echo: the feed service is not part of main.py. It is assumed to return a posted body unchanged, under an event id and a timestamp of its own.
- Threads, `time.sleep`, `is_running` and `db_lock` are not modelled, except for the lock model behind the finding. The model is sequential.
- When a primary-key violation happens, the code swallows the exception (main.py:273) and leaves a partly applied, uncommitted transaction. That state is not modelled: the batch is reported as a failure instead.
- `time.time()` is replaced by a logical clock that advances on every presence update. So two users never share a last-seen value, while real wall-clock readings could tie.
- The message id `str(int(time.time()*1000))` of `send_message` is a parameter of `App.Send`. The `strftime` timestamp of `send_message` (main.py:286) only labels the optimistic bubble, so it is not modelled. The stored timestamp is the one the feed event carries (main.py:263), the `timestamp` parameter of `App.Echo`.
- Timestamps are plain strings in SQLite's text order.
- The `users` table and its default admin row are not modelled. The credential check is an opaque predicate parameter of `App.Login`, and its admin flag is unused.
- Missing JSON fields are not modelled. An event id, a payload id, a payload text or an event user of `None` cannot be written. Neither can a `to` of JSON null: `d.get('to', 'global')` returns `None` for it, which stores a NULL recipient that no view shows. Only the payload's `to` may be absent.
- The `reply_to` and `is_edited` columns are not modelled. No code path writes them (they stay NULL and 0).
- App.Send: requires a signed-in user. The send button exists only in the main view, which is built after a successful login (main.py:84-87, 145).
