/**
 * The batch-apply step of the poll loop (main.py, `poll_messages_loop`): one
 * fetched list of feed events is applied to the store in order, skipping
 * events already processed, inserting a message for each new "message" event
 * and marking every new event processed. Fetching, sleeping and the loop
 * itself are left to the caller; the events are an input.
 */
module SyncClient {
  import opened Wrappers
  import opened EventStore

  /** The action tag of a chat message event. */
  const MessageAction: string := "message"

  /** The `data` object of a feed event: the message id, its text and, optionally, its addressee. */
  datatype Payload = Payload(id: string, text: string, to: Option<string>)

  /** One element of the feed's JSON array. */
  datatype Event = Event(id: string, action: string, username: string, timestamp: string, data: Payload)

  /** The store after a step, and whether the step inserted any message (the `new_messages` flag). */
  datatype Applied = Applied(store: Store, newMessages: bool)

  /** A message event whose id has not been processed yet: the only kind of event that inserts a row. */
  predicate IsNewMessage(s: Store, e: Event) {
    e.id !in s.processed && e.action == MessageAction
  }

  /**
   * The row a message event describes: the author is the event's user, the
   * addressee is the payload's `to` or the public room when it has none, and
   * the time is the event's server timestamp.
   */
  function MessageOf(e: Event): (m: Message)
    ensures m.sender == e.username && m.text == e.data.text && m.timestamp == e.timestamp
    ensures e.data.to.Some? ==> m.recipient == e.data.to.value
    ensures e.data.to.None? ==> m.recipient == GlobalRoom
  {
    Message(e.username, e.data.to.GetOr(GlobalRoom), e.data.text, e.timestamp)
  }

  /**
   * One iteration of the `for ev in events` loop. The author's presence is
   * touched without taking `db_lock` again; see `ApplyEventHoldingLock` for
   * the code as written.
   */
  function ApplyEvent(s: Store, e: Event): (r: Result<Applied, StoreError>)
    // a processed event is skipped entirely
    ensures e.id in s.processed ==> r == Success(Applied(s, false))
    // an unknown action is consumed: marked processed and nothing else
    ensures e.id !in s.processed && e.action != MessageAction ==>
      r == Success(Applied(s.(processed := s.processed + {e.id}), false))
    // a message whose id is already stored violates the primary key
    ensures IsNewMessage(s, e) && e.data.id in s.messages ==>
      r == Failure(DuplicateMessageId(e.data.id))
    // a new message is stored under its payload id, its author is seen now, the event is processed
    ensures IsNewMessage(s, e) && e.data.id !in s.messages ==>
      && r.Success? && r.value.newMessages
      && r.value.store.messages == s.messages[e.data.id := MessageOf(e)]
      && r.value.store.processed == s.processed + {e.id}
      && r.value.store.presence == s.presence[e.username := s.clock]
      && r.value.store.clock == s.clock + 1
  {
    if e.id in s.processed then
      Success(Applied(s, false))
    else if e.action == MessageAction then
      match PutMessage(s, e.data.id, MessageOf(e))
      case Failure(err) => Failure(err)
      case Success(s1) => Success(Applied(MarkProcessed(Touch(s1, e.username), e.id).value, true))
    else
      Success(Applied(MarkProcessed(s, e.id).value, false))
  }

  /** The ids of the events of a batch. */
  function EventIds(batch: seq<Event>): set<string> {
    set i | 0 <= i < |batch| :: batch[i].id
  }

  /** The authors of the message events of a batch: the only users a batch can touch. */
  function Authors(batch: seq<Event>): set<string> {
    set i | 0 <= i < |batch| && batch[i].action == MessageAction :: batch[i].username
  }

  /**
   * The whole `for ev in events` loop over one fetched batch, in order. The
   * first primary-key violation aborts the batch. `ApplyBatchEffect` states
   * what a batch does.
   */
  function ApplyBatch(s: Store, batch: seq<Event>): Result<Applied, StoreError>
    decreases |batch|
  {
    if |batch| == 0 then
      Success(Applied(s, false))
    else
      match ApplyEvent(s, batch[0])
      case Failure(err) => Failure(err)
      case Success(a) =>
        match ApplyBatch(a.store, batch[1..])
        case Failure(err) => Failure(err)
        case Success(b) => Success(Applied(b.store, a.newMessages || b.newMessages))
  }

  /**
   * After a batch succeeds, every event id in it is processed, no stored
   * message was lost or changed, `new_messages` tells whether rows were
   * added, only authors of message events gained presence records, and the
   * store invariant still holds. A failing batch names the payload id of one
   * of its message events.
   */
  lemma {:induction false} ApplyBatchEffect(s: Store, batch: seq<Event>)
    ensures var r := ApplyBatch(s, batch);
      && (r.Success? ==> r.value.store.processed == s.processed + EventIds(batch))
      && (r.Success? ==> Extends(s.messages, r.value.store.messages))
      && (r.Success? ==> (r.value.newMessages <==> r.value.store.messages.Keys != s.messages.Keys))
      && (r.Success? ==> s.presence.Keys <= r.value.store.presence.Keys <= s.presence.Keys + Authors(batch))
      && (r.Success? && Valid(s) ==> Valid(r.value.store))
      && (r.Failure? ==>
            exists i :: 0 <= i < |batch| && batch[i].action == MessageAction && batch[i].data.id == r.error.id)
    decreases |batch|
  {
    if |batch| > 0 {
      match ApplyEvent(s, batch[0])
      case Failure(err) =>
        assert batch[0].action == MessageAction && batch[0].data.id == err.id;
      case Success(a) =>
        ApplyBatchEffect(a.store, batch[1..]);
        match ApplyBatch(a.store, batch[1..])
        case Failure(err) =>
          var j :| 0 <= j < |batch[1..]| && batch[1..][j].action == MessageAction && batch[1..][j].data.id == err.id;
          assert batch[j + 1] == batch[1..][j];
        case Success(b) =>
          ApplyBatchStep(s, batch, a, b);
    }
  }

  /** The facts `ApplyBatchEffect` states for a batch, from those for its first event and for the rest. */
  lemma ApplyBatchStep(s: Store, batch: seq<Event>, a: Applied, b: Applied)
    requires |batch| > 0 && ApplyEvent(s, batch[0]) == Success(a)
    requires b.store.processed == a.store.processed + EventIds(batch[1..])
    requires Extends(a.store.messages, b.store.messages)
    requires b.newMessages <==> b.store.messages.Keys != a.store.messages.Keys
    requires a.store.presence.Keys <= b.store.presence.Keys <= a.store.presence.Keys + Authors(batch[1..])
    requires Valid(a.store) ==> Valid(b.store)
    ensures b.store.processed == s.processed + EventIds(batch)
    ensures Extends(s.messages, b.store.messages)
    ensures a.newMessages || b.newMessages <==> b.store.messages.Keys != s.messages.Keys
    ensures s.presence.Keys <= b.store.presence.Keys <= s.presence.Keys + Authors(batch)
    ensures Valid(s) ==> Valid(b.store)
  {
    EventIdsCons(batch);
    AuthorsOfRest(batch);
    if IsNewMessage(s, batch[0]) {
      NewMessageStep(s, batch, a.store);
    } else {
      assert a.store.messages == s.messages && a.store.presence == s.presence && !a.newMessages;
    }
  }

  /** What the first event of a batch adds when it is a new message. */
  lemma NewMessageStep(s: Store, batch: seq<Event>, t: Store)
    requires |batch| > 0 && IsNewMessage(s, batch[0]) && ApplyEvent(s, batch[0]) == Success(Applied(t, true))
    ensures batch[0].data.id in t.messages && batch[0].data.id !in s.messages
    ensures Extends(s.messages, t.messages)
    ensures t.processed == s.processed + {batch[0].id}
    ensures t.presence.Keys == s.presence.Keys + {batch[0].username} && batch[0].username in Authors(batch)
    ensures Valid(s) ==> Valid(t)
  {
    var e := batch[0];
    assert e.data.id !in s.messages;
    assert t.presence == s.presence[e.username := s.clock] && t.clock == s.clock + 1;
  }

  /** The rest of a batch has no author the whole batch lacks. */
  lemma AuthorsOfRest(batch: seq<Event>)
    requires |batch| > 0
    ensures Authors(batch[1..]) <= Authors(batch)
  {
    forall x | x in Authors(batch[1..])
      ensures x in Authors(batch)
    {
      var j :| 0 <= j < |batch[1..]| && batch[1..][j].action == MessageAction && batch[1..][j].username == x;
      assert batch[j + 1] == batch[1..][j];
    }
  }

  /** The ids of a batch are the first event's id and the ids of the rest. */
  lemma EventIdsCons(batch: seq<Event>)
    requires |batch| > 0
    ensures EventIds(batch) == {batch[0].id} + EventIds(batch[1..])
  {
    forall x | x in EventIds(batch)
      ensures x == batch[0].id || x in EventIds(batch[1..])
    {
      var i :| 0 <= i < |batch| && batch[i].id == x;
      if i > 0 {
        assert batch[1..][i - 1] == batch[i];
      }
    }
    forall x | x in EventIds(batch[1..])
      ensures x in EventIds(batch)
    {
      var j :| 0 <= j < |batch[1..]| && batch[1..][j].id == x;
      assert batch[j + 1] == batch[1..][j];
    }
  }

  /** Running `rest` after an earlier step whose outcome was `first`. */
  function ThenApply(first: Result<Applied, StoreError>, rest: seq<Event>): Result<Applied, StoreError> {
    match first
    case Failure(err) => Failure(err)
    case Success(a) =>
      match ApplyBatch(a.store, rest)
      case Failure(err) => Failure(err)
      case Success(b) => Success(Applied(b.store, a.newMessages || b.newMessages))
  }

  /** Applying two batches one after the other is applying their concatenation. */
  lemma {:induction false} ApplyBatchSplit(s: Store, first: seq<Event>, rest: seq<Event>)
    ensures ApplyBatch(s, first + rest) == ThenApply(ApplyBatch(s, first), rest)
    decreases |first|
  {
    if |first| == 0 {
      assert first + rest == rest;
    } else {
      var whole := first + rest;
      assert whole[0] == first[0] && whole[1..] == first[1..] + rest;
      match ApplyEvent(s, first[0])
      case Failure(_) =>
      case Success(a) =>
        ApplyBatchSplit(a.store, first[1..], rest);
        assert ApplyBatch(s, whole) == ThenApply(Success(a), first[1..] + rest);
        assert ApplyBatch(s, first) == ThenApply(Success(a), first[1..]);
    }
  }

  /** A batch whose every event is already processed changes nothing and inserts nothing. */
  lemma {:induction false} ProcessedBatchIsNoOp(s: Store, batch: seq<Event>)
    requires forall i :: 0 <= i < |batch| ==> batch[i].id in s.processed
    ensures ApplyBatch(s, batch) == Success(Applied(s, false))
    decreases |batch|
  {
    if |batch| > 0 {
      ProcessedBatchIsNoOp(s, batch[1..]);
    }
  }

  /** Redelivering a batch that was applied leaves the resulting store as it is. */
  lemma RedeliveryIsNoOp(s: Store, batch: seq<Event>)
    requires ApplyBatch(s, batch).Success?
    ensures var t := ApplyBatch(s, batch).value.store;
      ApplyBatch(t, batch) == Success(Applied(t, false))
  {
    ApplyBatchEffect(s, batch);
    var t := ApplyBatch(s, batch).value.store;
    forall i | 0 <= i < |batch|
      ensures batch[i].id in t.processed
    {
      assert batch[i].id in EventIds(batch);
    }
    ProcessedBatchIsNoOp(t, batch);
  }

  /** An event whose id already occurred earlier in the same batch is skipped. */
  lemma RepeatWithinBatchIsSkipped(s: Store, batch: seq<Event>, e: Event)
    requires e.id in EventIds(batch)
    ensures ApplyBatch(s, batch + [e]) == ApplyBatch(s, batch)
  {
    ApplyBatchSplit(s, batch, [e]);
    ApplyBatchEffect(s, batch);
    match ApplyBatch(s, batch)
    case Failure(_) =>
    case Success(a) =>
      ProcessedBatchIsNoOp(a.store, [e]);
  }

  /** A batch delivered twice in one response has the effect of delivering it once. */
  lemma DoubledBatchIsOnce(s: Store, batch: seq<Event>)
    ensures ApplyBatch(s, batch + batch) == ApplyBatch(s, batch)
  {
    ApplyBatchSplit(s, batch, batch);
    if ApplyBatch(s, batch).Success? {
      RedeliveryIsNoOp(s, batch);
    }
  }

  /**
   * Events with any action other than "message" are consumed and nothing
   * else: no message is inserted and no presence record is touched.
   */
  lemma {:induction false} NonMessageBatchOnlyMarksProcessed(s: Store, batch: seq<Event>)
    requires forall i :: 0 <= i < |batch| ==> batch[i].action != MessageAction
    ensures ApplyBatch(s, batch) == Success(Applied(s.(processed := s.processed + EventIds(batch)), false))
    decreases |batch|
  {
    if |batch| > 0 {
      var t := s.(processed := s.processed + {batch[0].id});
      assert batch[0].id in s.processed ==> t == s;
      assert ApplyEvent(s, batch[0]) == Success(Applied(t, false));
      NonMessageBatchOnlyMarksProcessed(t, batch[1..]);
      EventIdsCons(batch);
      assert t.processed + EventIds(batch[1..]) == s.processed + EventIds(batch);
    } else {
      assert s.processed + EventIds(batch) == s.processed;
    }
  }

  /** The first example exchange: one event, fetched in two consecutive polls. */
  lemma PolledTwiceStoresOnce()
    ensures
      var e1 := Event("e1", MessageAction, "alice", "2024-01-01T10:00:00", Payload("m1", "hi", Some(GlobalRoom)));
      var once := ApplyBatch(Empty(), [e1]);
      && once.Success?
      && once.value.store.messages == map["m1" := Message("alice", GlobalRoom, "hi", "2024-01-01T10:00:00")]
      && once.value.store.processed == {"e1"}
      && ApplyBatch(once.value.store, [e1]) == Success(Applied(once.value.store, false))
  {
    var e1 := Event("e1", MessageAction, "alice", "2024-01-01T10:00:00", Payload("m1", "hi", Some(GlobalRoom)));
    RedeliveryIsNoOp(Empty(), [e1]);
  }

  /** A second event that reuses a stored message id is refused rather than stored twice. */
  lemma ReusedMessageIdIsRefused()
    ensures
      var e1 := Event("e1", MessageAction, "bob", "2024-01-01T10:00:00", Payload("m_bob_1", "hello", Some(GlobalRoom)));
      var e2 := Event("e2", MessageAction, "bob", "2024-01-01T10:00:05", Payload("m_bob_1", "hello", Some(GlobalRoom)));
      var once := ApplyBatch(Empty(), [e1]);
      && once.Success?
      && once.value.store.messages.Keys == {"m_bob_1"}
      && ApplyBatch(once.value.store, [e2]) == Failure(DuplicateMessageId("m_bob_1"))
  {
  }

  // ---------------------------------------------------------------------------
  // The loop body as written. `poll_messages_loop` applies the batch inside
  // `with self.db_lock`, and `update_last_seen` enters `with self.db_lock`
  // again. `threading.Lock` is not reentrant, so that second acquisition waits
  // for a release that never comes. `ApplyEvent` models the intended effect.
  // ---------------------------------------------------------------------------

  /** A step of code that acquires a lock: it either finishes or waits forever. */
  datatype Progress<T> = Completes(value: T) | BlocksForever

  /**
   * `update_last_seen`, which acquires the non-reentrant `db_lock`: called
   * by a thread already holding the lock, it never returns.
   */
  function UpdateLastSeen(s: Store, user: string, lockHeld: bool): (r: Progress<Store>)
    ensures lockHeld <==> r.BlocksForever?
    ensures r.Completes? ==> r.value.presence == s.presence[user := s.clock] && r.value.messages == s.messages
  {
    if lockHeld then BlocksForever else Completes(Touch(s, user))
  }

  /**
   * One iteration of the event loop as written, run with `db_lock` held: it
   * never gets past the first new message it inserts, and agrees with
   * `ApplyEvent` on every other event.
   */
  function ApplyEventHoldingLock(s: Store, e: Event): (r: Result<Progress<Applied>, StoreError>)
    ensures IsNewMessage(s, e) && e.data.id !in s.messages ==> r == Success(BlocksForever)
    ensures !(IsNewMessage(s, e) && e.data.id !in s.messages) ==>
      match ApplyEvent(s, e)
      case Success(a) => r == Success(Completes(a))
      case Failure(err) => r == Failure(err)
  {
    if e.id in s.processed then
      Success(Completes(Applied(s, false)))
    else if e.action == MessageAction then
      match PutMessage(s, e.data.id, MessageOf(e))
      case Failure(err) => Failure(err)
      case Success(s1) =>
        match UpdateLastSeen(s1, e.username, true)
        case BlocksForever => Success(BlocksForever)
        case Completes(s2) =>
          match MarkProcessed(s2, e.id)
          case Failure(err) => Failure(err)
          case Success(s3) => Success(Completes(Applied(s3, true)))
    else
      Success(Completes(Applied(MarkProcessed(s, e.id).value, false)))
  }

  /** The first message ever fetched already stops the poll loop for good. */
  lemma FirstMessageBlocksPollLoop()
    ensures
      var e1 := Event("e1", MessageAction, "alice", "2024-01-01T10:00:00", Payload("m1", "hi", None));
      && ApplyEventHoldingLock(Empty(), e1) == Success(BlocksForever)
      && ApplyEvent(Empty(), e1).Success?
  {
  }
}
