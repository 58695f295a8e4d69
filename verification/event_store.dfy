/**
 * The client's local database (main.py, `setup_databases`) read as plain
 * values: the `messages` table as a map keyed by its primary key, the
 * `processed_events` table as a set, and the `known_users` table as a map
 * from username to last-seen time. Wall-clock `time.time()` is replaced by a
 * logical clock that every presence update reads and then advances.
 */
module EventStore {
  import opened Wrappers

  /** The recipient value that stands for the public room. */
  const GlobalRoom: string := "global"

  /** One row of the `messages` table, without its key. */
  datatype Message = Message(sender: string, recipient: string, text: string, timestamp: string)

  datatype Store = Store(
    messages: map<string, Message>,   // `messages`: id -> row
    processed: set<string>,           // `processed_events`: ids of events already applied
    presence: map<string, nat>,       // `known_users`: username -> last seen
    clock: nat                        // the next logical time a presence update writes
  )

  /** Why a write to the store was refused. */
  datatype StoreError = DuplicateMessageId(id: string) | DuplicateEventId(id: string)

  /** A freshly created database: every table empty. */
  function Empty(): (s: Store)
    ensures Valid(s)
    ensures s.messages == map[] && s.processed == {} && s.presence == map[]
  {
    Store(map[], {}, map[], 0)
  }

  /**
   * Every last-seen value was written by an earlier update, and no two users
   * share one: the clock is strictly ahead and every update advances it.
   */
  predicate Valid(s: Store) {
    && (forall u :: u in s.presence ==> s.presence[u] < s.clock)
    && (forall u, v :: u in s.presence && v in s.presence && u != v ==> s.presence[u] != s.presence[v])
  }

  /**
   * `update_last_seen`: `INSERT OR REPLACE` the user's last-seen time with
   * the current clock. The user becomes the most recently seen one and
   * nobody else's record changes.
   */
  function Touch(s: Store, user: string): (r: Store)
    ensures r.presence.Keys == s.presence.Keys + {user}
    ensures r.presence[user] == s.clock && r.clock == s.clock + 1
    ensures forall u :: u in s.presence && u != user ==> r.presence[u] == s.presence[u]
    ensures r.messages == s.messages && r.processed == s.processed
    ensures Valid(s) ==> Valid(r)
    ensures Valid(s) ==> forall u :: u in r.presence && u != user ==> r.presence[u] < r.presence[user]
  {
    s.(presence := s.presence[user := s.clock], clock := s.clock + 1)
  }

  /**
   * `INSERT INTO messages`: the id is the primary key, so a second row with
   * an existing id is refused and the table is left as it was.
   */
  function PutMessage(s: Store, id: string, m: Message): (r: Result<Store, StoreError>)
    ensures id in s.messages <==> r.Failure?
    ensures r.Failure? ==> r.error == DuplicateMessageId(id)
    ensures r.Success? ==> r.value.messages.Keys == s.messages.Keys + {id} && r.value.messages[id] == m
    ensures r.Success? ==> forall k :: k in s.messages ==> r.value.messages[k] == s.messages[k]
    ensures r.Success? ==> r.value.processed == s.processed && r.value.presence == s.presence && r.value.clock == s.clock
  {
    if id in s.messages then Failure(DuplicateMessageId(id))
    else Success(s.(messages := s.messages[id := m]))
  }

  /**
   * `INSERT INTO processed_events`: remember that an event has been applied.
   * The event id is the primary key, so recording an id a second time is
   * refused; the event loop checks the table first and never does.
   */
  function MarkProcessed(s: Store, eventId: string): (r: Result<Store, StoreError>)
    ensures eventId in s.processed <==> r.Failure?
    ensures r.Failure? ==> r.error == DuplicateEventId(eventId)
    ensures r.Success? ==> r.value.processed == s.processed + {eventId} && eventId !in s.processed
    ensures r.Success? ==> r.value.messages == s.messages && r.value.presence == s.presence && r.value.clock == s.clock
  {
    if eventId in s.processed then Failure(DuplicateEventId(eventId))
    else Success(s.(processed := s.processed + {eventId}))
  }

  /** The messages of `s` are all still in `t`, unchanged: the log is append-only. */
  predicate Extends(s: map<string, Message>, t: map<string, Message>) {
    forall k :: k in s ==> k in t && t[k] == s[k]
  }
}
