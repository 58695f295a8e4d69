/**
 * The two read queries of the client: the chat history of the current
 * conversation (main.py, `render_chat_history`) and the list of known users
 * shown in the side drawer (main.py, `refresh_drawer`).
 */
module ViewBuilder {
  import opened Strings
  import opened Sorting
  import opened EventStore

  /** One row of the history query: a stored message with its id. */
  datatype Row = Row(id: string, msg: Message)

  /**
   * The `WHERE` clause of the history query. The public room shows every
   * message addressed to it, whoever sent it; a direct chat with `chat`
   * shows what `self` sent to `chat` and what `chat` sent to `self`.
   */
  predicate InConversation(m: Message, chat: string, self: string) {
    if chat == GlobalRoom then
      m.recipient == GlobalRoom
    else
      (m.recipient == chat && m.sender == self) || (m.recipient == self && m.sender == chat)
  }

  /** `ORDER BY timestamp ASC`, comparing timestamps as SQLite compares text. */
  function ByTime(): (le: (Row, Row) -> bool)
    ensures Total(le) && Transitive(le)
    ensures forall a, b :: le(a, b) == TimeLe(a.msg.timestamp, b.msg.timestamp)
  {
    TimeLeIsTotalOrder();
    (a: Row, b: Row) => TimeLe(a.msg.timestamp, b.msg.timestamp)
  }

  /** Each row is a stored message of the conversation, and each such message has its row. */
  predicate Selects(messages: map<string, Message>, chat: string, self: string, rows: seq<Row>) {
    && (forall i :: 0 <= i < |rows| ==>
          rows[i].id in messages && messages[rows[i].id] == rows[i].msg && InConversation(rows[i].msg, chat, self))
    && (forall id :: id in messages && InConversation(messages[id], chat, self) ==> Row(id, messages[id]) in rows)
  }

  /** No message is listed twice. */
  predicate DistinctIds(rows: seq<Row>) {
    forall i, j :: 0 <= i < j < |rows| ==> rows[i].id != rows[j].id
  }

  /**
   * What the history query returns for conversation `chat` seen by `self`:
   * exactly its messages, each once, oldest first. Rows with equal
   * timestamps may come in any order.
   */
  predicate IsView(messages: map<string, Message>, chat: string, self: string, rows: seq<Row>) {
    && Selects(messages, chat, self, rows)
    && DistinctIds(rows)
    && Sorted(rows, ByTime())
  }

  /** `render_chat_history`'s query over the store, for the current chat and user. */
  method QueryConversation(s: Store, chat: string, self: string) returns (rows: seq<Row>)
    ensures Selects(s.messages, chat, self, rows)
    ensures DistinctIds(rows)
    ensures forall i, j :: 0 <= i < j < |rows| ==> TimeLe(rows[i].msg.timestamp, rows[j].msg.timestamp)
  {
    rows := [];
    var pending := s.messages.Keys;
    while pending != {}
      invariant pending <= s.messages.Keys
      invariant SelectsAllBut(s.messages, chat, self, rows, pending)
      invariant Distinct(rows)
      invariant Sorted(rows, ByTime())
      decreases pending
    {
      var id :| id in pending;
      var next := if InConversation(s.messages[id], chat, self) then Insert(rows, Row(id, s.messages[id]), ByTime()) else rows;
      QueryStep(s.messages, chat, self, rows, pending, id, next);
      rows, pending := next, pending - {id};
    }
    QueryDone(s.messages, chat, self, rows);
  }

  /** The rows collected so far: those of the conversation's messages whose ids are no longer pending. */
  predicate SelectsAllBut(messages: map<string, Message>, chat: string, self: string, rows: seq<Row>, pending: set<string>) {
    && (forall i :: 0 <= i < |rows| ==>
          && rows[i].id in messages && rows[i].id !in pending
          && messages[rows[i].id] == rows[i].msg && InConversation(rows[i].msg, chat, self))
    && (forall id :: id in messages && id !in pending && InConversation(messages[id], chat, self) ==>
          Row(id, messages[id]) in rows)
  }

  /** One iteration of the query loop keeps its invariant. */
  lemma QueryStep(messages: map<string, Message>, chat: string, self: string, rows: seq<Row>, pending: set<string>, id: string, next: seq<Row>)
    requires id in pending && pending <= messages.Keys
    requires SelectsAllBut(messages, chat, self, rows, pending) && Distinct(rows) && Sorted(rows, ByTime())
    requires InConversation(messages[id], chat, self) ==> next == Insert(rows, Row(id, messages[id]), ByTime())
    requires !InConversation(messages[id], chat, self) ==> next == rows
    ensures SelectsAllBut(messages, chat, self, next, pending - {id}) && Distinct(next) && Sorted(next, ByTime())
  {
    if InConversation(messages[id], chat, self) {
      var x := Row(id, messages[id]);
      forall i | 0 <= i < |rows|
        ensures rows[i] != x
      {
        assert rows[i].id !in pending;
      }
      forall i | 0 <= i < |next|
        ensures next[i].id in messages && next[i].id !in pending - {id}
        ensures messages[next[i].id] == next[i].msg && InConversation(next[i].msg, chat, self)
      {
        assert next[i] in rows || next[i] == x;
        if next[i] != x {
          var j :| 0 <= j < |rows| && rows[j] == next[i];
        }
      }
    }
  }

  /** When nothing is pending, the collected rows are the view. */
  lemma QueryDone(messages: map<string, Message>, chat: string, self: string, rows: seq<Row>)
    requires SelectsAllBut(messages, chat, self, rows, {}) && Distinct(rows) && Sorted(rows, ByTime())
    ensures IsView(messages, chat, self, rows)
  {
  }

  /** The direct-chat filter is the pair condition: sender and recipient are the two participants. */
  lemma DirectChatIsPair(m: Message, chat: string, self: string)
    requires chat != GlobalRoom
    ensures InConversation(m, chat, self) <==> {m.sender, m.recipient} == {chat, self}
  {
    if {m.sender, m.recipient} == {chat, self} {
      assert chat in {m.sender, m.recipient} && self in {m.sender, m.recipient};
      assert m.sender in {chat, self} && m.recipient in {chat, self};
    }
  }

  /** Both participants of a direct chat see the same messages in it. */
  lemma DirectChatIsSymmetric(m: Message, x: string, y: string)
    requires x != GlobalRoom && y != GlobalRoom
    ensures InConversation(m, x, y) <==> InConversation(m, y, x)
  {
  }

  /** In a sequence without repetitions every element occurs once. */
  lemma {:induction false} DistinctMultiplicity<T>(xs: seq<T>, x: T)
    requires Distinct(xs)
    ensures multiset(xs)[x] == if x in xs then 1 else 0
    decreases |xs|
  {
    if |xs| > 0 {
      assert xs == [xs[0]] + xs[1..];
      assert Distinct(xs[1..]) by {
        forall i, j | 0 <= i < j < |xs[1..]|
          ensures xs[1..][i] != xs[1..][j]
        {
          assert xs[1..][i] == xs[i + 1] && xs[1..][j] == xs[j + 1];
        }
      }
      DistinctMultiplicity(xs[1..], x);
      assert xs[0] !in xs[1..] by {
        forall j | 0 <= j < |xs[1..]|
          ensures xs[1..][j] != xs[0]
        {
          assert xs[1..][j] == xs[j + 1];
        }
      }
    }
  }

  /**
   * Two oldest-first orderings of the same rows agree on the timestamp at
   * every position: they can differ only by reordering rows whose
   * timestamps are equal.
   */
  lemma {:induction false} SortedRowsShareTimestamps(r1: seq<Row>, r2: seq<Row>)
    requires multiset(r1) == multiset(r2)
    requires Sorted(r1, ByTime()) && Sorted(r2, ByTime())
    ensures |r1| == |r2|
    ensures forall i :: 0 <= i < |r1| ==> r1[i].msg.timestamp == r2[i].msg.timestamp
    decreases |r1|
  {
    assert |r1| == |multiset(r1)| == |multiset(r2)| == |r2|;
    if |r1| > 0 {
      assert r1[0] in multiset(r2);
      var j :| 0 <= j < |r2| && r2[j] == r1[0];
      OldestRowsShareTimestamp(r1, r2, j);
      // take the first row out of both orderings and compare the rest
      var rest1 := r1[1..];
      var rest2 := r2[..j] + r2[j + 1..];
      MultisetWithout(r1, r2, j);
      SortedWithout(r1, 0, ByTime());
      assert r1[..0] + r1[1..] == rest1;
      SortedWithout(r2, j, ByTime());
      SortedRowsShareTimestamps(rest1, rest2);
      RealignTimestamps(r1, r2, j);
    }
  }

  /**
   * Putting back the row taken from the front of `r1` and from position `j`
   * of `r2`: if the remainders agree on timestamps and the rows of `r2` up
   * to `j` all carry that row's timestamp, the full orderings agree.
   */
  lemma RealignTimestamps(r1: seq<Row>, r2: seq<Row>, j: nat)
    requires |r1| == |r2| && j < |r2|
    requires forall m :: 0 <= m <= j ==> r2[m].msg.timestamp == r1[0].msg.timestamp
    requires forall i :: 0 <= i < |r1| - 1 ==> r1[1..][i].msg.timestamp == (r2[..j] + r2[j + 1..])[i].msg.timestamp
    ensures forall i :: 0 <= i < |r1| ==> r1[i].msg.timestamp == r2[i].msg.timestamp
  {
    var rest2 := r2[..j] + r2[j + 1..];
    forall i | 0 <= i < |r1|
      ensures r1[i].msg.timestamp == r2[i].msg.timestamp
    {
      if 0 < i <= j {
        assert r1[i] == r1[1..][i - 1] && rest2[i - 1] == r2[i - 1];
      } else if j < i {
        assert r1[i] == r1[1..][i - 1] && rest2[i - 1] == r2[i];
      }
    }
  }

  /**
   * The first row of an oldest-first ordering, found at position `j` of
   * another ordering of the same rows: every row of that ordering up to `j`
   * carries its timestamp.
   */
  lemma OldestRowsShareTimestamp(r1: seq<Row>, r2: seq<Row>, j: nat)
    requires multiset(r1) == multiset(r2) && 0 < |r1|
    requires Sorted(r1, ByTime()) && Sorted(r2, ByTime())
    requires j < |r2| && r2[j] == r1[0]
    ensures forall m :: 0 <= m <= j ==> r2[m].msg.timestamp == r1[0].msg.timestamp
  {
    var t := r1[0].msg.timestamp;
    assert r2[0] in multiset(r1);
    var k :| 0 <= k < |r1| && r1[k] == r2[0];
    if 0 < j && 0 < k {
      assert TimeLe(r2[0].msg.timestamp, t) && TimeLe(t, r2[0].msg.timestamp);
      TimeLeAntisymmetric(r2[0].msg.timestamp, t);
    }
    forall m | 0 <= m <= j
      ensures r2[m].msg.timestamp == t
    {
      if 0 < m < j {
        assert TimeLe(r2[0].msg.timestamp, r2[m].msg.timestamp) && TimeLe(r2[m].msg.timestamp, t);
        TimeLeAntisymmetric(r2[m].msg.timestamp, t);
      }
    }
  }

  /**
   * The history query is determined up to the order of rows with equal
   * timestamps: any two results hold the same rows, each once, and show the
   * same timestamp at every position.
   */
  lemma ViewsAgreeUpToOrder(messages: map<string, Message>, chat: string, self: string, r1: seq<Row>, r2: seq<Row>)
    requires IsView(messages, chat, self, r1) && IsView(messages, chat, self, r2)
    ensures multiset(r1) == multiset(r2)
    ensures |r1| == |r2| && forall i :: 0 <= i < |r1| ==> r1[i].msg.timestamp == r2[i].msg.timestamp
  {
    assert Distinct(r1) && Distinct(r2);
    forall x: Row
      ensures multiset(r1)[x] == multiset(r2)[x]
    {
      DistinctMultiplicity(r1, x);
      DistinctMultiplicity(r2, x);
      if x in r1 {
        var i :| 0 <= i < |r1| && r1[i] == x;
      }
      if x in r2 {
        var i :| 0 <= i < |r2| && r2[i] == x;
      }
    }
    SortedRowsShareTimestamps(r1, r2);
  }

  /** A row shown before a sync is still shown after it: the log only grows. */
  lemma SyncKeepsRows(before: map<string, Message>, after: map<string, Message>, chat: string, self: string,
                      r1: seq<Row>, r2: seq<Row>)
    requires Extends(before, after)
    requires IsView(before, chat, self, r1) && IsView(after, chat, self, r2)
    ensures forall i :: 0 <= i < |r1| ==> r1[i] in r2
  {
  }

  // ---------------------------------------------------------------------------
  // The known-users list of the side drawer.
  // ---------------------------------------------------------------------------

  /** A user's last-seen value, or 0 for a user without a record. */
  function LastSeen(presence: map<string, nat>, user: string): (t: nat)
    ensures user in presence ==> t == presence[user]
  {
    if user in presence then presence[user] else 0
  }

  /** `ORDER BY last_seen DESC`. */
  function ByRecency(presence: map<string, nat>): (le: (string, string) -> bool)
    ensures Total(le) && Transitive(le)
    ensures forall a, b :: le(a, b) == (LastSeen(presence, a) >= LastSeen(presence, b))
  {
    (a: string, b: string) => LastSeen(presence, a) >= LastSeen(presence, b)
  }

  /**
   * What the drawer query returns: every known user except `self`, each once,
   * most recently seen first.
   */
  ghost predicate IsPresenceList(presence: map<string, nat>, self: string, users: seq<string>) {
    && (forall u :: u in users <==> u in presence && u != self)
    && Distinct(users)
    && Sorted(users, ByRecency(presence))
  }

  /** `refresh_drawer`'s query over the `known_users` table. */
  method ListPresence(s: Store, self: string) returns (users: seq<string>)
    ensures forall u :: u in users <==> u in s.presence && u != self
    ensures Distinct(users)
    ensures forall i, j :: 0 <= i < j < |users| ==> LastSeen(s.presence, users[i]) >= LastSeen(s.presence, users[j])
  {
    users := [];
    var pending := s.presence.Keys - {self};
    while pending != {}
      invariant pending <= s.presence.Keys - {self}
      invariant forall u :: u in users <==> u in s.presence && u != self && u !in pending
      invariant Distinct(users)
      invariant Sorted(users, ByRecency(s.presence))
      decreases pending
    {
      var u :| u in pending;
      users := Insert(users, u, ByRecency(s.presence));
      pending := pending - {u};
    }
  }

  /** With distinct last-seen values, a more recently seen user is listed before a less recent one. */
  lemma MoreRecentListedFirst(s: Store, self: string, users: seq<string>, a: string, b: string)
    requires Valid(s) && IsPresenceList(s.presence, self, users)
    requires a in s.presence && b in s.presence && a != self && b != self
    requires s.presence[a] > s.presence[b]
    ensures exists i, j :: 0 <= i < j < |users| && users[i] == a && users[j] == b
  {
    assert a in users && b in users;
    var i :| 0 <= i < |users| && users[i] == a;
    var j :| 0 <= j < |users| && users[j] == b;
    assert i < j;
  }

  /** Touching A, then B, then A again lists A before B. */
  lemma TouchOrderIsListOrder(s: Store, self: string, a: string, b: string, users: seq<string>)
    requires Valid(s) && a != b && a != self && b != self
    requires IsPresenceList(Touch(Touch(Touch(s, a), b), a).presence, self, users)
    ensures exists i, j :: 0 <= i < j < |users| && users[i] == a && users[j] == b
  {
    var t := Touch(Touch(Touch(s, a), b), a);
    MoreRecentListedFirst(t, self, users, a, b);
  }
}
