/**
 * The two user actions of the app object that change or emit state: signing
 * in (main.py, `attempt_login`) and sending a message (main.py,
 * `send_message`). The credential lookup is a parameter; the HTTP post is
 * represented by the payload it would carry.
 */
module App {
  import opened Wrappers
  import opened Strings
  import opened EventStore
  import opened SyncClient
  import opened ViewBuilder

  /** What the app object keeps: the store, the signed-in user (none before login) and the open chat. */
  datatype Client = Client(store: Store, username: Option<string>, currentChat: string)

  /**
   * The app as constructed over the database file it opens: nobody signed
   * in, the public room open, and the tables as an earlier run left them
   * (`CREATE TABLE IF NOT EXISTS` keeps existing rows; on a first run they
   * are `Empty()`).
   */
  function Start(db: Store): (c: Client)
    ensures c.username.None? && c.currentChat == GlobalRoom
    ensures c.store == db
  {
    Client(db, None, GlobalRoom)
  }

  /** The two refusals the login form reports. */
  datatype LoginError = BlankField | BadCredentials

  /** The app after a login attempt, and whether the attempt succeeded. */
  datatype LoginResult = LoginResult(client: Client, outcome: Outcome<LoginError>)

  /**
   * `attempt_login`: both fields are stripped; a blank one is refused before
   * the credentials are looked up; on a match the user is signed in and seen
   * now. `credentialsOk` stands for the `users` table lookup. A refused
   * attempt changes nothing.
   */
  function Login(c: Client, rawUser: string, rawPass: string, credentialsOk: (string, string) -> bool): (r: LoginResult)
    ensures Blank(rawUser) || Blank(rawPass) ==> r == LoginResult(c, Fail(BlankField))
    ensures !Blank(rawUser) && !Blank(rawPass) && !credentialsOk(Trim(rawUser), Trim(rawPass)) ==>
      r == LoginResult(c, Fail(BadCredentials))
    ensures r.outcome.Pass? <==> !Blank(rawUser) && !Blank(rawPass) && credentialsOk(Trim(rawUser), Trim(rawPass))
    ensures r.outcome.Pass? ==>
      && r.client.username == Some(Trim(rawUser))
      && r.client.store.presence == c.store.presence[Trim(rawUser) := c.store.clock]
      && r.client.store.messages == c.store.messages
      && r.client.store.processed == c.store.processed
      && r.client.currentChat == c.currentChat
    ensures Valid(c.store) ==> Valid(r.client.store)
  {
    var u := Trim(rawUser);
    var p := Trim(rawPass);
    if u == [] || p == [] then
      LoginResult(c, Fail(BlankField))
    else if credentialsOk(u, p) then
      LoginResult(c.(username := Some(u), store := Touch(c.store, u)), Pass)
    else
      LoginResult(c, Fail(BadCredentials))
  }

  /** The JSON body `send_message` posts to the feed. */
  datatype Outgoing = Outgoing(username: string, action: string, data: Payload)

  /**
   * `send_message`: blank text is ignored; otherwise the stripped text is
   * posted as a message addressed to the open chat, under the id the caller
   * generated. Nothing is written to the store: the message enters it only
   * when a later poll delivers it back.
   */
  function Send(c: Client, rawText: string, msgId: string): (r: Option<Outgoing>)
    requires c.username.Some?
    ensures Blank(rawText) <==> r.None?
    ensures r.Some? ==> r.value.username == c.username.value && r.value.action == MessageAction
    ensures r.Some? ==> r.value.data.id == msgId && r.value.data.to == Some(c.currentChat)
    ensures r.Some? ==> r.value.data.text == Trim(rawText) && r.value.data.text != []
  {
    var text := Trim(rawText);
    if text == [] then None
    else Some(Outgoing(c.username.value, MessageAction, Payload(msgId, text, Some(c.currentChat))))
  }

  /** The event the feed later delivers for a posted body, under an event id and a timestamp of its own. */
  function Echo(p: Outgoing, eventId: string, timestamp: string): (e: Event)
    ensures e.id == eventId && e.timestamp == timestamp
    ensures e.action == p.action && e.username == p.username && e.data == p.data
  {
    Event(eventId, p.action, p.username, timestamp, p.data)
  }

  /**
   * A sent message reaches the store when a poll delivers its echo: it is
   * stored under the id it was sent with, authored by the signed-in user,
   * addressed to the chat that was open, and so it belongs to that chat's
   * history; its author is seen at that moment.
   */
  lemma SentMessageArrivesByPoll(c: Client, rawText: string, msgId: string, eventId: string, timestamp: string)
    requires c.username.Some? && !Blank(rawText)
    requires eventId !in c.store.processed && msgId !in c.store.messages
    ensures
      var r := ApplyBatch(c.store, [Echo(Send(c, rawText, msgId).value, eventId, timestamp)]);
      && r.Success? && r.value.newMessages
      && r.value.store.messages == c.store.messages[msgId := Message(c.username.value, c.currentChat, Trim(rawText), timestamp)]
      && InConversation(r.value.store.messages[msgId], c.currentChat, c.username.value)
      && r.value.store.presence == c.store.presence[c.username.value := c.store.clock]
  {
    var e := Echo(Send(c, rawText, msgId).value, eventId, timestamp);
    assert ApplyBatch(c.store, [e]) == ApplyEvent(c.store, e) by {
      assert [e][1..] == [];
    }
  }

  /**
   * Signing in with credentials whose stripped form fails the lookup, from
   * any state of the app, is refused and leaves the app as it was: no
   * presence record is touched and the signed-in user does not change.
   */
  lemma FailedLoginChangesNothing(c: Client, rawUser: string, rawPass: string, credentialsOk: (string, string) -> bool)
    requires !credentialsOk(Trim(rawUser), Trim(rawPass))
    ensures Login(c, rawUser, rawPass, credentialsOk).client == c
    ensures Login(c, rawUser, rawPass, credentialsOk).outcome.Fail?
  {
  }
}
