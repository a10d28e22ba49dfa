/**
 * The messaging commands of message.py: what `send_message` and
 * `list_messages` decide, what sending does to the `messages` table, and
 * what listing shows. The `users` table is only read here. `now` is the
 * timestamp the store assigns to an inserted message.
 */
module Messaging {
  import opened Wrappers
  import opened Tables
  import opened Credentials
  import opened Arguments
  import Models

  const MAX_MESSAGE_LENGTH: nat := 255

  /** One listed message: the sender's username, the date and the text. */
  datatype Shown = Shown(sender: string, date: Option<Models.Timestamp>, text: string)

  datatype Outcome =
    | MessageTooLong
    | SenderMissing
    | IncorrectPassword
    | RecipientMissing
    | MessageSent
    | NoSuchUser
    | NoMessages
    | Listed(shown: seq<Shown>)
    | Help

  datatype Reply = Reply(messages: Table<Models.MessageRow>, outcome: Outcome)

  /** `send_message`. */
  function SendMessage(d: Digest, users: Table<Models.UserRow>, messages: Table<Models.MessageRow>,
                       fromName: string, password: string, toName: string, text: string,
                       now: Models.Timestamp): (r: Reply)
    ensures |text| > MAX_MESSAGE_LENGTH ==> r == Reply(messages, MessageTooLong)
    ensures r.outcome == SenderMissing <==>
              |text| <= MAX_MESSAGE_LENGTH && Models.LoadUserByUsername(users, fromName).None?
    ensures r.outcome == IncorrectPassword <==>
              && |text| <= MAX_MESSAGE_LENGTH
              && Models.LoadUserByUsername(users, fromName).Some?
              && !Models.Authenticates(d, users, fromName, password)
    ensures r.outcome == RecipientMissing <==>
              && |text| <= MAX_MESSAGE_LENGTH
              && Models.Authenticates(d, users, fromName, password)
              && Models.LoadUserByUsername(users, toName).None?
    ensures r.outcome == MessageSent <==>
              && |text| <= MAX_MESSAGE_LENGTH
              && Models.Authenticates(d, users, fromName, password)
              && Models.LoadUserByUsername(users, toName).Some?
    ensures r.outcome != MessageSent ==> r.messages == messages
    ensures r.outcome == MessageSent ==>
              var sender := Models.LoadUserByUsername(users, fromName).value;
              var recipient := Models.LoadUserByUsername(users, toName).value;
              && |r.messages.entries| == |messages.entries| + 1
              && r.messages.entries[..|messages.entries|] == messages.entries
              && r.messages.entries[|messages.entries|].row
                 == Models.MessageRow(sender.id, recipient.id, now, text)
              && (Valid(messages) ==> Valid(r.messages))
  {
    if |text| > MAX_MESSAGE_LENGTH then Reply(messages, MessageTooLong)
    else match Models.LoadUserByUsername(users, fromName)
      case None => Reply(messages, SenderMissing)
      case Some(sender) =>
        if !CheckPassword(d, password, sender.hashedPassword.value) then Reply(messages, IncorrectPassword)
        else match Models.LoadUserByUsername(users, toName)
          case None => Reply(messages, RecipientMissing)
          case Some(recipient) =>
            var m := Models.NewMessage(sender.id, recipient.id, text);
            var t' := Models.SaveMessage(messages, m, now).0;
            assert t'.entries[..|messages.entries|] == messages.entries;
            Reply(t', MessageSent)
  }

  /** The messages addressed to `userId`, in load order. */
  function Inbox(ms: seq<Models.Message>, userId: int): (r: seq<Models.Message>)
    ensures |r| <= |ms|
    ensures forall i | 0 <= i < |r| :: r[i].toId == userId && r[i] in ms
    ensures forall i | 0 <= i < |ms| && ms[i].toId == userId :: ms[i] in r
    decreases |ms|
  {
    if |ms| == 0 then []
    else if ms[0].toId == userId then [ms[0]] + Inbox(ms[1..], userId)
    else Inbox(ms[1..], userId)
  }

  /** Every message's sender is a user the store still has. */
  predicate SendersKnown(users: Table<Models.UserRow>, ms: seq<Models.Message>) {
    forall i | 0 <= i < |ms| :: Models.LoadUserById(users, ms[i].fromId).Some?
  }

  /** What `list_messages` prints for each message: sender name, date, text. */
  function Render(users: Table<Models.UserRow>, ms: seq<Models.Message>): (r: seq<Shown>)
    requires SendersKnown(users, ms)
    ensures |r| == |ms|
    ensures forall i | 0 <= i < |ms| ::
              && ToMap(users.entries)[ms[i].fromId].username == r[i].sender
              && r[i].date == ms[i].creationDate
              && r[i].text == ms[i].text
    decreases |ms|
  {
    if |ms| == 0 then []
    else
      var sender := Models.LoadUserById(users, ms[0].fromId).value;
      [Shown(sender.username, ms[0].creationDate, ms[0].text)] + Render(users, ms[1..])
  }

  /**
   * What `list_messages` needs to run to the end: when the credentials are
   * right, every message addressed to the user has a sender that loads.
   */
  predicate ListingResolvable(d: Digest, users: Table<Models.UserRow>, messages: Table<Models.MessageRow>,
                              username: string, password: string) {
    Models.Authenticates(d, users, username, password) ==>
      SendersKnown(users, Inbox(Models.LoadAllMessages(messages), Models.LoadUserByUsername(users, username).value.id))
  }

  /** `list_messages`; it reads the store and never writes it. */
  function ListMessages(d: Digest, users: Table<Models.UserRow>, messages: Table<Models.MessageRow>,
                        username: string, password: string): (o: Outcome)
    requires ListingResolvable(d, users, messages, username, password)
    ensures o == NoSuchUser <==> Models.LoadUserByUsername(users, username).None?
    ensures o == IncorrectPassword <==>
              Models.LoadUserByUsername(users, username).Some? && !Models.Authenticates(d, users, username, password)
    ensures o == NoMessages <==>
              && Models.Authenticates(d, users, username, password)
              && forall i | 0 <= i < |messages.entries| ::
                   messages.entries[i].row.toId != Models.LoadUserByUsername(users, username).value.id
    ensures o.Listed? <==>
              && Models.Authenticates(d, users, username, password)
              && exists i | 0 <= i < |messages.entries| ::
                   messages.entries[i].row.toId == Models.LoadUserByUsername(users, username).value.id
    ensures o.Listed? ==>
              var inbox := Inbox(Models.LoadAllMessages(messages), Models.LoadUserByUsername(users, username).value.id);
              && |o.shown| == |inbox| > 0
              && forall k | 0 <= k < |inbox| ::
                   && o.shown[k].sender == ToMap(users.entries)[inbox[k].fromId].username
                   && o.shown[k].text == inbox[k].text
                   && o.shown[k].date == inbox[k].creationDate
  {
    match Models.LoadUserByUsername(users, username)
    case None => NoSuchUser
    case Some(u) =>
      if !CheckPassword(d, password, u.hashedPassword.value) then IncorrectPassword
      else
        var all := Models.LoadAllMessages(messages);
        var inbox := Inbox(all, u.id);
        if |inbox| == 0 then
          assert forall i | 0 <= i < |messages.entries| :: all[i].toId == messages.entries[i].row.toId;
          NoMessages
        else
          var k :| 0 <= k < |inbox|;
          assert inbox[k] in all;
          Listed(Render(users, inbox))
  }

  // ---------------------------------------------------------------------
  // Flag dispatch of `main`

  datatype Args = Args(username: Option<string>, password: Option<string>, to: Option<string>,
                       send: Option<string>, list: bool)

  datatype Action =
    | ListAction(username: string, password: string)
    | SendAction(username: string, password: string, to: string, text: string)
    | HelpAction

  /** Which command `main` runs for the given flags. */
  function Dispatch(a: Args): (act: Action)
    ensures act.ListAction? <==> Given(a.username) && Given(a.password) && a.list
    ensures act.SendAction? <==>
              && !a.list
              && Given(a.username) && Given(a.password) && Given(a.to) && Given(a.send)
    ensures !act.HelpAction? ==> act.username == a.username.value && act.password == a.password.value
    ensures act.SendAction? ==> act.to == a.to.value && act.text == a.send.value
  {
    if Given(a.username) && Given(a.password) && a.list then
      ListAction(a.username.value, a.password.value)
    else if Given(a.username) && Given(a.password) && Given(a.to) && Given(a.send) then
      SendAction(a.username.value, a.password.value, a.to.value, a.send.value)
    else HelpAction
  }

  /** `main`: dispatch, then run the chosen command. Only a verified sender writes. */
  function Run(d: Digest, users: Table<Models.UserRow>, messages: Table<Models.MessageRow>, a: Args,
               now: Models.Timestamp): (r: Reply)
    requires Dispatch(a).ListAction? ==>
               ListingResolvable(d, users, messages, Dispatch(a).username, Dispatch(a).password)
    ensures r.messages != messages ==>
              && Dispatch(a).SendAction?
              && r.outcome == MessageSent
              && Models.Authenticates(d, users, Dispatch(a).username, Dispatch(a).password)
    ensures Dispatch(a).HelpAction? ==> r == Reply(messages, Help)
    ensures Valid(messages) ==> Valid(r.messages)
  {
    match Dispatch(a)
    case ListAction(u, p) => Reply(messages, ListMessages(d, users, messages, u, p))
    case SendAction(u, p, to, text) => SendMessage(d, users, messages, u, p, to, text, now)
    case HelpAction => Reply(messages, Help)
  }

  // ---------------------------------------------------------------------
  // Lemmas

  /** Filtering keeps load order: the inbox of a concatenation is the concatenation of the inboxes. */
  lemma {:induction false} InboxConcat(a: seq<Models.Message>, b: seq<Models.Message>, userId: int)
    ensures Inbox(a + b, userId) == Inbox(a, userId) + Inbox(b, userId)
    decreases |a|
  {
    if |a| == 0 {
      assert a + b == b;
    } else {
      assert (a + b)[0] == a[0];
      assert (a + b)[1..] == a[1..] + b;
      InboxConcat(a[1..], b, userId);
    }
  }

  /** Loading after an append loads the old messages, then the appended one. */
  lemma LoadAllAppended(t: Table<Models.MessageRow>, t': Table<Models.MessageRow>)
    requires |t'.entries| == |t.entries| + 1
    requires t'.entries[..|t.entries|] == t.entries
    ensures Models.LoadAllMessages(t')
         == Models.LoadAllMessages(t) + [Models.MessageOf(t'.entries[|t.entries|])]
  {
    var a := Models.LoadAllMessages(t');
    var b := Models.LoadAllMessages(t) + [Models.MessageOf(t'.entries[|t.entries|])];
    forall i | 0 <= i < |a| ensures a[i] == b[i] {
      if i < |t.entries| {
        assert t'.entries[i] == t.entries[i];
      }
    }
  }

  /**
   * A sent message shows up last in the recipient's inbox, and every other
   * user's inbox is what it was.
   */
  lemma SentMessageReachesRecipientOnly(d: Digest, users: Table<Models.UserRow>, messages: Table<Models.MessageRow>,
                                        fromName: string, password: string, toName: string, text: string,
                                        now: Models.Timestamp, userId: int)
    requires |text| <= MAX_MESSAGE_LENGTH
    requires Models.Authenticates(d, users, fromName, password)
    requires Models.LoadUserByUsername(users, toName).Some?
    ensures var r := SendMessage(d, users, messages, fromName, password, toName, text, now);
            var recipient := Models.LoadUserByUsername(users, toName).value;
            var before := Inbox(Models.LoadAllMessages(messages), userId);
            var after := Inbox(Models.LoadAllMessages(r.messages), userId);
            && (userId == recipient.id ==>
                  && |after| == |before| + 1
                  && after[..|before|] == before
                  && after[|before|].text == text
                  && after[|before|].fromId == Models.LoadUserByUsername(users, fromName).value.id
                  && after[|before|].creationDate == Some(now))
            && (userId != recipient.id ==> after == before)
  {
    var r := SendMessage(d, users, messages, fromName, password, toName, text, now);
    var added := Models.MessageOf(r.messages.entries[|messages.entries|]);
    LoadAllAppended(messages, r.messages);
    InboxConcat(Models.LoadAllMessages(messages), [added], userId);
    assert Inbox([added], userId) == if added.toId == userId then [added] else [];
  }
}
