/**
 * The persistence layer of models.py: `User` and `Message` objects over the
 * `users` and `messages` tables.
 *
 * The Python objects are mutable; here each operation that would change an
 * object or the store returns the new object and the new table instead. The
 * `cursor` collaborator becomes the table itself, and the timestamp
 * `CURRENT_TIMESTAMP` evaluates to becomes the parameter `now`.
 */
module Models {
  import opened Wrappers
  import opened Tables
  import opened Credentials

  /** The id of an object not (or no longer) persisted. */
  const UNSAVED: int := -1

  /** A `creation_date` value, opaque to the model. */
  type Timestamp = int

  datatype UserRow = UserRow(username: string, hashedPassword: string)

  datatype User = User(id: int, username: string, hashedPassword: Option<string>)

  datatype MessageRow = MessageRow(fromId: int, toId: int, creationDate: Timestamp, text: string)

  datatype Message = Message(id: int, fromId: int, toId: int, text: string, creationDate: Option<Timestamp>)

  // ---------------------------------------------------------------------
  // User

  /** `User(username, hashed_password=None)`. */
  function NewUser(username: string, hashedPassword: Option<string>): (u: User)
    ensures u.id == UNSAVED
    ensures u.username == username && u.hashedPassword == hashedPassword
  {
    User(UNSAVED, username, hashedPassword)
  }

  /** `set_password`: hash with a freshly generated salt; the password then verifies. */
  function SetPassword(d: Digest, u: User, password: string, generated: string): (u': User)
    ensures u'.id == u.id && u'.username == u.username
    ensures u'.hashedPassword.Some?
    ensures |u'.hashedPassword.value| == STORED_HASH_LENGTH
    ensures CheckPassword(d, password, u'.hashedPassword.value)
  {
    HashThenCheck(d, password, None, generated);
    u.(hashedPassword := Some(HashPassword(d, password, None, generated)))
  }

  function RowOfUser(u: User): UserRow
    requires u.hashedPassword.Some?
  {
    UserRow(u.username, u.hashedPassword.value)
  }

  /**
   * `save_to_db`: an unsaved user is inserted and takes the id the store
   * assigns; a saved one rewrites username and hash of the row with its id.
   * The hash column is NOT NULL, so a user without a hash cannot be saved.
   */
  function SaveUser(t: Table<UserRow>, u: User): (r: (Table<UserRow>, User))
    requires u.hashedPassword.Some?
    ensures u.id == UNSAVED ==>
      && r.1 == u.(id := r.1.id)
      && r.0.entries == t.entries + [Entry(r.1.id, RowOfUser(u))]
      && (Valid(t) ==> && Valid(r.0)
                       && r.1.id != UNSAVED
                       && r.1.id !in ToMap(t.entries)
                       && ToMap(r.0.entries) == ToMap(t.entries)[r.1.id := RowOfUser(u)])
    ensures u.id != UNSAVED ==>
      && r.1 == u
      && |r.0.entries| == |t.entries|
      && (forall i | 0 <= i < |t.entries| && t.entries[i].id != u.id :: r.0.entries[i] == t.entries[i])
      && (forall i | 0 <= i < |t.entries| && t.entries[i].id == u.id :: r.0.entries[i] == Entry(u.id, RowOfUser(u)))
      && ToMap(r.0.entries) == (if u.id in ToMap(t.entries) then ToMap(t.entries)[u.id := RowOfUser(u)]
                                else ToMap(t.entries))
      && (Valid(t) ==> Valid(r.0))
  {
    var row := RowOfUser(u);
    if u.id == UNSAVED then
      var (t', id) := Insert(t, row);
      (t', u.(id := id))
    else
      (Update(t, u.id, _ => row), u)
  }

  /** The object a loader builds from one row. */
  function UserOf(e: Entry<UserRow>): (u: User)
  {
    User(e.id, e.row.username, Some(e.row.hashedPassword))
  }

  function HasUsername(name: string): Entry<UserRow> -> bool {
    (e: Entry<UserRow>) => e.row.username == name
  }

  /** `load_user_by_username`: the first row with that username, or None. */
  function LoadUserByUsername(t: Table<UserRow>, name: string): (r: Option<User>)
    ensures r.None? <==> forall i | 0 <= i < |t.entries| :: t.entries[i].row.username != name
    ensures r.Some? ==> exists i | 0 <= i < |t.entries| ::
                          && r.value == UserOf(t.entries[i])
                          && t.entries[i].row.username == name
                          && forall j | 0 <= j < i :: t.entries[j].row.username != name
    ensures r.Some? ==> r.value.username == name && r.value.hashedPassword.Some?
    ensures r.Some? && Valid(t) ==>
              && r.value.id != UNSAVED
              && r.value.id in ToMap(t.entries)
              && ToMap(t.entries)[r.value.id] == RowOfUser(r.value)
  {
    match FindFirst(t.entries, HasUsername(name))
    case None => None
    case Some(i) =>
      assert HasUsername(name)(t.entries[i]);
      if Valid(t) then
        ToMapDistinct(t.entries, i);
        Some(UserOf(t.entries[i]))
      else
        Some(UserOf(t.entries[i]))
  }

  /** `load_user_by_id`: the row with that id, or None. */
  function LoadUserById(t: Table<UserRow>, id: int): (r: Option<User>)
    ensures r.None? <==> id !in ToMap(t.entries)
    ensures r.Some? ==> r.value == User(id, ToMap(t.entries)[id].username, Some(ToMap(t.entries)[id].hashedPassword))
  {
    ToMapFirst(t.entries, id);
    match FindById(t, id)
    case None => None
    case Some(e) => Some(UserOf(e))
  }

  /** `load_all_users`: one object per row, in store order. */
  function LoadAllUsers(t: Table<UserRow>): (us: seq<User>)
    ensures |us| == |t.entries|
    ensures forall i | 0 <= i < |us| :: us[i] == UserOf(t.entries[i])
  {
    UsersOf(t.entries)
  }

  function UsersOf(es: seq<Entry<UserRow>>): (us: seq<User>)
    ensures |us| == |es|
    ensures forall i | 0 <= i < |us| ::
              us[i].id == es[i].id && us[i].username == es[i].row.username
              && us[i].hashedPassword == Some(es[i].row.hashedPassword)
    decreases |es|
  {
    if |es| == 0 then [] else [UserOf(es[0])] + UsersOf(es[1..])
  }

  /** `delete`: a saved user loses its row and its id; an unsaved one is left alone. */
  function DeleteUser(t: Table<UserRow>, u: User): (r: (Table<UserRow>, User))
    ensures u.id == UNSAVED ==> r == (t, u)
    ensures u.id != UNSAVED ==>
      && r.1 == u.(id := UNSAVED)
      && ToMap(r.0.entries) == ToMap(t.entries) - {u.id}
      && (Valid(t) ==> Valid(r.0))
      && (Valid(t) && u.id in ToMap(t.entries) ==> |r.0.entries| == |t.entries| - 1)
  {
    if u.id != UNSAVED then (Delete(t, u.id), u.(id := UNSAVED)) else (t, u)
  }

  // ---------------------------------------------------------------------
  // Message

  /** `Message(from_id, to_id, text)`: unsaved and without a creation date. */
  function NewMessage(fromId: int, toId: int, text: string): (m: Message)
    ensures m.id == UNSAVED && m.creationDate.None?
    ensures m.fromId == fromId && m.toId == toId && m.text == text
  {
    Message(UNSAVED, fromId, toId, text, None)
  }

  function WithText(text: string): MessageRow -> MessageRow {
    (row: MessageRow) => row.(text := text)
  }

  /**
   * `save_to_db`: an unsaved message is inserted, and the id and timestamp
   * the store assigns are copied onto it; a saved one rewrites only the
   * `text` of its row.
   */
  function SaveMessage(t: Table<MessageRow>, m: Message, now: Timestamp): (r: (Table<MessageRow>, Message))
    ensures m.id == UNSAVED ==>
      && r.1 == m.(id := r.1.id, creationDate := Some(now))
      && r.0.entries == t.entries + [Entry(r.1.id, MessageRow(m.fromId, m.toId, now, m.text))]
      && (Valid(t) ==> && Valid(r.0)
                       && r.1.id != UNSAVED
                       && r.1.id !in ToMap(t.entries))
    ensures m.id != UNSAVED ==>
      && r.1 == m
      && |r.0.entries| == |t.entries|
      && (forall i | 0 <= i < |t.entries| :: && r.0.entries[i].id == t.entries[i].id
                                            && r.0.entries[i].row.fromId == t.entries[i].row.fromId
                                            && r.0.entries[i].row.toId == t.entries[i].row.toId
                                            && r.0.entries[i].row.creationDate == t.entries[i].row.creationDate)
      && (forall i | 0 <= i < |t.entries| ::
            r.0.entries[i].row.text == if t.entries[i].id == m.id then m.text else t.entries[i].row.text)
      && (Valid(t) ==> Valid(r.0))
  {
    if m.id == UNSAVED then
      var (t', id) := Insert(t, MessageRow(m.fromId, m.toId, now, m.text));
      (t', m.(id := id, creationDate := Some(now)))
    else
      (Update(t, m.id, WithText(m.text)), m)
  }

  /** The object a loader builds from one row. */
  function MessageOf(e: Entry<MessageRow>): Message {
    Message(e.id, e.row.fromId, e.row.toId, e.row.text, Some(e.row.creationDate))
  }

  /** `load_all_messages`: one object per row, in store order. */
  function LoadAllMessages(t: Table<MessageRow>): (ms: seq<Message>)
    ensures |ms| == |t.entries|
    ensures forall i | 0 <= i < |ms| :: ms[i] == MessageOf(t.entries[i])
  {
    MessagesOf(t.entries)
  }

  function MessagesOf(es: seq<Entry<MessageRow>>): (ms: seq<Message>)
    ensures |ms| == |es|
    ensures forall i | 0 <= i < |ms| ::
              && ms[i].id == es[i].id && ms[i].fromId == es[i].row.fromId && ms[i].toId == es[i].row.toId
              && ms[i].text == es[i].row.text && ms[i].creationDate == Some(es[i].row.creationDate)
    decreases |es|
  {
    if |es| == 0 then [] else [MessageOf(es[0])] + MessagesOf(es[1..])
  }

  // ---------------------------------------------------------------------
  // Authentication, as the command layers perform it

  /** The user `username` exists and `password` checks against its stored hash. */
  predicate Authenticates(d: Digest, t: Table<UserRow>, username: string, password: string) {
    match LoadUserByUsername(t, username)
    case None => false
    case Some(u) => CheckPassword(d, password, u.hashedPassword.value)
  }

  // ---------------------------------------------------------------------
  // Lemmas relating several operations

  /** A row appended for a username no earlier row has is what the username now loads. */
  lemma LoadAppended(t: Table<UserRow>, t': Table<UserRow>, e: Entry<UserRow>)
    requires t'.entries == t.entries + [e]
    requires LoadUserByUsername(t, e.row.username).None?
    ensures LoadUserByUsername(t', e.row.username) == Some(UserOf(e))
  {
    var name := e.row.username;
    assert t'.entries[|t.entries|].row.username == name;
    var r := LoadUserByUsername(t', name);
    var i :| 0 <= i < |t'.entries| && r.value == UserOf(t'.entries[i]) && t'.entries[i].row.username == name;
  }

  /**
   * Rewriting every row with id `id` to (name, hash), where `id` is the id
   * of the user `name` loads, makes `name` load that id with the new hash.
   */
  lemma LoadAfterRewrite(t: Table<UserRow>, t': Table<UserRow>, name: string, id: int, hash: string)
    requires LoadUserByUsername(t, name).Some? && LoadUserByUsername(t, name).value.id == id
    requires |t'.entries| == |t.entries|
    requires forall i | 0 <= i < |t.entries| && t.entries[i].id != id :: t'.entries[i] == t.entries[i]
    requires forall i | 0 <= i < |t.entries| && t.entries[i].id == id :: t'.entries[i] == Entry(id, UserRow(name, hash))
    ensures LoadUserByUsername(t', name) == Some(User(id, name, Some(hash)))
  {
    var p := HasUsername(name);
    var i := FindFirst(t.entries, p).value;
    assert t.entries[i].id == id;
    assert p(t'.entries[i]);
    var k := FindFirst(t'.entries, p).value;
    assert k <= i;
    assert t.entries[k].id == id;
    assert t'.entries[k] == Entry(id, UserRow(name, hash));
  }

  /** Saving and then loading by the saved id gives back the saved object. */
  lemma SaveThenLoadUser(t: Table<UserRow>, u: User)
    requires Valid(t)
    requires u.hashedPassword.Some?
    requires u.id == UNSAVED || u.id in ToMap(t.entries)
    ensures var (t', u') := SaveUser(t, u);
            && u'.id != UNSAVED
            && LoadUserById(t', u'.id) == Some(u')
  {
  }

  /**
   * A saved user, changed and saved again, keeps its id, adds no row, and
   * the changed fields are what its id now loads.
   */
  lemma ResaveUser(t: Table<UserRow>, u: User, username: string, hash: string)
    requires Valid(t)
    requires u.id == UNSAVED && u.hashedPassword.Some?
    ensures var (t1, u1) := SaveUser(t, u);
            var changed := u1.(username := username, hashedPassword := Some(hash));
            var (t2, u2) := SaveUser(t1, changed);
            && u1.id != UNSAVED
            && u2.id == u1.id
            && |t2.entries| == |t1.entries| == |t.entries| + 1
            && LoadUserById(t2, u1.id) == Some(changed)
  {
    var (t1, u1) := SaveUser(t, u);
    SaveThenLoadUser(t1, u1.(username := username, hashedPassword := Some(hash)));
  }

  /**
   * The creation date is set once: a message saved, given new text and
   * saved again at a later `now` keeps its first timestamp, in the object
   * and in the row loaded back.
   */
  lemma MessageDateSetOnce(t: Table<MessageRow>, m: Message, text: string, now: Timestamp, later: Timestamp)
    requires Valid(t)
    requires m.id == UNSAVED
    ensures var (t1, m1) := SaveMessage(t, m, now);
            var (t2, m2) := SaveMessage(t1, m1.(text := text), later);
            && m2.creationDate == Some(now)
            && |t2.entries| == |t.entries| + 1
            && LoadAllMessages(t2)[|t.entries|] == m1.(text := text)
  {
  }
}
