# workshop_Python_DB — a Dafny model of the credential scheme, the persistence layer and the command logic

The system is a small multi-user messaging utility on PostgreSQL. Users register with a
password, authenticate, and send short text messages to each other. This project models
its core as pure functions over immutable data:

- `credentials.dfy` (module `Credentials`, from `create_DB.py`). It covers salt
  generation, normalisation of a salt to 16 characters, salted hashing, and password
  checking. SHA-256 is the parameter `d: Digest`. A `Digest` is any function from strings
  to 64-character lowercase hexadecimal strings, which is what `hexdigest()` returns.
- `tables.dfy` (module `Tables`). An abstract table with a `SERIAL PRIMARY KEY`. It holds
  rows in insertion order, each tagged with its id, and the next id of the sequence. `ToMap`
  is its map view: id to row, where the first entry with an id wins. `Valid` is what the
  key guarantees: ids lie in `[1, nextId)` and are distinct.
- `models.dfy` (module `Models`, from `models.py`). The `User` and `Message` objects have
  the sentinel id `-1`. The module holds their constructors, `set_password`, both
  `save_to_db` methods, the loaders, and `delete`. A method that mutates an object or the
  store returns the new table and the new object instead.
- `accounts.dfy` (module `Accounts`, from `main.py`). It holds the decisions of
  `create_user`, `edit_password`, `delete_user` and `list_users`, and the flag dispatch of
  `main`. Each command maps (users table, inputs) to (users table', `Outcome`).
- `messaging.dfy` (module `Messaging`, from `message.py`). It holds `send_message`,
  `list_messages` and the flag dispatch of `main`.
- `arguments.dfy` (module `Arguments`) defines Python truthiness of an optional argument.
  `wrappers.dfy` (module `Wrappers`) defines `Option`.

Parameters stand for everything outside the program:
- the digest function `d`;
- the salt `generate_salt` returns (`generated`), or the sixteen alphabet indices it
  draws (`GenerateSalt`'s `picks`);
- the id the sequence hands out (`nextId` of the table);
- the timestamp `CURRENT_TIMESTAMP` yields (`now`).

Three facts about the source shape the model:

- Usernames are not unique at the store level. The `users` DDL (create_DB.py:79-83) has
  no UNIQUE constraint. Uniqueness comes only from the existence check in `create_user`,
  and a username loads its *first* row. The `UniqueViolation` handler (main.py:34-35)
  can never fire, so it is not modelled.
- A stored string of 16 or fewer characters never verifies: its tail after 16 characters
  is empty, and the 64-character digest never equals it.
- The `messages` DDL (create_DB.py:90-96) has no `text` column, while `models.py` reads
  and writes one, so the row type carries `text`.

## Model

| member | source | states |
|---|---|---|
| Credentials.GenerateSalt | create_DB.py:16-22 | the salt has 16 characters; character i is the alphabet entry drawn at i, an ASCII letter or digit |
| Credentials.NormalizeSalt | create_DB.py:30-33 | the result has exactly 16 characters; a shorter salt is its prefix and the rest is `'a'`; a longer salt is truncated to its first 16 characters |
| Credentials.HashPassword | create_DB.py:24-37 | the result has 80 characters; its first 16 are the normalised salt (the generated one when the salt is omitted); the last 64 are a hex digest |
| Credentials.CheckPassword | create_DB.py:39-46 | true exactly when the stored string is longer than 16 and the digest of its first 16 characters followed by the candidate equals its remaining characters |
| Credentials.NormalizeIdempotent | create_DB.py:30-33 | normalising a normalised salt changes nothing |
| Credentials.NormalizeKeepsFullSalt | create_DB.py:30-33 | a 16-character salt is used unchanged |
| Credentials.ShortSaltIsPadded | create_DB.py:30-31 | hashing with a short salt gives the same string as hashing with that salt right-padded by `'a'` to 16 |
| Credentials.LongSaltIsTruncated | create_DB.py:32-33 | hashing with a long salt gives the same string as hashing with its first 16 characters |
| Credentials.HashLayout | create_DB.py:35-37 | the stored string is the normalised salt followed by the digest of salt ++ password: 80 characters, the width of the VARCHAR(80) column |
| Credentials.GeneratedSaltIsPrefix | create_DB.py:28-29 | with the salt omitted, a generated salt is stored verbatim as the first 16 characters |
| Credentials.HashThenCheck | create_DB.py:24-46 | a password checks against its own hash for every salt, given or generated |
| Credentials.CheckOtherCandidate | create_DB.py:39-46 | a candidate checks against another password's hash exactly when the two digests under that salt collide |
| Credentials.ShortStoredHashNeverChecks | create_DB.py:43-46 | a stored string of 16 characters or fewer never verifies |
| Tables.FindFirst | models.py:43-47 | `fetchone` after a filtered SELECT: None exactly when no row matches, otherwise the index of a matching row with no match before it |
| Tables.FindById | models.py:55-59 | None exactly when no row has the id; otherwise a row of the table with that id, the one the map view holds for it (the first) |
| Tables.Insert | models.py:29-33 | INSERT ... RETURNING id appends one row under a fresh id; a valid table stays valid and its map gains exactly that id |
| Tables.Update | models.py:36-39 | UPDATE ... WHERE id rewrites only the rows with that id; the map changes at that id only, and not at all when it is absent |
| Tables.Delete | models.py:77-78 | DELETE ... WHERE id removes that key from the map; one row fewer in a valid table that holds it, and nothing changes when it is absent |
| Tables.ToMapFirst | models.py:53-63 | the map view holds an id exactly when a row has it, and holds the row of the first such entry |
| Models.NewUser | models.py:5-8 | a new user has id -1 and keeps the given username and hash |
| Models.SetPassword | models.py:18-20 | after setting a password, the 80-character hash verifies that password; id and username are unchanged |
| Models.SaveUser | models.py:21-39 | an unsaved user is appended as one row under a fresh id that is copied onto the object, with existing rows unchanged; a saved user rewrites username and hash of its own rows only, with no row added and the id unchanged |
| Models.LoadUserByUsername | models.py:41-51 | None exactly when no row has the username; otherwise the first such row's id, username and hash |
| Models.LoadUserById | models.py:53-63 | None exactly when no row has the id; otherwise that row's username and hash under the id |
| Models.LoadAllUsers | models.py:66-74 | one user per row in store order, every column copied |
| Models.DeleteUser | models.py:75-79 | deleting a saved user removes its id from the table and resets the object's id to -1; deleting an unsaved user changes nothing |
| Models.NewMessage | models.py:82-87 | a new message has id -1, no creation date and the given sender, recipient and text |
| Models.SaveMessage | models.py:93-112 | insert appends one row with a fresh id and the store's timestamp and copies both onto the object; update rewrites only the text of that id's rows, leaving sender, recipient and date untouched |
| Models.LoadAllMessages | models.py:114-123 | one message per row in store order, every column copied |
| Models.SaveThenLoadUser | models.py:27-39 | after a save, loading by the object's id gives back the saved object |
| Models.ResaveUser | models.py:27-39 | a saved user changed and saved again keeps its id, adds no row, and its id then loads the changed fields |
| Models.MessageDateSetOnce | models.py:99-112 | a message's creation date is set by its first save; a second save with new text keeps it, in the object and in the reloaded row |
| Accounts.CreateUser | main.py:11-33 | a password under 8 characters is rejected, and an existing username reports "already exists"; both leave the table unchanged; success appends one row and afterwards the username authenticates with the password |
| Accounts.EditPassword | main.py:37-60 | a short new password is rejected before any lookup; the hash changes only when the old password verifies; a missing user or wrong password leaves the table unchanged; after an update the username authenticates with the new password and other rows are unchanged |
| Accounts.DeleteUser | main.py:62-80 | the row is removed only when the password verifies; a missing user or wrong password leaves the table unchanged |
| Accounts.ListUsers | main.py:82-93 | one (id, username) line per row in store order; the table is unchanged |
| Accounts.Dispatch | main.py:110-119 | `--list` wins; then delete needs username, password and delete; then edit also needs edit and new password; create needs username and password with no edit, delete or new password; otherwise help |
| Accounts.Run | main.py:95-119 | the table changes only through a create of a new username, or an edit or delete by an authenticated user; help changes nothing; validity is kept |
| Accounts.CreatedUserAcceptsOnlyItsPassword | main.py:29-33 | after a create, another password authenticates exactly when its digest under the stored salt collides with the chosen one's |
| Accounts.CreateTwice | main.py:24-27 | a second create of the same username reports "already exists" and leaves the first record intact |
| Messaging.SendMessage | message.py:38-67 | text over 255 characters is rejected before the store is touched, and 255 is accepted; a missing sender, wrong password and missing recipient are reported in that order and write nothing; success appends one message from the sender's id to the recipient's id with the text and the store's timestamp |
| Messaging.Inbox | message.py:28-29 | the listed messages are exactly those whose recipient id is the user's |
| Messaging.Render | message.py:29-34 | each listed message shows its sender's username, its date and its text |
| Messaging.ListMessages | message.py:8-36 | a missing user or wrong password aborts without listing; "no messages" is reported exactly when no message is addressed to the user; an authenticated user with mail gets a listing of exactly the inbox, in load order, each with its sender's username, date and text |
| Messaging.Dispatch | message.py:82-87 | list (username, password, list) takes priority over send (username, password, to, text); otherwise help |
| Messaging.Run | message.py:69-87 | the messages table changes only through a send by an authenticated sender; listing and help leave it unchanged |
| Messaging.InboxConcat | message.py:28-29 | filtering keeps load order: the inbox of a concatenation is the concatenation of the inboxes |
| Messaging.SentMessageReachesRecipientOnly | message.py:65-67 | a sent message is appended to the recipient's inbox with its text, sender and date; every other user's inbox is unchanged |

## Left out

- Database access (connections, cursors, SQL text, autocommit, transactions) is replaced by the abstract table. So is the administrator password prompt and its global `DB_PASSWORD`.
- `create_database` and `create_tables` (create_DB.py:48-109) are schema bootstrap; the constraints they declare are not enforced by the model (see the next three lines).
- Accounts.DeleteUser: in the source, `from_id`/`to_id REFERENCES users(id)` (create_DB.py:93-94) use the default NO ACTION, so `delete_user` on a user who has sent or received messages fails with a foreign-key violation and deletes nothing; the model removes the user's row anyway and leaves the messages in place.
- Accounts.CreateUser: column widths are not enforced. For a username over 255 characters (`VARCHAR(255)`, create_DB.py:81) the source's INSERT fails and the command aborts with no row written (or, when the excess is all spaces, stores the name cut to 255); the model reports `UserCreated` and stores the full name.
- Row order: a `SELECT` without `ORDER BY` (models.py:44, models.py:68, models.py:116) has no guaranteed order in PostgreSQL, and an UPDATE writes a new row version that a scan may return elsewhere. The model fixes the order as insertion order with updates in place, so "in store order" (Models.LoadAllUsers, Models.LoadAllMessages, Accounts.ListUsers, Messaging.ListMessages) and "the first such row" (Models.LoadUserByUsername) hold under that choice only.
- SHA-256 and UTF-8 encoding are not modelled. The digest is an arbitrary parameter. "A wrong password fails" is stated as "only a digest collision passes", not as injectivity, which no function into 64-character strings can have.
- The randomness of `generate_salt` is a parameter. Any value passed as `generated` is treated as one draw.
- Timestamps are opaque integers supplied as `now`. There is no date arithmetic.
- argparse parsing and the exact console wording are reduced to an `Outcome` per command. Printing is not modelled.
- The race between the existence check and the insert when several processes run at once is not modelled.
- Messaging.ListMessages: requires that every message addressed to an authenticated user has a sender that still loads. The source dereferences `None` there (message.py:31-32) and crashes.
- Accounts.EditPassword: the facts about the table after a successful update are stated only for a `Valid` table. With a row under id -1, which a SERIAL key never produces, `save_to_db` would insert instead of update.
- Accounts.DeleteUser: the row-removal facts are stated only for a `Valid` table, for the same reason.
- Models.SaveUser: requires a hash to be present. The NOT NULL `hashed_password` column rejects a user saved before `set_password`, and the source never does that.
- The timing side channel of the plain string comparison in `check_password` is not modelled.
