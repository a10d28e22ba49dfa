/**
 * The user-management commands of main.py: what each one decides and what
 * it does to the `users` table. Console wording becomes an `Outcome`.
 * Each command takes the table and returns the new table with its outcome;
 * `generated` is the salt `generate_salt` returns when a password is set.
 */
module Accounts {
  import opened Wrappers
  import opened Tables
  import opened Credentials
  import opened Arguments
  import Models

  const MIN_PASSWORD_LENGTH: nat := 8

  datatype Outcome =
    | PasswordTooShort
    | UserExists
    | UserCreated
    | NoSuchUser
    | IncorrectPassword
    | PasswordUpdated
    | UserDeleted
    | UsersListed(listing: seq<(int, string)>)
    | Help

  datatype Reply = Reply(users: Table<Models.UserRow>, outcome: Outcome)

  /** `create_user`. */
  function CreateUser(d: Digest, t: Table<Models.UserRow>, username: string, password: string, generated: string)
    : (r: Reply)
    ensures |password| < MIN_PASSWORD_LENGTH ==> r == Reply(t, PasswordTooShort)
    ensures |password| >= MIN_PASSWORD_LENGTH && Models.LoadUserByUsername(t, username).Some? ==>
              r == Reply(t, UserExists)
    ensures r.outcome == UserCreated <==>
              |password| >= MIN_PASSWORD_LENGTH && Models.LoadUserByUsername(t, username).None?
    ensures r.outcome != UserCreated ==> r.users == t
    ensures r.outcome == UserCreated ==>
              && Models.Authenticates(d, r.users, username, password)
              && |r.users.entries| == |t.entries| + 1
              && r.users.entries[..|t.entries|] == t.entries
              && (Valid(t) ==> Valid(r.users))
  {
    if |password| < MIN_PASSWORD_LENGTH then Reply(t, PasswordTooShort)
    else if Models.LoadUserByUsername(t, username).Some? then Reply(t, UserExists)
    else
      var u := Models.SetPassword(d, Models.NewUser(username, None), password, generated);
      var (t', u') := Models.SaveUser(t, u);
      Models.LoadAppended(t, t', Entry(u'.id, Models.RowOfUser(u)));
      assert t'.entries[..|t.entries|] == t.entries;
      Reply(t', UserCreated)
  }

  /**
   * The success path of `edit_password`: the loaded user `u` gets a new
   * hash and is saved back over its own row.
   */
  function Rehash(d: Digest, t: Table<Models.UserRow>, u: Models.User, newPassword: string, generated: string)
    : (t': Table<Models.UserRow>)
    requires Models.LoadUserByUsername(t, u.username) == Some(u)
    ensures Valid(t) ==>
              && Valid(t')
              && Models.Authenticates(d, t', u.username, newPassword)
              && Models.LoadUserByUsername(t', u.username).value.id == u.id
              && |t'.entries| == |t.entries|
              && forall i | 0 <= i < |t.entries| && t.entries[i].id != u.id :: t'.entries[i] == t.entries[i]
  {
    var u' := Models.SetPassword(d, u, newPassword, generated);
    var t' := Models.SaveUser(t, u').0;
    if Valid(t) then
      Models.LoadAfterRewrite(t, t', u.username, u.id, u'.hashedPassword.value);
      t'
    else
      t'
  }

  /** `edit_password`. */
  function EditPassword(d: Digest, t: Table<Models.UserRow>, username: string, password: string,
                        newPassword: string, generated: string): (r: Reply)
    ensures |newPassword| < MIN_PASSWORD_LENGTH ==> r == Reply(t, PasswordTooShort)
    ensures |newPassword| >= MIN_PASSWORD_LENGTH && Models.LoadUserByUsername(t, username).None? ==>
              r == Reply(t, NoSuchUser)
    ensures r.outcome == IncorrectPassword <==>
              && |newPassword| >= MIN_PASSWORD_LENGTH
              && Models.LoadUserByUsername(t, username).Some?
              && !Models.Authenticates(d, t, username, password)
    ensures r.outcome == PasswordUpdated <==>
              |newPassword| >= MIN_PASSWORD_LENGTH && Models.Authenticates(d, t, username, password)
    ensures r.outcome != PasswordUpdated ==> r.users == t
    ensures r.outcome == PasswordUpdated && Valid(t) ==>
              var id := Models.LoadUserByUsername(t, username).value.id;
              && Valid(r.users)
              && Models.Authenticates(d, r.users, username, newPassword)
              && Models.LoadUserByUsername(r.users, username).value.id == id
              && |r.users.entries| == |t.entries|
              && (forall i | 0 <= i < |t.entries| && t.entries[i].id != id :: r.users.entries[i] == t.entries[i])
  {
    if |newPassword| < MIN_PASSWORD_LENGTH then Reply(t, PasswordTooShort)
    else match Models.LoadUserByUsername(t, username)
      case None => Reply(t, NoSuchUser)
      case Some(u) =>
        if CheckPassword(d, password, u.hashedPassword.value) then
          Reply(Rehash(d, t, u, newPassword, generated), PasswordUpdated)
        else Reply(t, IncorrectPassword)
  }

  /** `delete_user`. */
  function DeleteUser(d: Digest, t: Table<Models.UserRow>, username: string, password: string): (r: Reply)
    ensures r.outcome == NoSuchUser <==> Models.LoadUserByUsername(t, username).None?
    ensures r.outcome == IncorrectPassword <==>
              Models.LoadUserByUsername(t, username).Some? && !Models.Authenticates(d, t, username, password)
    ensures r.outcome == UserDeleted <==> Models.Authenticates(d, t, username, password)
    ensures r.outcome != UserDeleted ==> r.users == t
    ensures r.outcome == UserDeleted && Valid(t) ==>
              var id := Models.LoadUserByUsername(t, username).value.id;
              && Valid(r.users)
              && ToMap(r.users.entries) == ToMap(t.entries) - {id}
              && |r.users.entries| == |t.entries| - 1
  {
    match Models.LoadUserByUsername(t, username)
    case None => Reply(t, NoSuchUser)
    case Some(u) =>
      if CheckPassword(d, password, u.hashedPassword.value) then
        var (t', _) := Models.DeleteUser(t, u);
        Reply(t', UserDeleted)
      else Reply(t, IncorrectPassword)
  }

  /** `list_users`: one (id, username) line per row, in store order. */
  function ListUsers(t: Table<Models.UserRow>): (r: Reply)
    ensures r.users == t && r.outcome.UsersListed?
    ensures |r.outcome.listing| == |t.entries|
    ensures forall i | 0 <= i < |t.entries| ::
              r.outcome.listing[i] == (t.entries[i].id, t.entries[i].row.username)
  {
    var us := Models.LoadAllUsers(t);
    Reply(t, UsersListed(seq(|us|, i requires 0 <= i < |us| => (us[i].id, us[i].username))))
  }

  // ---------------------------------------------------------------------
  // Flag dispatch of `main`

  datatype Args = Args(username: Option<string>, password: Option<string>, newPass: Option<string>,
                       list: bool, delete: bool, edit: bool)

  datatype Action =
    | ListAction
    | DeleteAction(username: string, password: string)
    | EditAction(username: string, password: string, newPassword: string)
    | CreateAction(username: string, password: string)
    | HelpAction

  /** Which command `main` runs for the given flags. */
  function Dispatch(a: Args): (act: Action)
    ensures act.ListAction? <==> a.list
    ensures act.DeleteAction? <==> !a.list && Given(a.username) && Given(a.password) && a.delete
    ensures act.EditAction? <==>
              && !a.list && !a.delete
              && Given(a.username) && Given(a.password) && a.edit && Given(a.newPass)
    ensures act.CreateAction? <==>
              && !a.list && !a.delete && !a.edit && !Given(a.newPass)
              && Given(a.username) && Given(a.password)
    ensures act.DeleteAction? || act.EditAction? || act.CreateAction? ==>
              act.username == a.username.value && act.password == a.password.value
    ensures act.EditAction? ==> act.newPassword == a.newPass.value
  {
    if a.list then ListAction
    else if Given(a.username) && Given(a.password) && a.delete then
      DeleteAction(a.username.value, a.password.value)
    else if Given(a.username) && Given(a.password) && a.edit && Given(a.newPass) then
      EditAction(a.username.value, a.password.value, a.newPass.value)
    else if Given(a.username) && Given(a.password) && !a.edit && !a.delete && !Given(a.newPass) then
      CreateAction(a.username.value, a.password.value)
    else HelpAction
  }

  /** `main`: dispatch, then run the chosen command. */
  function Run(d: Digest, t: Table<Models.UserRow>, a: Args, generated: string): (r: Reply)
    ensures r.users != t ==>
              match Dispatch(a)
              case CreateAction(u, p) => r.outcome == UserCreated && Models.LoadUserByUsername(t, u).None?
              case EditAction(u, p, _) => r.outcome == PasswordUpdated && Models.Authenticates(d, t, u, p)
              case DeleteAction(u, p) => r.outcome == UserDeleted && Models.Authenticates(d, t, u, p)
              case _ => false
    ensures Dispatch(a).HelpAction? ==> r == Reply(t, Help)
    ensures Valid(t) ==> Valid(r.users)
  {
    match Dispatch(a)
    case ListAction => ListUsers(t)
    case DeleteAction(u, p) => DeleteUser(d, t, u, p)
    case EditAction(u, p, n) => EditPassword(d, t, u, p, n, generated)
    case CreateAction(u, p) => CreateUser(d, t, u, p, generated)
    case HelpAction => Reply(t, Help)
  }

  // ---------------------------------------------------------------------
  // Lemmas

  /**
   * After a successful `create_user`, another password logs in exactly when
   * its digest under the stored salt collides with the chosen password's.
   */
  lemma CreatedUserAcceptsOnlyItsPassword(d: Digest, t: Table<Models.UserRow>, username: string, password: string,
                                          other: string, generated: string)
    requires |password| >= MIN_PASSWORD_LENGTH
    requires Models.LoadUserByUsername(t, username).None?
    ensures var salt := NormalizeSalt(generated);
            Models.Authenticates(d, CreateUser(d, t, username, password, generated).users, username, other)
            <==> d(salt + other) == d(salt + password)
  {
    var u := Models.SetPassword(d, Models.NewUser(username, None), password, generated);
    var (t', u') := Models.SaveUser(t, u);
    Models.LoadAppended(t, t', Entry(u'.id, Models.RowOfUser(u)));
    CheckOtherCandidate(d, password, other, generated);
  }

  /** A second `create_user` for the same name reports the user exists and changes nothing. */
  lemma CreateTwice(d: Digest, t: Table<Models.UserRow>, username: string, password: string, generated: string,
                    password2: string, generated2: string)
    requires |password| >= MIN_PASSWORD_LENGTH && |password2| >= MIN_PASSWORD_LENGTH
    requires Models.LoadUserByUsername(t, username).None?
    ensures var t1 := CreateUser(d, t, username, password, generated).users;
            CreateUser(d, t1, username, password2, generated2) == Reply(t1, UserExists)
  {
  }
}
