/**
 * backend/app.py: the account routes register, login and logout, acting on
 * the users table (id, username, password_hash; ids handed out by
 * AUTOINCREMENT and usernames UNIQUE, as backend/files/db.py declares them)
 * and on the visitor's session.
 * werkzeug's generate_password_hash and check_password_hash are passed in
 * as functions; the only fact assumed of them is the one login relies on,
 * that a password checks against a hash generated from it.
 */
module App {
  import opened Wrappers
  import opened Helpers

  /** A row of the users table. */
  datatype User = User(id: int, username: string, passwordHash: string)

  datatype HttpMethod = GET | POST

  /** The submitted form fields. */
  type Form = map<string, string>

  /**
   * `request.form.get(key)`, where a missing field reads as the empty
   * string: the handlers only test it for truth, and None and "" are both
   * false.
   */
  function Field(form: Form, key: string): string {
    if key in form then form[key] else ""
  }

  /** `db.execute("SELECT * FROM users WHERE username = ?", name)`: the rows with that name, in table order. */
  function RowsNamed(users: seq<User>, name: string): (rows: seq<User>)
    ensures |rows| <= |users|
    ensures forall i :: 0 <= i < |rows| ==> rows[i].username == name && rows[i] in users
    decreases |users|
  {
    if users == [] then []
    else (if users[0].username == name then [users[0]] else []) + RowsNamed(users[1..], name)
  }

  /** The UNIQUE constraint on username. */
  predicate UniqueNames(users: seq<User>) {
    forall i, j :: 0 <= i < j < |users| ==> users[i].username != users[j].username
  }

  /** No row is found exactly when no user has the name. */
  lemma {:induction false} RowsNamedNone(users: seq<User>, name: string)
    ensures RowsNamed(users, name) == [] <==> forall i :: 0 <= i < |users| ==> users[i].username != name
    decreases |users|
  {
    if users != [] {
      RowsNamedNone(users[1..], name);
      if forall i :: 0 <= i < |users[1..]| ==> users[1..][i].username != name {
        if users[0].username != name {
          forall i | 0 <= i < |users|
            ensures users[i].username != name
          {
            if i > 0 {
              assert users[i] == users[1..][i - 1];
            }
          }
        }
      }
    }
  }

  /** With unique names, the user with the name is the only row found. */
  lemma {:induction false} RowsNamedUnique(users: seq<User>, name: string, k: nat)
    requires UniqueNames(users)
    requires k < |users| && users[k].username == name
    ensures RowsNamed(users, name) == [users[k]]
    decreases |users|
  {
    if k == 0 {
      RowsNamedNone(users[1..], name);
    } else {
      assert users[0].username != name;
      assert UniqueNames(users[1..]);
      RowsNamedUnique(users[1..], name, k - 1);
    }
  }

  // ----- register -----

  const MustProvideUsername: string := "must provide username"
  const MustProvidePassword: string := "must provide password"
  const MustConfirmPassword: string := "must confirm password"
  const PasswordsDoNotMatch: string := "passwords do not match"
  const UsernameTaken: string := "username already taken"
  const InvalidCredentials: string := "invalid username and/or password"

  /** The first of register's checks that fails, in the order the route makes them. */
  function RegisterError(users: seq<User>, form: Form): Option<string> {
    var username := Field(form, "username");
    var password := Field(form, "password");
    var confirmation := Field(form, "confirmation");
    if username == "" then Some(MustProvideUsername)
    else if password == "" then Some(MustProvidePassword)
    else if confirmation == "" then Some(MustConfirmPassword)
    else if password != confirmation then Some(PasswordsDoNotMatch)
    else if |RowsNamed(users, username)| > 0 then Some(UsernameTaken)
    else None
  }

  /**
   * Registration is accepted exactly when a username and a password are
   * given, the confirmation repeats the password, and no user has that name.
   */
  lemma RegisterAccepted(users: seq<User>, form: Form)
    ensures RegisterError(users, form) == None <==>
              && Field(form, "username") != ""
              && Field(form, "password") != ""
              && Field(form, "confirmation") == Field(form, "password")
              && forall i :: 0 <= i < |users| ==> users[i].username != Field(form, "username")
  {
    RowsNamedNone(users, Field(form, "username"));
  }

  // ----- login -----

  /** What login's checks decide: the id of the user who logs in, or the message of the first failing check. */
  function LoginOutcome(users: seq<User>, form: Form, check: (string, string) -> bool): Result<int> {
    var username := Field(form, "username");
    var password := Field(form, "password");
    if username == "" then Err(MustProvideUsername)
    else if password == "" then Err(MustProvidePassword)
    else
      var rows := RowsNamed(users, username);
      if |rows| != 1 || !check(rows[0].passwordHash, password) then Err(InvalidCredentials)
      else Ok(rows[0].id)
  }

  /**
   * With unique usernames, login succeeds exactly when the form names a
   * user whose stored hash the password checks against, and it logs in
   * that user.
   */
  lemma LoginSucceeds(users: seq<User>, form: Form, check: (string, string) -> bool, k: nat)
    requires UniqueNames(users)
    requires k < |users| && users[k].username == Field(form, "username")
    ensures LoginOutcome(users, form, check).Ok? <==>
              Field(form, "username") != "" && Field(form, "password") != ""
              && check(users[k].passwordHash, Field(form, "password"))
    ensures LoginOutcome(users, form, check).Ok? ==> LoginOutcome(users, form, check).value == users[k].id
  {
    RowsNamedUnique(users, Field(form, "username"), k);
  }

  /** A name that nobody has never logs in. */
  lemma LoginUnknownUser(users: seq<User>, form: Form, check: (string, string) -> bool)
    requires forall i :: 0 <= i < |users| ==> users[i].username != Field(form, "username")
    ensures LoginOutcome(users, form, check).Err?
  {
    RowsNamedNone(users, Field(form, "username"));
  }

  /**
   * Once both fields are filled in, an unknown username and a wrong
   * password get the same answer.
   */
  lemma LoginFailureMessage(users: seq<User>, form: Form, check: (string, string) -> bool)
    requires Field(form, "username") != "" && Field(form, "password") != ""
    ensures LoginOutcome(users, form, check).Err? ==> LoginOutcome(users, form, check).error == InvalidCredentials
  {
  }

  /**
   * After a registration is accepted, logging in with the same username and
   * password logs in the new user, provided the password checks against
   * the hash generated from it.
   */
  lemma RegisteredUserCanLogIn(users: seq<User>, id: int, form: Form, login: Form,
                               generate: string -> string, check: (string, string) -> bool)
    requires UniqueNames(users) && RegisterError(users, form) == None
    requires check(generate(Field(form, "password")), Field(form, "password"))
    requires Field(login, "username") == Field(form, "username")
    requires Field(login, "password") == Field(form, "password")
    ensures LoginOutcome(users + [User(id, Field(form, "username"), generate(Field(form, "password")))], login, check)
            == Ok(id)
  {
    var added := users + [User(id, Field(form, "username"), generate(Field(form, "password")))];
    RegisterAccepted(users, form);
    assert UniqueNames(added);
    RowsNamedUnique(added, Field(form, "username"), |users|);
  }

  // ----- The server state -----

  /** Usernames are unique, ids increase along the table, and the next id is above them all. */
  predicate TableValid(users: seq<User>, nextId: int) {
    && UniqueNames(users)
    && (forall i, j :: 0 <= i < j < |users| ==> users[i].id < users[j].id)
    && (forall i :: 0 <= i < |users| ==> users[i].id < nextId)
  }

  /** Inserting a new name with the next id keeps the table valid. */
  lemma InsertKeepsTableValid(users: seq<User>, nextId: int, name: string, hash: string)
    requires TableValid(users, nextId)
    requires forall i :: 0 <= i < |users| ==> users[i].username != name
    ensures TableValid(users + [User(nextId, name, hash)], nextId + 1)
  {
  }

  class Server {
    /** The users table, in insertion order. */
    var users: seq<User>
    /** The id AUTOINCREMENT gives the next inserted row. */
    var nextId: int
    /** The visitor's session. */
    var session: Session

    ghost predicate Valid()
      reads this
    {
      TableValid(users, nextId)
    }

    constructor ()
      ensures Valid() && users == [] && nextId == 1 && session == map[]
    {
      users := [];
      nextId := 1;
      session := map[];
    }

    /**
     * register: on a POST, the checks in order; the first that fails is
     * answered with a 400 apology and the table is left alone, and when all
     * pass one row with the username and the password's hash is added and
     * the visitor is sent to "/". A GET shows the form.
     */
    method Register(verb: HttpMethod, form: Form, generate: string -> string) returns (r: Response)
      requires Valid()
      modifies this
      ensures Valid()
      ensures session == old(session)
      ensures verb == GET ==> r == Page("register.html") && users == old(users) && nextId == old(nextId)
      ensures verb == POST && RegisterError(old(users), form).Some? ==>
                && r == ApologyPage(400, Escaped(RegisterError(old(users), form).value))
                && users == old(users) && nextId == old(nextId)
      ensures verb == POST && RegisterError(old(users), form).None? ==>
                && r == Redirect("/")
                && users == old(users) + [User(old(nextId), Field(form, "username"), generate(Field(form, "password")))]
                && nextId == old(nextId) + 1
    {
      if verb == POST {
        var username := Field(form, "username");
        var password := Field(form, "password");
        var confirmation := Field(form, "confirmation");
        if username == "" {
          r := Apology(MustProvideUsername, 400);
          return;
        } else if password == "" {
          r := Apology(MustProvidePassword, 400);
          return;
        } else if confirmation == "" {
          r := Apology(MustConfirmPassword, 400);
          return;
        } else if password != confirmation {
          r := Apology(PasswordsDoNotMatch, 400);
          return;
        }
        var rows := RowsNamed(users, username);
        if |rows| > 0 {
          r := Apology(UsernameTaken, 400);
          return;
        }
        RowsNamedNone(users, username);
        var hash := generate(password);
        InsertKeepsTableValid(users, nextId, username, hash);
        users := users + [User(nextId, username, hash)];
        nextId := nextId + 1;
        r := Redirect("/");
      } else {
        r := Page("register.html");
      }
    }

    /**
     * login: the session is cleared first, whatever follows; on a POST the
     * checks decide, and a successful login records the user's id in the
     * session and sends the visitor to "/". A GET shows the form.
     */
    method Login(verb: HttpMethod, form: Form, check: (string, string) -> bool) returns (r: Response)
      requires Valid()
      modifies this
      ensures Valid()
      ensures users == old(users) && nextId == old(nextId)
      ensures verb == GET ==> r == Page("login.html") && session == map[]
      ensures verb == POST && LoginOutcome(users, form, check).Err? ==>
                r == ApologyPage(400, Escaped(LoginOutcome(users, form, check).error)) && session == map[]
      ensures verb == POST && LoginOutcome(users, form, check).Ok? ==>
                r == Redirect("/") && session == map["user_id" := Int(LoginOutcome(users, form, check).value)]
    {
      session := map[];
      if verb == POST {
        var username := Field(form, "username");
        var password := Field(form, "password");
        if username == "" {
          r := Apology(MustProvideUsername, 400);
        } else if password == "" {
          r := Apology(MustProvidePassword, 400);
        } else {
          var rows := RowsNamed(users, username);
          if |rows| != 1 || !check(rows[0].passwordHash, password) {
            r := Apology(InvalidCredentials, 400);
          } else {
            session := session["user_id" := Int(rows[0].id)];
            r := Redirect("/");
          }
        }
      } else {
        r := Page("login.html");
      }
    }

    /** logout: the session is emptied and the visitor sent to "/". */
    method Logout() returns (r: Response)
      requires Valid()
      modifies this
      ensures Valid()
      ensures session == map[] && !LoggedIn(session)
      ensures users == old(users) && nextId == old(nextId)
      ensures r == Redirect("/")
    {
      session := map[];
      r := Redirect("/");
    }
  }
}
