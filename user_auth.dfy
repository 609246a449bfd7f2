/** Registration in the user authentication service: a new user is stored
    with a bcrypt hash of the password, and an email can be registered
    only once.  bcrypt is the function `hashpw` of a password and a salt;
    the random salt `gensalt` would draw is a parameter. */
module UserAuth {
  import opened Wrappers
  import opened UserModel
  import opened Db

  /** `_hash_password`: the salted hash of the password. */
  function HashPassword(password: string, salt: string, hashpw: (string, string) -> string): string {
    hashpw(password, salt)
  }

  /** No two rows share an email. */
  predicate UniqueEmails(users: seq<User>) {
    forall i, j :: 0 <= i < j < |users| ==> users[i].email != users[j].email
  }

  class Auth {
    const db: DB

    /** The table's invariants: unique ids, and unique emails as long as
        every row was added by `RegisterUser`. */
    ghost predicate Valid()
      reads this, db
    {
      db.Valid() && UniqueEmails(db.users)
    }

    constructor ()
      ensures Valid() && fresh(db) && db.users == []
    {
      db := new DB();
    }

    /** Registers a user.  An empty email or password raises
        `ValueError`; so does an email already in the table; in both
        cases the table is unchanged.  Otherwise exactly one row is added,
        with the email and the hash of the password, and returned. */
    method RegisterUser(email: string, password: string, salt: string, hashpw: (string, string) -> string)
      returns (r: Result<User>)
      requires Valid()
      modifies db
      ensures Valid()
      ensures email == "" || password == "" ==> r == Err(ValueError) && db.users == old(db.users)
      ensures email != "" && password != "" && (exists u :: u in old(db.users) && u.email == email) ==>
                r == Err(ValueError) && db.users == old(db.users)
      ensures email != "" && password != "" && (forall u :: u in old(db.users) ==> u.email != email) ==>
                r.Ok? && db.users == old(db.users) + [r.value]
                && r.value.email == email && r.value.hashedPassword == HashPassword(password, salt, hashpw)
                && r.value.sessionId == None && r.value.resetToken == None
    {
      if email == "" {
        return Err(ValueError);
      }
      if password == "" {
        return Err(ValueError);
      }
      var found := db.FindUserBy([("email", Str(email))]);
      EmailLookup(db.users, email);
      if found.Ok? {
        return Err(ValueError);
      }
      var hashed := HashPassword(password, salt, hashpw);
      var user := db.AddUser(email, hashed);
      r := Ok(user);
    }
  }

  /** The criterion `email=…` names a column and matches a row exactly
      when the row has that email. */
  lemma MatchesByEmail(u: User, email: string)
    ensures ValidCriteria([("email", Str(email))])
    ensures Matches(u, [("email", Str(email))]) <==> u.email == email
  {
    var criteria := [("email", Str(email))];
    assert criteria[0].0 == "email" && AttrNamed("email") == Some(Email);
    assert Get(u, Email) == Str(u.email);
    assert Matches(u, criteria) <==> Get(u, Email) == Str(email);
  }

  /** Looking a user up by email finds a row exactly when some row has
      that email. */
  lemma EmailLookup(users: seq<User>, email: string)
    ensures ValidCriteria([("email", Str(email))])
    ensures FirstMatch(users, [("email", Str(email))]) < |users| <==> exists u :: u in users && u.email == email
  {
    var criteria := [("email", Str(email))];
    MatchesByEmail(User(0, "", "", None, None), email);
    var i := FirstMatch(users, criteria);
    if i < |users| {
      MatchesByEmail(users[i], email);
    }
    if exists u :: u in users && u.email == email {
      var u :| u in users && u.email == email;
      var j :| 0 <= j < |users| && users[j] == u;
      MatchesByEmail(users[j], email);
    }
  }

  /** Registering an email twice: the second call raises `ValueError`
      and the first user's row, hash included, is unchanged. */
  method RegisterTwice(auth: Auth, email: string, first: string, second: string, salt: string,
                       hashpw: (string, string) -> string)
    requires auth.Valid() && email != "" && first != "" && second != ""
    requires forall u :: u in auth.db.users ==> u.email != email
    modifies auth.db
  {
    var r1 := auth.RegisterUser(email, first, salt, hashpw);
    assert r1.Ok?;
    var user := r1.value;
    assert user in auth.db.users;
    var r2 := auth.RegisterUser(email, second, salt, hashpw);
    assert r2 == Err(ValueError);
    assert user in auth.db.users && user.hashedPassword == hashpw(first, salt);
  }
}
