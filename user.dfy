/** The `user` table of the user authentication service: five columns,
    `id` the primary key, `email` and `hashed_password` required,
    `session_id` and `reset_token` optional. */
module UserModel {
  import opened Wrappers

  datatype User = User(
    id: int,
    email: string,
    hashedPassword: string,
    sessionId: Option<string>,
    resetToken: Option<string>)

  /** The columns of the table. */
  datatype Attr = Id | Email | HashedPassword | SessionId | ResetToken

  /** A value passed for a column, as a keyword argument or a filter. */
  datatype Value = Int(i: int) | Str(s: string) | Null

  /** The column's name as the code spells it. */
  function NameOf(a: Attr): string {
    match a
    case Id => "id"
    case Email => "email"
    case HashedPassword => "hashed_password"
    case SessionId => "session_id"
    case ResetToken => "reset_token"
  }

  /** The names accepted as `User` attributes. */
  const AttributeNames: set<string> := {"id", "email", "hashed_password", "session_id", "reset_token"}

  /** The column a keyword names, if it names one. */
  function AttrNamed(name: string): (a: Option<Attr>)
    ensures a.Some? <==> name in AttributeNames
    ensures a.Some? ==> NameOf(a.value) == name
  {
    if name == "id" then Some(Id)
    else if name == "email" then Some(Email)
    else if name == "hashed_password" then Some(HashedPassword)
    else if name == "session_id" then Some(SessionId)
    else if name == "reset_token" then Some(ResetToken)
    else None
  }

  /** Each column is found again from its name: the five names are
      distinct and all accepted. */
  lemma AttrNamedNameOf(a: Attr)
    ensures AttrNamed(NameOf(a)) == Some(a)
  {
  }

  /** A column's value in a row. */
  function Get(u: User, a: Attr): (v: Value)
    ensures a == Id ==> v.Int?
    ensures a == Email || a == HashedPassword ==> v.Str?
    ensures a == SessionId || a == ResetToken ==> v.Str? || v.Null?
  {
    match a
    case Id => Int(u.id)
    case Email => Str(u.email)
    case HashedPassword => Str(u.hashedPassword)
    case SessionId => if u.sessionId.Some? then Str(u.sessionId.value) else Null
    case ResetToken => if u.resetToken.Some? then Str(u.resetToken.value) else Null
  }

  /** A value the column can hold: an integer key, a required string, or
      an optional string. */
  predicate Fits(a: Attr, v: Value) {
    match a
    case Id => v.Int?
    case Email => v.Str?
    case HashedPassword => v.Str?
    case SessionId => v.Str? || v.Null?
    case ResetToken => v.Str? || v.Null?
  }

  /** Every row holds a fitting value in every column. */
  lemma RowsFit(u: User, a: Attr)
    ensures Fits(a, Get(u, a))
  {
  }

  /** `setattr(user, name, value)` for a column. */
  function Set(u: User, a: Attr, v: Value): (r: User)
    requires Fits(a, v)
    ensures Get(r, a) == v
    ensures forall b :: b != a ==> Get(r, b) == Get(u, b)
  {
    match a
    case Id => u.(id := v.i)
    case Email => u.(email := v.s)
    case HashedPassword => u.(hashedPassword := v.s)
    case SessionId => u.(sessionId := if v.Str? then Some(v.s) else None)
    case ResetToken => u.(resetToken := if v.Str? then Some(v.s) else None)
  }

  /** `setattr` of a column's own value changes nothing: writing back what
      a row holds leaves the row as it was. */
  lemma SetOwnValue(u: User, a: Attr)
    ensures Fits(a, Get(u, a)) && Set(u, a, Get(u, a)) == u
  {
    RowsFit(u, a);
    var w := Set(u, a, Get(u, a));
    forall b ensures Get(w, b) == Get(u, b) {
    }
    RowDeterminedByColumns(w, u);
  }

  /** Rows are equal exactly when they agree on every column: the five
      columns are all there is to a user. */
  lemma RowDeterminedByColumns(u: User, w: User)
    requires forall a :: Get(u, a) == Get(w, a)
    ensures u == w
  {
    assert Get(u, Id) == Get(w, Id) && Get(u, Email) == Get(w, Email);
    assert Get(u, HashedPassword) == Get(w, HashedPassword);
    assert Get(u, SessionId) == Get(w, SessionId) && Get(u, ResetToken) == Get(w, ResetToken);
  }
}
