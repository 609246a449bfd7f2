/** The storage layer of the user authentication service: an in-memory
    view of the `user` table with insertion, lookup by column values and
    in-place update.  Rows are kept in insertion order, which is the order
    in which a query without `ORDER BY` finds them here. */
module Db {
  import opened Wrappers
  import opened UserModel

  /** Keyword arguments: column names with values, in call order. */
  type Criteria = seq<(string, Value)>

  /** No two rows share an id: `id` is the primary key. */
  predicate UniqueIds(users: seq<User>) {
    forall i, j :: 0 <= i < j < |users| ==> users[i].id != users[j].id
  }

  /** The largest id in use in a non-empty table. */
  function MaxId(users: seq<User>): (m: int)
    requires users != []
    ensures forall u :: u in users ==> u.id <= m
    ensures exists u :: u in users && u.id == m
  {
    if |users| == 1 then users[0].id
    else
      var rest := MaxId(users[1..]);
      assert forall u :: u in users <==> u == users[0] || u in users[1..];
      if users[0].id > rest then users[0].id else rest
  }

  /** The id a new row receives: one more than the largest id in use, 1
      in an empty table. */
  function NextId(users: seq<User>): (id: int)
    ensures forall u :: u in users ==> u.id < id
  {
    if users == [] then 1 else MaxId(users) + 1
  }

  /** Every keyword names a column, and there is at least one. */
  predicate ValidCriteria(criteria: Criteria) {
    criteria != [] && forall k :: 0 <= k < |criteria| ==> AttrNamed(criteria[k].0).Some?
  }

  /** The row holds the given value in every named column. */
  predicate Matches(u: User, criteria: Criteria)
    requires forall k :: 0 <= k < |criteria| ==> AttrNamed(criteria[k].0).Some?
  {
    forall k :: 0 <= k < |criteria| ==> Get(u, AttrNamed(criteria[k].0).value) == criteria[k].1
  }

  /** Position of the first matching row; `|users|` when none matches. */
  function FirstMatch(users: seq<User>, criteria: Criteria): (i: nat)
    requires ValidCriteria(criteria)
    ensures i <= |users|
    ensures i < |users| ==> Matches(users[i], criteria)
    ensures forall j :: 0 <= j < i ==> !Matches(users[j], criteria)
  {
    if users == [] then 0
    else if Matches(users[0], criteria) then 0
    else 1 + FirstMatch(users[1..], criteria)
  }

  /** Position of the first keyword that names no column; `|updates|`
      when all do. */
  function FirstUnknown(updates: Criteria): (i: nat)
    ensures i <= |updates|
    ensures i < |updates| ==> AttrNamed(updates[i].0) == None
    ensures forall k :: 0 <= k < i ==> AttrNamed(updates[k].0).Some?
  {
    if updates == [] then 0
    else if AttrNamed(updates[0].0) == None then 0
    else 1 + FirstUnknown(updates[1..])
  }

  /** Every value given for a column fits that column. */
  predicate WellTyped(updates: Criteria) {
    forall k :: 0 <= k < |updates| && AttrNamed(updates[k].0).Some? ==> Fits(AttrNamed(updates[k].0).value, updates[k].1)
  }

  /** A row after `setattr` of each keyword in turn. */
  function ApplyUpdates(u: User, updates: Criteria): User
    requires forall k :: 0 <= k < |updates| ==> AttrNamed(updates[k].0).Some?
    requires WellTyped(updates)
  {
    if updates == [] then u
    else
      var (name, value) := updates[|updates| - 1];
      Set(ApplyUpdates(u, updates[..|updates| - 1]), AttrNamed(name).value, value)
  }

  /** A column no keyword names keeps its value. */
  lemma {:induction false} ApplyUpdatesUntouched(u: User, updates: Criteria, a: Attr)
    requires forall k :: 0 <= k < |updates| ==> AttrNamed(updates[k].0).Some?
    requires WellTyped(updates)
    requires forall k :: 0 <= k < |updates| ==> AttrNamed(updates[k].0).value != a
    ensures Get(ApplyUpdates(u, updates), a) == Get(u, a)
  {
    if updates != [] {
      ApplyUpdatesUntouched(u, updates[..|updates| - 1], a);
    }
  }

  /** A column named by some keyword ends with the value of the last
      keyword that names it. */
  lemma {:induction false} ApplyUpdatesLastWins(u: User, updates: Criteria, k: nat)
    requires forall j :: 0 <= j < |updates| ==> AttrNamed(updates[j].0).Some?
    requires WellTyped(updates)
    requires k < |updates|
    requires forall j :: k < j < |updates| ==> AttrNamed(updates[j].0) != AttrNamed(updates[k].0)
    ensures Get(ApplyUpdates(u, updates), AttrNamed(updates[k].0).value) == updates[k].1
  {
    if k < |updates| - 1 {
      var init := updates[..|updates| - 1];
      ApplyUpdatesLastWins(u, init, k);
    }
  }

  class DB {
    /** The rows of the `user` table. */
    var users: seq<User>

    ghost predicate Valid()
      reads this
    {
      UniqueIds(users)
    }

    /** A fresh database: the table is dropped and created empty. */
    constructor ()
      ensures Valid() && users == []
    {
      users := [];
    }

    /** Inserts a row with the given email and hash, a fresh id and no
        session or reset token, and returns it.  No duplicate check. */
    method AddUser(email: string, hashedPassword: string) returns (user: User)
      requires Valid()
      modifies this
      ensures Valid()
      ensures users == old(users) + [user]
      ensures user.email == email && user.hashedPassword == hashedPassword
      ensures user.sessionId == None && user.resetToken == None
      ensures forall u :: u in old(users) ==> u.id != user.id
    {
      user := User(NextId(users), email, hashedPassword, None, None);
      users := users + [user];
    }

    /** The first row matching every keyword.  No keyword, or one that
        names no column: `InvalidRequestError`.  No matching row:
        `NoResultFound`. */
    method FindUserBy(criteria: Criteria) returns (r: Result<User>)
      ensures r == Err(InvalidRequestError) <==> !ValidCriteria(criteria)
      ensures ValidCriteria(criteria) ==>
                (FirstMatch(users, criteria) < |users| ==> r == Ok(users[FirstMatch(users, criteria)]))
                && (FirstMatch(users, criteria) == |users| ==> r == Err(NoResultFound))
      ensures r.Ok? ==> r.value in users
    {
      if |criteria| == 0 {
        return Err(InvalidRequestError);
      }
      var k := 0;
      while k < |criteria|
        invariant 0 <= k <= |criteria|
        invariant forall j :: 0 <= j < k ==> AttrNamed(criteria[j].0).Some?
      {
        if AttrNamed(criteria[k].0) == None {
          return Err(InvalidRequestError);
        }
        k := k + 1;
      }
      var i := 0;
      while i < |users|
        invariant 0 <= i <= |users|
        invariant forall j :: 0 <= j < i ==> !Matches(users[j], criteria)
      {
        if Matches(users[i], criteria) {
          FirstMatchIsFirst(users, criteria, i);
          return Ok(users[i]);
        }
        i := i + 1;
      }
      FirstMatchIsFirst(users, criteria, |users|);
      r := Err(NoResultFound);
    }

    /** Updates the row with id `userId` column by column.  A non-integer
        id raises `ValueError`; an id in no row raises `NoResultFound`.  A
        keyword that names no column raises `ValueError`, after the
        keywords before it have been assigned: the update is not
        all-or-nothing. */
    method UpdateUser(userId: Value, updates: Criteria) returns (r: Result<()>)
      requires Valid()
      requires WellTyped(updates)
      modifies this
      ensures !userId.Int? ==> r == Err(ValueError) && users == old(users)
      ensures userId.Int? && FirstMatch(old(users), IdFilter(userId)) == |old(users)| ==>
                r == Err(NoResultFound) && users == old(users)
      ensures userId.Int? && FirstMatch(old(users), IdFilter(userId)) < |old(users)| ==>
                var i := FirstMatch(old(users), IdFilter(userId));
                var n := FirstUnknown(updates);
                && users == old(users)[i := ApplyUpdates(old(users)[i], updates[..n])]
                && (r == Ok(()) <==> n == |updates|)
                && (r.Err? ==> r.error == ValueError)
      ensures (forall k :: 0 <= k < |updates| ==> updates[k].0 != "id") ==> Valid()
    {
      if !userId.Int? {
        return Err(ValueError);
      }
      var found := FindUserBy(IdFilter(userId));
      if found.Err? {
        return Err(found.error);
      }
      r := AssignColumns(FirstMatch(users, IdFilter(userId)), updates);
    }

    /** The loop of `update_user`: `setattr` on row `i` for each keyword in
        turn, stopping with `ValueError` at the first that names no
        column. */
    method AssignColumns(i: nat, updates: Criteria) returns (r: Result<()>)
      requires Valid() && i < |users|
      requires WellTyped(updates)
      modifies this
      ensures var n := FirstUnknown(updates);
                && users == old(users)[i := ApplyUpdates(old(users)[i], updates[..n])]
                && (r == Ok(()) <==> n == |updates|)
                && (r.Err? ==> r.error == ValueError)
      ensures (forall k :: 0 <= k < |updates| ==> updates[k].0 != "id") ==> Valid()
    {
      ghost var before := users;
      var k := 0;
      while k < |updates|
        invariant 0 <= k <= |updates|
        invariant forall j :: 0 <= j < k ==> AttrNamed(updates[j].0).Some?
        invariant k <= FirstUnknown(updates)
        invariant users == before[i := ApplyUpdates(before[i], updates[..k])]
      {
        var attr := AttrNamed(updates[k].0);
        if attr == None {
          KeepsIds(before, i, updates, k);
          return Err(ValueError);
        }
        assert updates[..k + 1][..k] == updates[..k];
        users := users[i := Set(users[i], attr.value, updates[k].1)];
        k := k + 1;
      }
      assert updates[..k] == updates;
      KeepsIds(before, i, updates, k);
      r := Ok(());
    }
  }

  /** The filter `id=userId`. */
  function IdFilter(userId: Value): (c: Criteria)
    ensures ValidCriteria(c)
    ensures forall u :: Matches(u, c) <==> Get(u, Id) == userId
  {
    var c := [("id", userId)];
    assert c[0].0 == "id" && AttrNamed(c[0].0) == Some(Id);
    c
  }

  /** The ids stay unique after the first `k` keywords are applied, when
      no keyword is `id`. */
  lemma KeepsIds(before: seq<User>, i: nat, updates: Criteria, k: nat)
    requires UniqueIds(before) && i < |before| && k <= |updates|
    requires forall j :: 0 <= j < k ==> AttrNamed(updates[j].0).Some?
    requires WellTyped(updates)
    ensures (forall j :: 0 <= j < |updates| ==> updates[j].0 != "id") ==>
              UniqueIds(before[i := ApplyUpdates(before[i], updates[..k])])
  {
    if forall j :: 0 <= j < |updates| ==> updates[j].0 != "id" {
      NoIdUpdateKeepsIds(before, i, updates[..k]);
    }
  }

  /** The first matching position is `i` once the rows before `i` do not
      match and row `i` does (or `i` is the end of the table). */
  lemma {:induction false} FirstMatchIsFirst(users: seq<User>, criteria: Criteria, i: nat)
    requires ValidCriteria(criteria) && i <= |users|
    requires forall j :: 0 <= j < i ==> !Matches(users[j], criteria)
    requires i < |users| ==> Matches(users[i], criteria)
    ensures FirstMatch(users, criteria) == i
  {
  }

  /** Updates that assign no `id` keep every id, so the key stays unique. */
  lemma NoIdUpdateKeepsIds(before: seq<User>, i: nat, updates: Criteria)
    requires UniqueIds(before) && i < |before|
    requires forall k :: 0 <= k < |updates| ==> AttrNamed(updates[k].0).Some?
    requires WellTyped(updates)
    requires forall k :: 0 <= k < |updates| ==> updates[k].0 != "id"
    ensures UniqueIds(before[i := ApplyUpdates(before[i], updates)])
  {
    forall k | 0 <= k < |updates| ensures AttrNamed(updates[k].0).value != Id {
      AttrNamedNameOf(Id);
    }
    ApplyUpdatesUntouched(before[i], updates, Id);
  }
}
