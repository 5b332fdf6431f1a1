/**
 * The three tables of the messenger (`users`, `friends`, `messages`) as
 * record types, and the two read-only user lookups `User.get` and
 * `User.get_by_username`.
 *
 * A table is a sequence of rows in storage order; `id` is the primary key
 * of each table. A lookup is a function of the table, so it cannot change
 * any table.
 */
module Models {

  datatype Option<+T> = None | Some(value: T)

  /** A row of `users`. `isAdmin` defaults to false on insert. */
  datatype User = User(id: nat, username: string, email: string, password: string, isAdmin: bool)

  /**
   * A row of `friends`: a directed request from `sender` to `recipient`.
   * `status` is false while the request is pending and true once confirmed;
   * it defaults to false on insert.
   */
  datatype Friends = Friends(id: nat, sender: nat, recipient: nat, status: bool)

  /** A row of `messages`. `statusCheck` (read flag) defaults to false on insert. */
  datatype Message = Message(id: nat, sender: nat, recipient: nat, messageText: string, statusCheck: bool)

  /** Some row of `users` has primary key `id`. */
  predicate HasUser(users: seq<User>, id: nat)
  {
    exists u :: u in users && u.id == id
  }

  /** Some row of `users` carries the name `username`. */
  predicate HasUsername(users: seq<User>, username: string)
  {
    exists u :: u in users && u.username == username
  }

  /** `id` is a primary key: no two rows share it. */
  predicate UniqueUserIds(users: seq<User>)
  {
    forall i, j :: 0 <= i < j < |users| ==> users[i].id != users[j].id
  }

  predicate UniqueFriendsIds(friends: seq<Friends>)
  {
    forall i, j :: 0 <= i < j < |friends| ==> friends[i].id != friends[j].id
  }

  predicate UniqueMessageIds(messages: seq<Message>)
  {
    forall i, j :: 0 <= i < j < |messages| ==> messages[i].id != messages[j].id
  }

  /**
   * Keys of `users` as the key generator hands them out when no row is
   * ever deleted: row `k` holds key `k + 1`.
   */
  predicate DenseUserIds(users: seq<User>)
  {
    forall k :: 0 <= k < |users| ==> users[k].id == k + 1
  }

  /** No two users share a name (kept by registration, not by the schema). */
  predicate UniqueUsernames(users: seq<User>)
  {
    forall i, j :: 0 <= i < j < |users| ==> users[i].username != users[j].username
  }

  /** `User.get(id)`: the first row whose primary key is `id`, or nothing. */
  function GetUser(users: seq<User>, id: nat): (r: Option<User>)
    ensures r.Some? <==> HasUser(users, id)
    ensures r.Some? ==> r.value in users && r.value.id == id
  {
    if users == [] then None
    else if users[0].id == id then Some(users[0])
    else
      assert forall u :: u in users ==> u == users[0] || u in users[1..];
      GetUser(users[1..], id)
  }

  /** `User.get_by_username(name)`: the first row named `name`, or `None`. */
  function GetByUsername(users: seq<User>, username: string): (r: Option<User>)
    ensures r.Some? <==> HasUsername(users, username)
    ensures r.Some? ==> r.value in users && r.value.username == username
  {
    if users == [] then None
    else if users[0].username == username then Some(users[0])
    else
      assert forall u :: u in users ==> u == users[0] || u in users[1..];
      GetByUsername(users[1..], username)
  }

  /** With unique primary keys, `User.get` finds exactly the row with that key. */
  lemma {:induction false} GetUserFindsRow(users: seq<User>, u: User)
    requires UniqueUserIds(users)
    requires u in users
    ensures GetUser(users, u.id) == Some(u)
  {
    if users[0] != u {
      assert users[0].id != u.id by {
        var k :| 0 <= k < |users| && users[k] == u;
        assert k != 0;
      }
      assert u in users[1..];
      GetUserFindsRow(users[1..], u);
    }
  }

  /** With dense keys, `User.get(id)` is row `id - 1` for a key in range and nothing otherwise. */
  lemma GetUserDense(users: seq<User>, id: nat)
    requires DenseUserIds(users)
    ensures GetUser(users, id) == if 0 < id <= |users| then Some(users[id - 1]) else None
  {
    if 0 < id <= |users| {
      GetUserFindsRow(users, users[id - 1]);
    }
  }

  /** With unique names, `User.get_by_username` is unambiguous: it finds the one row with that name. */
  lemma {:induction false} GetByUsernameFindsRow(users: seq<User>, u: User)
    requires UniqueUsernames(users)
    requires u in users
    ensures GetByUsername(users, u.username) == Some(u)
  {
    if users[0] != u {
      assert users[0].username != u.username by {
        var k :| 0 <= k < |users| && users[k] == u;
        assert k != 0;
      }
      assert u in users[1..];
      GetByUsernameFindsRow(users[1..], u);
    }
  }
}
