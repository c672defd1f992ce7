/** The user helpers of app/auth/utils.py: lookups by email and username,
    authenticate_user with the password check passed in, and create_user on
    the users table with its two unique columns. */
module Accounts {
  import opened Wrappers

  /** One row of users. created_at is the clock reading at insert. */
  datatype User = User(
    id: int, email: string, username: string, hashedPassword: string,
    isActive: bool, createdAt: int, fullName: Option<string>, phoneNumber: Option<string>)

  /** The registration body. */
  datatype UserCreate = UserCreate(
    email: string, username: string, password: string,
    fullName: Option<string>, phoneNumber: Option<string>)

  /** Why an insert into users is refused. */
  datatype Error = EmailTaken | UsernameTaken

  /** The users table's constraints: primary key, unique email, unique username. */
  ghost predicate UniqueUsers(users: seq<User>) {
    forall i, j :: 0 <= i < j < |users| ==>
      users[i].id != users[j].id && users[i].email != users[j].email &&
      users[i].username != users[j].username
  }

  // ------------------------------------------------------------ lookups

  /** get_user_by_email: the first row with this email, or None. */
  function GetUserByEmail(users: seq<User>, email: string): (r: Option<User>)
    ensures r.Some? ==> r.value in users && r.value.email == email
    ensures r.None? <==> forall u :: u in users ==> u.email != email
  {
    if users == [] then None
    else if users[0].email == email then Some(users[0])
    else GetUserByEmail(users[1..], email)
  }

  /** get_user_by_username: the first row with this username, or None. */
  function GetUserByUsername(users: seq<User>, username: string): (r: Option<User>)
    ensures r.Some? ==> r.value in users && r.value.username == username
    ensures r.None? <==> forall u :: u in users ==> u.username != username
  {
    if users == [] then None
    else if users[0].username == username then Some(users[0])
    else GetUserByUsername(users[1..], username)
  }

  /** With unique emails, the row found is the only one with that email. */
  lemma {:induction false} GetUserByEmailUnique(users: seq<User>, u: User)
    requires UniqueUsers(users) && u in users
    ensures GetUserByEmail(users, u.email) == Some(u)
  {
    if users[0] != u {
      assert u in users[1..];
      assert users[0].email != u.email by {
        var k :| 0 <= k < |users| && users[k] == u;
        assert k != 0;
      }
      GetUserByEmailUnique(users[1..], u);
    }
  }

  // ------------------------------------------------------------ authenticate_user

  /** authenticate_user: the user with this email if `verify` accepts the
      password against the stored hash; None stands for the False it
      returns otherwise. `verify` is the bcrypt check, kept abstract. */
  function AuthenticateUser(users: seq<User>, email: string, password: string,
                            verify: (string, string) -> bool): (r: Option<User>)
    ensures r.Some? <==> GetUserByEmail(users, email).Some? &&
                         verify(password, GetUserByEmail(users, email).value.hashedPassword)
    ensures r.Some? ==> r.value in users && r.value.email == email &&
                        verify(password, r.value.hashedPassword)
  {
    match GetUserByEmail(users, email)
    case None => None
    case Some(u) => if verify(password, u.hashedPassword) then Some(u) else None
  }

  /** An unknown email is refused whatever the password and the verifier. */
  lemma AuthenticateUnknownEmail(users: seq<User>, email: string, password: string,
                                 verify: (string, string) -> bool)
    requires forall u :: u in users ==> u.email != email
    ensures AuthenticateUser(users, email, password, verify).None?
  {
  }

  /** With unique emails, a user whose stored hash accepts the password is
      exactly the one authenticated, and one whose hash rejects it is refused. */
  lemma AuthenticateKnownUser(users: seq<User>, u: User, password: string,
                              verify: (string, string) -> bool)
    requires UniqueUsers(users) && u in users
    ensures AuthenticateUser(users, u.email, password, verify) ==
            if verify(password, u.hashedPassword) then Some(u) else None
  {
    GetUserByEmailUnique(users, u);
  }

  // ------------------------------------------------------------ create_user

  /** SQLite's id for a row inserted without one: one more than the largest
      id in the table, 1 for an empty table. */
  function NextUserId(users: seq<User>): (n: int)
    ensures forall u :: u in users ==> u.id < n
  {
    if users == [] then 1
    else
      var rest := NextUserId(users[1..]);
      assert forall u :: u in users ==> u == users[0] || u in users[1..];
      if users[0].id + 1 > rest then users[0].id + 1 else rest
  }

  /** The row create_user inserts: the hash of the password, active, stamped `now`. */
  function NewUser(users: seq<User>, u: UserCreate, hashed: string, now: int): (r: User)
    ensures r.email == u.email && r.username == u.username && r.hashedPassword == hashed
    ensures r.isActive && r.createdAt == now
    ensures r.fullName == u.fullName && r.phoneNumber == u.phoneNumber
    ensures forall x :: x in users ==> x.id != r.id
  {
    User(NextUserId(users), u.email, u.username, hashed, true, now, u.fullName, u.phoneNumber)
  }

  /** Appending a row that clashes with no existing row on any unique
      column keeps the constraints. */
  lemma AppendKeepsUnique(users: seq<User>, n: User)
    requires UniqueUsers(users)
    requires forall x :: x in users ==> x.id != n.id && x.email != n.email && x.username != n.username
    ensures UniqueUsers(users + [n])
  {
    assert forall k :: 0 <= k < |users| ==> users[k] in users;
  }

  /** The users table. */
  class UserTable {
    var users: seq<User>

    ghost predicate Valid()
      reads this
    {
      UniqueUsers(users)
    }

    constructor ()
      ensures Valid() && users == []
    {
      users := [];
    }

    /** create_user: inserts the new row, or is refused by the unique email
        or username constraint with nothing changed. `hashed` is the bcrypt
        hash of `u.password` and `now` the clock reading. */
    method CreateUser(u: UserCreate, hashed: string, now: int) returns (r: Result<User, Error>)
      requires Valid()
      modifies this
      ensures Valid()
      ensures GetUserByEmail(old(users), u.email).Some? ==>
        r == Failure(EmailTaken) && users == old(users)
      ensures GetUserByEmail(old(users), u.email).None? && GetUserByUsername(old(users), u.username).Some? ==>
        r == Failure(UsernameTaken) && users == old(users)
      ensures GetUserByEmail(old(users), u.email).None? && GetUserByUsername(old(users), u.username).None? ==>
        r == Success(NewUser(old(users), u, hashed, now)) && users == old(users) + [r.value]
    {
      if GetUserByEmail(users, u.email).Some? {
        return Failure(EmailTaken);
      }
      if GetUserByUsername(users, u.username).Some? {
        return Failure(UsernameTaken);
      }
      var n := NewUser(users, u, hashed, now);
      AppendKeepsUnique(users, n);
      users := users + [n];
      r := Success(n);
    }
  }

  /** A user just created can log in with the password whose hash was
      stored, when the verifier accepts that pair. */
  lemma CreatedUserAuthenticates(users: seq<User>, u: UserCreate, hashed: string, now: int,
                                 verify: (string, string) -> bool)
    requires UniqueUsers(users)
    requires GetUserByEmail(users, u.email).None? && GetUserByUsername(users, u.username).None?
    requires verify(u.password, hashed)
    ensures AuthenticateUser(users + [NewUser(users, u, hashed, now)], u.email, u.password, verify)
            == Some(NewUser(users, u, hashed, now))
  {
    var n := NewUser(users, u, hashed, now);
    AppendKeepsUnique(users, n);
    AuthenticateKnownUser(users + [n], n, u.password, verify);
  }
}
