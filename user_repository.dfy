/** The users table: inserts, the in-place updates of a user's profile,
    password and role, the soft delete, and the three queries, each reading
    its own set of columns. */
module UserRepo {
  import opened Common
  import opened Tables

  /** A row of the users table. */
  datatype User = User(
    id: string,
    username: string,
    email: string,
    passwordHash: string,
    fullName: string,
    roleId: string,
    isActive: bool,
    createdAt: Time,
    updatedAt: Time)

  function UserId(u: User): string { u.id }
  function UserCreatedAt(u: User): Time { u.createdAt }
  function AnyUser(u: User): bool { true }

  /** The outcome of a single-row query. */
  datatype Fetched<T> = Row(value: T) | NoRow | StoreFailed

  /** The UPDATE statements on a user row. */
  datatype UserChange =
      /** full_name, role_id and email */
    | SetProfile(fullName: string, roleId: string, email: string, at: Time)
    | SetPassword(hash: string, at: Time)
    | SetRole(roleId: string, at: Time)
      /** The soft delete. */
    | Deactivate(at: Time)

  /** The row after the change. Each statement writes its own columns and
      the update time; id, username and creation time never change. */
  function ApplyUser(c: UserChange, u: User): (u': User)
    ensures u'.id == u.id && u'.username == u.username && u'.createdAt == u.createdAt
    ensures u'.passwordHash == if c.SetPassword? then c.hash else u.passwordHash
    ensures u'.roleId == if c.SetProfile? || c.SetRole? then c.roleId else u.roleId
    ensures u'.isActive == (u.isActive && !c.Deactivate?)
    ensures u'.fullName == if c.SetProfile? then c.fullName else u.fullName
    ensures u'.email == if c.SetProfile? then c.email else u.email
  {
    match c
    case SetProfile(n, r, e, at) => u.(fullName := n, roleId := r, email := e, updatedAt := at)
    case SetPassword(h, at) => u.(passwordHash := h, updatedAt := at)
    case SetRole(r, at) => u.(roleId := r, updatedAt := at)
    case Deactivate(at) => u.(isActive := false, updatedAt := at)
  }

  function UserUpdate(c: UserChange): User -> User
  {
    (u: User) => ApplyUser(c, u)
  }

  function RowIds(rows: seq<User>): set<string>
  {
    set u | u in rows :: u.id
  }

  /** The rows an inner join with the roles table keeps: those whose role
      id names a role, in table order. */
  function WithKnownRole(rows: seq<User>, roles: set<string>): (r: seq<User>)
    ensures forall u :: u in r <==> u in rows && u.roleId in roles
  {
    if rows == [] then []
    else (if rows[0].roleId in roles then [rows[0]] else []) + WithKnownRole(rows[1..], roles)
  }

  /** The columns FindByUsername reads: all but the timestamps. */
  function LoginColumns(u: User): User
  {
    u.(createdAt := 0, updatedAt := 0)
  }

  /** The columns FindByID reads: no password hash, no active flag. */
  function ProfileColumns(u: User): User
  {
    User(u.id, u.username, u.email, "", u.fullName, u.roleId, false, 0, 0)
  }

  /** The columns FindAll reads: no password hash. */
  function ListColumns(u: User): User
  {
    User(u.id, u.username, u.email, "", u.fullName, u.roleId, u.isActive, u.createdAt, 0)
  }

  /** The rows of a listing as FindAll reads them: one per row, none with
      its password hash. */
  function ListRows(rows: seq<User>): (r: seq<User>)
    ensures |r| == |rows|
    ensures forall u :: u in rows ==> ListColumns(u) in r
    ensures forall x :: x in r ==> x.passwordHash == ""
  {
    var r := seq(|rows|, i requires 0 <= i < |rows| => ListColumns(rows[i]));
    assert forall u :: u in rows ==> ListColumns(u) in r by {
      forall u | u in rows ensures ListColumns(u) in r {
        var i :| 0 <= i < |rows| && rows[i] == u;
        assert r[i] == ListColumns(u);
      }
    }
    r
  }

  /** The users table, kept in insertion order, with the ids of the roles
      table that its queries join with. */
  class UserRepository {
    var rows: seq<User>
    const roles: set<string>
    /** The store's clock, NOW() of its statements. */
    var clock: Time
    /** Whether the store is currently unreachable. */
    var offline: bool

    ghost predicate Valid()
      reads this
    {
      && UniqueKeys(rows, UserId)
      && Chronological(rows, UserCreatedAt)
      && forall u :: u in rows ==> u.createdAt <= clock
    }

    constructor(roles: set<string>, start: Time)
      ensures Valid() && rows == [] && this.roles == roles && clock == start && !offline
    {
      rows := [];
      this.roles := roles;
      clock := start;
      offline := false;
    }

    /** The ids of all rows, soft-deleted ones included. */
    function Ids(): set<string>
      reads this
    {
      RowIds(rows)
    }

    /** The row with id `id`, whatever its role and active flag. */
    function Get(id: string): Option<User>
      reads this
    {
      Lookup(rows, UserId, id)
    }

    method SetOffline(down: bool)
      modifies this`offline
      ensures offline == down
    {
      offline := down;
    }

    /** The store's clock moves forward. */
    method AdvanceClock(t: Time)
      requires Valid() && clock <= t
      modifies this`clock
      ensures Valid() && clock == t
    {
      clock := t;
    }

    /** FindByUsername: a user with that name whose role exists, read with
        its hash and active flag. Not finding one is the "user not found"
        error; a soft-deleted user is still found. */
    function FindByUsername(username: string): (r: Fetched<User>)
      reads this
      ensures r.Row? ==> exists u :: u in rows && u.username == username && u.roleId in roles
                                     && r.value == LoginColumns(u)
      ensures r.NoRow? <==> !offline && forall u :: u in rows && u.username == username ==> u.roleId !in roles
      ensures r.StoreFailed? <==> offline
    {
      if offline then StoreFailed
      else
        match Lookup(WithKnownRole(rows, roles), (u: User) => u.username, username)
        case Some(u) => Row(LoginColumns(u))
        case None => NoRow
    }

    /** FindByID: the user with that id if its role exists, read without
        hash or active flag; a soft-deleted user is still found. */
    function FindByID(id: string): (r: Fetched<User>)
      reads this
      ensures r.Row? ==> exists u :: u in rows && u.id == id && u.roleId in roles && r.value == ProfileColumns(u)
      ensures r.Row? ==> r.value.passwordHash == "" && r.value.id == id
      ensures r.NoRow? <==> !offline && forall u :: u in rows && u.id == id ==> u.roleId !in roles
      ensures r.StoreFailed? <==> offline
    {
      if offline then StoreFailed
      else
        match Lookup(WithKnownRole(rows, roles), UserId, id)
        case Some(u) => Row(ProfileColumns(u))
        case None => NoRow
    }

    /** FindAll: every user, newest first, read without hash. The roles
        join is an outer one, so a user whose role does not exist comes back
        with a null role name, and reading that null fails the whole query. */
    method FindAll() returns (ok: bool, users: seq<User>)
      requires Valid()
      ensures ok <==> !offline && forall u :: u in rows ==> u.roleId in roles
      ensures ok ==> users == ListRows(NewestFirst(rows, AnyUser))
      ensures !ok ==> users == []
    {
      if offline {
        return false, [];
      }
      users := [];
      var i := |rows|;
      while i > 0
        invariant 0 <= i <= |rows|
        invariant forall u :: u in rows[i..] ==> u.roleId in roles
        invariant users == ListRows(NewestFirst(rows[i..], AnyUser))
      {
        i := i - 1;
        var u := rows[i];
        if u.roleId !in roles {
          return false, [];
        }
        assert rows[i..][1..] == rows[i + 1..];
        users := users + [ListColumns(u)];
      }
      assert rows[0..] == rows;
      return true, users;
    }

    /** Create: insert the user as active and write the generated id back. */
    method Create(user: User, freshId: string) returns (ok: bool, written: User)
      requires Valid() && freshId !in Ids()
      modifies this`rows
      ensures Valid()
      ensures ok == !offline
      ensures written == if ok then user.(id := freshId) else user
      ensures rows == if ok then old(rows) + [User(freshId, user.username, user.email, user.passwordHash,
                                                   user.fullName, user.roleId, true, clock, clock)]
                      else old(rows)
    {
      if offline {
        return false, user;
      }
      var row := User(freshId, user.username, user.email, user.passwordHash, user.fullName, user.roleId, true, clock, clock);
      assert forall u :: u in rows ==> u.id != freshId;
      rows := rows + [row];
      return true, user.(id := freshId);
    }

    /** Apply one UPDATE statement to the row with id `id`; an id that
        names no row changes nothing and is not an error. */
    method Change(id: string, c: UserChange) returns (ok: bool)
      requires Valid()
      modifies this`rows
      ensures Valid()
      ensures ok == !offline
      ensures rows == if ok then UpdateWhere(old(rows), UserId, id, UserUpdate(c)) else old(rows)
    {
      if offline {
        return false;
      }
      UpdateWhereKeepsOrder(rows, UserId, UserCreatedAt, id, UserUpdate(c));
      rows := UpdateWhere(rows, UserId, id, UserUpdate(c));
      return true;
    }

    /** Update: overwrite full name, role id and email. */
    method Update(user: User) returns (ok: bool)
      requires Valid()
      modifies this`rows
      ensures Valid()
      ensures ok == !offline
      ensures rows == if ok then UpdateWhere(old(rows), UserId, user.id,
                                             UserUpdate(SetProfile(user.fullName, user.roleId, user.email, clock)))
                      else old(rows)
    {
      ok := Change(user.id, SetProfile(user.fullName, user.roleId, user.email, clock));
    }

    method UpdatePassword(userId: string, newHash: string) returns (ok: bool)
      requires Valid()
      modifies this`rows
      ensures Valid()
      ensures ok == !offline
      ensures rows == if ok then UpdateWhere(old(rows), UserId, userId, UserUpdate(SetPassword(newHash, clock)))
                      else old(rows)
    {
      ok := Change(userId, SetPassword(newHash, clock));
    }

    method UpdateRole(userId: string, roleId: string) returns (ok: bool)
      requires Valid()
      modifies this`rows
      ensures Valid()
      ensures ok == !offline
      ensures rows == if ok then UpdateWhere(old(rows), UserId, userId, UserUpdate(SetRole(roleId, clock)))
                      else old(rows)
    {
      ok := Change(userId, SetRole(roleId, clock));
    }

    /** Delete: the soft delete, which only clears the active flag. */
    method Delete(id: string) returns (ok: bool)
      requires Valid()
      modifies this`rows
      ensures Valid()
      ensures ok == !offline
      ensures rows == if ok then UpdateWhere(old(rows), UserId, id, UserUpdate(Deactivate(clock))) else old(rows)
    {
      ok := Change(id, Deactivate(clock));
    }
  }

  /** What one UPDATE statement does to the table, seen through the row
      lookup: the row with the id becomes the changed row (the rest of it
      as before), every other row stays, and no row appears or disappears. */
  lemma ChangeEffect(rows: seq<User>, id: string, c: UserChange, other: string)
    ensures Lookup(UpdateWhere(rows, UserId, id, UserUpdate(c)), UserId, id)
            == match Lookup(rows, UserId, id) case None => None case Some(u) => Some(ApplyUser(c, u))
    ensures other != id ==> Lookup(UpdateWhere(rows, UserId, id, UserUpdate(c)), UserId, other) == Lookup(rows, UserId, other)
    ensures RowIds(UpdateWhere(rows, UserId, id, UserUpdate(c))) == RowIds(rows)
  {
    KeepsIds(c);
    UpdateWhereLookup(rows, UserId, id, UserUpdate(c), id);
    UpdateWhereLookup(rows, UserId, id, UserUpdate(c), other);
    UpdateKeepsRowIds(rows, id, c);
  }

  /** Every change keeps the row's id. */
  lemma KeepsIds(c: UserChange)
    ensures forall x :: UserId(UserUpdate(c)(x)) == UserId(x)
  {
  }

  /** An update leaves the set of ids as it was. */
  lemma UpdateKeepsRowIds(rows: seq<User>, id: string, c: UserChange)
    ensures RowIds(UpdateWhere(rows, UserId, id, UserUpdate(c))) == RowIds(rows)
  {
    var r := UpdateWhere(rows, UserId, id, UserUpdate(c));
    assert |r| == |rows|;
    forall i | 0 <= i < |rows| ensures r[i].id == rows[i].id {
    }
    forall k | k in RowIds(rows) ensures k in RowIds(r) {
      var i :| 0 <= i < |rows| && rows[i].id == k;
      assert r[i] in r;
    }
    forall k | k in RowIds(r) ensures k in RowIds(rows) {
      var i :| 0 <= i < |r| && r[i].id == k;
      assert rows[i] in rows;
    }
  }

  /** The soft delete keeps the row: the user can still be looked up, now
      inactive, with every other column as before. */
  lemma SoftDeleteKeepsRow(rows: seq<User>, id: string, at: Time)
    requires Lookup(rows, UserId, id).Some?
    ensures Lookup(UpdateWhere(rows, UserId, id, UserUpdate(Deactivate(at))), UserId, id)
            == Some(Lookup(rows, UserId, id).value.(isActive := false, updatedAt := at))
  {
    ChangeEffect(rows, id, Deactivate(at), id);
  }
}
