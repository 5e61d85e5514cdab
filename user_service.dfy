/** The user-management handlers: an administrator lists, creates, edits,
    re-roles and deactivates users; anyone else may read and edit only
    their own record, and may not change their role while doing so. */
module UserHandlers {
  import opened Common
  import opened Tables
  import opened UserRepo

  /** The JSON body of CreateUser. */
  datatype CreateUserRequest = CreateUserRequest(
    username: string,
    email: string,
    password: string,
    fullName: string,
    roleId: string)

  /** The JSON body of UpdateUser; none of its fields is required, and a
      missing one reads as "". */
  datatype UpdateUserRequest = UpdateUserRequest(email: string, fullName: string, roleId: string)

  /** The shortest password CreateUser accepts. */
  const MinPasswordLength: nat := 6

  /** The CreateUser body binds: it was readable (None is a malformed
      request), every field is present and the password is long enough. */
  predicate CreateBound(body: Option<CreateUserRequest>)
  {
    && body.Some?
    && body.value.username != "" && body.value.email != "" && body.value.fullName != ""
    && body.value.roleId != ""
    && |body.value.password| >= MinPasswordLength
  }

  /** An administrator may act on any user; anyone else only on themself. */
  predicate MayActOn(caller: Caller, target: string)
  {
    IsAdmin(caller) || caller.userId == target
  }

  /** The role id UpdateUser writes: an administrator's request as given;
      a non-empty request from anyone else is replaced by the caller's own
      role, while an empty one is written as it is. */
  function RoleToWrite(caller: Caller, requested: string): (r: string)
    ensures requested == "" ==> r == ""
    ensures IsAdmin(caller) ==> r == requested
    ensures !IsAdmin(caller) ==> r == "" || r == caller.roleId
    ensures !IsAdmin(caller) && requested != "" ==> r == caller.roleId
  {
    if !IsAdmin(caller) && requested != "" then caller.roleId else requested
  }

  /** A user as a JSON response shows it: the hash is never serialised. */
  function Shown(u: User): (v: User)
    ensures v.passwordHash == ""
    ensures v.(passwordHash := u.passwordHash) == u
  {
    u.(passwordHash := "")
  }

  /** The user the handler asks the store to insert: the request's fields
      with the hash of its password, and nothing else set. */
  function NewUser(body: CreateUserRequest, hash: string): User
  {
    User("", body.username, body.email, hash, body.fullName, body.roleId, false, 0, 0)
  }

  class UserService {
    const users: UserRepository

    constructor(users: UserRepository)
      ensures this.users == users
    {
      this.users := users;
    }

    /** GetAllUsers: administrators only; every user, soft-deleted ones
        included, newest first, with no hash. */
    method GetAllUsers(caller: Caller) returns (res: Response<seq<User>>)
      requires users.Valid()
      ensures !IsAdmin(caller) ==> res == Fail(Forbidden)
      ensures IsAdmin(caller) ==>
                res == if users.offline || exists u :: u in users.rows && u.roleId !in users.roles then Fail(ServerError)
                       else Ok(200, ListRows(NewestFirst(users.rows, AnyUser)))
      ensures res.Ok? ==> forall u :: u in users.rows ==> ListColumns(u) in res.body
      ensures res.Ok? ==> forall v :: v in res.body ==> v.passwordHash == ""
    {
      if !IsAdmin(caller) {
        return Fail(Forbidden);
      }
      var ok, list := users.FindAll();
      if !ok {
        return Fail(ServerError);
      }
      return Ok(200, list);
    }

    /** GetUserByID: an administrator reads anyone, anyone else only
        themself; a failed lookup of any kind answers 404, and the record
        never carries a hash. */
    function GetUserByID(caller: Caller, target: string): (res: Response<User>)
      reads this, users
      ensures res == Fail(Forbidden) <==> !MayActOn(caller, target)
      ensures res == Fail(NotFound) <==> MayActOn(caller, target) && !users.FindByID(target).Row?
      ensures res.Ok? ==> res.code == 200 && res.body.id == target && res.body.passwordHash == ""
      ensures res.Ok? ==> exists u :: u in users.rows && u.id == target && u.roleId in users.roles
                                     && res.body == ProfileColumns(u)
    {
      if !MayActOn(caller, target) then Fail(Forbidden)
      else
        match users.FindByID(target)
        case Row(u) => Ok(200, u.(passwordHash := ""))
        case _ => Fail(NotFound)
    }

    /** CreateUser: administrators only. The store draws the id `freshId`;
        `hash` is the password's hash. */
    method CreateUser(caller: Caller, body: Option<CreateUserRequest>, hash: string, freshId: string)
      returns (res: Response<User>)
      requires users.Valid() && freshId !in users.Ids()
      modifies users`rows
      ensures users.Valid()
      ensures !IsAdmin(caller) ==> res == Fail(Forbidden)
      ensures IsAdmin(caller) && !CreateBound(body) ==> res == Fail(BadRequest)
      ensures IsAdmin(caller) && CreateBound(body) ==>
                res == if users.offline then Fail(ServerError)
                       else Ok(201, Shown(NewUser(body.value, hash).(id := freshId)))
      ensures users.rows == if res.Ok? then old(users.rows) + [User(freshId, body.value.username, body.value.email, hash,
                                                                    body.value.fullName, body.value.roleId, true,
                                                                    users.clock, users.clock)]
                            else old(users.rows)
    {
      if !IsAdmin(caller) {
        return Fail(Forbidden);
      }
      if !CreateBound(body) {
        return Fail(BadRequest);
      }
      var ok, written := users.Create(NewUser(body.value, hash), freshId);
      if !ok {
        return Fail(ServerError);
      }
      return Ok(201, Shown(written));
    }

    /** UpdateUser: overwrite name, email and role of the target with the
        body's values, under the role rule of RoleToWrite. The write does
        not check that the target exists. */
    method UpdateUser(caller: Caller, target: string, body: Option<UpdateUserRequest>) returns (res: Response<()>)
      requires users.Valid()
      modifies users`rows
      ensures users.Valid()
      ensures !MayActOn(caller, target) ==> res == Fail(Forbidden)
      ensures MayActOn(caller, target) && body.None? ==> res == Fail(BadRequest)
      ensures MayActOn(caller, target) && body.Some? ==> res == if users.offline then Fail(ServerError) else Ok(200, ())
      ensures users.rows == if res.Ok? then UpdateWhere(old(users.rows), UserId, target,
                                                        UserUpdate(SetProfile(body.value.fullName,
                                                                              RoleToWrite(caller, body.value.roleId),
                                                                              body.value.email, users.clock)))
                            else old(users.rows)
      ensures res.Ok? ==> users.Get(target).Some? == old(users.Get(target)).Some?
      ensures (res.Ok? && old(users.Get(target)).Some?) ==>
                && users.Get(target).value.roleId == RoleToWrite(caller, body.value.roleId)
                && users.Get(target).value.passwordHash == old(users.Get(target)).value.passwordHash
                && users.Get(target).value.isActive == old(users.Get(target)).value.isActive
      ensures (res.Ok? && !IsAdmin(caller) && old(users.Get(target)).Some?
               && old(users.Get(target)).value.roleId == caller.roleId) ==>
                users.Get(target).value.roleId in {caller.roleId, ""}
      ensures (res.Ok? && !IsAdmin(caller) && body.value.roleId != "" && old(users.Get(target)).Some?
               && old(users.Get(target)).value.roleId == caller.roleId) ==>
                users.Get(target).value.roleId == old(users.Get(target)).value.roleId
      ensures (res.Ok? && body.value.roleId == "" && old(users.Get(target)).Some?) ==>
                users.Get(target).value.roleId == ""
      ensures res.Ok? ==> forall other :: other != target ==> users.Get(other) == old(users.Get(other))
    {
      if !MayActOn(caller, target) {
        return Fail(Forbidden);
      }
      if body.None? {
        return Fail(BadRequest);
      }
      var input := body.value;
      var role := RoleToWrite(caller, input.roleId);
      ghost var before := users.rows;
      var change := SetProfile(input.fullName, role, input.email, users.clock);
      var ok := users.Update(User(target, "", input.email, "", input.fullName, role, false, 0, 0));
      if !ok {
        return Fail(ServerError);
      }
      ChangeEffect(before, target, change, target);
      forall other | other != target
        ensures Lookup(users.rows, UserId, other) == Lookup(before, UserId, other)
      {
        ChangeEffect(before, target, change, other);
      }
      return Ok(200, ());
    }

    /** UpdateRole: administrators only; the body must name a role id. */
    method UpdateRole(caller: Caller, target: string, roleId: Option<string>) returns (res: Response<()>)
      requires users.Valid()
      modifies users`rows
      ensures users.Valid()
      ensures !IsAdmin(caller) ==> res == Fail(Forbidden)
      ensures IsAdmin(caller) && (roleId.None? || roleId.value == "") ==> res == Fail(BadRequest)
      ensures IsAdmin(caller) && roleId.Some? && roleId.value != "" ==>
                res == if users.offline then Fail(ServerError) else Ok(200, ())
      ensures users.rows == if res.Ok? then UpdateWhere(old(users.rows), UserId, target,
                                                        UserUpdate(SetRole(roleId.value, users.clock)))
                            else old(users.rows)
      ensures (res.Ok? && old(users.Get(target)).Some?) ==>
                users.Get(target) == Some(old(users.Get(target)).value.(roleId := roleId.value, updatedAt := users.clock))
    {
      if !IsAdmin(caller) {
        return Fail(Forbidden);
      }
      if roleId.None? || roleId.value == "" {
        return Fail(BadRequest);
      }
      ghost var before := users.rows;
      var ok := users.UpdateRole(target, roleId.value);
      if !ok {
        return Fail(ServerError);
      }
      ChangeEffect(before, target, SetRole(roleId.value, users.clock), target);
      return Ok(200, ());
    }

    /** DeleteUser: administrators only; the soft delete, after which the
        user is still there, inactive. */
    method DeleteUser(caller: Caller, target: string) returns (res: Response<()>)
      requires users.Valid()
      modifies users`rows
      ensures users.Valid()
      ensures res == if !IsAdmin(caller) then Fail(Forbidden) else if users.offline then Fail(ServerError) else Ok(200, ())
      ensures users.rows == if res.Ok? then UpdateWhere(old(users.rows), UserId, target, UserUpdate(Deactivate(users.clock)))
                            else old(users.rows)
      ensures res.Ok? ==> users.Ids() == old(users.Ids())
      ensures (res.Ok? && old(users.Get(target)).Some?) ==>
                users.Get(target) == Some(old(users.Get(target)).value.(isActive := false, updatedAt := users.clock))
    {
      if !IsAdmin(caller) {
        return Fail(Forbidden);
      }
      ghost var before := users.rows;
      var ok := users.Delete(target);
      if !ok {
        return Fail(ServerError);
      }
      ChangeEffect(before, target, Deactivate(users.clock), target);
      return Ok(200, ());
    }
  }
}
