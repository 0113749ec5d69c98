/**
 * `UserService`: the user endpoints. A user sees and changes only the accounts whose
 * role lies strictly below their own role, the same gate `RoleService` applies to roles;
 * a stored password is always the encoder's digest of the raw one, and changing one's
 * own password needs the old one.
 */
module UserService {
  import opened Wrappers
  import opened Strs
  import opened RestApi
  import opened AccountStatus
  import opened Mappers
  import opened Passwords
  import opened StringUtils
  import opened RoleTree
  import RoleService

  type Actor = RoleService.Actor

  /** `AddUserRequest`, after validation: every field but the remark is present. */
  datatype AddUserRequest = AddUserRequest(
    username: string, nickname: string, password: string, status: int, roleId: int, remark: Option<string>)

  datatype UpdateUserRequest = UpdateUserRequest(
    nickname: string, status: int, roleId: int, remark: Option<string>)

  /** `UpdateSelfRequest`: either password may be missing. */
  datatype UpdateSelfRequest = UpdateSelfRequest(
    nickname: string, oldPassword: Option<string>, newPassword: Option<string>)

  /** `UserDetailResponse`: a user joined with its role (its `updatedAt` is left out). */
  datatype UserDetail = UserDetail(
    id: int, username: string, nickname: string, status: Option<AccountStatus>,
    roleId: int, roleName: string, fullPath: string, remark: Option<string>)

  /** `UserItemResponse`, one entry of the user list (its `updatedAt` is left out). */
  datatype UserItem = UserItem(
    id: int, username: string, nickname: string, status: Option<AccountStatus>, roleId: int, roleName: string)

  const UserNotFound := ApiException(NotFound, "未找到用户数据")
  const ViewForbidden := ApiException(Forbidden, "只允许查看下级用户")
  const UsernameTaken := ApiException(Conflict, "已存在相同用户名")
  const AddForbidden := ApiException(Forbidden, "只允许创建下级用户")
  const UpdateForbidden := ApiException(Forbidden, "只允许更新下级用户")
  const NewRoleForbidden := ApiException(Forbidden, "新角色不是当前用户的下级角色")
  const WrongOldPassword := ApiException(BadRequest, "旧密码错误")
  const DeleteForbidden := ApiException(Forbidden, "只允许删除下级用户")

  /** hutool `StrUtil.isBlank` on a field that may be `null`. */
  predicate IsBlankOrNull(s: Option<string>) {
    s.None? || IsBlank(s.value)
  }

  /** The three fuzzy filters of `GetUserRequest`, rewritten in place before the query. */
  class UserQuery {
    var username: Option<string>
    var nickname: Option<string>
    var status: Option<int>
    var roleName: Option<string>

    constructor (username: Option<string>, nickname: Option<string>, status: Option<int>, roleName: Option<string>)
      ensures this.username == username && this.nickname == nickname
      ensures this.status == status && this.roleName == roleName
    {
      this.username := username;
      this.nickname := nickname;
      this.status := status;
      this.roleName := roleName;
    }
  }

  class UserService {
    const roleService: RoleService.RoleService

    constructor (roleService: RoleService.RoleService)
      ensures this.roleService == roleService
    {
      this.roleService := roleService;
    }

    /** The account exists, its role exists, and that role lies strictly below the user's. */
    predicate Manages(me: Actor, userId: int)
      reads roleService.db
    {
      var db := roleService.db;
      userId in db.users && db.users[userId].roleId in db.roles &&
      roleService.Subordinate(me, db.roles[db.users[userId].roleId].fullPath)
    }

    /**
     * `isNotSubordinateRole(long roleId)`: false exactly for a role strictly below the
     * user's; a missing role fails the `orElseThrow`.
     */
    function RoleIsNotSubordinate(me: Actor, roleId: int): (r: Result<bool, ApiError>)
      reads roleService.db
      ensures r == Success(false) <==> (roleId in roleService.db.roles &&
        roleService.Subordinate(me, roleService.db.roles[roleId].fullPath))
      ensures r.Success? <==> roleId in roleService.db.roles && roleService.OwnRole(me).Some?
      ensures r.Failure? ==> r.error == ServerError(NoValuePresent)
    {
      match roleService.db.SelectRoleFullPathByRoleId(roleId)
      case None => Failure(ServerError(NoValuePresent))
      case Some(path) => roleService.IsNotSubordinate(me, path)
    }

    // -- getUsers ----------------------------------------------------------

    function ItemOf(u: UserRow): UserItem
      requires u.roleId in roleService.db.roles
      reads roleService.db
    {
      UserItem(u.id, u.username, u.nickname, u.status, u.roleId, roleService.db.roles[u.roleId].name)
    }

    /**
     * `getUsers` without its filters and pages: the accounts whose role lies strictly
     * below the user's role.
     */
    function GetUsers(me: Actor): (r: Result<set<UserItem>, ApiError>)
      reads roleService.db
      ensures r.Success? <==> roleService.OwnRole(me).Some?
      ensures r.Failure? ==> r.error == ServerError(NoValuePresent)
      ensures r.Success? ==> forall item ::
        item in r.value <==> exists k | k in roleService.db.users && Manages(me, k) :: item == ItemOf(roleService.db.users[k])
    {
      var db := roleService.db;
      match roleService.CurrentPrefix(me)
      case Failure(e) => Failure(e)
      case Success(prefix) =>
        Success(set k | k in db.users && db.users[k].roleId in db.roles &&
          StartsWith(db.roles[db.users[k].roleId].fullPath, prefix) :: ItemOf(db.users[k]))
    }

    /** `setFuzzyQueryParams`: each text filter becomes its `LIKE` value; the status stays. */
    method SetFuzzyQueryParams(query: UserQuery)
      modifies query
      ensures query.username == ToNullableLikeValue(old(query.username))
      ensures query.nickname == ToNullableLikeValue(old(query.nickname))
      ensures query.roleName == ToNullableLikeValue(old(query.roleName))
      ensures query.status == old(query.status)
    {
      query.username := ToNullableLikeValue(query.username);
      query.nickname := ToNullableLikeValue(query.nickname);
      query.roleName := ToNullableLikeValue(query.roleName);
    }

    // -- getUserDetail -----------------------------------------------------

    /** `selectUserDetailById`: the user joined with its role. */
    function SelectUserDetailById(id: int): (r: Option<UserDetail>)
      reads roleService.db
      ensures r.Some? <==> id in roleService.db.users && roleService.db.users[id].roleId in roleService.db.roles
      ensures r.Some? ==> (var u := roleService.db.users[id]; var role := roleService.db.roles[u.roleId];
        r.value == UserDetail(u.id, u.username, u.nickname, u.status, u.roleId, role.name, role.fullPath, u.remark))
    {
      var db := roleService.db;
      if id in db.users && db.users[id].roleId in db.roles then
        var u := db.users[id];
        var role := db.roles[u.roleId];
        Some(UserDetail(u.id, u.username, u.nickname, u.status, u.roleId, role.name, role.fullPath, u.remark))
      else None
    }

    function GetUserDetail(me: Actor, id: int): (r: Result<UserDetail, ApiError>)
      reads roleService.db
      ensures r.Success? <==> Manages(me, id)
      ensures r.Success? ==> (var u := roleService.db.users[id];
        r.value.id == u.id && r.value.username == u.username && r.value.status == u.status &&
        r.value.fullPath == roleService.db.roles[u.roleId].fullPath)
      ensures r.Success? ==> r.value == SelectUserDetailById(id).value
      ensures id !in roleService.db.users ==> r == Failure(UserNotFound)
      ensures (Mappable(id) && roleService.OwnRole(me).Some? && !Manages(me, id)) ==> r == Failure(ViewForbidden)
    {
      match SelectUserDetailById(id)
      case None => Failure(UserNotFound)
      case Some(detail) =>
        match roleService.IsNotSubordinate(me, detail.fullPath)
        case Failure(e) => Failure(e)
        case Success(notSub) => if notSub then Failure(ViewForbidden) else Success(detail)
    }

    /** The account and its role are both in the tables. */
    predicate Mappable(id: int)
      reads roleService.db
    {
      id in roleService.db.users && roleService.db.users[id].roleId in roleService.db.roles
    }

    // -- addUser -----------------------------------------------------------

    /**
     * The checks of `addUser`, in their order, and the row it then inserts: a new
     * username, an existing role strictly below the user's, a known status code.
     */
    function AddUserPlan(me: Actor, req: AddUserRequest, salt: string): (r: Result<UserRow, ApiError>)
      reads roleService.db
      ensures roleService.db.ExistsByUsername(req.username) ==> r == Failure(UsernameTaken)
      ensures (!roleService.db.ExistsByUsername(req.username) && req.roleId !in roleService.db.roles) ==>
        r == Failure(RoleService.RoleNotFound)
      ensures (!roleService.db.ExistsByUsername(req.username) && req.roleId in roleService.db.roles &&
        roleService.OwnRole(me).Some? && !roleService.Subordinate(me, roleService.db.roles[req.roleId].fullPath)) ==>
        r == Failure(AddForbidden)
      ensures (!roleService.db.ExistsByUsername(req.username) && req.roleId in roleService.db.roles &&
        roleService.OwnRole(me).None?) ==> r == Failure(ServerError(NoValuePresent))
      ensures (!roleService.db.ExistsByUsername(req.username) && req.roleId in roleService.db.roles &&
        roleService.Subordinate(me, roleService.db.roles[req.roleId].fullPath) && Resolve(Some(req.status)).None?) ==>
        r == Failure(ServerError(NoValuePresent))
      ensures r.Success? <==> (!roleService.db.ExistsByUsername(req.username) && req.roleId in roleService.db.roles &&
        roleService.Subordinate(me, roleService.db.roles[req.roleId].fullPath) && Resolve(Some(req.status)).Some?)
      ensures r.Success? ==> (r.value.username == req.username && r.value.nickname == req.nickname &&
        r.value.roleId == req.roleId && r.value.remark == req.remark &&
        r.value.status.Some? && Code(r.value.status.value) == req.status &&
        Matches(req.password, r.value.hashedPassword) && r.value.hashedPassword != req.password)
    {
      var db := roleService.db;
      if db.ExistsByUsername(req.username) then Failure(UsernameTaken)
      else
        match db.SelectRoleFullPathByRoleId(req.roleId)
        case None => Failure(RoleService.RoleNotFound)
        case Some(path) =>
          match roleService.IsNotSubordinate(me, path)
          case Failure(e) => Failure(e)
          case Success(notSub) =>
            if notSub then Failure(AddForbidden)
            else
              var hashed := Encode(req.password, salt);
              MatchesEncode(req.password, salt);
              EncodeIsNotRaw(req.password, salt);
              match Resolve(Some(req.status))
              case None => Failure(ServerError(NoValuePresent))
              case Some(status) => Success(UserRow(0, req.username, req.nickname, hashed, Some(status), req.roleId, req.remark))
    }

    /** `addUser`: after the checks, inserts the row under the next generated id. */
    method AddUser(me: Actor, req: AddUserRequest, salt: string) returns (r: Result<(), ApiError>)
      modifies roleService.db
      ensures old(AddUserPlan(me, req, salt)).Failure? ==>
        r == Failure(old(AddUserPlan(me, req, salt)).error) && roleService.db.users == old(roleService.db.users) &&
        roleService.db.nextUserId == old(roleService.db.nextUserId)
      ensures old(AddUserPlan(me, req, salt)).Success? ==>
        r == Success(()) && roleService.db.nextUserId == old(roleService.db.nextUserId) + 1 &&
        roleService.db.users == old(roleService.db.users)[old(roleService.db.nextUserId) :=
          old(AddUserPlan(me, req, salt)).value.(id := old(roleService.db.nextUserId))]
      ensures roleService.db.roles == old(roleService.db.roles) && roleService.db.nextRoleId == old(roleService.db.nextRoleId)
      ensures old(roleService.db.Valid()) ==> roleService.db.Valid()
      ensures old(UsersHaveRoles(roleService.db.roles, roleService.db.users)) ==>
        UsersHaveRoles(roleService.db.roles, roleService.db.users)
    {
      var db := roleService.db;
      if db.ExistsByUsername(req.username) {
        return Failure(UsernameTaken);
      }
      var path := db.SelectRoleFullPathByRoleId(req.roleId);
      if path.None? {
        return Failure(RoleService.RoleNotFound);
      }
      var notSub := roleService.IsNotSubordinate(me, path.value);
      if notSub != Success(false) {
        return if notSub == Success(true) then Failure(AddForbidden) else Failure(ServerError(NoValuePresent));
      }
      var hashed := Encode(req.password, salt);
      var status := Resolve(Some(req.status));
      if status.None? {
        return Failure(ServerError(NoValuePresent));
      }
      var row := UserRow(0, req.username, req.nickname, hashed, status, req.roleId, req.remark);
      assert AddUserPlan(me, req, salt) == Success(row);
      StoreNewUser(row);
      return Success(());
    }

    /** The insert of `addUser`, for a username not yet taken and an existing role. */
    method StoreNewUser(row: UserRow)
      requires !roleService.db.ExistsByUsername(row.username) && row.roleId in roleService.db.roles
      modifies roleService.db
      ensures roleService.db.nextUserId == old(roleService.db.nextUserId) + 1
      ensures roleService.db.users == old(roleService.db.users)[old(roleService.db.nextUserId) := row.(id := old(roleService.db.nextUserId))]
      ensures roleService.db.roles == old(roleService.db.roles) && roleService.db.nextRoleId == old(roleService.db.nextRoleId)
      ensures old(roleService.db.Valid()) ==> roleService.db.Valid()
      ensures old(UsersHaveRoles(roleService.db.roles, roleService.db.users)) ==>
        UsersHaveRoles(roleService.db.roles, roleService.db.users)
    {
      var db := roleService.db;
      ghost var wasValid := db.Valid();
      var id := db.InsertUser(row);
      if wasValid {
        assert id !in old(db.users);
      }
    }

    // -- updateUser --------------------------------------------------------

    /**
     * The checks of `updateUser`, in their order, and the fields it then writes: the
     * nickname, the status and the remark, and the role only when it changes, to an
     * existing role strictly below the user's.
     */
    function UpdateUserPlan(me: Actor, id: int, req: UpdateUserRequest): (r: Result<UserPatch, ApiError>)
      reads roleService.db
      ensures id !in roleService.db.users ==> r == Failure(UserNotFound)
      ensures (Mappable(id) && roleService.OwnRole(me).Some? && !Manages(me, id)) ==> r == Failure(UpdateForbidden)
      ensures r.Success? ==> Manages(me, id)
      ensures r.Success? <==> (Manages(me, id) && Resolve(Some(req.status)).Some? &&
        (req.roleId == roleService.db.users[id].roleId ||
          (req.roleId in roleService.db.roles && roleService.Subordinate(me, roleService.db.roles[req.roleId].fullPath))))
      ensures r.Success? ==> (r.value.id == id && r.value.nickname == Some(req.nickname) && r.value.hashedPassword.None? &&
        r.value.remark == req.remark && r.value.status.Some? && Code(r.value.status.value) == req.status &&
        r.value.roleId == (if req.roleId == roleService.db.users[id].roleId then None else Some(req.roleId)))
      ensures (Manages(me, id) && Resolve(Some(req.status)).Some? && req.roleId != roleService.db.users[id].roleId &&
        req.roleId !in roleService.db.roles) ==> r == Failure(RoleService.RoleNotFound)
      ensures (Manages(me, id) && Resolve(Some(req.status)).Some? && req.roleId in roleService.db.roles &&
        !roleService.Subordinate(me, roleService.db.roles[req.roleId].fullPath)) ==> r == Failure(NewRoleForbidden)
      ensures (Manages(me, id) && Resolve(Some(req.status)).None?) ==> r == Failure(ServerError(NoValuePresent))
    {
      var db := roleService.db;
      match db.SelectUserById(id)
      case None => Failure(UserNotFound)
      case Some(user) =>
        match RoleIsNotSubordinate(me, user.roleId)
        case Failure(e) => Failure(e)
        case Success(notSub) =>
          if notSub then Failure(UpdateForbidden)
          else
            match Resolve(Some(req.status))
            case None => Failure(ServerError(NoValuePresent))
            case Some(status) =>
              var patch := UserPatch(id, Some(req.nickname), None, Some(status), None, req.remark);
              if user.roleId == req.roleId then Success(patch)
              else
                match db.SelectRoleFullPathByRoleId(req.roleId)
                case None => Failure(RoleService.RoleNotFound)
                case Some(path) =>
                  match roleService.IsNotSubordinate(me, path)
                  case Failure(e) => Failure(e)
                  case Success(newNotSub) =>
                    if newNotSub then Failure(NewRoleForbidden) else Success(patch.(roleId := Some(req.roleId)))
    }

    /** `updateUser`: after the checks, writes the planned fields. */
    method UpdateUser(me: Actor, id: int, req: UpdateUserRequest) returns (r: Result<(), ApiError>)
      modifies roleService.db
      ensures old(UpdateUserPlan(me, id, req)).Failure? ==>
        r == Failure(old(UpdateUserPlan(me, id, req)).error) && roleService.db.users == old(roleService.db.users)
      ensures old(UpdateUserPlan(me, id, req)).Success? ==>
        r == Success(()) &&
        roleService.db.users == old(roleService.db.users)[id := PatchUser(old(roleService.db.users)[id], old(UpdateUserPlan(me, id, req)).value)]
      ensures roleService.db.roles == old(roleService.db.roles)
      ensures roleService.db.nextRoleId == old(roleService.db.nextRoleId) && roleService.db.nextUserId == old(roleService.db.nextUserId)
      ensures old(roleService.db.Valid()) ==> roleService.db.Valid()
      ensures old(UsersHaveRoles(roleService.db.roles, roleService.db.users)) ==>
        UsersHaveRoles(roleService.db.roles, roleService.db.users)
    {
      var db := roleService.db;
      var found := db.SelectUserById(id);
      if found.None? {
        return Failure(UserNotFound);
      }
      var user := found.value;
      var notSub := RoleIsNotSubordinate(me, user.roleId);
      if notSub != Success(false) {
        return if notSub == Success(true) then Failure(UpdateForbidden) else Failure(ServerError(NoValuePresent));
      }
      var status := Resolve(Some(req.status));
      if status.None? {
        return Failure(ServerError(NoValuePresent));
      }
      var patch := UserPatch(id, Some(req.nickname), None, status, None, req.remark);
      if user.roleId != req.roleId {
        patch := patch.(roleId := Some(req.roleId));
        var path := db.SelectRoleFullPathByRoleId(req.roleId);
        if path.None? {
          return Failure(RoleService.RoleNotFound);
        }
        var newNotSub := roleService.IsNotSubordinate(me, path.value);
        if newNotSub != Success(false) {
          return if newNotSub == Success(true) then Failure(NewRoleForbidden) else Failure(ServerError(NoValuePresent));
        }
      }
      assert UpdateUserPlan(me, id, req) == Success(patch);
      StorePatch(patch);
      return Success(());
    }

    /** `userMapper.update` on an existing account, keeping it on an existing role. */
    method StorePatch(p: UserPatch)
      requires p.id in roleService.db.users
      requires p.roleId.Some? ==> p.roleId.value in roleService.db.roles
      modifies roleService.db
      ensures roleService.db.users == old(roleService.db.users)[p.id := PatchUser(old(roleService.db.users)[p.id], p)]
      ensures roleService.db.roles == old(roleService.db.roles)
      ensures roleService.db.nextRoleId == old(roleService.db.nextRoleId) && roleService.db.nextUserId == old(roleService.db.nextUserId)
      ensures old(roleService.db.Valid()) ==> roleService.db.Valid()
      ensures old(UsersHaveRoles(roleService.db.roles, roleService.db.users)) ==>
        UsersHaveRoles(roleService.db.roles, roleService.db.users)
    {
      roleService.db.UpdateUser(p);
    }

    // -- updateSelf --------------------------------------------------------

    /**
     * The fields `updateSelf` writes to the user's own account: always the nickname,
     * and a new digest only when both passwords are given and the old one matches.
     */
    function UpdateSelfPlan(me: Actor, req: UpdateSelfRequest, salt: string): (r: Result<UserPatch, ApiError>)
      reads roleService.db
      ensures me.userId !in roleService.db.users ==> r == Failure(ServerError(NoValuePresent))
      ensures r.Success? ==> (r.value.id == me.userId && r.value.nickname == Some(req.nickname) &&
        r.value.status.None? && r.value.roleId.None? && r.value.remark.None?)
      ensures r == Failure(WrongOldPassword) <==> (me.userId in roleService.db.users &&
        !IsBlankOrNull(req.oldPassword) && !IsBlankOrNull(req.newPassword) &&
        !Matches(req.oldPassword.value, roleService.db.users[me.userId].hashedPassword))
      ensures r.Success? && r.value.hashedPassword.Some? <==> (me.userId in roleService.db.users &&
        !IsBlankOrNull(req.oldPassword) && !IsBlankOrNull(req.newPassword) &&
        Matches(req.oldPassword.value, roleService.db.users[me.userId].hashedPassword))
      ensures r.Success? && r.value.hashedPassword.Some? ==>
        Matches(req.newPassword.value, r.value.hashedPassword.value) && r.value.hashedPassword.value != req.newPassword.value
      ensures r.Success? <==> me.userId in roleService.db.users && r != Failure(WrongOldPassword)
    {
      match roleService.db.SelectUserById(me.userId)
      case None => Failure(ServerError(NoValuePresent))
      case Some(user) =>
        var patch := UserPatch(me.userId, Some(req.nickname), None, None, None, None);
        if !IsBlankOrNull(req.oldPassword) && !IsBlankOrNull(req.newPassword) then
          if !Matches(req.oldPassword.value, user.hashedPassword) then Failure(WrongOldPassword)
          else
            MatchesEncode(req.newPassword.value, salt);
            EncodeIsNotRaw(req.newPassword.value, salt);
            Success(patch.(hashedPassword := Some(Encode(req.newPassword.value, salt))))
        else Success(patch)
    }

    /** `updateSelf`: after the password check, writes the planned fields. */
    method UpdateSelf(me: Actor, req: UpdateSelfRequest, salt: string) returns (r: Result<(), ApiError>)
      modifies roleService.db
      ensures old(UpdateSelfPlan(me, req, salt)).Failure? ==>
        r == Failure(old(UpdateSelfPlan(me, req, salt)).error) && roleService.db.users == old(roleService.db.users)
      ensures old(UpdateSelfPlan(me, req, salt)).Success? ==>
        r == Success(()) &&
        roleService.db.users == old(roleService.db.users)[me.userId :=
          PatchUser(old(roleService.db.users)[me.userId], old(UpdateSelfPlan(me, req, salt)).value)]
      ensures roleService.db.roles == old(roleService.db.roles)
      ensures roleService.db.nextRoleId == old(roleService.db.nextRoleId) && roleService.db.nextUserId == old(roleService.db.nextUserId)
      ensures old(roleService.db.Valid()) ==> roleService.db.Valid()
      ensures old(UsersHaveRoles(roleService.db.roles, roleService.db.users)) ==>
        UsersHaveRoles(roleService.db.roles, roleService.db.users)
    {
      var found := roleService.db.SelectUserById(me.userId);
      if found.None? {
        return Failure(ServerError(NoValuePresent));
      }
      var patch := UserPatch(me.userId, Some(req.nickname), None, None, None, None);
      if !IsBlankOrNull(req.oldPassword) && !IsBlankOrNull(req.newPassword) {
        if !Matches(req.oldPassword.value, found.value.hashedPassword) {
          return Failure(WrongOldPassword);
        }
        patch := patch.(hashedPassword := Some(Encode(req.newPassword.value, salt)));
      }
      assert UpdateSelfPlan(me, req, salt) == Success(patch);
      StorePatch(patch);
      return Success(());
    }

    // -- resetPassword -----------------------------------------------------

    /** `resetPassword`: no old password, only the gate; the new digest of the given password. */
    function ResetPasswordPlan(me: Actor, id: int, password: string, salt: string): (r: Result<UserPatch, ApiError>)
      reads roleService.db
      ensures id !in roleService.db.users ==> r == Failure(UserNotFound)
      ensures (Mappable(id) && roleService.OwnRole(me).Some? && !Manages(me, id)) ==> r == Failure(UpdateForbidden)
      ensures r.Success? <==> Manages(me, id)
      ensures r.Success? ==> (r.value.id == id && r.value.hashedPassword.Some? &&
        Matches(password, r.value.hashedPassword.value) && r.value.hashedPassword.value != password &&
        r.value.nickname.None? && r.value.status.None? && r.value.roleId.None? && r.value.remark.None?)
    {
      match roleService.db.SelectUserById(id)
      case None => Failure(UserNotFound)
      case Some(user) =>
        match RoleIsNotSubordinate(me, user.roleId)
        case Failure(e) => Failure(e)
        case Success(notSub) =>
          if notSub then Failure(UpdateForbidden)
          else
            MatchesEncode(password, salt);
            EncodeIsNotRaw(password, salt);
            Success(UserPatch(id, None, Some(Encode(password, salt)), None, None, None))
    }

    method ResetPassword(me: Actor, id: int, password: string, salt: string) returns (r: Result<(), ApiError>)
      modifies roleService.db
      ensures old(ResetPasswordPlan(me, id, password, salt)).Failure? ==>
        r == Failure(old(ResetPasswordPlan(me, id, password, salt)).error) && roleService.db.users == old(roleService.db.users)
      ensures old(ResetPasswordPlan(me, id, password, salt)).Success? ==>
        r == Success(()) &&
        roleService.db.users == old(roleService.db.users)[id :=
          PatchUser(old(roleService.db.users)[id], old(ResetPasswordPlan(me, id, password, salt)).value)]
      ensures roleService.db.roles == old(roleService.db.roles)
      ensures roleService.db.nextRoleId == old(roleService.db.nextRoleId) && roleService.db.nextUserId == old(roleService.db.nextUserId)
      ensures old(roleService.db.Valid()) ==> roleService.db.Valid()
      ensures old(UsersHaveRoles(roleService.db.roles, roleService.db.users)) ==>
        UsersHaveRoles(roleService.db.roles, roleService.db.users)
    {
      var found := roleService.db.SelectUserById(id);
      if found.None? {
        return Failure(UserNotFound);
      }
      var notSub := RoleIsNotSubordinate(me, found.value.roleId);
      if notSub != Success(false) {
        return if notSub == Success(true) then Failure(UpdateForbidden) else Failure(ServerError(NoValuePresent));
      }
      var patch := UserPatch(id, None, Some(Encode(password, salt)), None, None, None);
      assert ResetPasswordPlan(me, id, password, salt) == Success(patch);
      StorePatch(patch);
      return Success(());
    }

    // -- deleteUser --------------------------------------------------------

    function DeleteUserCheck(me: Actor, id: int): (r: Result<(), ApiError>)
      reads roleService.db
      ensures r.Success? <==> Manages(me, id)
      ensures id !in roleService.db.users ==> r == Failure(UserNotFound)
      ensures (Mappable(id) && roleService.OwnRole(me).Some? && !Manages(me, id)) ==> r == Failure(DeleteForbidden)
    {
      match roleService.db.SelectUserById(id)
      case None => Failure(UserNotFound)
      case Some(user) =>
        match RoleIsNotSubordinate(me, user.roleId)
        case Failure(e) => Failure(e)
        case Success(notSub) => if notSub then Failure(DeleteForbidden) else Success(())
    }

    /** `deleteUser`: after the gate, deletes the row. */
    method DeleteUser(me: Actor, id: int) returns (r: Result<(), ApiError>)
      modifies roleService.db
      ensures r == old(DeleteUserCheck(me, id))
      ensures r.Success? ==> roleService.db.users == old(roleService.db.users) - {id}
      ensures r.Failure? ==> roleService.db.users == old(roleService.db.users)
      ensures roleService.db.roles == old(roleService.db.roles)
      ensures roleService.db.nextRoleId == old(roleService.db.nextRoleId) && roleService.db.nextUserId == old(roleService.db.nextUserId)
      ensures old(roleService.db.Valid()) ==> roleService.db.Valid()
      ensures old(UsersHaveRoles(roleService.db.roles, roleService.db.users)) ==>
        UsersHaveRoles(roleService.db.roles, roleService.db.users)
    {
      var found := roleService.db.SelectUserById(id);
      if found.None? {
        return Failure(UserNotFound);
      }
      var notSub := RoleIsNotSubordinate(me, found.value.roleId);
      if notSub != Success(false) {
        return if notSub == Success(true) then Failure(DeleteForbidden) else Failure(ServerError(NoValuePresent));
      }
      roleService.db.DeleteUserById(id);
      return Success(());
    }

    // -- The gate ----------------------------------------------------------

    /**
     * Every operation on an existing account behind a role outside the user's reach
     * fails with its own FORBIDDEN, and the list leaves that account out.
     */
    lemma UnmanagedIsForbidden(me: Actor, id: int, req: UpdateUserRequest, password: string, salt: string)
      requires roleService.db.Valid() && Mappable(id) && roleService.OwnRole(me).Some? && !Manages(me, id)
      ensures GetUserDetail(me, id) == Failure(ViewForbidden)
      ensures UpdateUserPlan(me, id, req) == Failure(UpdateForbidden)
      ensures ResetPasswordPlan(me, id, password, salt) == Failure(UpdateForbidden)
      ensures DeleteUserCheck(me, id) == Failure(DeleteForbidden)
      ensures ItemOf(roleService.db.users[id]) !in GetUsers(me).value
    {
    }

    /** A user never manages their own account: none of the gated operations reach it. */
    lemma OwnAccountOutOfReach(me: Actor, req: UpdateUserRequest, password: string, salt: string)
      requires roleService.db.Valid() && roleService.OwnRole(me).Some?
      ensures !Manages(me, me.userId)
      ensures GetUserDetail(me, me.userId) == Failure(ViewForbidden)
      ensures UpdateUserPlan(me, me.userId, req) == Failure(UpdateForbidden)
      ensures ResetPasswordPlan(me, me.userId, password, salt) == Failure(UpdateForbidden)
      ensures DeleteUserCheck(me, me.userId) == Failure(DeleteForbidden)
    {
      BelowIrreflexive(roleService.OwnRole(me).value.fullPath);
      UnmanagedIsForbidden(me, me.userId, req, password, salt);
    }

    /** After `updateSelf` changes the password, the new one signs in and no other does. */
    lemma NewPasswordTakesOver(me: Actor, req: UpdateSelfRequest, salt: string, attempt: string)
      requires UpdateSelfPlan(me, req, salt).Success? && UpdateSelfPlan(me, req, salt).value.hashedPassword.Some?
      ensures Matches(attempt, UpdateSelfPlan(me, req, salt).value.hashedPassword.value) <==> attempt == req.newPassword.value
    {
      var hashed := UpdateSelfPlan(me, req, salt).value.hashedPassword.value;
      assert hashed == Encode(req.newPassword.value, salt);
      if Matches(attempt, hashed) {
        MatchesOnlyOwn(req.newPassword.value, attempt, salt);
      }
    }
  }
}
