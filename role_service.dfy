/**
 * `RoleService`: the role endpoints. A user sees and changes only the roles strictly
 * below their own role (whose full path extends their own role's path and a dot), can
 * only hand out authorities they hold, and every check runs before the table changes,
 * except in `updateRole`, whose transaction undoes the rename when a later check fails.
 */
module RoleService {
  import opened Wrappers
  import opened Strs
  import opened Decimal
  import opened RestApi
  import opened Mappers
  import opened RoleDto
  import opened RoleSanitize
  import opened RoleTree

  /** The signed-in user as the security context holds it: user id and authority codes. */
  datatype Actor = Actor(userId: int, authorities: seq<string>)

  datatype AddRoleRequest = AddRoleRequest(
    name: string, authorities: Option<seq<string>>, parentId: Option<int>, remark: Option<string>)

  datatype UpdateRoleRequest = UpdateRoleRequest(
    name: string, authorities: Option<seq<string>>, parentId: int, remark: Option<string>)

  /** `RoleItemResponse`, one entry of the role list (its `updatedAt` is left out). */
  datatype RoleItem = RoleItem(id: int, name: string, parentId: Option<int>, parentName: Option<string>)

  /** What `addRole` goes on to store once its checks have passed. */
  datatype AddPlan = AddPlan(parent: RoleRow, authorities: Option<string>)

  const NameTaken := ApiException(Conflict, "已存在相同角色名")
  const RoleNotFound := ApiException(NotFound, "未找到角色数据")
  const ParentNotFound := ApiException(NotFound, "未找到父角色数据")
  const ViewForbidden := ApiException(Forbidden, "只允许查看下级角色")
  const AddForbidden := ApiException(Forbidden, "只允许创建下级角色")
  const UpdateForbidden := ApiException(Forbidden, "只允许更新下级角色")
  const SelfAsParent := ApiException(BadRequest, "不能将自己作为自己的上级")
  const ParentForbidden := ApiException(Forbidden, "父角色不是当前用户的下级角色")
  const SubordinateAsParent := ApiException(BadRequest, "下级角色不能作为父角色")
  const DeleteForbidden := ApiException(Forbidden, "只允许删除下级角色")
  const HasSubordinates := ApiException(Forbidden, "不可删除还存在下级的角色")
  const HasUsers := ApiException(Forbidden, "不可删除已关联用户的角色")

  function ItemOf(r: RoleRow): RoleItem {
    RoleItem(r.id, r.name, r.parentId, r.parentName)
  }

  /** The request gives the role another name. */
  predicate Renamed(current: RoleRow, req: UpdateRoleRequest) {
    current.name != req.name
  }

  /** The patch `updateRole` starts from: the remark, and the name if it changes. */
  function BasePatch(id: int, current: RoleRow, req: UpdateRoleRequest): RolePatch {
    RolePatch(id, if Renamed(current, req) then Some(req.name) else None, None, None, None, None, req.remark)
  }

  /** `CollUtil.isEqualList`: element by element; a missing list equals no list. */
  predicate SameList(stored: seq<string>, req: Option<seq<string>>) {
    req.Some? && req.value == stored
  }

  class RoleService {
    const db: Database

    constructor (db: Database)
      ensures this.db == db
    {
      this.db := db;
    }

    /** The signed-in user's role row, if the user and the role exist. */
    function OwnRole(me: Actor): (r: Option<RoleRow>)
      reads db
      ensures r.Some? <==> me.userId in db.users && db.users[me.userId].roleId in db.roles
      ensures r.Some? ==> r.value == db.roles[db.users[me.userId].roleId]
    {
      db.SelectRoleByUserId(me.userId)
    }

    /** The path lies strictly below the signed-in user's role. */
    predicate Subordinate(me: Actor, path: string)
      reads db
    {
      OwnRole(me).Some? && Below(path, OwnRole(me).value.fullPath)
    }

    /**
     * `getCurrentUserRoleFullPathPrefix`: the user's role path and a dot; `orElseThrow`
     * fails when the user or the role is gone.
     */
    function CurrentPrefix(me: Actor): (r: Result<string, ApiError>)
      reads db
      ensures r.Success? <==> OwnRole(me).Some?
      ensures r.Success? ==> r.value == OwnRole(me).value.fullPath + "."
      ensures r.Failure? ==> r.error == ServerError(NoValuePresent)
    {
      match db.SelectRoleFullPathById(me.userId)
      case None => Failure(ServerError(NoValuePresent))
      case Some(path) => Success(path + ".")
    }

    /** `isNotSubordinateRole`: false exactly for the paths strictly below the user's role. */
    function IsNotSubordinate(me: Actor, path: string): (r: Result<bool, ApiError>)
      reads db
      ensures r.Success? <==> OwnRole(me).Some?
      ensures r == Success(false) <==> Subordinate(me, path)
      ensures r.Failure? ==> r.error == ServerError(NoValuePresent)
    {
      match CurrentPrefix(me)
      case Failure(e) => Failure(e)
      case Success(prefix) => Success(!StartsWith(path, prefix))
    }

    /** `getRoles`: the roles strictly below the user's role (the `updatedAt` order is left out). */
    function GetRoles(me: Actor): (r: Result<set<RoleItem>, ApiError>)
      reads db
      ensures r.Success? <==> OwnRole(me).Some?
      ensures r.Failure? ==> r.error == ServerError(NoValuePresent)
      ensures r.Success? ==> forall item ::
        item in r.value <==> exists k | k in db.roles :: Subordinate(me, db.roles[k].fullPath) && item == ItemOf(db.roles[k])
    {
      match CurrentPrefix(me)
      case Failure(e) => Failure(e)
      case Success(prefix) =>
        Success(set k | k in db.roles && StartsWith(db.roles[k].fullPath, prefix) :: ItemOf(db.roles[k]))
    }

    /** `getRoleDetail`: the role with that id, if it lies strictly below the user's role. */
    function GetRoleDetail(me: Actor, id: int): (r: Result<RoleBaseInfo, ApiError>)
      reads db
      ensures r.Success? <==> id in db.roles && Subordinate(me, db.roles[id].fullPath)
      ensures r.Success? ==> r.value == FromRow(db.roles[id])
      ensures id !in db.roles ==> r == Failure(RoleNotFound)
      ensures id in db.roles && OwnRole(me).Some? && !Subordinate(me, db.roles[id].fullPath) ==> r == Failure(ViewForbidden)
    {
      match db.SelectRoleById(id)
      case None => Failure(RoleNotFound)
      case Some(role) =>
        match IsNotSubordinate(me, role.fullPath)
        case Failure(e) => Failure(e)
        case Success(notSub) => if notSub then Failure(ViewForbidden) else Success(FromRow(role))
    }

    // -- addRole ---------------------------------------------------------

    /** The parent `addRole` hangs the new role under: the given one, or the user's own role. */
    function AddParent(me: Actor, parentId: Option<int>): (r: Result<RoleRow, ApiError>)
      reads db
      ensures r.Success? && parentId.None? ==> OwnRole(me) == Some(r.value)
      ensures r.Success? && parentId.Some? ==>
        parentId.value in db.roles && r.value == db.roles[parentId.value] && Subordinate(me, r.value.fullPath)
      ensures parentId.Some? && parentId.value !in db.roles ==> r == Failure(ParentNotFound)
      ensures (parentId.Some? && parentId.value in db.roles && OwnRole(me).Some? &&
        !Subordinate(me, db.roles[parentId.value].fullPath)) ==> r == Failure(AddForbidden)
      ensures parentId.None? && OwnRole(me).None? ==> r == Failure(ServerError(NoValuePresent))
    {
      match parentId
      case None =>
        (match db.SelectRoleByUserId(me.userId)
         case None => Failure(ServerError(NoValuePresent))
         case Some(own) => Success(own))
      case Some(pid) =>
        match db.SelectRoleById(pid)
        case None => Failure(ParentNotFound)
        case Some(parent) =>
          match IsNotSubordinate(me, parent.fullPath)
          case Failure(e) => Failure(e)
          case Success(notSub) => if notSub then Failure(AddForbidden) else Success(parent)
    }

    /** The checks of `addRole` in their order: a taken name, the parent, the authorities. */
    function AddRolePlan(me: Actor, req: AddRoleRequest): (r: Result<AddPlan, ApiError>)
      reads db
      ensures db.ExistsRoleByName(req.name) ==> r == Failure(NameTaken)
      ensures r.Success? <==> (!db.ExistsRoleByName(req.name) && AddParent(me, req.parentId).Success? &&
        Sanitize(me.authorities, req.authorities).Success?)
      ensures r.Success? ==> r.value == AddPlan(AddParent(me, req.parentId).value, Sanitize(me.authorities, req.authorities).value)
      ensures !db.ExistsRoleByName(req.name) && AddParent(me, req.parentId).Failure? ==>
        r == Failure(AddParent(me, req.parentId).error)
      ensures (!db.ExistsRoleByName(req.name) && AddParent(me, req.parentId).Success? &&
        Sanitize(me.authorities, req.authorities).Failure?) ==> r == Failure(Sanitize(me.authorities, req.authorities).error)
    {
      if db.ExistsRoleByName(req.name) then Failure(NameTaken)
      else
        match AddParent(me, req.parentId)
        case Failure(e) => Failure(e)
        case Success(parent) =>
          match Sanitize(me.authorities, req.authorities)
          case Failure(e) => Failure(e)
          case Success(authorities) => Success(AddPlan(parent, authorities))
    }

    /**
     * `addRole`: after the checks, inserts the row with its parent's path and a dot, then
     * completes the path with the generated id.
     */
    method AddRole(me: Actor, req: AddRoleRequest) returns (r: Result<(), ApiError>)
      modifies db
      ensures old(AddRolePlan(me, req)).Failure? ==>
        r == Failure(old(AddRolePlan(me, req)).error) && db.roles == old(db.roles) && db.nextRoleId == old(db.nextRoleId)
      ensures old(AddRolePlan(me, req)).Success? ==>
        r == Success(()) && db.nextRoleId == old(db.nextRoleId) + 1 &&
        db.roles == old(db.roles)[old(db.nextRoleId) := NewRole(old(db.nextRoleId), req.name,
          old(AddRolePlan(me, req)).value.authorities, old(AddRolePlan(me, req)).value.parent, req.remark)]
      ensures db.users == old(db.users) && db.nextUserId == old(db.nextUserId)
      ensures old(db.Valid()) ==> db.Valid()
      ensures old(db.Valid() && Consistent(db.roles)) ==> Consistent(db.roles)
    {
      if db.ExistsRoleByName(req.name) {
        return Failure(NameTaken);
      }
      var parent: RoleRow;
      if req.parentId.None? {
        var own := db.SelectRoleByUserId(me.userId);
        if own.None? {
          return Failure(ServerError(NoValuePresent));
        }
        parent := own.value;
      } else {
        var found := db.SelectRoleById(req.parentId.value);
        if found.None? {
          return Failure(ParentNotFound);
        }
        parent := found.value;
        var notSub := IsNotSubordinate(me, parent.fullPath);
        if notSub.Failure? {
          return Failure(notSub.error);
        }
        if notSub.value {
          return Failure(AddForbidden);
        }
      }
      var authorities := Sanitize(me.authorities, req.authorities);
      if authorities.Failure? {
        return Failure(authorities.error);
      }
      assert AddParent(me, req.parentId) == Success(parent);
      assert old(AddRolePlan(me, req)) == Success(AddPlan(parent, authorities.value));
      StoreNewRole(req.name, authorities.value, parent, req.remark);
      return Success(());
    }

    /**
     * The writes of `addRole`: the row goes in with the parent's path and a dot, and the
     * update completes the path with the generated id.
     */
    method StoreNewRole(name: string, authorities: Option<string>, parent: RoleRow, remark: Option<string>)
      modifies db
      ensures db.nextRoleId == old(db.nextRoleId) + 1
      ensures db.roles == old(db.roles)[old(db.nextRoleId) := NewRole(old(db.nextRoleId), name, authorities, parent, remark)]
      ensures db.users == old(db.users) && db.nextUserId == old(db.nextUserId)
      ensures old(db.Valid()) ==> db.Valid()
      ensures old(db.Valid() && Consistent(db.roles)) && parent.id in old(db.roles) && old(db.roles)[parent.id] == parent ==>
        Consistent(db.roles)
    {
      ghost var before := db.roles;
      var row := RoleRow(0, name, authorities, Some(parent.id), Some(parent.name), parent.fullPath + ".", remark);
      var id := db.InsertRole(row);
      db.UpdateRole(RolePatch(id, Some(row.name), row.authorities, row.parentId, row.parentName,
        Some(row.fullPath + IntToString(id)), row.remark));
      assert db.roles == before[id := NewRole(id, name, authorities, parent, remark)];
      if old(db.Valid() && Consistent(db.roles)) && parent.id in before && before[parent.id] == parent {
        AddKeepsConsistent(before, id, name, authorities, parent, remark);
      }
    }

    /** A role `addRole` creates lies strictly below the user's role, so the user can see and change it. */
    lemma AddedRoleIsSubordinate(me: Actor, req: AddRoleRequest, id: int)
      requires AddRolePlan(me, req).Success?
      ensures Subordinate(me, NewRole(id, req.name, AddRolePlan(me, req).value.authorities,
        AddRolePlan(me, req).value.parent, req.remark).fullPath)
    {
      var parent := AddRolePlan(me, req).value.parent;
      BelowExtend(parent.fullPath, IntToString(id));
      if req.parentId.Some? {
        BelowTrans(parent.fullPath + "." + IntToString(id), parent.fullPath, OwnRole(me).value.fullPath);
      }
    }

    // -- updateRole ------------------------------------------------------

    /**
     * The parent checks of `updateRole`, run only when the parent changes: not the role
     * itself, an existing role strictly below the user's, and not below the role itself.
     * The patch then carries the parent's name and the path below it.
     */
    function MovePlan(me: Actor, id: int, current: RoleRow, parentId: int, p: RolePatch): (r: Result<RolePatch, ApiError>)
      reads db
      ensures current.parentId == Some(parentId) ==> r == Success(p)
      ensures r.Success? && current.parentId != Some(parentId) ==>
        parentId != id && parentId in db.roles && Subordinate(me, db.roles[parentId].fullPath) &&
        !Below(db.roles[parentId].fullPath, current.fullPath) &&
        r.value == p.(parentId := Some(parentId), parentName := Some(db.roles[parentId].name),
          fullPath := Some(db.roles[parentId].fullPath + "." + IntToString(id)))
      ensures current.parentId != Some(parentId) && parentId == id ==> r == Failure(SelfAsParent)
      ensures current.parentId != Some(parentId) && parentId != id && parentId !in db.roles ==> r == Failure(ParentNotFound)
      ensures (current.parentId != Some(parentId) && parentId != id && parentId in db.roles &&
        Subordinate(me, db.roles[parentId].fullPath) && Below(db.roles[parentId].fullPath, current.fullPath)) ==>
        r == Failure(SubordinateAsParent)
      ensures (current.parentId != Some(parentId) && parentId != id && parentId in db.roles &&
        OwnRole(me).Some? && !Subordinate(me, db.roles[parentId].fullPath)) ==> r == Failure(ParentForbidden)
      ensures (current.parentId != Some(parentId) && parentId != id && parentId in db.roles &&
        OwnRole(me).None?) ==> r == Failure(ServerError(NoValuePresent))
      ensures (current.parentId != Some(parentId) && parentId != id && parentId in db.roles &&
        Subordinate(me, db.roles[parentId].fullPath) && !Below(db.roles[parentId].fullPath, current.fullPath)) ==>
        r == Success(p.(parentId := Some(parentId), parentName := Some(db.roles[parentId].name),
          fullPath := Some(db.roles[parentId].fullPath + "." + IntToString(id))))
    {
      if current.parentId == Some(parentId) then Success(p)
      else if parentId == id then Failure(SelfAsParent)
      else
        match db.SelectRoleById(parentId)
        case None => Failure(ParentNotFound)
        case Some(parent) =>
          match IsNotSubordinate(me, parent.fullPath)
          case Failure(e) => Failure(e)
          case Success(notSub) =>
            if notSub then Failure(ParentForbidden)
            else if StartsWith(parent.fullPath, current.fullPath + ".") then Failure(SubordinateAsParent)
            else Success(p.(parentId := Some(parentId), parentName := Some(parent.name),
              fullPath := Some(parent.fullPath + "." + IntToString(id))))
    }

    /**
     * The checks of `updateRole` before the parent checks pass: the role exists, lies
     * strictly below the user's role, and a new name is not taken.
     */
    predicate UpdateChecksPass(me: Actor, id: int, req: UpdateRoleRequest)
      reads db
    {
      id in db.roles && Subordinate(me, db.roles[id].fullPath) &&
      !(Renamed(db.roles[id], req) && db.ExistsRoleByName(req.name))
    }

    /**
     * The checks of `updateRole` in their order, all on the table as it was before the
     * call, and the patch written at the end: the remark, the name if it changes, the
     * parent if it changes, and the sanitised authorities if the list differs.
     */
    function UpdateRolePlan(me: Actor, id: int, req: UpdateRoleRequest): (r: Result<RolePatch, ApiError>)
      reads db
      ensures r.Success? ==> id in db.roles && Subordinate(me, db.roles[id].fullPath) && r.value.id == id
      ensures r.Success? ==> r.value.remark == req.remark
      ensures r.Success? ==> (r.value.name.Some? <==> req.name != db.roles[id].name)
      ensures r.Success? && r.value.name.Some? ==> r.value.name == Some(req.name) && !db.ExistsRoleByName(req.name)
      ensures r.Success? ==> (r.value.parentId.Some? <==> db.roles[id].parentId != Some(req.parentId))
      ensures r.Success? ==> (r.value.authorities.Some? ==> !SameList(FromRow(db.roles[id]).authorities, req.authorities))
      ensures r.Success? && !SameList(FromRow(db.roles[id]).authorities, req.authorities) ==>
        Sanitize(me.authorities, req.authorities) == Success(r.value.authorities)
      ensures id !in db.roles ==> r == Failure(RoleNotFound)
      ensures id in db.roles && OwnRole(me).Some? && !Subordinate(me, db.roles[id].fullPath) ==> r == Failure(UpdateForbidden)
      ensures id in db.roles && OwnRole(me).None? ==> r == Failure(ServerError(NoValuePresent))
      ensures (id in db.roles && Subordinate(me, db.roles[id].fullPath) && Renamed(db.roles[id], req) &&
        db.ExistsRoleByName(req.name)) ==> r == Failure(NameTaken)
      ensures UpdateChecksPass(me, id, req) && MovePlan(me, id, db.roles[id], req.parentId, BasePatch(id, db.roles[id], req)).Failure? ==>
        r == Failure(MovePlan(me, id, db.roles[id], req.parentId, BasePatch(id, db.roles[id], req)).error)
      ensures (UpdateChecksPass(me, id, req) && MovePlan(me, id, db.roles[id], req.parentId, BasePatch(id, db.roles[id], req)).Success? &&
        !SameList(FromRow(db.roles[id]).authorities, req.authorities) && Sanitize(me.authorities, req.authorities).Failure?) ==>
        r == Failure(Sanitize(me.authorities, req.authorities).error)
      ensures r.Success? <==> (UpdateChecksPass(me, id, req) &&
        MovePlan(me, id, db.roles[id], req.parentId, BasePatch(id, db.roles[id], req)).Success? &&
        (SameList(FromRow(db.roles[id]).authorities, req.authorities) || Sanitize(me.authorities, req.authorities).Success?))
    {
      match db.SelectRoleById(id)
      case None => Failure(RoleNotFound)
      case Some(current) =>
        match IsNotSubordinate(me, current.fullPath)
        case Failure(e) => Failure(e)
        case Success(notSub) =>
          if notSub then Failure(UpdateForbidden)
          else
            if Renamed(current, req) && db.ExistsRoleByName(req.name) then Failure(NameTaken)
            else
              match MovePlan(me, id, current, req.parentId, BasePatch(id, current, req))
              case Failure(e) => Failure(e)
              case Success(p) =>
                if SameList(FromRow(current).authorities, req.authorities) then Success(p)
                else
                  match Sanitize(me.authorities, req.authorities)
                  case Failure(e) => Failure(e)
                  case Success(authorities) => Success(p.(authorities := authorities))
    }

    /** Renaming children leaves names and paths, and so the user's prefix, as they were. */
    lemma RenameKeepsPaths(before: map<int, RoleRow>, name: string, id: int)
      requires db.roles == RenameChildren(before, name, id)
      ensures forall k | k in before :: db.roles[k].name == before[k].name && db.roles[k].fullPath == before[k].fullPath
    {
    }

    /**
     * `updateRole`: the checks of `UpdateRolePlan`, with the rename of the children written
     * as soon as the new name is found free, the move of the subtree once the parent
     * checks pass, and the patch last; a failure after the rename rolls the table back.
     */
    method UpdateRole(me: Actor, id: int, req: UpdateRoleRequest) returns (r: Result<(), ApiError>)
      modifies db
      ensures var plan := old(UpdateRolePlan(me, id, req));
        match plan
        case Failure(e) => r == Failure(e) && db.roles == old(db.roles)
        case Success(p) => r == Success(()) && db.roles == UpdatedRoles(old(db.roles), id, p)
      ensures db.users == old(db.users) && db.nextRoleId == old(db.nextRoleId) && db.nextUserId == old(db.nextUserId)
      ensures old(Consistent(db.roles)) ==> Consistent(db.roles)
    {
      ghost var plan := UpdateRolePlan(me, id, req);
      ghost var before := db.roles;
      UpdatePlanAdmissible(me, id, req);
      var savedRoles, savedUsers := db.roles, db.users;
      var found := db.SelectRoleById(id);
      if found.None? {
        return Failure(RoleNotFound);
      }
      var current := found.value;
      var notSub := IsNotSubordinate(me, current.fullPath);
      if notSub.Failure? {
        return Failure(notSub.error);
      }
      if notSub.value {
        return Failure(UpdateForbidden);
      }
      var patch := RolePatch(id, None, None, None, None, None, req.remark);
      if current.name != req.name {
        patch := patch.(name := Some(req.name));
        if db.ExistsRoleByName(req.name) {
          return Failure(NameTaken);
        }
        db.UpdateParentNameByParentId(req.name, id);
        RenameKeepsPaths(before, req.name, id);
      }
      ghost var renamed := db.roles;
      assert CurrentPrefix(me) == old(CurrentPrefix(me));
      if current.parentId != Some(req.parentId) {
        patch := patch.(parentId := Some(req.parentId));
        if req.parentId == id {
          db.Rollback(savedRoles, savedUsers);
          return Failure(SelfAsParent);
        }
        var parentFound := db.SelectRoleById(req.parentId);
        if parentFound.None? {
          db.Rollback(savedRoles, savedUsers);
          return Failure(ParentNotFound);
        }
        var parent := parentFound.value;
        patch := patch.(parentName := Some(parent.name));
        var parentNotSub := IsNotSubordinate(me, parent.fullPath);
        if parentNotSub != Success(false) {
          // the user's role was found above and the rename changes no path, so this is the 403
          db.Rollback(savedRoles, savedUsers);
          return if parentNotSub == Success(true) then Failure(ParentForbidden) else Failure(ServerError(NoValuePresent));
        }
        var oldPrefix := current.fullPath + ".";
        if StartsWith(parent.fullPath, oldPrefix) {
          db.Rollback(savedRoles, savedUsers);
          return Failure(SubordinateAsParent);
        }
        patch := patch.(fullPath := Some(parent.fullPath + "." + IntToString(id)));
        db.UpdateFullPathByFullPathLike(patch.fullPath.value + ".", oldPrefix);
      }
      if !SameList(FromRow(current).authorities, req.authorities) {
        var authorities := Sanitize(me.authorities, req.authorities);
        if authorities.Failure? {
          db.Rollback(savedRoles, savedUsers);
          return Failure(authorities.error);
        }
        patch := patch.(authorities := authorities.value);
      }
      assert plan == Success(patch);
      db.UpdateRole(patch);
      if old(Consistent(db.roles)) {
        UpdateKeepsConsistent(before, id, patch);
      }
      return Success(());
    }

    /** A patch `updateRole` accepts is one the role tree absorbs. */
    lemma UpdatePlanAdmissible(me: Actor, id: int, req: UpdateRoleRequest)
      ensures UpdateRolePlan(me, id, req).Success? ==> Admissible(db.roles, id, UpdateRolePlan(me, id, req).value)
    {
    }

    /** An updated role stays strictly below the user's role: a move only goes to another subordinate. */
    lemma UpdatedRoleStaysSubordinate(me: Actor, id: int, req: UpdateRoleRequest)
      requires UpdateRolePlan(me, id, req).Success?
      ensures Subordinate(me, Or(UpdateRolePlan(me, id, req).value.fullPath, db.roles[id].fullPath))
    {
      var p := UpdateRolePlan(me, id, req).value;
      if p.fullPath.Some? {
        var q := req.parentId;
        BelowExtend(db.roles[q].fullPath, IntToString(id));
        BelowTrans(p.fullPath.value, db.roles[q].fullPath, OwnRole(me).value.fullPath);
      }
    }

    // -- deleteRole ------------------------------------------------------

    /** The checks of `deleteRole` in their order. */
    function DeleteRoleCheck(me: Actor, id: int): (r: Result<(), ApiError>)
      reads db
      ensures r.Success? <==> (id in db.roles && Subordinate(me, db.roles[id].fullPath) &&
        !db.ExistsRoleByFullPathPrefix(db.roles[id].fullPath + ".") && !db.ExistsUserByRoleId(id))
      ensures id !in db.roles ==> r == Failure(RoleNotFound)
      ensures id in db.roles && OwnRole(me).Some? && !Subordinate(me, db.roles[id].fullPath) ==> r == Failure(DeleteForbidden)
      ensures (id in db.roles && Subordinate(me, db.roles[id].fullPath) &&
        db.ExistsRoleByFullPathPrefix(db.roles[id].fullPath + ".")) ==> r == Failure(HasSubordinates)
      ensures (id in db.roles && Subordinate(me, db.roles[id].fullPath) &&
        !db.ExistsRoleByFullPathPrefix(db.roles[id].fullPath + ".") && db.ExistsUserByRoleId(id)) ==> r == Failure(HasUsers)
    {
      match db.SelectRoleById(id)
      case None => Failure(RoleNotFound)
      case Some(role) =>
        match IsNotSubordinate(me, role.fullPath)
        case Failure(e) => Failure(e)
        case Success(notSub) =>
          if notSub then Failure(DeleteForbidden)
          else if db.ExistsRoleByFullPathPrefix(role.fullPath + ".") then Failure(HasSubordinates)
          else if db.ExistsUserByRoleId(id) then Failure(HasUsers)
          else Success(())
    }

    /** `deleteRole`: after the checks, deletes the row. */
    method DeleteRole(me: Actor, id: int) returns (r: Result<(), ApiError>)
      modifies db
      ensures r == old(DeleteRoleCheck(me, id))
      ensures r.Success? ==> db.roles == old(db.roles) - {id}
      ensures r.Failure? ==> db.roles == old(db.roles)
      ensures db.users == old(db.users) && db.nextRoleId == old(db.nextRoleId) && db.nextUserId == old(db.nextUserId)
      ensures old(Consistent(db.roles)) ==> Consistent(db.roles)
      ensures old(UsersHaveRoles(db.roles, db.users)) ==> UsersHaveRoles(db.roles, db.users)
    {
      var found := db.SelectRoleById(id);
      if found.None? {
        return Failure(RoleNotFound);
      }
      var role := found.value;
      var notSub := IsNotSubordinate(me, role.fullPath);
      if notSub.Failure? {
        return Failure(notSub.error);
      }
      if notSub.value {
        return Failure(DeleteForbidden);
      }
      if db.ExistsRoleByFullPathPrefix(role.fullPath + ".") {
        return Failure(HasSubordinates);
      }
      if db.ExistsUserByRoleId(id) {
        return Failure(HasUsers);
      }
      ghost var before := db.roles;
      if Consistent(db.roles) {
        DeleteKeepsConsistent(before, id);
      }
      db.DeleteRoleById(id);
      return Success(());
    }

    // -- Visibility ------------------------------------------------------

    /** The user's own role is out of reach of every role endpoint. */
    lemma OwnRoleOutOfReach(me: Actor, req: UpdateRoleRequest)
      requires OwnRole(me).Some?
      ensures var own := db.users[me.userId].roleId;
        GetRoleDetail(me, own) == Failure(ViewForbidden) &&
        UpdateRolePlan(me, own, req) == Failure(UpdateForbidden) &&
        DeleteRoleCheck(me, own) == Failure(DeleteForbidden)
    {
      BelowIrreflexive(OwnRole(me).value.fullPath);
    }

    /** The role list shows exactly the roles whose detail the user may read. */
    lemma ListedIffReadable(me: Actor, k: int)
      requires db.Valid() && OwnRole(me).Some?
      ensures (exists item :: item in GetRoles(me).value && item.id == k) <==> GetRoleDetail(me, k).Success?
    {
      if GetRoleDetail(me, k).Success? {
        assert ItemOf(db.roles[k]) in GetRoles(me).value;
      }
    }
  }
}
