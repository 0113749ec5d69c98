/**
 * The role and user tables behind `RoleMapper`, `UserMapper` and `AuthMapper`. The SQL
 * is not part of this model, so each statement does what its name says: `selectBaseById`
 * reads the row with that id, `update` writes the fields a partial row carries,
 * `updateFullPathByFullPathLike(new, old)` replaces the prefix `old` by `new` on every
 * path that starts with `old`, and so on. Timestamps are left out.
 */
module Mappers {
  import opened Wrappers
  import opened Strs
  import opened AccountStatus

  /** A row of the role table (`Role`). */
  datatype RoleRow = RoleRow(
    id: int, name: string, authorities: Option<string>, parentId: Option<int>,
    parentName: Option<string>, fullPath: string, remark: Option<string>)

  /** A row of the user table (`User`). */
  datatype UserRow = UserRow(
    id: int, username: string, nickname: string, hashedPassword: string,
    status: Option<AccountStatus>, roleId: int, remark: Option<string>)

  /** The `Role` object handed to `update`: absent fields are not written. */
  datatype RolePatch = RolePatch(
    id: int, name: Option<string>, authorities: Option<string>, parentId: Option<int>,
    parentName: Option<string>, fullPath: Option<string>, remark: Option<string>)

  /** The `User` object handed to `update`: absent fields are not written. */
  datatype UserPatch = UserPatch(
    id: int, nickname: Option<string>, hashedPassword: Option<string>,
    status: Option<AccountStatus>, roleId: Option<int>, remark: Option<string>)

  /** What `AuthMapper.selectByUsername` reads: a user joined with its role's authorities. */
  datatype AuthRow = AuthRow(
    userId: int, username: string, hashedPassword: string, nickname: string,
    status: Option<AccountStatus>, authorities: Option<string>)

  function Or<T>(o: Option<T>, d: T): T {
    if o.Some? then o.value else d
  }

  function OrElse<T>(o: Option<T>, d: Option<T>): Option<T> {
    if o.Some? then o else d
  }

  function PatchRole(r: RoleRow, p: RolePatch): (q: RoleRow)
    ensures q.id == r.id
    ensures p.name.Some? ==> q.name == p.name.value
    ensures p.name.None? ==> q.name == r.name
    ensures p.authorities.Some? ==> q.authorities == p.authorities
    ensures p.authorities.None? ==> q.authorities == r.authorities
    ensures p.parentId.Some? ==> q.parentId == p.parentId
    ensures p.parentId.None? ==> q.parentId == r.parentId
    ensures p.parentName.Some? ==> q.parentName == p.parentName
    ensures p.parentName.None? ==> q.parentName == r.parentName
    ensures p.fullPath.Some? ==> q.fullPath == p.fullPath.value
    ensures p.fullPath.None? ==> q.fullPath == r.fullPath
    ensures p.remark.Some? ==> q.remark == p.remark
    ensures p.remark.None? ==> q.remark == r.remark
    ensures p == RolePatch(r.id, None, None, None, None, None, None) ==> q == r
  {
    RoleRow(r.id, Or(p.name, r.name), OrElse(p.authorities, r.authorities), OrElse(p.parentId, r.parentId),
      OrElse(p.parentName, r.parentName), Or(p.fullPath, r.fullPath), OrElse(p.remark, r.remark))
  }

  function PatchUser(u: UserRow, p: UserPatch): (q: UserRow)
    ensures q.id == u.id && q.username == u.username
    ensures p.nickname.Some? ==> q.nickname == p.nickname.value
    ensures p.nickname.None? ==> q.nickname == u.nickname
    ensures p.hashedPassword.Some? ==> q.hashedPassword == p.hashedPassword.value
    ensures p.hashedPassword.None? ==> q.hashedPassword == u.hashedPassword
    ensures p.status.Some? ==> q.status == p.status
    ensures p.status.None? ==> q.status == u.status
    ensures p.roleId.Some? ==> q.roleId == p.roleId.value
    ensures p.roleId.None? ==> q.roleId == u.roleId
    ensures p.remark.Some? ==> q.remark == p.remark
    ensures p.remark.None? ==> q.remark == u.remark
    ensures p == UserPatch(u.id, None, None, None, None, None) ==> q == u
  {
    UserRow(u.id, u.username, Or(p.nickname, u.nickname), Or(p.hashedPassword, u.hashedPassword),
      OrElse(p.status, u.status), Or(p.roleId, u.roleId), OrElse(p.remark, u.remark))
  }

  /**
   * `updateFullPathByFullPathLike(newPrefix, oldPrefix)`: every path starting with
   * `oldPrefix` gets that prefix replaced by `newPrefix`; other rows are untouched.
   */
  function RewriteFullPaths(roles: map<int, RoleRow>, newPrefix: string, oldPrefix: string): (r: map<int, RoleRow>)
    ensures r.Keys == roles.Keys
    ensures forall id | id in roles :: StartsWith(roles[id].fullPath, oldPrefix) ==>
      r[id] == roles[id].(fullPath := newPrefix + roles[id].fullPath[|oldPrefix|..])
    ensures forall id | id in roles :: !StartsWith(roles[id].fullPath, oldPrefix) ==> r[id] == roles[id]
  {
    map id | id in roles ::
      if StartsWith(roles[id].fullPath, oldPrefix)
      then roles[id].(fullPath := newPrefix + roles[id].fullPath[|oldPrefix|..])
      else roles[id]
  }

  /** `updateParentNameByParentId(name, parentId)`: renames the parent on direct children. */
  function RenameChildren(roles: map<int, RoleRow>, parentName: string, parentId: int): (r: map<int, RoleRow>)
    ensures r.Keys == roles.Keys
    ensures forall id | id in roles ::
      r[id] == if roles[id].parentId == Some(parentId) then roles[id].(parentName := Some(parentName)) else roles[id]
  {
    map id | id in roles ::
      if roles[id].parentId == Some(parentId) then roles[id].(parentName := Some(parentName)) else roles[id]
  }

  /** The rewrite keeps the prefix order among moved rows: one moved path lies below another before exactly when it does after. */
  lemma RewriteKeepsBelow(a: string, b: string, newPrefix: string, oldPrefix: string)
    requires StartsWith(a, oldPrefix) && StartsWith(b, oldPrefix)
    ensures Below(a, b) <==> Below(newPrefix + a[|oldPrefix|..], newPrefix + b[|oldPrefix|..])
  {
    var ra, rb := a[|oldPrefix|..], b[|oldPrefix|..];
    assert a == oldPrefix + ra && b == oldPrefix + rb;
    var na, nb := newPrefix + ra, newPrefix + rb;
    if Below(a, b) {
      assert a[..|b + "."|] == b + ".";
      assert (oldPrefix + ra)[|oldPrefix|..|b + "."|] == ra[..|rb + "."|];
      assert ra[..|rb + "."|] == rb + ".";
      assert na[..|nb + "."|] == newPrefix + ra[..|rb + "."|];
    }
    if Below(na, nb) {
      assert na[..|nb + "."|] == nb + ".";
      assert na[|newPrefix|..|nb + "."|] == ra[..|rb + "."|];
      assert ra[..|rb + "."|] == rb + ".";
      assert a[..|b + "."|] == oldPrefix + ra[..|rb + "."|];
    }
  }

  /** The database: the role and user tables and their auto-increment counters. */
  class Database {
    var roles: map<int, RoleRow>
    var users: map<int, UserRow>
    var nextRoleId: int
    var nextUserId: int

    /** Rows are stored under their own id, below the next id to be generated. */
    ghost predicate Valid()
      reads this
    {
      (forall id | id in roles :: roles[id].id == id && id < nextRoleId) &&
      (forall id | id in users :: users[id].id == id && id < nextUserId) &&
      UniqueUsernames()
    }

    constructor (roles: map<int, RoleRow>, users: map<int, UserRow>, nextRoleId: int, nextUserId: int)
      ensures this.roles == roles && this.users == users
      ensures this.nextRoleId == nextRoleId && this.nextUserId == nextUserId
    {
      this.roles := roles;
      this.users := users;
      this.nextRoleId := nextRoleId;
      this.nextUserId := nextUserId;
    }

    // -- RoleMapper ------------------------------------------------------

    function SelectRoleById(id: int): Option<RoleRow>
      reads this
    {
      if id in roles then Some(roles[id]) else None
    }

    /** `selectBaseByUserId`: the role of the user with that id. */
    function SelectRoleByUserId(userId: int): (r: Option<RoleRow>)
      reads this
      ensures r.Some? <==> userId in users && users[userId].roleId in roles
      ensures r.Some? ==> r.value == roles[users[userId].roleId]
    {
      if userId in users then SelectRoleById(users[userId].roleId) else None
    }

    predicate ExistsRoleByName(name: string)
      reads this
    {
      exists id | id in roles :: roles[id].name == name
    }

    /** `existsRoleByFullPathLike(prefix + "%")`: some path starts with `prefix`. */
    predicate ExistsRoleByFullPathPrefix(prefix: string)
      reads this
    {
      exists id | id in roles :: StartsWith(roles[id].fullPath, prefix)
    }

    predicate ExistsUserByRoleId(roleId: int)
      reads this
    {
      exists id | id in users :: users[id].roleId == roleId
    }

    /** `insert(role)`: stores the row under a freshly generated id and returns the id. */
    method InsertRole(row: RoleRow) returns (id: int)
      modifies this
      ensures id == old(nextRoleId) && nextRoleId == id + 1
      ensures roles == old(roles)[id := row.(id := id)]
      ensures users == old(users) && nextUserId == old(nextUserId)
    {
      id := nextRoleId;
      nextRoleId := nextRoleId + 1;
      roles := roles[id := row.(id := id)];
    }

    method UpdateRole(p: RolePatch)
      modifies this
      ensures roles == if p.id in old(roles) then old(roles)[p.id := PatchRole(old(roles)[p.id], p)] else old(roles)
      ensures users == old(users) && nextRoleId == old(nextRoleId) && nextUserId == old(nextUserId)
    {
      if p.id in roles {
        roles := roles[p.id := PatchRole(roles[p.id], p)];
      }
    }

    method UpdateParentNameByParentId(parentName: string, parentId: int)
      modifies this
      ensures roles == RenameChildren(old(roles), parentName, parentId)
      ensures users == old(users) && nextRoleId == old(nextRoleId) && nextUserId == old(nextUserId)
    {
      roles := RenameChildren(roles, parentName, parentId);
    }

    method UpdateFullPathByFullPathLike(newPrefix: string, oldPrefix: string)
      modifies this
      ensures roles == RewriteFullPaths(old(roles), newPrefix, oldPrefix)
      ensures users == old(users) && nextRoleId == old(nextRoleId) && nextUserId == old(nextUserId)
    {
      roles := RewriteFullPaths(roles, newPrefix, oldPrefix);
    }

    method DeleteRoleById(id: int)
      modifies this
      ensures roles == old(roles) - {id}
      ensures users == old(users) && nextRoleId == old(nextRoleId) && nextUserId == old(nextUserId)
    {
      roles := roles - {id};
    }

    // -- UserMapper ------------------------------------------------------

    function SelectUserById(id: int): Option<UserRow>
      reads this
    {
      if id in users then Some(users[id]) else None
    }

    function SelectRoleFullPathByRoleId(roleId: int): Option<string>
      reads this
    {
      if roleId in roles then Some(roles[roleId].fullPath) else None
    }

    /** `selectRoleFullPathById`: the path of the role of the user with that id. */
    function SelectRoleFullPathById(userId: int): (r: Option<string>)
      reads this
      ensures r.Some? <==> userId in users && users[userId].roleId in roles
      ensures r.Some? ==> r.value == roles[users[userId].roleId].fullPath
    {
      if userId in users then SelectRoleFullPathByRoleId(users[userId].roleId) else None
    }

    predicate ExistsByUsername(username: string)
      reads this
    {
      exists id | id in users :: users[id].username == username
    }

    method InsertUser(row: UserRow) returns (id: int)
      modifies this
      ensures id == old(nextUserId) && nextUserId == id + 1
      ensures users == old(users)[id := row.(id := id)]
      ensures roles == old(roles) && nextRoleId == old(nextRoleId)
    {
      id := nextUserId;
      nextUserId := nextUserId + 1;
      users := users[id := row.(id := id)];
    }

    method UpdateUser(p: UserPatch)
      modifies this
      ensures users == if p.id in old(users) then old(users)[p.id := PatchUser(old(users)[p.id], p)] else old(users)
      ensures roles == old(roles) && nextRoleId == old(nextRoleId) && nextUserId == old(nextUserId)
    {
      if p.id in users {
        users := users[p.id := PatchUser(users[p.id], p)];
      }
    }

    method DeleteUserById(id: int)
      modifies this
      ensures users == old(users) - {id}
      ensures roles == old(roles) && nextRoleId == old(nextRoleId) && nextUserId == old(nextUserId)
    {
      users := users - {id};
    }

    // -- AuthMapper ------------------------------------------------------

    /** The user row with that username joined with its role's authorities. */
    function AuthRowOf(u: UserRow): AuthRow
      reads this
    {
      AuthRow(u.id, u.username, u.hashedPassword, u.nickname, u.status,
        if u.roleId in roles then roles[u.roleId].authorities else None)
    }

    /** The username column is unique. */
    ghost predicate UniqueUsernames()
      reads this
    {
      forall i, j | i in users && j in users :: users[i].username == users[j].username ==> i == j
    }

    /** `selectByUsername`: the user with exactly that username, if any. */
    function SelectAuthByUsername(username: string): (r: Option<AuthRow>)
      requires UniqueUsernames()
      reads this
      ensures r.None? <==> !ExistsByUsername(username)
      ensures r.Some? ==> exists id | id in users :: users[id].username == username && r.value == AuthRowOf(users[id])
    {
      if ExistsByUsername(username) then
        var id :| id in users && users[id].username == username;
        Some(AuthRowOf(users[id]))
      else None
    }

    // -- Transactions ----------------------------------------------------

    /**
     * The rollback of a `@Transactional` method that threw: both tables return to their
     * state at the start; generated ids are not given back.
     */
    method Rollback(savedRoles: map<int, RoleRow>, savedUsers: map<int, UserRow>)
      modifies this
      ensures roles == savedRoles && users == savedUsers
      ensures nextRoleId == old(nextRoleId) && nextUserId == old(nextUserId)
    {
      roles := savedRoles;
      users := savedUsers;
    }
  }
}
