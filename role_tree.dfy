/**
 * The shape of the role table that `RoleService` keeps: a role without a parent has its
 * own id as full path; any other role's full path is its parent's path, a dot and its own
 * id, and its `parentName` column repeats the parent's name. Ids print without dots, so
 * a path is the chain of ids from the top role down, and "lies below" on paths is
 * "is a descendant of" on roles.
 */
module RoleTree {
  import opened Wrappers
  import opened Strs
  import opened Decimal
  import opened Mappers

  /** Role `id` sits where its parent says: path and parent name agree with the parent row. */
  ghost predicate Hangs(roles: map<int, RoleRow>, id: int)
    requires id in roles
  {
    match roles[id].parentId
    case None => roles[id].fullPath == IntToString(id)
    case Some(p) =>
      p in roles && roles[id].fullPath == roles[p].fullPath + "." + IntToString(id) &&
      roles[id].parentName == Some(roles[p].name)
  }

  /** Every row is stored under its own id and hangs where its parent says. */
  ghost predicate Consistent(roles: map<int, RoleRow>) {
    forall id | id in roles :: roles[id].id == id && Hangs(roles, id)
  }

  /** Every user's role exists. */
  ghost predicate UsersHaveRoles(roles: map<int, RoleRow>, users: map<int, UserRow>) {
    forall u | u in users :: users[u].roleId in roles
  }

  // ---------------------------------------------------------------------
  // Dot paths of ids

  lemma DotFree(n: int)
    ensures '.' !in IntToString(n)
  {
    var m: nat := if n < 0 then -n else n;
    NatToStringDigits(m);
    assert forall i :: 0 <= i < |NatToString(m)| ==> NatToString(m)[i] != '.';
  }

  lemma IntToStringInjective(a: int, b: int)
    ensures IntToString(a) == IntToString(b) ==> a == b
  {
    var lo, hi := if a < b then a else b, if a < b then b else a;
    ParseIntToString(a, lo, hi);
    ParseIntToString(b, lo, hi);
  }

  /** The dot-free tail of a string: what follows its last dot. */
  function Tail(x: string): (t: string)
    ensures '.' !in t
  {
    if x == [] || x[|x| - 1] == '.' then [] else Tail(x[..|x| - 1]) + [x[|x| - 1]]
  }

  lemma {:induction false} TailOf(a: string, s: string)
    requires '.' !in s
    ensures Tail(a + "." + s) == s
    decreases |s|
  {
    if s != [] {
      var s' := s[..|s| - 1];
      assert (a + "." + s)[..|a + "." + s| - 1] == a + "." + s';
      TailOf(a, s');
    }
  }

  /** The last segment of a dot path is determined by the path. */
  lemma LastSegment(a: string, s: string, b: string, t: string)
    requires '.' !in s && '.' !in t
    ensures a + "." + s == b + "." + t ==> s == t && a == b
  {
    TailOf(a, s);
    TailOf(b, t);
    var x := a + "." + s;
    assert x[..|a|] == a;
    assert (b + "." + t)[..|b|] == b;
  }

  /** A dot-free string lies below nothing. */
  lemma DotFreeNotBelow(t: string, o: string)
    ensures '.' !in t ==> !Below(t, o)
  {
    if |o + "."| <= |t| {
      assert t[..|o + "."|][|o|] == t[|o|];
    }
  }

  /** A path with a dot in it is no bare id. */
  lemma DottedIsNoId(a: string, s: string, n: int)
    ensures a + "." + s != IntToString(n)
  {
    DotFree(n);
    assert (a + "." + s)[|a|] == '.';
  }

  /** One dot-free segment down: `a.t` lies below `o` iff `a` is `o` or lies below it. */
  lemma BelowSegment(a: string, t: string, o: string)
    requires '.' !in t
    ensures Below(a + "." + t, o) <==> a == o || Below(a, o)
  {
    var z := a + "." + t;
    var n := |o + "."|;
    if n <= |a| {
      assert z[..n] == a[..n];
    } else if n == |a| + 1 {
      assert z[..n] == a + ".";
      assert (a + ".")[..|a|] == a && (o + ".")[..|o|] == o;
    } else if n <= |z| {
      assert z[..n][n - 1] == t[n - 1 - |a| - 1];
    }
  }

  /** In a consistent table the path determines the role. */
  lemma PathInjective(roles: map<int, RoleRow>, i: int, j: int)
    requires Consistent(roles) && i in roles && j in roles
    ensures roles[i].fullPath == roles[j].fullPath ==> i == j
  {
    assert Hangs(roles, i) && Hangs(roles, j);
    DotFree(i);
    DotFree(j);
    IntToStringInjective(i, j);
    var pi, pj := roles[i].parentId, roles[j].parentId;
    if pi.Some? && pj.Some? {
      LastSegment(roles[pi.value].fullPath, IntToString(i), roles[pj.value].fullPath, IntToString(j));
    } else if pi.Some? {
      DottedIsNoId(roles[pi.value].fullPath, IntToString(i), j);
    } else if pj.Some? {
      DottedIsNoId(roles[pj.value].fullPath, IntToString(j), i);
    }
  }

  /** No role is its own parent: a child's path is longer than its parent's. */
  lemma NoSelfParent(roles: map<int, RoleRow>, id: int)
    requires Consistent(roles) && id in roles
    ensures roles[id].parentId != Some(id)
    ensures roles[id].parentId.Some? ==> |roles[roles[id].parentId.value].fullPath| < |roles[id].fullPath|
  {
    assert Hangs(roles, id);
  }

  /** A child lies below its parent, so below every role its parent lies below. */
  lemma ChildBelowParent(roles: map<int, RoleRow>, id: int)
    requires Consistent(roles) && id in roles && roles[id].parentId.Some?
    ensures Below(roles[id].fullPath, roles[roles[id].parentId.value].fullPath)
  {
    assert Hangs(roles, id);
    BelowExtend(roles[roles[id].parentId.value].fullPath, IntToString(id));
  }

  // ---------------------------------------------------------------------
  // `addRole`

  /**
   * The row `addRole` leaves behind for a new role with generated id `id` under `parent`:
   * the parent's id and name, and the parent's path extended by the new id.
   */
  function NewRole(
    id: int, name: string, authorities: Option<string>, parent: RoleRow, remark: Option<string>): (r: RoleRow)
    ensures r.id == id && r.name == name && r.authorities == authorities && r.remark == remark
    ensures r.parentId == Some(parent.id) && r.parentName == Some(parent.name)
    ensures r.fullPath == parent.fullPath + "." + IntToString(id)
  {
    RoleRow(id, name, authorities, Some(parent.id), Some(parent.name), parent.fullPath + "." + IntToString(id), remark)
  }

  /** Adding a role with a fresh id under an existing parent keeps the table consistent. */
  lemma AddKeepsConsistent(
    roles: map<int, RoleRow>, id: int, name: string, authorities: Option<string>, parent: RoleRow, remark: Option<string>)
    requires Consistent(roles) && id !in roles
    requires parent.id in roles && roles[parent.id] == parent
    ensures Consistent(roles[id := NewRole(id, name, authorities, parent, remark)])
  {
    var r := roles[id := NewRole(id, name, authorities, parent, remark)];
    forall k | k in r ensures r[k].id == k && Hangs(r, k) {
      if k != id {
        assert Hangs(roles, k);
      }
    }
  }

  // ---------------------------------------------------------------------
  // `deleteRole`

  /** Deleting a role nothing lies below keeps the table consistent. */
  lemma DeleteKeepsConsistent(roles: map<int, RoleRow>, id: int)
    requires Consistent(roles) && id in roles
    requires forall k | k in roles :: !StartsWith(roles[k].fullPath, roles[id].fullPath + ".")
    ensures Consistent(roles - {id})
  {
    var r := roles - {id};
    forall k | k in r ensures r[k].id == k && Hangs(r, k) {
      assert Hangs(roles, k);
      BelowExtend(roles[id].fullPath, IntToString(k));
    }
  }

  /** Deleting a role no user holds leaves every user with an existing role. */
  lemma DeleteKeepsUserRoles(roles: map<int, RoleRow>, users: map<int, UserRow>, id: int)
    requires UsersHaveRoles(roles, users)
    requires forall u | u in users :: users[u].roleId != id
    ensures UsersHaveRoles(roles - {id}, users)
  {
  }

  // ---------------------------------------------------------------------
  // `updateRole`

  /**
   * The table after `updateRole` on role `id` with patch `p`: the children are renamed if
   * `p` renames, every path below the old path is moved below the new path if `p` moves,
   * and then the patch is written to the role itself.
   */
  function UpdatedRoles(roles: map<int, RoleRow>, id: int, p: RolePatch): (r: map<int, RoleRow>)
    requires id in roles
    ensures r.Keys == roles.Keys
  {
    var renamed := if p.name.Some? then RenameChildren(roles, p.name.value, id) else roles;
    var moved := if p.fullPath.Some? then RewriteFullPaths(renamed, p.fullPath.value + ".", roles[id].fullPath + ".") else renamed;
    moved[id := PatchRole(moved[id], p)]
  }

  /**
   * The patches `updateRole` writes once its checks have passed: to role `id`; a move
   * names an existing parent other than the role itself and outside its subtree, and
   * carries that parent's name and the path below it; without a move neither is written.
   */
  ghost predicate Admissible(roles: map<int, RoleRow>, id: int, p: RolePatch) {
    id in roles && p.id == id &&
    (p.parentId.None? ==> p.parentName.None? && p.fullPath.None?) &&
    (p.parentId.Some? ==>
      var q := p.parentId.value;
      q != id && q in roles && !Below(roles[q].fullPath, roles[id].fullPath) &&
      p.parentName == Some(roles[q].name) &&
      p.fullPath == Some(roles[q].fullPath + "." + IntToString(id)))
  }

  /** Where the new path of a role moved along with `id` comes from. */
  function MovedPath(path: string, oldPath: string, newPath: string): string
    requires Below(path, oldPath)
  {
    newPath + "." + path[|oldPath| + 1..]
  }

  /** The row of role `k` after the update, field by field. */
  lemma UpdatedRow(roles: map<int, RoleRow>, id: int, p: RolePatch, k: int)
    requires id in roles && p.id == id && k in roles && k != id
    ensures UpdatedRoles(roles, id, p)[k].id == roles[k].id
    ensures UpdatedRoles(roles, id, p)[k].name == roles[k].name
    ensures UpdatedRoles(roles, id, p)[k].parentId == roles[k].parentId
    ensures UpdatedRoles(roles, id, p)[k].parentName ==
      if p.name.Some? && roles[k].parentId == Some(id) then p.name else roles[k].parentName
    ensures UpdatedRoles(roles, id, p)[k].fullPath ==
      if p.fullPath.Some? && Below(roles[k].fullPath, roles[id].fullPath)
      then MovedPath(roles[k].fullPath, roles[id].fullPath, p.fullPath.value)
      else roles[k].fullPath
  {
    var o := roles[id].fullPath;
    if p.fullPath.Some? && Below(roles[k].fullPath, o) {
      assert |o + "."| == |o| + 1;
      assert p.fullPath.value + "." + roles[k].fullPath[|o| + 1..] == (p.fullPath.value + ".") + roles[k].fullPath[|o + "."|..];
    }
  }

  /** The row of role `id` itself after the update. */
  lemma UpdatedSelf(roles: map<int, RoleRow>, id: int, p: RolePatch)
    requires id in roles
    ensures UpdatedRoles(roles, id, p)[id] == PatchRole(roles[id], p).(parentName :=
      if p.parentName.Some? then p.parentName
      else if p.name.Some? && roles[id].parentId == Some(id) then p.name
      else roles[id].parentName)
  {
    BelowIrreflexive(roles[id].fullPath);
  }

  /** A path below `o.x` moves with its parent: the rewritten paths keep the dot step. */
  lemma MovedStep(pp: string, s: string, o: string, n: string)
    requires Below(pp, o)
    ensures Below(pp + "." + s, o)
    ensures MovedPath(pp + "." + s, o, n) == MovedPath(pp, o, n) + "." + s
  {
    StartsWithTrans(pp + "." + s, pp, o + ".");
    assert (pp + "." + s)[..|pp|] == pp;
    assert (pp + "." + s)[|o| + 1..] == pp[|o| + 1..] + "." + s;
  }

  /** After an admissible update, a role other than `id` still hangs where its parent says. */
  lemma UpdatedOtherHangs(roles: map<int, RoleRow>, id: int, p: RolePatch, k: int)
    requires Consistent(roles) && Admissible(roles, id, p) && k in roles && k != id
    ensures Hangs(UpdatedRoles(roles, id, p), k)
  {
    var r := UpdatedRoles(roles, id, p);
    assert Hangs(roles, k);
    UpdatedRow(roles, id, p, k);
    DotFree(k);
    if roles[k].parentId.None? {
      DotFreeNotBelow(IntToString(k), roles[id].fullPath);
    } else {
      var q := roles[k].parentId.value;
      var o := roles[id].fullPath;
      var s := IntToString(k);
      DotFree(k);
      BelowSegment(roles[q].fullPath, s, o);
      if q == id {
        UpdatedSelf(roles, id, p);
        if p.fullPath.Some? {
          assert roles[k].fullPath == o + "." + s;
          assert roles[k].fullPath[|o| + 1..] == s;
        }
      } else {
        UpdatedRow(roles, id, p, q);
        PathInjective(roles, q, id);
        if p.fullPath.Some? && Below(roles[q].fullPath, o) {
          MovedStep(roles[q].fullPath, s, o, p.fullPath.value);
        }
      }
    }
  }

  /** After an admissible update, role `id` hangs under its (possibly new) parent. */
  lemma UpdatedSelfHangs(roles: map<int, RoleRow>, id: int, p: RolePatch)
    requires Consistent(roles) && Admissible(roles, id, p)
    ensures Hangs(UpdatedRoles(roles, id, p), id)
  {
    var r := UpdatedRoles(roles, id, p);
    assert Hangs(roles, id);
    NoSelfParent(roles, id);
    UpdatedSelf(roles, id, p);
    if p.parentId.Some? {
      var q := p.parentId.value;
      UpdatedRow(roles, id, p, q);
    } else if roles[id].parentId.Some? {
      var q := roles[id].parentId.value;
      UpdatedRow(roles, id, p, q);
    }
  }

  /** An admissible update keeps the table consistent: renames and moves carry the subtree along. */
  lemma UpdateKeepsConsistent(roles: map<int, RoleRow>, id: int, p: RolePatch)
    requires Consistent(roles) && Admissible(roles, id, p)
    ensures Consistent(UpdatedRoles(roles, id, p))
  {
    var r := UpdatedRoles(roles, id, p);
    forall k | k in r ensures r[k].id == k && Hangs(r, k) {
      if k == id {
        UpdatedSelf(roles, id, p);
        UpdatedSelfHangs(roles, id, p);
      } else {
        UpdatedRow(roles, id, p, k);
        UpdatedOtherHangs(roles, id, p, k);
      }
    }
  }

  /** An update moves exactly the subtree of `id`: other roles keep their paths. */
  lemma UpdateMovesSubtreeOnly(roles: map<int, RoleRow>, id: int, p: RolePatch, k: int)
    requires Consistent(roles) && Admissible(roles, id, p) && k in roles && k != id
    ensures !Below(roles[k].fullPath, roles[id].fullPath) ==> UpdatedRoles(roles, id, p)[k].fullPath == roles[k].fullPath
    ensures Below(roles[k].fullPath, roles[id].fullPath) && p.fullPath.Some? ==>
      Below(UpdatedRoles(roles, id, p)[k].fullPath, UpdatedRoles(roles, id, p)[id].fullPath)
  {
    UpdatedRow(roles, id, p, k);
    UpdatedSelf(roles, id, p);
    if Below(roles[k].fullPath, roles[id].fullPath) && p.fullPath.Some? {
      BelowExtend(p.fullPath.value, roles[k].fullPath[|roles[id].fullPath| + 1..]);
    }
  }
}
