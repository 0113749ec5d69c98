/**
 * The older permission table (`auth/Auth.java`): no operation-log branch, an
 * `authorize` expression per constant, and a REFLEXIVE `isSubNode` ("this node or
 * a node below it").
 */
module Auth {
  import opened Wrappers
  import opened Strs

  datatype Auth =
    | Root
    | User | UserView | UserAdd | UserEdit | UserDel | UserReset
    | Role | RoleView | RoleAdd | RoleEdit | RoleDel

  /** `values()`, in declaration order. */
  const Values: seq<Auth> := [
    Root,
    User, UserView, UserAdd, UserEdit, UserDel, UserReset,
    Role, RoleView, RoleAdd, RoleEdit, RoleDel
  ]

  function Depth(a: Auth): nat {
    match a
    case Root => 0
    case User | Role => 1
    case _ => 2
  }

  /** The constant whose id a declaration uses as its `parentId` (none for `ROOT`). */
  function Parent(a: Auth): (p: Option<Auth>)
    ensures p.None? <==> a == Root
    ensures p.Some? ==> Depth(p.value) + 1 == Depth(a)
  {
    match a
    case Root => None
    case User | Role => Some(Root)
    case UserView | UserAdd | UserEdit | UserDel | UserReset => Some(User)
    case RoleView | RoleAdd | RoleEdit | RoleDel => Some(Role)
  }

  /** The `id` field, built as the declarations build it. */
  function Id(a: Auth): string
    decreases Depth(a)
  {
    match a
    case Root => "1"
    case User => Id(Root) + ".1"
    case UserView => Id(User) + ".1"
    case UserAdd => Id(User) + ".2"
    case UserEdit => Id(User) + ".3"
    case UserDel => Id(User) + ".4"
    case UserReset => Id(User) + ".5"
    case Role => Id(Root) + ".2"
    case RoleView => Id(Role) + ".1"
    case RoleAdd => Id(Role) + ".2"
    case RoleEdit => Id(Role) + ".3"
    case RoleDel => Id(Role) + ".4"
  }

  /** The `parentId` field. */
  function ParentId(a: Auth): string {
    match Parent(a)
    case None => "0"
    case Some(p) => Id(p)
  }

  /** The `name` field. */
  function Name(a: Auth): string {
    match a
    case Root => "根权限"
    case User => "用户管理"
    case UserView | RoleView => "查看"
    case UserAdd | RoleAdd => "新增"
    case UserEdit | RoleEdit => "编辑"
    case UserDel | RoleDel => "删除"
    case UserReset => "重置密码"
    case Role => "角色管理"
  }

  /** The `code` field. */
  function Code(a: Auth): string {
    match a
    case Root => "root"
    case User => "user"
    case UserView => "user_view"
    case UserAdd => "user_add"
    case UserEdit => "user_edit"
    case UserDel => "user_del"
    case UserReset => "user_reset"
    case Role => "role"
    case RoleView => "role_view"
    case RoleAdd => "role_add"
    case RoleEdit => "role_edit"
    case RoleDel => "role_del"
  }

  /** The `authorize` field, the `@PreAuthorize` expression, as the declarations spell it. */
  function Authorize(a: Auth): string {
    match a
    case Root => "hasAuthority('root')"
    case User => "hasAuthority('user')"
    case UserView => "hasAuthority('user_view')"
    case UserAdd => "hasAuthority('user_add')"
    case UserEdit => "hasAuthority('user_edit')"
    case UserDel => "hasAuthority('user_del')"
    case UserReset => "hasAuthority('user_reset')"
    case Role => "hasAuthority('role')"
    case RoleView => "hasAuthority('role_view')"
    case RoleAdd => "hasAuthority('role_add')"
    case RoleEdit => "hasAuthority('role_edit')"
    case RoleDel => "hasAuthority('role_del')"
  }

  /** The Java constant name, which `valueOf` matches. */
  function ConstantName(a: Auth): string {
    match a
    case Root => "ROOT"
    case User => "USER"
    case UserView => "USER_VIEW"
    case UserAdd => "USER_ADD"
    case UserEdit => "USER_EDIT"
    case UserDel => "USER_DEL"
    case UserReset => "USER_RESET"
    case Role => "ROLE"
    case RoleView => "ROLE_VIEW"
    case RoleAdd => "ROLE_ADD"
    case RoleEdit => "ROLE_EDIT"
    case RoleDel => "ROLE_DEL"
  }

  lemma AllInValues(a: Auth)
    ensures a in Values
  {
  }

  /** The first constant of `vs` with the given constant name. */
  function Find(vs: seq<Auth>, name: string): (r: Option<Auth>)
    ensures r.Some? ==> r.value in vs && ConstantName(r.value) == name
    ensures r.None? ==> forall a :: a in vs ==> ConstantName(a) != name
  {
    if vs == [] then None
    else if ConstantName(vs[0]) == name then Some(vs[0])
    else Find(vs[1..], name)
  }

  /** `resolve(code)`: `valueOf(code.toUpperCase())`, empty for an unknown name. */
  function Resolve(code: string): (r: Option<Auth>)
    ensures r.Some? ==> ConstantName(r.value) == ToUpper(code)
    ensures r.None? <==> forall a :: ConstantName(a) != ToUpper(code)
  {
    var r := Find(Values, ToUpper(code));
    assert r.None? ==> forall a :: ConstantName(a) != ToUpper(code) by {
      forall a ensures a in Values { AllInValues(a); }
    }
    r
  }

  datatype IllegalArgument = IllegalArgument(message: string)

  /**
   * `isSubNode(parentCode, checkedCode)`: both codes resolved, the parent first, an
   * unknown one throwing; then the checked id equals the parent id or extends it plus `"."`.
   */
  function IsSubNode(parentCode: string, checkedCode: string): Result<bool, IllegalArgument> {
    match Resolve(parentCode)
    case None => Failure(IllegalArgument("无法识别 parentCode: " + parentCode))
    case Some(p) =>
      match Resolve(checkedCode)
      case None => Failure(IllegalArgument("无法识别 checkedCode: " + checkedCode))
      case Some(c) => Success(Id(c) == Id(p) || Below(Id(c), Id(p)))
  }

  // ---------------------------------------------------------------------
  // The tree the ids encode

  /** `p` is `c` itself or an ancestor of `c` along the `parentId` links. */
  predicate IsSelfOrAncestor(p: Auth, c: Auth)
    decreases Depth(c)
  {
    p == c ||
    match Parent(c)
    case None => false
    case Some(q) => IsSelfOrAncestor(p, q)
  }

  function Segment(a: Auth): char {
    match a
    case UserView | RoleView | User => '1'
    case UserAdd | RoleAdd | Role => '2'
    case UserEdit | RoleEdit => '3'
    case UserDel | RoleDel => '4'
    case UserReset => '5'
    case Root => '1'
  }

  /** Table shape: ROOT is `"1"` under `"0"`; each other id is its parentId, `"."`, one digit. */
  lemma IdShape(a: Auth)
    ensures a == Root ==> Id(a) == "1" && ParentId(a) == "0"
    ensures a != Root ==> Id(a) == ParentId(a) + "." + [Segment(a)] && '1' <= Segment(a) <= '9'
    ensures |Id(a)| == 2 * Depth(a) + 1
  {
  }

  lemma SiblingsDiffer(a: Auth, b: Auth)
    requires a != Root && b != Root && Parent(a) == Parent(b) && Segment(a) == Segment(b)
    ensures a == b
  {
  }

  lemma {:induction false} IdInjective(a: Auth, b: Auth)
    requires Id(a) == Id(b)
    ensures a == b
    decreases Depth(a)
  {
    IdShape(a);
    IdShape(b);
    if a != Root && b != Root {
      var pa, pb := Parent(a).value, Parent(b).value;
      IdShape(pa);
      IdShape(pb);
      assert Id(pa) == Id(a)[..|Id(pa)|] == Id(b)[..|Id(pb)|] == Id(pb);
      IdInjective(pa, pb);
      assert Id(a)[|Id(a)| - 1] == Segment(a);
      SiblingsDiffer(a, b);
    }
  }

  /** `id(c) == id(p)` or `id(c)` starts with `id(p) + "."` exactly when `p` is `c` or above it. */
  lemma {:induction false} SelfOrBelowIffAncestor(p: Auth, c: Auth)
    ensures Id(c) == Id(p) || Below(Id(c), Id(p)) <==> IsSelfOrAncestor(p, c)
    decreases Depth(c)
  {
    if c != p {
      if Id(c) == Id(p) {
        IdInjective(c, p);
      }
      IdShape(c);
      if c == Root {
        IdShape(p);
      } else {
        var q := Parent(c).value;
        BelowStep(Id(q), Segment(c), Id(p));
        SelfOrBelowIffAncestor(p, q);
      }
    }
  }

  // ---------------------------------------------------------------------
  // Properties of the table, resolve and isSubNode

  /** Each `authorize` expression is `hasAuthority('<code>')` for its own code. */
  lemma AuthorizeIsHasAuthority(a: Auth)
    ensures Authorize(a) == "hasAuthority('" + Code(a) + "')"
  {
    if a.Root? || a.User? || a.UserView? || a.UserAdd? || a.UserEdit? || a.UserDel? || a.UserReset? {
      UserAuthorizeExpressions(a);
    } else {
      RoleAuthorizeExpressions(a);
    }
  }

  lemma UserAuthorizeExpressions(a: Auth)
    requires a.Root? || a.User? || a.UserView? || a.UserAdd? || a.UserEdit? || a.UserDel? || a.UserReset?
    ensures Authorize(a) == "hasAuthority('" + Code(a) + "')"
  {
    if a.Root? {
      assert "hasAuthority('root')" == "hasAuthority('" + "root" + "')";
    } else if a.User? {
      assert "hasAuthority('user')" == "hasAuthority('" + "user" + "')";
    } else if a.UserView? {
      assert "hasAuthority('user_view')" == "hasAuthority('" + "user_view" + "')";
    } else if a.UserAdd? {
      assert "hasAuthority('user_add')" == "hasAuthority('" + "user_add" + "')";
    } else if a.UserEdit? {
      assert "hasAuthority('user_edit')" == "hasAuthority('" + "user_edit" + "')";
    } else if a.UserDel? {
      assert "hasAuthority('user_del')" == "hasAuthority('" + "user_del" + "')";
    } else {
      assert "hasAuthority('user_reset')" == "hasAuthority('" + "user_reset" + "')";
    }
  }

  lemma RoleAuthorizeExpressions(a: Auth)
    requires a.Role? || a.RoleView? || a.RoleAdd? || a.RoleEdit? || a.RoleDel?
    ensures Authorize(a) == "hasAuthority('" + Code(a) + "')"
  {
    if a.Role? {
      assert "hasAuthority('role')" == "hasAuthority('" + "role" + "')";
    } else if a.RoleView? {
      assert "hasAuthority('role_view')" == "hasAuthority('" + "role_view" + "')";
    } else if a.RoleAdd? {
      assert "hasAuthority('role_add')" == "hasAuthority('" + "role_add" + "')";
    } else if a.RoleEdit? {
      assert "hasAuthority('role_edit')" == "hasAuthority('" + "role_edit" + "')";
    } else {
      assert "hasAuthority('role_del')" == "hasAuthority('" + "role_del" + "')";
    }
  }

  lemma ConstantNameIsUpperCode(a: Auth)
    ensures ToUpper(Code(a)) == ConstantName(a)
  {
    if a.Root? || a.User? || a.UserView? || a.UserAdd? || a.UserEdit? || a.UserDel? || a.UserReset? {
      UserConstantsUpper(a);
    } else {
      OtherConstantsUpper(a);
    }
  }

  lemma UserConstantsUpper(a: Auth)
    requires a.Root? || a.User? || a.UserView? || a.UserAdd? || a.UserEdit? || a.UserDel? || a.UserReset?
    ensures ToUpper(Code(a)) == ConstantName(a)
  {
    if a.Root? {
    } else if a.User? {
    } else if a.UserView? {
    } else if a.UserAdd? {
    } else if a.UserEdit? {
    } else if a.UserDel? {
    } else {
    }
  }

  lemma OtherConstantsUpper(a: Auth)
    requires a.Role? || a.RoleView? || a.RoleAdd? || a.RoleEdit? || a.RoleDel?
    ensures ToUpper(Code(a)) == ConstantName(a)
  {
    if a.Role? {
    } else if a.RoleView? {
    } else if a.RoleAdd? {
    } else if a.RoleEdit? {
    } else {
    }
  }

  lemma ConstantNameInjective(a: Auth, b: Auth)
    requires ConstantName(a) == ConstantName(b)
    ensures a == b
  {
  }

  /** Each code resolves to its own constant. */
  lemma ResolveCode(a: Auth)
    ensures Resolve(Code(a)) == Some(a)
  {
    ConstantNameIsUpperCode(a);
    var r := Resolve(Code(a));
    ConstantNameInjective(r.value, a);
  }

  /** `resolve` ignores case. */
  lemma ResolveIgnoresCase(code: string)
    ensures Resolve(ToUpper(code)) == Resolve(code)
  {
    ToUpperIdempotent(code);
  }

  /** `isSubNode` throws exactly when one of its codes does not resolve, the parent checked first. */
  lemma IsSubNodeThrows(parentCode: string, checkedCode: string)
    ensures IsSubNode(parentCode, checkedCode).Failure?
        <==> Resolve(parentCode).None? || Resolve(checkedCode).None?
    ensures Resolve(parentCode).None? ==>
        IsSubNode(parentCode, checkedCode) == Failure(IllegalArgument("无法识别 parentCode: " + parentCode))
  {
  }

  /** Over known codes, `isSubNode(p, c)` is "c is p or a descendant of p" in the tree. */
  lemma IsSubNodeMeansSelfOrDescendant(parentCode: string, checkedCode: string)
    requires Resolve(parentCode).Some? && Resolve(checkedCode).Some?
    ensures IsSubNode(parentCode, checkedCode)
        == Success(IsSelfOrAncestor(Resolve(parentCode).value, Resolve(checkedCode).value))
  {
    SelfOrBelowIffAncestor(Resolve(parentCode).value, Resolve(checkedCode).value);
  }

  /** Unlike the newer table, every known code is a sub-node of itself. */
  lemma IsSubNodeReflexive(code: string)
    requires Resolve(code).Some?
    ensures IsSubNode(code, code) == Success(true)
  {
  }

  lemma IsSubNodeTransitive(a: string, b: string, c: string)
    requires IsSubNode(a, b) == Success(true) && IsSubNode(b, c) == Success(true)
    ensures IsSubNode(a, c) == Success(true)
  {
    var ia, ib, ic := Id(Resolve(a).value), Id(Resolve(b).value), Id(Resolve(c).value);
    if ib != ia && ic != ib {
      BelowTrans(ic, ib, ia);
    }
  }

  // ---------------------------------------------------------------------
  // getAuthHierarchy

  function Line(parent: Auth, child: Auth): string {
    Code(parent) + " > " + Code(child) + "\n"
  }

  /** The `parent > child` edges, in the order `getAuthHierarchy` lists them. */
  const HierarchyEdges: seq<(Auth, Auth)> := [
    (Root, User), (User, UserView), (User, UserAdd), (User, UserEdit), (User, UserDel), (User, UserReset),
    (Root, Role), (Role, RoleView), (Role, RoleAdd), (Role, RoleEdit), (Role, RoleDel)
  ]

  function RenderFirst(edges: seq<(Auth, Auth)>, n: nat): string
    requires n <= |edges|
  {
    if n == 0 then "" else RenderFirst(edges, n - 1) + Line(edges[n - 1].0, edges[n - 1].1)
  }

  function Render(edges: seq<(Auth, Auth)>): string {
    RenderFirst(edges, |edges|)
  }

  /**
   * `getAuthHierarchy()`: for each edge in the order above, the parent's code, `" > "`,
   * the child's code and a newline.
   */
  function GetAuthHierarchy(): string {
    Render(HierarchyEdges)
  }

  /** One line per non-root constant (11), in declaration order, each agreeing with its parentId. */
  lemma HierarchyEdgesAreTree()
    ensures |HierarchyEdges| == |Values| - 1 == 11
    ensures forall i :: 0 <= i < |HierarchyEdges| ==> HierarchyEdges[i].1 == Values[i + 1]
    ensures forall i :: 0 <= i < |HierarchyEdges| ==>
      Parent(HierarchyEdges[i].1) == Some(HierarchyEdges[i].0)
      && ParentId(HierarchyEdges[i].1) == Id(HierarchyEdges[i].0)
  {
  }

  lemma ValuesDistinct()
    ensures forall i, j :: 0 <= i < j < |Values| ==> Values[i] != Values[j]
  {
  }
}
