/**
 * The permission tree of the admin backend (`auth/Authority.java`): a fixed table
 * of constants whose ids are dot paths, so that "is a sub-node of" is a prefix test.
 */
module Authority {
  import opened Wrappers
  import opened Strs

  datatype Authority =
    | Root
    | User | UserView | UserAdd | UserEdit | UserDel | UserReset
    | Role | RoleView | RoleAdd | RoleEdit | RoleDel
    | OpLog | OpLogView

  /** `values()`, in declaration order. */
  const Values: seq<Authority> := [
    Root,
    User, UserView, UserAdd, UserEdit, UserDel, UserReset,
    Role, RoleView, RoleAdd, RoleEdit, RoleDel,
    OpLog, OpLogView
  ]

  /** Distance from the root; the declarations build every id from a shallower one. */
  function Depth(a: Authority): nat {
    match a
    case Root => 0
    case User | Role | OpLog => 1
    case _ => 2
  }

  /** The constant whose id a declaration uses as its `parentId` (none for `ROOT`). */
  function Parent(a: Authority): (p: Option<Authority>)
    ensures p.None? <==> a == Root
    ensures p.Some? ==> Depth(p.value) + 1 == Depth(a)
  {
    match a
    case Root => None
    case User | Role | OpLog => Some(Root)
    case UserView | UserAdd | UserEdit | UserDel | UserReset => Some(User)
    case RoleView | RoleAdd | RoleEdit | RoleDel => Some(Role)
    case OpLogView => Some(OpLog)
  }

  /** The `id` field, built as the declarations build it: the parent's id plus `.k`. */
  function Id(a: Authority): string
    decreases Depth(a)
  {
    match a
    case Root => "1"
    case User => Id(Root) + ".1"
    case UserView => Id(User) + ".1"
    case UserAdd => Id(User) + ".2"
    case UserEdit => Id(User) + ".3"
    case UserDel => Id(User) + ".4"
    case UserReset => Id(User) + ".5"
    case Role => Id(Root) + ".2"
    case RoleView => Id(Role) + ".1"
    case RoleAdd => Id(Role) + ".2"
    case RoleEdit => Id(Role) + ".3"
    case RoleDel => Id(Role) + ".4"
    case OpLog => Id(Root) + ".3"
    case OpLogView => Id(OpLog) + ".1"
  }

  /** The `parentId` field: `"0"` for the root, otherwise the parent constant's id. */
  function ParentId(a: Authority): string {
    match Parent(a)
    case None => "0"
    case Some(p) => Id(p)
  }

  /** The `name` field, shown in the UI. */
  function Name(a: Authority): string {
    match a
    case Root => "根权限"
    case User => "用户管理"
    case UserView => "查看用户"
    case UserAdd => "新增用户"
    case UserEdit => "编辑用户"
    case UserDel => "删除用户"
    case UserReset => "重置密码"
    case Role => "角色管理"
    case RoleView => "查看角色"
    case RoleAdd => "新增角色"
    case RoleEdit => "编辑角色"
    case RoleDel => "删除角色"
    case OpLog => "操作日志"
    case OpLogView => "查看日志"
  }

  /** The `code` field, the permission string stored on roles and checked by Spring Security. */
  function Code(a: Authority): string {
    match a
    case Root => "root"
    case User => "user"
    case UserView => "user_view"
    case UserAdd => "user_add"
    case UserEdit => "user_edit"
    case UserDel => "user_del"
    case UserReset => "user_reset"
    case Role => "role"
    case RoleView => "role_view"
    case RoleAdd => "role_add"
    case RoleEdit => "role_edit"
    case RoleDel => "role_del"
    case OpLog => "op_log"
    case OpLogView => "op_log_view"
  }

  /** The Java constant name, which `valueOf` matches. */
  function ConstantName(a: Authority): string {
    match a
    case Root => "ROOT"
    case User => "USER"
    case UserView => "USER_VIEW"
    case UserAdd => "USER_ADD"
    case UserEdit => "USER_EDIT"
    case UserDel => "USER_DEL"
    case UserReset => "USER_RESET"
    case Role => "ROLE"
    case RoleView => "ROLE_VIEW"
    case RoleAdd => "ROLE_ADD"
    case RoleEdit => "ROLE_EDIT"
    case RoleDel => "ROLE_DEL"
    case OpLog => "OP_LOG"
    case OpLogView => "OP_LOG_VIEW"
  }

  lemma AllInValues(a: Authority)
    ensures a in Values
  {
  }

  /** The first constant of `vs` with the given constant name: `Enum.valueOf` over `vs`. */
  function Find(vs: seq<Authority>, name: string): (r: Option<Authority>)
    ensures r.Some? ==> r.value in vs && ConstantName(r.value) == name
    ensures r.None? ==> forall a :: a in vs ==> ConstantName(a) != name
  {
    if vs == [] then None
    else if ConstantName(vs[0]) == name then Some(vs[0])
    else Find(vs[1..], name)
  }

  /**
   * `resolve(code)`: `valueOf(code.toUpperCase())`, with the `IllegalArgumentException`
   * for an unknown name turned into an empty result. It never fails otherwise.
   */
  function Resolve(code: string): (r: Option<Authority>)
    ensures r.Some? ==> ConstantName(r.value) == ToUpper(code)
    ensures r.None? <==> forall a :: ConstantName(a) != ToUpper(code)
  {
    var r := Find(Values, ToUpper(code));
    assert r.None? ==> forall a :: ConstantName(a) != ToUpper(code) by {
      forall a ensures a in Values { AllInValues(a); }
    }
    r
  }

  /** The `IllegalArgumentException` thrown by `isSubNode`, with its message. */
  datatype IllegalArgument = IllegalArgument(message: string)

  /**
   * `isSubNode(parentCode, checkedCode)`: both codes are resolved, the parent first,
   * and an unknown one throws; then the checked id must extend the parent id plus `"."`.
   */
  function IsSubNode(parentCode: string, checkedCode: string): Result<bool, IllegalArgument> {
    match Resolve(parentCode)
    case None => Failure(IllegalArgument("无法识别 parentCode: " + parentCode))
    case Some(p) =>
      match Resolve(checkedCode)
      case None => Failure(IllegalArgument("无法识别 checkedCode: " + checkedCode))
      case Some(c) => Success(Below(Id(c), Id(p)))
  }

  // ---------------------------------------------------------------------
  // The tree the ids encode

  /** `p` is a proper ancestor of `c` along the `parentId` links. */
  predicate IsAncestor(p: Authority, c: Authority)
    decreases Depth(c)
  {
    match Parent(c)
    case None => false
    case Some(q) => q == p || IsAncestor(p, q)
  }

  /** An ancestor sits strictly higher in the tree. */
  lemma {:induction false} AncestorShallower(p: Authority, c: Authority)
    requires IsAncestor(p, c)
    ensures Depth(p) < Depth(c)
    decreases Depth(c)
  {
    var q := Parent(c).value;
    if q != p {
      AncestorShallower(p, q);
    }
  }

  /** The last segment of a non-root id: one digit. */
  function Segment(a: Authority): char {
    match a
    case UserView | RoleView | OpLogView | User => '1'
    case UserAdd | RoleAdd | Role => '2'
    case UserEdit | RoleEdit | OpLog => '3'
    case UserDel | RoleDel => '4'
    case UserReset => '5'
    case Root => '1'
  }

  /** Table shape: ROOT is `"1"` under `"0"`; each other id is its parentId, `"."`, one digit. */
  lemma IdShape(a: Authority)
    ensures a == Root ==> Id(a) == "1" && ParentId(a) == "0"
    ensures a != Root ==> Id(a) == ParentId(a) + "." + [Segment(a)] && '1' <= Segment(a) <= '9'
    ensures |Id(a)| == 2 * Depth(a) + 1
  {
  }

  /** Two constants under the same parent have different last segments. */
  lemma SiblingsDiffer(a: Authority, b: Authority)
    requires a != Root && b != Root && Parent(a) == Parent(b) && Segment(a) == Segment(b)
    ensures a == b
  {
  }

  /** No two constants share an id. */
  lemma {:induction false} IdInjective(a: Authority, b: Authority)
    requires Id(a) == Id(b)
    ensures a == b
    decreases Depth(a)
  {
    IdShape(a);
    IdShape(b);
    if a != Root && b != Root {
      var pa, pb := Parent(a).value, Parent(b).value;
      IdShape(pa);
      IdShape(pb);
      assert Id(pa) == Id(a)[..|Id(pa)|] == Id(b)[..|Id(pb)|] == Id(pb);
      IdInjective(pa, pb);
      assert Id(a)[|Id(a)| - 1] == Segment(a);
      SiblingsDiffer(a, b);
    }
  }

  /**
   * The id encoding is the tree: `id(c)` starts with `id(p) + "."` exactly when `p` is a
   * proper ancestor of `c` along the `parentId` links.
   */
  lemma {:induction false} BelowIffAncestor(p: Authority, c: Authority)
    ensures Below(Id(c), Id(p)) <==> IsAncestor(p, c)
    decreases Depth(c)
  {
    IdShape(c);
    IdShape(p);
    if c != Root {
      var q := Parent(c).value;
      BelowStep(Id(q), Segment(c), Id(p));
      BelowIffAncestor(p, q);
      if Id(p) == Id(q) {
        IdInjective(p, q);
      }
    }
  }

  // ---------------------------------------------------------------------
  // Properties of resolve and isSubNode

  /** The constant names are the upper-cased codes, as the declarations keep them. */
  lemma ConstantNameIsUpperCode(a: Authority)
    ensures ToUpper(Code(a)) == ConstantName(a)
  {
    if a.Root? || a.User? || a.UserView? || a.UserAdd? || a.UserEdit? || a.UserDel? || a.UserReset? {
      UserConstantsUpper(a);
    } else {
      OtherConstantsUpper(a);
    }
  }

  lemma UserConstantsUpper(a: Authority)
    requires a.Root? || a.User? || a.UserView? || a.UserAdd? || a.UserEdit? || a.UserDel? || a.UserReset?
    ensures ToUpper(Code(a)) == ConstantName(a)
  {
    if a.Root? {
    } else if a.User? {
    } else if a.UserView? {
    } else if a.UserAdd? {
    } else if a.UserEdit? {
    } else if a.UserDel? {
    } else {
    }
  }

  lemma OtherConstantsUpper(a: Authority)
    requires a.Role? || a.RoleView? || a.RoleAdd? || a.RoleEdit? || a.RoleDel? || a.OpLog? || a.OpLogView?
    ensures ToUpper(Code(a)) == ConstantName(a)
  {
    if a.Role? {
    } else if a.RoleView? {
    } else if a.RoleAdd? {
    } else if a.RoleEdit? {
    } else if a.RoleDel? {
    } else if a.OpLog? {
    } else {
    }
  }

  lemma ConstantNameInjective(a: Authority, b: Authority)
    requires ConstantName(a) == ConstantName(b)
    ensures a == b
  {
  }

  /** Each code resolves to its own constant. */
  lemma ResolveCode(a: Authority)
    ensures Resolve(Code(a)) == Some(a)
  {
    ConstantNameIsUpperCode(a);
    var r := Resolve(Code(a));
    ConstantNameInjective(r.value, a);
  }

  /** A character of a constant name: an upper-case ASCII letter or the underscore. */
  predicate NameChar(c: char) {
    'A' <= c <= 'Z' || c == '_'
  }

  lemma ConstantNameChars(a: Authority)
    ensures forall i :: 0 <= i < |ConstantName(a)| ==> NameChar(ConstantName(a)[i])
    ensures ConstantName(a) != []
  {
  }

  /** A character that upper-cases to a name character is neither blank, nor a control or space, nor a comma. */
  lemma CodeChar(c: char)
    requires NameChar(UpperChar(c))
    ensures !IsBlankChar(c) && !IsJavaTrimmed(c) && c != ','
  {
  }

  /**
   * Every code `resolve` accepts is non-empty, has no comma and no blank character, and
   * is left unchanged by both trims: the form in which codes are stored and split back.
   */
  lemma ResolvedCodeShape(code: string)
    requires Resolve(code).Some?
    ensures code != [] && ',' !in code && !IsBlank(code) && IsTrimmed(code)
    ensures JavaTrim(code) == code
    ensures forall i :: 0 <= i < |code| ==> !IsBlankChar(code[i]) && !IsJavaTrimmed(code[i])
  {
    var a := Resolve(code).value;
    ConstantNameChars(a);
    forall i | 0 <= i < |code|
      ensures !IsBlankChar(code[i]) && !IsJavaTrimmed(code[i]) && code[i] != ','
    {
      assert UpperChar(code[i]) == ConstantName(a)[i];
      CodeChar(code[i]);
    }
    assert !IsBlankChar(code[0]);
    JavaTrimNoControlEnds(code);
  }

  /** `resolve` ignores case: a code and its upper-cased form resolve alike. */
  lemma ResolveIgnoresCase(code: string)
    ensures Resolve(ToUpper(code)) == Resolve(code)
  {
    ToUpperIdempotent(code);
  }

  /** `isSubNode` throws exactly when one of its codes does not resolve, the parent checked first. */
  lemma IsSubNodeThrows(parentCode: string, checkedCode: string)
    ensures IsSubNode(parentCode, checkedCode).Failure?
        <==> Resolve(parentCode).None? || Resolve(checkedCode).None?
    ensures Resolve(parentCode).None? ==>
        IsSubNode(parentCode, checkedCode) == Failure(IllegalArgument("无法识别 parentCode: " + parentCode))
  {
  }

  /** Over known codes, `isSubNode(p, c)` is "c is a proper descendant of p" in the tree. */
  lemma IsSubNodeMeansDescendant(parentCode: string, checkedCode: string)
    requires Resolve(parentCode).Some? && Resolve(checkedCode).Some?
    ensures IsSubNode(parentCode, checkedCode)
        == Success(IsAncestor(Resolve(parentCode).value, Resolve(checkedCode).value))
  {
    BelowIffAncestor(Resolve(parentCode).value, Resolve(checkedCode).value);
  }

  /** `isSubNode` on two constants' own codes is the ancestor relation between them. */
  lemma CodeSubNode(a: Authority, b: Authority)
    ensures IsSubNode(Code(a), Code(b)) == Success(IsAncestor(a, b))
  {
    ResolveCode(a);
    ResolveCode(b);
    IsSubNodeMeansDescendant(Code(a), Code(b));
  }

  /** No known code is a sub-node of itself. */
  lemma IsSubNodeIrreflexive(code: string)
    requires Resolve(code).Some?
    ensures IsSubNode(code, code) == Success(false)
  {
    BelowIrreflexive(Id(Resolve(code).value));
  }

  lemma IsSubNodeTransitive(a: string, b: string, c: string)
    requires IsSubNode(a, b) == Success(true) && IsSubNode(b, c) == Success(true)
    ensures IsSubNode(a, c) == Success(true)
  {
    BelowTrans(Id(Resolve(c).value), Id(Resolve(b).value), Id(Resolve(a).value));
  }

  lemma IsSubNodeAntisymmetric(a: string, b: string)
    ensures !(IsSubNode(a, b) == Success(true) && IsSubNode(b, a) == Success(true))
  {
    if Resolve(a).Some? && Resolve(b).Some? {
      BelowAntisymmetric(Id(Resolve(a).value), Id(Resolve(b).value));
    }
  }

  /** The root is above every other constant. */
  lemma {:induction false} RootIsAncestor(a: Authority)
    requires a != Root
    ensures IsAncestor(Root, a)
    decreases Depth(a)
  {
    var q := Parent(a).value;
    if q != Root {
      RootIsAncestor(q);
    }
  }

  /** `isSubNode("root", c)` holds for every code of a non-root constant. */
  lemma RootCoversAll(checkedCode: string)
    requires Resolve(checkedCode).Some? && Resolve(checkedCode).value != Root
    ensures IsSubNode("root", checkedCode) == Success(true)
  {
    ResolveCode(Root);
    RootIsAncestor(Resolve(checkedCode).value);
    IsSubNodeMeansDescendant("root", checkedCode);
  }

  /** `x` is `a` or lies below it. */
  predicate InSubtree(a: Authority, x: Authority) {
    x == a || IsAncestor(a, x)
  }

  lemma {:induction false} AncestorTransitive(p: Authority, q: Authority, c: Authority)
    requires IsAncestor(p, q) && IsAncestor(q, c)
    ensures IsAncestor(p, c)
    decreases Depth(c)
  {
    var r := Parent(c).value;
    if r != q {
      AncestorTransitive(p, q, r);
    }
  }

  /** The ancestors of one constant lie on one line: any two of them are related. */
  lemma {:induction false} AncestorsComparable(p: Authority, q: Authority, c: Authority)
    requires IsAncestor(p, c) && IsAncestor(q, c)
    ensures p == q || IsAncestor(p, q) || IsAncestor(q, p)
    decreases Depth(c)
  {
    var r := Parent(c).value;
    if r != p && r != q {
      AncestorsComparable(p, q, r);
    }
  }

  /**
   * Sibling subtrees are unrelated: for two different constants `a` and `b` under the
   * same parent, no code in `a`'s subtree is a sub-node of a code in `b`'s subtree.
   */
  lemma SiblingSubtreesUnrelated(a: Authority, b: Authority, x: Authority, y: Authority)
    requires a != b && Parent(a).Some? && Parent(a) == Parent(b)
    requires InSubtree(a, x) && InSubtree(b, y)
    ensures IsSubNode(Code(x), Code(y)) == Success(false)
  {
    CodeSubNode(x, y);
    SiblingSubtreesApart(a, b, x, y);
  }

  /** The tree fact behind it: nothing in `a`'s subtree is an ancestor of anything in `b`'s. */
  lemma SiblingSubtreesApart(a: Authority, b: Authority, x: Authority, y: Authority)
    requires a != b && Parent(a).Some? && Parent(a) == Parent(b)
    requires InSubtree(a, x) && InSubtree(b, y)
    ensures !IsAncestor(x, y)
  {
    assert Depth(Parent(a).value) + 1 == Depth(a);
    assert Depth(Parent(b).value) + 1 == Depth(b);
    UnrelatedToSibling(a, b, x);
    NotAboveSubtree(b, x, y);
  }

  /** A constant in the subtree of `a` is neither `b`, nor above it, nor below it, when `a` and `b` are distinct and equally deep. */
  lemma UnrelatedToSibling(a: Authority, b: Authority, x: Authority)
    requires a != b && Depth(a) == Depth(b) && InSubtree(a, x)
    ensures x != b && !IsAncestor(x, b) && !IsAncestor(b, x)
  {
    SiblingsUnordered(a, b);
    if x != a {
      if IsAncestor(x, b) {
        AncestorTransitive(a, x, b);
      }
      if IsAncestor(b, x) {
        AncestorsComparable(a, b, x);
      }
    }
  }

  /** A constant unrelated to `b` is an ancestor of nothing in `b`'s subtree. */
  lemma NotAboveSubtree(b: Authority, x: Authority, y: Authority)
    requires InSubtree(b, y) && x != b && !IsAncestor(x, b) && !IsAncestor(b, x)
    ensures !IsAncestor(x, y)
  {
    if y != b && IsAncestor(x, y) {
      AncestorsComparable(x, b, y);
    }
  }

  lemma SiblingsUnordered(a: Authority, b: Authority)
    requires Depth(a) == Depth(b)
    ensures !IsAncestor(a, b) && !IsAncestor(b, a)
  {
    if IsAncestor(a, b) {
      AncestorShallower(a, b);
    }
    if IsAncestor(b, a) {
      AncestorShallower(b, a);
    }
  }

  // ---------------------------------------------------------------------
  // getHierarchy

  /** One line of Spring Security's role-hierarchy text. */
  function Line(parent: Authority, child: Authority): string {
    Code(parent) + " > " + Code(child) + "\n"
  }

  /** The `parent > child` edges of the role hierarchy, in the order `getHierarchy` lists them. */
  const HierarchyEdges: seq<(Authority, Authority)> := [
    (Root, User), (User, UserView), (User, UserAdd), (User, UserEdit), (User, UserDel), (User, UserReset),
    (Root, Role), (Role, RoleView), (Role, RoleAdd), (Role, RoleEdit), (Role, RoleDel),
    (Root, OpLog), (OpLog, OpLogView)
  ]

  /** The hierarchy text of the first `n` edges: their lines, in order. */
  function RenderFirst(edges: seq<(Authority, Authority)>, n: nat): string
    requires n <= |edges|
  {
    if n == 0 then "" else RenderFirst(edges, n - 1) + Line(edges[n - 1].0, edges[n - 1].1)
  }

  /** The hierarchy text of an edge list. */
  function Render(edges: seq<(Authority, Authority)>): string {
    RenderFirst(edges, |edges|)
  }

  /**
   * `getHierarchy()`: the source concatenates, for each edge in the order above, the
   * parent's code, `" > "`, the child's code and a newline.
   */
  function GetHierarchy(): string {
    Render(HierarchyEdges)
  }

  /** Distinct positions of `values()` hold distinct constants. */
  lemma ValuesDistinct()
    ensures forall i, j :: 0 <= i < j < |Values| ==> Values[i] != Values[j]
  {
  }

  /**
   * The edges are the tree: each links a constant to its parent, so that the child's
   * parentId is the parent's id, and the children are the non-root constants in
   * declaration order, so each of them heads exactly one line.
   */
  lemma HierarchyEdgesAreTree()
    ensures |HierarchyEdges| == |Values| - 1 == 13
    ensures forall i :: 0 <= i < |HierarchyEdges| ==> HierarchyEdges[i].1 == Values[i + 1]
    ensures forall i :: 0 <= i < |HierarchyEdges| ==>
      Parent(HierarchyEdges[i].1) == Some(HierarchyEdges[i].0)
      && ParentId(HierarchyEdges[i].1) == Id(HierarchyEdges[i].0)
  {
  }
}
