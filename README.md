# jakarta admin backend — a Dafny model

This project models the core of the `spring-boot-web` admin backend and the
`SwitchExpression` demo from the `vanilla` module. The backend is a Spring Boot
service with users, roles and permission codes. The model covers:

- **Permission trees.** The `Auth` and `Authority` enums are modelled as a tree of
  constants with ids such as `1`, `1.1`, `1.1.2`. Each constant has a snake-case code
  (`user_view`) that `resolve` maps back to its constant, ignoring case. `isSubNode`
  decides whether one code lies below another. For `Auth` this includes the code itself;
  for `Authority` it is strict. Both throw on a code they cannot resolve.
- **The role hierarchy.** Each role row stores a *full path*: its parent's path, a dot,
  and its own id (`1.5.9`). A user may see, create, change and delete only the roles
  strictly below their own role, and only the users holding such roles.
  `RoleService.toSanitize` turns a requested authority list into the stored
  comma-separated text. It trims the entries, drops blank ones, checks that each code is
  known and granted to the caller, removes duplicates, and keeps only codes that no other
  requested code covers.
- **Token sessions.** `TokenService` signs and parses HS256 JWTs. `AuthServiceImpl`
  issues an access/refresh pair and caches the session under the username. The token
  authenticators accept a request only while its access token is legal, is of the access
  type, and is still the one cached; the older `AuthService`/shared `TokenAuthImpl` pair
  follows the same pattern. `TokenAuthFilter` reads the `Bearer` header.
- **Database tables.** The role and user tables behind the MyBatis mappers form one
  `Database` class. Its fields are maps that the mapper methods reassign, including the
  bulk rewrites `updateFullPathByFullPathLike` and `updateParentNameByParentId`.
- **Helpers.**
  - the `LIKE` value of fuzzy queries (`StringUtils.toNullableLikeValue`);
  - the machine code (upper-case hex of the MAC address's bytes in the default
    charset, which the model takes to be UTF-8);
  - page offsets;
  - parsing of the public-API list;
  - `FileUtils.join` and the MIME checks;
  - the enum validator and the MyBatis enum type handler;
  - the SPA fallback `NotFoundController`.

Code made of expressions is modelled as functions and lemmas. Objects whose fields the
source updates are modelled as classes, with `modifies` frames stating their whole new
state:

- the session cache and the `AuthData` bean;
- the database;
- the services that own them;
- the enum validator and the pagination parameters;
- the query DTO that `setFuzzyQueryParams` rewrites.

Each service method is specified by a *plan* function. The plan returns the error the
source throws, or exactly what will be written, and the lemmas about the plans carry
the access rules. The tree invariant `RoleTree.Consistent` is the model's own statement
of what the full paths mean:

- every path is the parent's path, a dot, and the role's id;
- a root role's path is its id.

It is proved to be preserved by adding, moving and deleting a role.

External effects become parameters:

- the current time (`nowMs`);
- the signing key;
- the bcrypt salt, which stands for the encoder's randomness;
- the signed-in user (`Actor`, taken from the security context);
- the platform file separator;
- the MAC address;
- the request headers and the index-page resource.

`shared/security/WebSecurityProps.java:59-79` repeats the list-parsing logic of
`SecurityProps.parsePublicApis`. `PublicApis` models both.

## Model

| member | source | states |
|---|---|---|
| Auth.Parent | spring-boot-web/src/main/java/net/wuxianjie/springbootweb/auth/Auth.java:40-55 | only the root constant has no parent; a parent sits one level higher |
| Auth.Find | spring-boot-web/src/main/java/net/wuxianjie/springbootweb/auth/Auth.java:152 | `valueOf`: the constant found has that name; none means no constant has it |
| Auth.Resolve | spring-boot-web/src/main/java/net/wuxianjie/springbootweb/auth/Auth.java:149-156 | the constant resolved is the one whose name is the upper-cased code; none exactly when no constant has that name |
| Auth.IdShape | spring-boot-web/src/main/java/net/wuxianjie/springbootweb/auth/Auth.java:40-55 | root id `1` with parent `0`; every other id is its parent's id, a dot and a digit 1-9; the id length tracks the depth |
| Auth.SiblingsDiffer | spring-boot-web/src/main/java/net/wuxianjie/springbootweb/auth/Auth.java:43-55 | two children of one parent with the same last digit are the same constant |
| Auth.IdInjective | spring-boot-web/src/main/java/net/wuxianjie/springbootweb/auth/Auth.java:40-55 | distinct constants have distinct ids |
| Auth.SelfOrBelowIffAncestor | spring-boot-web/src/main/java/net/wuxianjie/springbootweb/auth/Auth.java:139-140 | the id equals or extends the other id plus a dot exactly when that constant is the node itself or an ancestor of it |
| Auth.AuthorizeIsHasAuthority | spring-boot-web/src/main/java/net/wuxianjie/springbootweb/auth/Auth.java:40-55 | every constant's `authorize` text is `hasAuthority('<code>')` |
| Auth.ConstantNameIsUpperCode | spring-boot-web/src/main/java/net/wuxianjie/springbootweb/auth/Auth.java:40-55 | every constant's name is its code upper-cased |
| Auth.ResolveCode | spring-boot-web/src/main/java/net/wuxianjie/springbootweb/auth/Auth.java:149-156 | resolving a constant's code gives that constant back |
| Auth.ResolveIgnoresCase | spring-boot-web/src/main/java/net/wuxianjie/springbootweb/auth/Auth.java:149-156 | resolving ignores letter case |
| Auth.IsSubNodeThrows | spring-boot-web/src/main/java/net/wuxianjie/springbootweb/auth/Auth.java:127-137 | `isSubNode` fails exactly when a code does not resolve; an unknown parent code gives the `parentCode` message |
| Auth.IsSubNodeMeansSelfOrDescendant | spring-boot-web/src/main/java/net/wuxianjie/springbootweb/auth/Auth.java:127-141 | for known codes the answer is "the checked node is the parent node or below it" |
| Auth.IsSubNodeReflexive | spring-boot-web/src/main/java/net/wuxianjie/springbootweb/auth/Auth.java:139 | a known code is a sub node of itself |
| Auth.IsSubNodeTransitive | spring-boot-web/src/main/java/net/wuxianjie/springbootweb/auth/Auth.java:139-140 | sub-node answers compose |
| Auth.HierarchyEdgesAreTree | spring-boot-web/src/main/java/net/wuxianjie/springbootweb/auth/Auth.java:105-117 | the hierarchy text lists 11 edges, one per non-root constant in declaration order, each from the constant's real parent |
| Auth.ValuesDistinct | spring-boot-web/src/main/java/net/wuxianjie/springbootweb/auth/Auth.java:40-55 | `values()` has no duplicates |
| Authority.Parent | spring-boot-web/src/main/java/net/wuxianjie/springbootweb/auth/Authority.java:39-58 | only the root has no parent; a parent sits one level higher |
| Authority.AncestorShallower | spring-boot-web/src/main/java/net/wuxianjie/springbootweb/auth/Authority.java:39-58 | an ancestor is strictly shallower |
| Authority.IdShape | spring-boot-web/src/main/java/net/wuxianjie/springbootweb/auth/Authority.java:39-58 | root id `1` with parent `0`; every other id is its parent's id, a dot and a digit 1-9 |
| Authority.SiblingsDiffer | spring-boot-web/src/main/java/net/wuxianjie/springbootweb/auth/Authority.java:42-58 | children of one parent have distinct last digits |
| Authority.IdInjective | spring-boot-web/src/main/java/net/wuxianjie/springbootweb/auth/Authority.java:39-58 | distinct constants have distinct ids |
| Authority.Find | spring-boot-web/src/main/java/net/wuxianjie/springbootweb/auth/Authority.java:149 | `valueOf`: the constant found has that name; none means no constant has it |
| Authority.Resolve | spring-boot-web/src/main/java/net/wuxianjie/springbootweb/auth/Authority.java:146-153 | the constant resolved is the one whose name is the upper-cased code; none exactly when none has that name |
| Authority.BelowIffAncestor | spring-boot-web/src/main/java/net/wuxianjie/springbootweb/auth/Authority.java:136-137 | an id extends another id plus a dot exactly when that constant is a proper ancestor |
| Authority.ConstantNameIsUpperCode | spring-boot-web/src/main/java/net/wuxianjie/springbootweb/auth/Authority.java:39-58 | every constant's name is its code upper-cased |
| Authority.ConstantNameChars | spring-boot-web/src/main/java/net/wuxianjie/springbootweb/auth/Authority.java:39-58 | constant names are non-empty and made of upper-case letters and `_` |
| Authority.ResolveCode | spring-boot-web/src/main/java/net/wuxianjie/springbootweb/auth/Authority.java:146-153 | resolving a constant's code gives that constant back |
| Authority.ResolvedCodeShape | spring-boot-web/src/main/java/net/wuxianjie/springbootweb/auth/Authority.java:146-153 | a code that resolves holds no comma and no blank or control character, so trimming leaves it unchanged |
| Authority.ResolveIgnoresCase | spring-boot-web/src/main/java/net/wuxianjie/springbootweb/auth/Authority.java:146-153 | resolving ignores letter case |
| Authority.IsSubNodeThrows | spring-boot-web/src/main/java/net/wuxianjie/springbootweb/auth/Authority.java:127-135 | `isSubNode` fails exactly when a code does not resolve; an unknown parent code gives the `parentCode` message |
| Authority.IsSubNodeMeansDescendant | spring-boot-web/src/main/java/net/wuxianjie/springbootweb/auth/Authority.java:127-138 | for known codes the answer is "the parent node is a proper ancestor of the checked node" |
| Authority.CodeSubNode | spring-boot-web/src/main/java/net/wuxianjie/springbootweb/auth/Authority.java:127-138 | on constants' own codes, `isSubNode` is the ancestor relation |
| Authority.IsSubNodeIrreflexive | spring-boot-web/src/main/java/net/wuxianjie/springbootweb/auth/Authority.java:137 | no known code is a sub node of itself |
| Authority.IsSubNodeTransitive | spring-boot-web/src/main/java/net/wuxianjie/springbootweb/auth/Authority.java:137 | sub-node answers compose |
| Authority.IsSubNodeAntisymmetric | spring-boot-web/src/main/java/net/wuxianjie/springbootweb/auth/Authority.java:137 | two codes are never sub nodes of each other |
| Authority.RootIsAncestor | spring-boot-web/src/main/java/net/wuxianjie/springbootweb/auth/Authority.java:39-58 | the root is an ancestor of every other constant |
| Authority.RootCoversAll | spring-boot-web/src/main/java/net/wuxianjie/springbootweb/auth/Authority.java:127-138 | every known non-root code is a sub node of `root` |
| Authority.SiblingSubtreesUnrelated | spring-boot-web/src/main/java/net/wuxianjie/springbootweb/auth/Authority.java:42-58 | for two different constants under one parent, no code in one's subtree is a sub-node of a code in the other's |
| Authority.SiblingSubtreesApart | spring-boot-web/src/main/java/net/wuxianjie/springbootweb/auth/Authority.java:39-58 | no constant in one sibling's subtree is an ancestor of a constant in the other's |
| Authority.AncestorTransitive | spring-boot-web/src/main/java/net/wuxianjie/springbootweb/auth/Authority.java:39-58 | the ancestor relation composes |
| Authority.AncestorsComparable | spring-boot-web/src/main/java/net/wuxianjie/springbootweb/auth/Authority.java:39-58 | two ancestors of one constant are equal or one is above the other |
| Authority.UnrelatedToSibling | spring-boot-web/src/main/java/net/wuxianjie/springbootweb/auth/Authority.java:39-58 | a constant under one sibling is not the other sibling, nor above or below it |
| Authority.NotAboveSubtree | spring-boot-web/src/main/java/net/wuxianjie/springbootweb/auth/Authority.java:39-58 | a constant unrelated to `b` is above nothing in `b`'s subtree |
| Authority.SiblingsUnordered | spring-boot-web/src/main/java/net/wuxianjie/springbootweb/auth/Authority.java:39-58 | of two equally deep constants neither is above the other |
| Authority.HierarchyEdgesAreTree | spring-boot-web/src/main/java/net/wuxianjie/springbootweb/auth/Authority.java:69-83 | the hierarchy text lists 13 edges, one per non-root constant in declaration order, each from its real parent |
| Authority.ValuesDistinct | spring-boot-web/src/main/java/net/wuxianjie/springbootweb/auth/Authority.java:39-58 | `values()` has no duplicates |
| AccountStatus.FindByCode | spring-boot-web/src/main/java/net/wuxianjie/springbootweb/auth/AccountStatus.java:51-54 | the status found has the code; none means no status has it |
| AccountStatus.Resolve | spring-boot-web/src/main/java/net/wuxianjie/springbootweb/auth/AccountStatus.java:49-55 | a status is found exactly for a present code some status carries, and it carries that code |
| AccountStatus.ResolveCodes | spring-boot-web/src/main/java/net/wuxianjie/springbootweb/auth/AccountStatus.java:49-55 | 0 is disabled, 1 is enabled; null and every other code give nothing |
| AccountStatus.ResolveOwnCode | spring-boot-web/src/main/java/net/wuxianjie/springbootweb/auth/AccountStatus.java:25-30 | every status resolves from its own code |
| AuthDto.AuthData.FromRow | spring-boot-web/src/main/java/net/wuxianjie/springbootweb/auth/dto/AuthData.java:59-74 | the constructor copies the row and splits the stored authorities; no tokens yet |
| AuthDto.AuthData.SetAccessToken | spring-boot-web/src/main/java/net/wuxianjie/springbootweb/auth/dto/AuthData.java:50-52 | only the access token changes |
| AuthDto.AuthData.SetRefreshToken | spring-boot-web/src/main/java/net/wuxianjie/springbootweb/auth/dto/AuthData.java:53-56 | only the refresh token changes |
| AuthDto.FromRowClean | spring-boot-web/src/main/java/net/wuxianjie/springbootweb/auth/dto/AuthData.java:73 | the split authorities are non-empty, trimmed and comma-free |
| RoleDto.FromRow | spring-boot-web/src/main/java/net/wuxianjie/springbootweb/role/dto/RoleBaseInfo.java:55-74 | copies the row; the authority list is the stored text split on `,`, each piece trimmed and empty pieces dropped, so its entries are non-empty, trimmed and comma-free, and a null column gives the empty list |
| RoleDto.EmptyStoredList | spring-boot-web/src/main/java/net/wuxianjie/springbootweb/role/dto/RoleBaseInfo.java:73 | an empty stored text reads as no authorities |
| RoleDto.StoredListRoundTrip | spring-boot-web/src/main/java/net/wuxianjie/springbootweb/role/dto/RoleBaseInfo.java:73 | a clean list joined by commas reads back as the same list |
| TimedCaches.TimedCache.Put | spring-boot-web/src/main/java/net/wuxianjie/springbootweb/auth/AuthServiceImpl.java:134 | the key now maps to the value; other keys unchanged |
| Passwords.MatchesEncode | spring-boot-web/src/main/java/net/wuxianjie/springbootweb/auth/AuthServiceImpl.java:48 | the encoder's digest matches its raw password |
| Passwords.MatchesOnlyOwn | spring-boot-web/src/main/java/net/wuxianjie/springbootweb/auth/AuthServiceImpl.java:48 | a digest matches no other password |
| Passwords.EncodeIsNotRaw | spring-boot-web/src/main/java/net/wuxianjie/springbootweb/user/UserService.java:111-112 | the stored digest is never the raw password |
| Mappers.PatchRole | spring-boot-web/src/main/java/net/wuxianjie/springbootweb/role/RoleMapper.java:32 | each field present in the patch is written and each absent one keeps its stored value; the id is kept |
| Mappers.PatchUser | spring-boot-web/src/main/java/net/wuxianjie/springbootweb/user/UserMapper.java:44 | each field present in the patch is written and each absent one keeps its stored value; the id and username are kept |
| Mappers.RewriteFullPaths | spring-boot-web/src/main/java/net/wuxianjie/springbootweb/role/RoleMapper.java:39-42 | every path starting with the old prefix gets the new prefix; the rest is unchanged; the same ids |
| Mappers.RewriteKeepsBelow | spring-boot-web/src/main/java/net/wuxianjie/springbootweb/role/RoleMapper.java:39-42 | the prefix rewrite keeps which paths lie below which |
| Mappers.RenameChildren | spring-boot-web/src/main/java/net/wuxianjie/springbootweb/role/RoleMapper.java:34-37 | exactly the children of the parent get the new parent name |
| Mappers.Database.SelectRoleByUserId | spring-boot-web/src/main/java/net/wuxianjie/springbootweb/role/RoleMapper.java:20 | the role of the user, present exactly when user and role exist |
| Mappers.Database.InsertRole | spring-boot-web/src/main/java/net/wuxianjie/springbootweb/role/RoleMapper.java:30 | the row is stored under the next id, which is returned; the counter advances |
| Mappers.Database.UpdateRole | spring-boot-web/src/main/java/net/wuxianjie/springbootweb/role/RoleMapper.java:32 | the row with the patch's id gets the patch's fields; nothing else changes |
| Mappers.Database.UpdateParentNameByParentId | spring-boot-web/src/main/java/net/wuxianjie/springbootweb/role/RoleMapper.java:34-37 | the role table becomes `RenameChildren` of the old |
| Mappers.Database.UpdateFullPathByFullPathLike | spring-boot-web/src/main/java/net/wuxianjie/springbootweb/role/RoleMapper.java:39-42 | the role table becomes `RewriteFullPaths` of the old |
| Mappers.Database.DeleteRoleById | spring-boot-web/src/main/java/net/wuxianjie/springbootweb/role/RoleMapper.java:44 | the role is removed; nothing else changes |
| Mappers.Database.SelectRoleFullPathById | spring-boot-web/src/main/java/net/wuxianjie/springbootweb/user/UserMapper.java:27 | the full path of the user's role, present exactly when both exist |
| Mappers.Database.InsertUser | spring-boot-web/src/main/java/net/wuxianjie/springbootweb/user/UserMapper.java:42 | the row is stored under the next id; the counter advances |
| Mappers.Database.UpdateUser | spring-boot-web/src/main/java/net/wuxianjie/springbootweb/user/UserMapper.java:44 | the user gets the patch's fields; nothing else changes |
| Mappers.Database.DeleteUserById | spring-boot-web/src/main/java/net/wuxianjie/springbootweb/user/UserMapper.java:46 | the user is removed; nothing else changes |
| Mappers.Database.SelectAuthByUsername | spring-boot-web/src/main/java/net/wuxianjie/springbootweb/auth/AuthMapper.java:14 | a row exactly when the username exists, and it is that user's row |
| Mappers.Database.Rollback | spring-boot-web/src/main/java/net/wuxianjie/springbootweb/role/RoleService.java:81 | `@Transactional`: the tables return to the saved state |
| TokenService.DecodeEncode | spring-boot-web/src/main/java/net/wuxianjie/springbootweb/auth/TokenService.java:72-73 | decoding an encoded token gives it back |
| TokenService.EncodeInjective | spring-boot-web/src/main/java/net/wuxianjie/springbootweb/auth/TokenService.java:54-64 | distinct tokens encode to distinct texts |
| TokenService.SignKeyInjective | spring-boot-web/src/main/java/net/wuxianjie/springbootweb/auth/TokenService.java:36-37 | the same claims signed with two keys give the same signature only when the keys are equal |
| TokenService.GetPayload | spring-boot-web/src/main/java/net/wuxianjie/springbootweb/auth/TokenService.java:75 | a claim is found exactly when one with that name is present |
| TokenService.PayloadClaimsLookup | spring-boot-web/src/main/java/net/wuxianjie/springbootweb/auth/TokenService.java:54-64 | a created token carries username, type, issuer and expiry as claims |
| TokenService.ReadPayloadClaims | spring-boot-web/src/main/java/net/wuxianjie/springbootweb/auth/TokenService.java:72-107 | reading the claims of a payload back gives the payload |
| TokenService.DecodeCreateToken | spring-boot-web/src/main/java/net/wuxianjie/springbootweb/auth/TokenService.java:54-64 | a created token decodes to HS256, the payload's claims and their signature |
| TokenService.ParseCreateToken | spring-boot-web/src/main/java/net/wuxianjie/springbootweb/auth/TokenService.java:54-107 | `parse(createToken(p))` is `p` |
| TokenService.CreatedTokenLegal | spring-boot-web/src/main/java/net/wuxianjie/springbootweb/auth/TokenService.java:34-46 | a token created with the key is legal exactly until its expiry second |
| TokenService.LegalUntilExpiry | spring-boot-web/src/main/java/net/wuxianjie/springbootweb/auth/TokenService.java:34-46 | any token that decodes to a signed payload is legal exactly until its expiry |
| TokenService.LegalOfDecoded | spring-boot-web/src/main/java/net/wuxianjie/springbootweb/auth/TokenService.java:34-46 | legal means HS256, the key's signature, and an unexpired date |
| TokenService.DateValidOf | spring-boot-web/src/main/java/net/wuxianjie/springbootweb/auth/TokenService.java:36-38 | the date check compares the current second with `exp` |
| TokenService.OtherKeyIllegal | spring-boot-web/src/main/java/net/wuxianjie/springbootweb/auth/TokenService.java:34-46 | a token signed with another key is never legal |
| TokenService.ParseIgnoresLegality | spring-boot-web/src/main/java/net/wuxianjie/springbootweb/auth/TokenService.java:72-73 | `parse` reads forged or expired tokens too, so legality must be checked first |
| TokenService.CreateTokenInjective | spring-boot-web/src/main/java/net/wuxianjie/springbootweb/auth/TokenService.java:54-64 | distinct payloads give distinct tokens |
| TokenService.ParseMissingClaim | spring-boot-web/src/main/java/net/wuxianjie/springbootweb/auth/TokenService.java:75-105 | a token lacking any of the four claims fails with its message |
| AuthServiceImpl.TokenPairReadsBack | spring-boot-web/src/main/java/net/wuxianjie/springbootweb/auth/AuthServiceImpl.java:109-130 | both tokens parse back to their payloads, differ, and stay legal for 1800 seconds |
| AuthServiceImpl.SameSecondSamePair | spring-boot-web/src/main/java/net/wuxianjie/springbootweb/auth/AuthServiceImpl.java:109-111 | two logins in the same second get the same pair |
| AuthServiceImpl.RefreshPayload | spring-boot-web/src/main/java/net/wuxianjie/springbootweb/auth/AuthServiceImpl.java:64-77 | accepted exactly when the token is legal and of refresh type |
| AuthServiceImpl.IssuedRefreshTokenPasses | spring-boot-web/src/main/java/net/wuxianjie/springbootweb/auth/AuthServiceImpl.java:64-77 | an issued token passes exactly when it is a refresh token and unexpired |
| AuthServiceImpl.LoginCheck | spring-boot-web/src/main/java/net/wuxianjie/springbootweb/auth/AuthServiceImpl.java:39-50 | login passes exactly for a known, not disabled account with the right password; every failure is a 401 |
| AuthServiceImpl.WrongPasswordLooksLikeUnknownUser | spring-boot-web/src/main/java/net/wuxianjie/springbootweb/auth/AuthServiceImpl.java:39-50 | a wrong password answers as an unknown user does |
| AuthServiceImpl.RightPasswordLogsIn | spring-boot-web/src/main/java/net/wuxianjie/springbootweb/auth/AuthServiceImpl.java:42-50 | the right password logs in, unless the account is disabled |
| AuthServiceImpl.AuthServiceImpl.RefreshChecked | spring-boot-web/src/main/java/net/wuxianjie/springbootweb/auth/AuthServiceImpl.java:64-95 | a refresh that passes comes from an accepted refresh token for that user |
| AuthServiceImpl.AuthServiceImpl.GetToken | spring-boot-web/src/main/java/net/wuxianjie/springbootweb/auth/AuthServiceImpl.java:34-62 | on failure nothing is cached; on success the lower-cased username maps to a fresh session with the new pair; an issued access token authenticates |
| AuthServiceImpl.AuthServiceImpl.UpdateToken | spring-boot-web/src/main/java/net/wuxianjie/springbootweb/auth/AuthServiceImpl.java:64-107 | on failure the cache is unchanged; on success a fresh session replaces the user's; a superseded refresh token is refused |
| AuthServiceImpl.AuthServiceImpl.StartSession | spring-boot-web/src/main/java/net/wuxianjie/springbootweb/auth/AuthServiceImpl.java:55-59 | the user maps to a fresh session with the row and the tokens; the response mirrors it |
| AuthServiceImpl.AuthServiceImpl.AddLoginCache | spring-boot-web/src/main/java/net/wuxianjie/springbootweb/auth/AuthServiceImpl.java:132-147 | the session is cached under its username and the response copies it |
| AuthServiceLegacy.LegacyLoginCheck | spring-boot-web/src/main/java/net/wuxianjie/springbootweb/auth/AuthService.java:40-47 | passes exactly for a known user with the right password |
| AuthServiceLegacy.LegacyLoginFailuresAlike | spring-boot-web/src/main/java/net/wuxianjie/springbootweb/auth/AuthService.java:40-47 | every failed login answers like an unknown user |
| AuthServiceLegacy.DisabledAccountLogsIn | spring-boot-web/src/main/java/net/wuxianjie/springbootweb/auth/AuthService.java:38-47 | this variant does not check the account status |
| AuthServiceLegacy.AuthService.RefreshChecked | spring-boot-web/src/main/java/net/wuxianjie/springbootweb/auth/AuthService.java:92-116 | a refresh that passes comes from an accepted refresh token |
| AuthServiceLegacy.AuthService.GetToken | spring-boot-web/src/main/java/net/wuxianjie/springbootweb/auth/AuthService.java:38-88 | on failure nothing is cached; on success the session record is cached and the response built from it |
| AuthServiceLegacy.AuthService.UpdateToken | spring-boot-web/src/main/java/net/wuxianjie/springbootweb/auth/AuthService.java:90-154 | the same for refresh; a superseded refresh token is refused |
| TokenAuthImpl.Authenticate | spring-boot-web/src/main/java/net/wuxianjie/springbootweb/auth/TokenAuthImpl.java:25-56 | succeeds exactly for a legal access token that is the cached one of an account that is not disabled, and returns that session |
| TokenAuthImpl.IssuedAccessTokenAuthenticates | spring-boot-web/src/main/java/net/wuxianjie/springbootweb/auth/TokenAuthImpl.java:25-56 | the cached, unexpired access token of an enabled account authenticates |
| TokenAuthImpl.RefreshTokenRejected | spring-boot-web/src/main/java/net/wuxianjie/springbootweb/auth/TokenAuthImpl.java:37-39 | a refresh token is refused |
| TokenAuthImpl.SupersededTokenRejected | spring-boot-web/src/main/java/net/wuxianjie/springbootweb/auth/TokenAuthImpl.java:45-48 | a token other than the cached one is refused |
| TokenAuthImpl.LoggedOutTokenRejected | spring-boot-web/src/main/java/net/wuxianjie/springbootweb/auth/TokenAuthImpl.java:41-43 | a token of an uncached user is refused |
| TokenAuthImpl.DisabledAccountRejected | spring-boot-web/src/main/java/net/wuxianjie/springbootweb/auth/TokenAuthImpl.java:50-53 | a disabled account is refused |
| SharedTokenAuth.Authenticate | spring-boot-web/src/main/java/net/wuxianjie/springbootweb/shared/security/TokenAuthImpl.java:27-62 | an illegal token gives `非法 Token`; a missing username or type claim `错误 Token`; a type other than access `API 鉴权请使用 Access Token`; no record under the username `Token 已被失效`; a record holding another token `Token 已被更新`; it succeeds exactly otherwise, with the record cached under the username |
| SharedTokenAuth.IssuedAccessTokenAuthenticates | spring-boot-web/src/main/java/net/wuxianjie/springbootweb/shared/security/TokenAuthImpl.java:27-62 | the cached, unexpired access token authenticates |
| SharedTokenAuth.RefreshTokenRejected | spring-boot-web/src/main/java/net/wuxianjie/springbootweb/shared/security/TokenAuthImpl.java:48-51 | a refresh token is refused |
| SharedTokenAuth.SupersededTokenRejected | spring-boot-web/src/main/java/net/wuxianjie/springbootweb/shared/security/TokenAuthImpl.java:57-59 | a token other than the cached one is refused |
| SharedTokenAuth.MissingUsernameRejected | spring-boot-web/src/main/java/net/wuxianjie/springbootweb/shared/security/TokenAuthImpl.java:40-42 | a legal token without a username is refused |
| TokenAuthFilter.HeaderIgnoreCase | spring-boot-web/src/main/java/net/wuxianjie/springbootweb/auth/TokenAuthFilter.java:52-54 | the first header whose name matches ignoring case, or none |
| TokenAuthFilter.DoFilter | spring-boot-web/src/main/java/net/wuxianjie/springbootweb/auth/TokenAuthFilter.java:46-86 | no header passes anonymously; a principal comes only from a `Bearer` header that authenticates; a refusal carries the bad-scheme reason or the message `authenticate` gave |
| TokenAuthFilter.BadSchemeRejected | spring-boot-web/src/main/java/net/wuxianjie/springbootweb/auth/TokenAuthFilter.java:62-66 | a header without the `Bearer ` prefix is refused |
| TokenAuthFilter.BearerTokenAuthenticated | spring-boot-web/src/main/java/net/wuxianjie/springbootweb/auth/TokenAuthFilter.java:68-85 | for any header list whose first `Authorization` header, matched ignoring case, is `Bearer <token>`, the request passes with the authenticated session or is refused with `authenticate`'s message |
| RoleSanitize.AnyGrants | spring-boot-web/src/main/java/net/wuxianjie/springbootweb/role/RoleService.java:315-325 | true means some owned code covers the code; false, none does; failure only for unknown codes |
| RoleSanitize.CheckSubordinate | spring-boot-web/src/main/java/net/wuxianjie/springbootweb/role/RoleService.java:315-330 | success means some owned code covers it; otherwise unknown code or forbidden |
| RoleSanitize.CheckSubordinateKnown | spring-boot-web/src/main/java/net/wuxianjie/springbootweb/role/RoleService.java:315-330 | for known codes success is exactly "covered by an owned code" |
| RoleSanitize.Cleaned | spring-boot-web/src/main/java/net/wuxianjie/springbootweb/role/RoleService.java:289-297 | no more cleaned entries than requested ones (order and content: `CleanedConcat`, `CleanedOne`) |
| RoleSanitize.CleanedConcat | spring-boot-web/src/main/java/net/wuxianjie/springbootweb/role/RoleService.java:289-297 | cleaning works entry by entry in request order: the entries of `a + b` clean to those of `a` followed by those of `b` |
| RoleSanitize.CleanedOne | spring-boot-web/src/main/java/net/wuxianjie/springbootweb/role/RoleService.java:289-297 | a blank entry is dropped, any other becomes its `String.trim` |
| RoleSanitize.CleanedFromRequest | spring-boot-web/src/main/java/net/wuxianjie/springbootweb/role/RoleService.java:289-297 | each cleaned entry is a requested one that was not blank, trimmed |
| RoleSanitize.CheckAll | spring-boot-web/src/main/java/net/wuxianjie/springbootweb/role/RoleService.java:289-297 | passes exactly when every code passes; else the first failing code's error |
| RoleSanitize.Distinct | spring-boot-web/src/main/java/net/wuxianjie/springbootweb/role/RoleService.java:298 | the same members, each once, ordered by their first occurrence in the input |
| RoleSanitize.IndexOfPrefix | spring-boot-web/src/main/java/net/wuxianjie/springbootweb/role/RoleService.java:298 | an element of `a` is first found in `a + b` where it is first found in `a` |
| RoleSanitize.DistinctOfDistinct | spring-boot-web/src/main/java/net/wuxianjie/springbootweb/role/RoleService.java:298 | a duplicate-free list is unchanged |
| RoleSanitize.HasAncestorIn | spring-boot-web/src/main/java/net/wuxianjie/springbootweb/role/RoleService.java:303-310 | true means some listed code is above it; false, none is |
| RoleSanitize.HasAncestorInKnown | spring-boot-web/src/main/java/net/wuxianjie/springbootweb/role/RoleService.java:303-310 | for known codes, exactly "some listed code is above it" |
| RoleSanitize.KeepRoots | spring-boot-web/src/main/java/net/wuxianjie/springbootweb/role/RoleService.java:302-311 | keeps exactly the codes no listed code is above, in their order in the list |
| RoleSanitize.KeepAllRoots | spring-boot-web/src/main/java/net/wuxianjie/springbootweb/role/RoleService.java:302-311 | codes with nothing above them are all kept |
| RoleSanitize.SanitizedList | spring-boot-web/src/main/java/net/wuxianjie/springbootweb/role/RoleService.java:288-312 | a failing ownership check decides the error; once it passes only `权限代码不合法` can follow, and never when every code is known; the result keeps the order of the distinct cleaned codes |
| RoleSanitize.Sanitize | spring-boot-web/src/main/java/net/wuxianjie/springbootweb/role/RoleService.java:277-313 | null stays null; an empty list gives the empty text; any other list is stored as the comma-join of the roots of its distinct cleaned codes, in first-seen order, or fails with the list's error |
| RoleSanitize.SanitizedListSound | spring-boot-web/src/main/java/net/wuxianjie/springbootweb/role/RoleService.java:288-312 | every cleaned code is known and granted; the result lists the roots of the distinct codes, once each, in their order |
| RoleSanitize.SubseqMembers | spring-boot-web/src/main/java/net/wuxianjie/springbootweb/role/RoleService.java:302-311 | what a filter keeps was in the list |
| RoleSanitize.SubseqUnique | spring-boot-web/src/main/java/net/wuxianjie/springbootweb/role/RoleService.java:302-311 | over a duplicate-free list, two order-keeping selections with the same members are equal |
| RoleSanitize.RootsUnique | spring-boot-web/src/main/java/net/wuxianjie/springbootweb/role/RoleService.java:302-311 | the roots of a duplicate-free list form one determined list |
| RoleSanitize.RootsCover | spring-boot-web/src/main/java/net/wuxianjie/springbootweb/role/RoleService.java:301-312 | every requested code lies at or below a kept root |
| RoleSanitize.SanitizedListReadsBack | spring-boot-web/src/main/java/net/wuxianjie/springbootweb/role/dto/RoleBaseInfo.java:73 | the stored text reads back as the sanitized list |
| RoleSanitize.CleanedOfKnown | spring-boot-web/src/main/java/net/wuxianjie/springbootweb/role/RoleService.java:289-297 | known codes survive cleaning unchanged |
| RoleSanitize.CleanedOfClean | spring-boot-web/src/main/java/net/wuxianjie/springbootweb/role/RoleService.java:289-297 | trimmed non-blank codes survive cleaning unchanged |
| RoleSanitize.RootHasNoAncestor | spring-boot-web/src/main/java/net/wuxianjie/springbootweb/role/RoleService.java:302-311 | no root has another root above it |
| RoleSanitize.RootsAreFixed | spring-boot-web/src/main/java/net/wuxianjie/springbootweb/role/RoleService.java:301-312 | sanitizing a list of roots gives it back |
| RoleSanitize.SanitizedCodesPass | spring-boot-web/src/main/java/net/wuxianjie/springbootweb/role/RoleService.java:294 | every stored code is known and granted |
| RoleSanitize.SanitizeIdempotent | spring-boot-web/src/main/java/net/wuxianjie/springbootweb/role/RoleService.java:277-313 | sanitizing the stored text again gives the same text |
| RoleSanitize.UnknownCodeFails | spring-boot-web/src/main/java/net/wuxianjie/springbootweb/role/RoleService.java:318-325 | any unknown code makes the request fail |
| RoleSanitize.UnknownCodeRejected | spring-boot-web/src/main/java/net/wuxianjie/springbootweb/role/RoleService.java:318-325 | a first unknown code fails with the illegal-code error |
| RoleSanitize.UngrantedCodeForbidden | spring-boot-web/src/main/java/net/wuxianjie/springbootweb/role/RoleService.java:327-329 | a first code the caller does not hold fails as forbidden |
| RoleSanitize.SanitizedListOfKnown | spring-boot-web/src/main/java/net/wuxianjie/springbootweb/role/RoleService.java:288-312 | known granted codes always sanitize, to the roots of their distinct list |
| RoleSanitize.GrantedPassCheck | spring-boot-web/src/main/java/net/wuxianjie/springbootweb/role/RoleService.java:289-297 | known granted codes pass the check |
| RoleSanitize.KnownSanitizes | spring-boot-web/src/main/java/net/wuxianjie/springbootweb/role/RoleService.java:288-312 | known codes that pass the check sanitize |
| RoleSanitize.ModuleAbsorbsItsFunctions | spring-boot-web/src/main/java/net/wuxianjie/springbootweb/role/RoleService.java:301-312 | a module with two of its functions (and a duplicate) is stored as the module alone |
| RoleSanitize.UserModuleExample | spring-boot-web/src/main/java/net/wuxianjie/springbootweb/role/RoleService.java:301-312 | example: for the root user, `user,user_view,user_add,user` is stored as `user` |
| RoleTree.PathInjective | spring-boot-web/src/main/java/net/wuxianjie/springbootweb/role/RoleService.java:116-124 | in a consistent table distinct roles have distinct paths |
| RoleTree.NoSelfParent | spring-boot-web/src/main/java/net/wuxianjie/springbootweb/role/RoleService.java:116-124 | no role is its own parent; a parent's path is shorter |
| RoleTree.ChildBelowParent | spring-boot-web/src/main/java/net/wuxianjie/springbootweb/role/RoleService.java:116-124 | a role's path lies below its parent's |
| RoleTree.NewRole | spring-boot-web/src/main/java/net/wuxianjie/springbootweb/role/RoleService.java:107-124 | the new role hangs under the parent: parent id and name, path = parent path + `.` + id |
| RoleTree.AddKeepsConsistent | spring-boot-web/src/main/java/net/wuxianjie/springbootweb/role/RoleService.java:107-124 | adding such a role keeps the table consistent |
| RoleTree.DeleteKeepsConsistent | spring-boot-web/src/main/java/net/wuxianjie/springbootweb/role/RoleService.java:230-237 | deleting a role with nothing below it keeps the table consistent |
| RoleTree.DeleteKeepsUserRoles | spring-boot-web/src/main/java/net/wuxianjie/springbootweb/role/RoleService.java:233-237 | deleting a role no user holds keeps every user's role present |
| RoleTree.UpdatedRoles | spring-boot-web/src/main/java/net/wuxianjie/springbootweb/role/RoleService.java:155-207 | the same role ids after an update |
| RoleTree.UpdatedRow | spring-boot-web/src/main/java/net/wuxianjie/springbootweb/role/RoleService.java:155-207 | other roles keep their names; children get the new parent name; moved subtrees get the moved path |
| RoleTree.UpdatedSelf | spring-boot-web/src/main/java/net/wuxianjie/springbootweb/role/RoleService.java:150-207 | the updated role is the patched row |
| RoleTree.UpdateKeepsConsistent | spring-boot-web/src/main/java/net/wuxianjie/springbootweb/role/RoleService.java:165-196 | an admissible move keeps the table consistent |
| RoleTree.UpdateMovesSubtreeOnly | spring-boot-web/src/main/java/net/wuxianjie/springbootweb/role/RoleService.java:192-195 | roles outside the subtree keep their paths; the subtree stays below the moved role |
| RoleService.RoleService.OwnRole | spring-boot-web/src/main/java/net/wuxianjie/springbootweb/role/RoleService.java:247-251 | the caller's role, present exactly when user and role exist |
| RoleService.RoleService.CurrentPrefix | spring-boot-web/src/main/java/net/wuxianjie/springbootweb/role/RoleService.java:247-251 | own role's path plus a dot; a missing role is `NoSuchElementException` |
| RoleService.RoleService.IsNotSubordinate | spring-boot-web/src/main/java/net/wuxianjie/springbootweb/role/RoleService.java:259-263 | false exactly for paths strictly below the caller's role |
| RoleService.RoleService.GetRoles | spring-boot-web/src/main/java/net/wuxianjie/springbootweb/role/RoleService.java:44-50 | exactly the roles strictly below the caller's role |
| RoleService.RoleService.GetRoleDetail | spring-boot-web/src/main/java/net/wuxianjie/springbootweb/role/RoleService.java:60-71 | found and subordinate gives its info; else not found or forbidden |
| RoleService.RoleService.AddParent | spring-boot-web/src/main/java/net/wuxianjie/springbootweb/role/RoleService.java:86-101 | no parent id means the caller's role, or the `No value present` error without one; an explicit parent must exist (else NOT_FOUND) and be subordinate (else FORBIDDEN) |
| RoleService.RoleService.AddRolePlan | spring-boot-web/src/main/java/net/wuxianjie/springbootweb/role/RoleService.java:81-104 | a taken name is a conflict; otherwise the parent's error, then the authorities' error, is the plan's error; passes exactly when name, parent and authorities pass |
| RoleService.RoleService.AddRole | spring-boot-web/src/main/java/net/wuxianjie/springbootweb/role/RoleService.java:81-127 | a failed plan writes nothing; else exactly the new role is stored; the tree stays consistent |
| RoleService.RoleService.StoreNewRole | spring-boot-web/src/main/java/net/wuxianjie/springbootweb/role/RoleService.java:106-124 | insert then set the path: exactly the new role is added |
| RoleService.RoleService.AddedRoleIsSubordinate | spring-boot-web/src/main/java/net/wuxianjie/springbootweb/role/RoleService.java:86-124 | every role created lies below the caller's role |
| RoleService.RoleService.MovePlan | spring-boot-web/src/main/java/net/wuxianjie/springbootweb/role/RoleService.java:165-196 | the same parent changes nothing; a new parent that is self is BAD_REQUEST, a missing one NOT_FOUND, one outside the caller's subtree FORBIDDEN, one inside the moved subtree BAD_REQUEST; any other new parent succeeds with its id, name and the path below it |
| RoleService.RoleService.UpdateRolePlan | spring-boot-web/src/main/java/net/wuxianjie/springbootweb/role/RoleService.java:138-204 | NOT_FOUND, FORBIDDEN, a taken new name, then the move's error, then the authorities' error, in that order; succeeds exactly when all pass, and then each field is patched only when it changes |
| RoleService.RoleService.RenameKeepsPaths | spring-boot-web/src/main/java/net/wuxianjie/springbootweb/role/RoleService.java:161-162 | renaming children changes no name or path |
| RoleService.RoleService.UpdateRole | spring-boot-web/src/main/java/net/wuxianjie/springbootweb/role/RoleService.java:138-210 | a failed plan leaves the table unchanged (rollback); else the patched table; consistency is kept |
| RoleService.RoleService.UpdatePlanAdmissible | spring-boot-web/src/main/java/net/wuxianjie/springbootweb/role/RoleService.java:165-196 | every accepted plan is an admissible move |
| RoleService.RoleService.UpdatedRoleStaysSubordinate | spring-boot-web/src/main/java/net/wuxianjie/springbootweb/role/RoleService.java:180-193 | after a move the role still lies below the caller's role |
| RoleService.RoleService.DeleteRoleCheck | spring-boot-web/src/main/java/net/wuxianjie/springbootweb/role/RoleService.java:220-234 | passes exactly for a subordinate role with no sub-roles and no users, each failure with its error |
| RoleService.RoleService.DeleteRole | spring-boot-web/src/main/java/net/wuxianjie/springbootweb/role/RoleService.java:220-240 | deletes exactly when the check passes; the tree and users' roles stay valid |
| RoleService.RoleService.OwnRoleOutOfReach | spring-boot-web/src/main/java/net/wuxianjie/springbootweb/role/RoleService.java:259-263 | the caller can neither view, update nor delete their own role |
| RoleService.RoleService.ListedIffReadable | spring-boot-web/src/main/java/net/wuxianjie/springbootweb/role/RoleService.java:44-71 | a role is listed exactly when its detail may be read |
| UserService.UserService.RoleIsNotSubordinate | spring-boot-web/src/main/java/net/wuxianjie/springbootweb/user/UserService.java:283-287 | false exactly for a role strictly below the caller's |
| UserService.UserService.GetUsers | spring-boot-web/src/main/java/net/wuxianjie/springbootweb/user/UserService.java:45-68 | exactly the users the caller manages |
| UserService.UserService.SetFuzzyQueryParams | spring-boot-web/src/main/java/net/wuxianjie/springbootweb/user/UserService.java:269-273 | the three text filters become their LIKE values; the status is kept |
| UserService.UserService.SelectUserDetailById | spring-boot-web/src/main/java/net/wuxianjie/springbootweb/user/UserMapper.java:23 | a detail exactly when user and role exist: the user's fields joined with its role's name and path |
| UserService.UserService.GetUserDetail | spring-boot-web/src/main/java/net/wuxianjie/springbootweb/user/UserService.java:78-89 | the joined detail exactly for managed users; else not found or forbidden |
| UserService.UserService.AddUserPlan | spring-boot-web/src/main/java/net/wuxianjie/springbootweb/user/UserService.java:99-123 | a taken username is a conflict; a missing role is not found; a role outside the caller's subtree is FORBIDDEN; an unknown status code is the `No value present` error; on success the row has the digest of the password and the status of the code |
| UserService.UserService.AddUser | spring-boot-web/src/main/java/net/wuxianjie/springbootweb/user/UserService.java:99-128 | a failed plan writes nothing; else exactly the new user is stored |
| UserService.UserService.StoreNewUser | spring-boot-web/src/main/java/net/wuxianjie/springbootweb/user/UserService.java:114-125 | the row is stored under the next id |
| UserService.UserService.UpdateUserPlan | spring-boot-web/src/main/java/net/wuxianjie/springbootweb/user/UserService.java:139-168 | only managed users; an unknown status code is the `No value present` server error; a new role must exist and be subordinate; the patch carries the fields and no password |
| UserService.UserService.UpdateUser | spring-boot-web/src/main/java/net/wuxianjie/springbootweb/user/UserService.java:139-174 | a failed plan writes nothing; else exactly that user is patched |
| UserService.UserService.StorePatch | spring-boot-web/src/main/java/net/wuxianjie/springbootweb/user/UserService.java:170-171 | exactly that user is patched |
| UserService.UserService.UpdateSelfPlan | spring-boot-web/src/main/java/net/wuxianjie/springbootweb/user/UserService.java:182-203 | the password changes exactly when both are given and the old one matches; a wrong old one fails |
| UserService.UserService.UpdateSelf | spring-boot-web/src/main/java/net/wuxianjie/springbootweb/user/UserService.java:182-209 | a failed plan writes nothing; else the caller's row is patched |
| UserService.UserService.ResetPasswordPlan | spring-boot-web/src/main/java/net/wuxianjie/springbootweb/user/UserService.java:220-237 | only managed users; the patch carries only the new digest |
| UserService.UserService.ResetPassword | spring-boot-web/src/main/java/net/wuxianjie/springbootweb/user/UserService.java:220-243 | a failed plan writes nothing; else that user's password is replaced |
| UserService.UserService.DeleteUserCheck | spring-boot-web/src/main/java/net/wuxianjie/springbootweb/user/UserService.java:253-261 | passes exactly for managed users |
| UserService.UserService.DeleteUser | spring-boot-web/src/main/java/net/wuxianjie/springbootweb/user/UserService.java:253-267 | deletes exactly when the check passes |
| UserService.UserService.UnmanagedIsForbidden | spring-boot-web/src/main/java/net/wuxianjie/springbootweb/user/UserService.java:283-291 | an existing unmanaged user can be neither listed, viewed, changed, reset nor deleted |
| UserService.UserService.OwnAccountOutOfReach | spring-boot-web/src/main/java/net/wuxianjie/springbootweb/user/UserService.java:283-291 | the same holds for one's own account |
| UserService.UserService.NewPasswordTakesOver | spring-boot-web/src/main/java/net/wuxianjie/springbootweb/user/UserService.java:195-202 | after a password change, exactly the new password matches |
| StringUtils.CollapseSpaces | spring-boot-web/src/main/java/net/wuxianjie/springbootweb/shared/util/StringUtils.java:33 | the result holds no space and is no longer |
| StringUtils.ToNullableLikeValue | spring-boot-web/src/main/java/net/wuxianjie/springbootweb/shared/util/StringUtils.java:31-35 | null for null or blank; else `%`, the trimmed text with space runs as `%`, `%` |
| StringUtils.CollapseKeepsOthers | spring-boot-web/src/main/java/net/wuxianjie/springbootweb/shared/util/StringUtils.java:33 | apart from spaces and `%`, the characters are kept in order |
| StringUtils.LikeValueShape | spring-boot-web/src/main/java/net/wuxianjie/springbootweb/shared/util/StringUtils.java:31-35 | the value starts and ends with `%`, has no space, and keeps the trimmed text's other characters |
| StringUtils.LikeValueOfTwoWords | spring-boot-web/src/main/java/net/wuxianjie/springbootweb/shared/util/StringUtils.java:33 | two words with spaces between give `%one%two%` |
| StringUtils.LikeValueExample | spring-boot-web/src/main/java/net/wuxianjie/springbootweb/shared/util/StringUtils.java:20-23 | the documented example `KeyOne    KeyTwo` gives `%KeyOne%KeyTwo%` |
| StringUtils.CollapseWords | spring-boot-web/src/main/java/net/wuxianjie/springbootweb/shared/util/StringUtils.java:33 | a run of spaces between words becomes one `%` |
| StringUtils.Utf8RoundTrip | spring-boot-web/src/main/java/net/wuxianjie/springbootweb/shared/util/StringUtils.java:58-60 | decoding the UTF-8 bytes of a text gives the text back |
| StringUtils.EncodeHex | spring-boot-web/src/main/java/net/wuxianjie/springbootweb/shared/util/StringUtils.java:46-49 | two upper-case hex digits per byte |
| StringUtils.HexRoundTrip | spring-boot-web/src/main/java/net/wuxianjie/springbootweb/shared/util/StringUtils.java:46-60 | decoding the hex of bytes gives the bytes back |
| StringUtils.MachineCode | spring-boot-web/src/main/java/net/wuxianjie/springbootweb/shared/util/StringUtils.java:46-49 | present exactly with a MAC address: upper-case hex, two digits per UTF-8 byte |
| StringUtils.MachineCodeRoundTrip | spring-boot-web/src/main/java/net/wuxianjie/springbootweb/shared/util/StringUtils.java:46-60 | `toMacAddress(getMachineCode())` is the MAC address |
| Pagination.Wrap32 | spring-boot-web/src/main/java/net/wuxianjie/springbootweb/shared/pagination/PaginationParam.java:43 | Java `int` wrap-around: congruent modulo 2^32 and unchanged in range |
| Pagination.Offset | spring-boot-web/src/main/java/net/wuxianjie/springbootweb/shared/pagination/PaginationParam.java:42-44 | non-negative for valid pages; page 1 starts at 0 |
| Pagination.NextPageOffset | spring-boot-web/src/main/java/net/wuxianjie/springbootweb/shared/pagination/PaginationParam.java:43 | the next page starts one page size later |
| Pagination.OffsetFitsLong | spring-boot-web/src/main/java/net/wuxianjie/springbootweb/shared/pagination/PaginationParam.java:19-26 | for valid `int` page number and size the exact offset fits a `long` |
| Pagination.OffsetAsWritten | spring-boot-web/src/main/java/net/wuxianjie/springbootweb/shared/pagination/PaginationParam.java:43 | the `int` product equals the true offset whenever that fits |
| Pagination.OffsetAsWrittenOverflows | spring-boot-web/src/main/java/net/wuxianjie/springbootweb/shared/pagination/PaginationParam.java:43 | page 3 of size 2^30 gives -2147483648 instead of 2^31 |
| Pagination.PaginationParam.SetOffset | spring-boot-web/src/main/java/net/wuxianjie/springbootweb/shared/pagination/PaginationParam.java:42-44 | the offset becomes the exact, non-negative offset (in a `long` field); page fields unchanged |
| PublicApis.PairOf | spring-boot-web/src/main/java/net/wuxianjie/springbootweb/shared/security/SecurityProps.java:88-104 | an entry of one or two words gives a pair of a clean URI and an optional method |
| PublicApis.Parsed | spring-boot-web/src/main/java/net/wuxianjie/springbootweb/shared/security/SecurityProps.java:87-105 | at most one pair per entry, none exactly for malformed entries |
| PublicApis.ParsePublicApis | spring-boot-web/src/main/java/net/wuxianjie/springbootweb/shared/security/SecurityProps.java:86-106 | every pair comes from some entry; no more pairs than entries |
| PublicApis.ParseConcat | spring-boot-web/src/main/java/net/wuxianjie/springbootweb/shared/security/SecurityProps.java:86-106 | parsing works entry by entry, in order |
| PublicApis.ParseKeepsEach | spring-boot-web/src/main/java/net/wuxianjie/springbootweb/shared/security/SecurityProps.java:86-106 | every well-formed entry contributes its pair |
| PublicApis.FormatParses | spring-boot-web/src/main/java/net/wuxianjie/springbootweb/shared/security/SecurityProps.java:97-103 | writing a pair as `[METHOD ]URI`, the method and a space before the path, parses back to it |
| FileUtils.Base | spring-boot-web/src/main/java/net/wuxianjie/springbootweb/shared/util/FileUtils.java:39-45 | one trailing `/` or `\` is removed, `/` first |
| FileUtils.JoinPathShape | spring-boot-web/src/main/java/net/wuxianjie/springbootweb/shared/util/FileUtils.java:38-48 | the base, the separator, and the names joined by it |
| FileUtils.JoinPathSplits | spring-boot-web/src/main/java/net/wuxianjie/springbootweb/shared/util/FileUtils.java:38-48 | splitting the joined path on its separator gives the base's pieces and then the names |
| FileUtils.MimeChecks | spring-boot-web/src/main/java/net/wuxianjie/springbootweb/shared/util/FileUtils.java:56-86 | no content type is both MP3 and MP4; a missing one is neither |
| FileUtils.Mp4UpperCase | spring-boot-web/src/main/java/net/wuxianjie/springbootweb/shared/util/FileUtils.java:73-82 | example: `VIDEO/MP4` counts as MP4 |
| EnumValidation.Codes | spring-boot-web/src/main/java/net/wuxianjie/springbootweb/shared/validation/EnumValidatorImpl.java:26-45 | exactly the codes some constant returned, at most one per constant (order: `CodesConcat`) |
| EnumValidation.CodesConcat | spring-boot-web/src/main/java/net/wuxianjie/springbootweb/shared/validation/EnumValidatorImpl.java:26-45 | in declaration order: the codes of `a + b` are those of `a` followed by those of `b` |
| EnumValidation.CodesOne | spring-boot-web/src/main/java/net/wuxianjie/springbootweb/shared/validation/EnumValidatorImpl.java:26-45 | one constant gives its code, or nothing when `getCode` failed |
| EnumValidation.EnumValidatorImpl.Initialize | spring-boot-web/src/main/java/net/wuxianjie/springbootweb/shared/validation/EnumValidatorImpl.java:26-46 | `values` becomes the collected codes; a failed `getCode` sets `isPassed` |
| EnumValidation.EnumValidatorImpl.IsValid | spring-boot-web/src/main/java/net/wuxianjie/springbootweb/shared/validation/EnumValidatorImpl.java:49-54 | null passes; after a failure all pass; otherwise exactly the collected codes |
| EnumValidation.AccountStatusCodes | spring-boot-web/src/main/java/net/wuxianjie/springbootweb/shared/validation/EnumValidatorImpl.java:26-45 | example: for `AccountStatus` the codes are 0 and 1 in that order |
| EnumTypeHandler.FindFirst | spring-boot-web/src/main/java/net/wuxianjie/springbootweb/shared/mybatis/EnumTypeHandler.java:68-71 | the first constant with the code, or none when none has it |
| EnumTypeHandler.ToNullableEnum | spring-boot-web/src/main/java/net/wuxianjie/springbootweb/shared/mybatis/EnumTypeHandler.java:66-73 | null without constants or a match; else the first match |
| EnumTypeHandler.WriteThenRead | spring-boot-web/src/main/java/net/wuxianjie/springbootweb/shared/mybatis/EnumTypeHandler.java:33-40 | with distinct codes a written constant reads back as itself |
| EnumTypeHandler.AccountStatusColumn | spring-boot-web/src/main/java/net/wuxianjie/springbootweb/shared/mybatis/EnumTypeHandler.java:43-73 | for account status the handler agrees with `AccountStatus.resolve` |
| NotFound.HandleNotFound | spring-boot-web/src/main/java/net/wuxianjie/springbootweb/shared/spa/NotFoundController.java:94-121 | a JSON 404 exactly for JSON requests; else the index page, or a bare 404 exactly when it is missing |
| NotFound.MissingForwardIsNoApiPath | spring-boot-web/src/main/java/net/wuxianjie/springbootweb/shared/spa/NotFoundController.java:97-99 | without the forward attribute only the `Accept` header decides |
| NotFound.JsonAcceptWins | spring-boot-web/src/main/java/net/wuxianjie/springbootweb/shared/spa/NotFoundController.java:123-131 | a JSON `Accept` header always gives the JSON 404 |
| NotFound.JsonAcceptAnyCase | spring-boot-web/src/main/java/net/wuxianjie/springbootweb/shared/spa/NotFoundController.java:124-128 | `Accept` is matched ignoring case |
| SwitchExpression.Start | vanilla/src/main/java/net/wuxianje/SwitchExpression.java:18-32 | execution starts at the first arm labelled with the code; without one, at the first default arm, or past the end when there is none |
| SwitchExpression.SwitchStatementsAgree | vanilla/src/main/java/net/wuxianje/SwitchExpression.java:18-41 | the classic and arrow forms print the same line for every code |
| SwitchExpression.SwitchYield | vanilla/src/main/java/net/wuxianje/SwitchExpression.java:43-62 | prints the arrow form's line |
| SwitchExpression.SwitchYieldPrefixesNine | vanilla/src/main/java/net/wuxianje/SwitchExpression.java:57-60 | codes 3 to 99999999 yield 9·10^d + code |
| SwitchExpression.SwitchYieldNegative | vanilla/src/main/java/net/wuxianje/SwitchExpression.java:59 | negative codes throw `NumberFormatException` |
| SwitchExpression.SwitchYieldOverflows | vanilla/src/main/java/net/wuxianje/SwitchExpression.java:59 | codes from 100000000 on throw too, being out of `int` range |
| SwitchExpression.SwitchYieldExamples | vanilla/src/main/java/net/wuxianje/SwitchExpression.java:43-60 | example values: 0, 1, 2 yield 90, 91, 92; 3 yields 93 and 10 yields 910 |
| Decimal.ParseInteger | vanilla/src/main/java/net/wuxianje/SwitchExpression.java:59 | accepts exactly the digit strings with an optional `+` or `-` whose value lies in the range, and returns that signed decimal value; a well-formed text whose value is out of range gives `NumberFormatException` |
| Decimal.ParseIntToString | spring-boot-web/src/main/java/net/wuxianjie/springbootweb/auth/TokenService.java:99-100 | the decimal text of a number in range parses back to it |
| Decimal.ParseIntToStringOutOfRange | vanilla/src/main/java/net/wuxianje/SwitchExpression.java:59 | out of range the parse fails |
| Strs.Trim | spring-boot-web/src/main/java/net/wuxianjie/springbootweb/role/dto/RoleBaseInfo.java:73 | hutool trim: an infix of the text neither starting nor ending with a blank, empty exactly for blank text (what is dropped: `TrimDrops`) |
| Strs.TrimDrops | spring-boot-web/src/main/java/net/wuxianjie/springbootweb/role/dto/RoleBaseInfo.java:73 | what trim drops at both ends is blank |
| Strs.SplitTrim | spring-boot-web/src/main/java/net/wuxianjie/springbootweb/role/dto/RoleBaseInfo.java:73 | `splitTrim`: non-empty trimmed pieces without the separator; a text without the separator gives its trim, or nothing when blank (order: `SplitTrimConcat`) |
| Strs.SplitTrimConcat | spring-boot-web/src/main/java/net/wuxianjie/springbootweb/role/dto/RoleBaseInfo.java:73 | in order: the pieces of `a`, separator, `b` are those of `a` followed by those of `b` |
| Strs.SplitAround | spring-boot-web/src/main/java/net/wuxianjie/springbootweb/role/dto/RoleBaseInfo.java:73 | splitting at a separator concatenates the pieces of both sides |
| Strs.TrimDropEmptyConcat | spring-boot-web/src/main/java/net/wuxianjie/springbootweb/role/dto/RoleBaseInfo.java:73 | trimming and dropping empty pieces works piece by piece, keeping the order |
| Strs.SplitTrimJoin | spring-boot-web/src/main/java/net/wuxianjie/springbootweb/role/dto/RoleBaseInfo.java:73 | clean pieces joined by the separator split back to themselves |
| Strs.JavaTrim | spring-boot-web/src/main/java/net/wuxianjie/springbootweb/role/RoleService.java:292 | `String.trim`: an infix with no character up to U+0020 at its ends (what is dropped: `JavaTrimDrops`) |
| Strs.JavaTrimDrops | spring-boot-web/src/main/java/net/wuxianjie/springbootweb/role/RoleService.java:292 | what `String.trim` drops at both ends are characters up to U+0020 |
| Strs.JavaTrimOffset | spring-boot-web/src/main/java/net/wuxianjie/springbootweb/role/RoleService.java:292 | the offset of the trimmed text, with only such characters around it |
| Strs.ToUpper | spring-boot-web/src/main/java/net/wuxianjie/springbootweb/auth/Authority.java:149 | upper-cases character by character, keeping the length |
| Strs.ToLower | spring-boot-web/src/main/java/net/wuxianjie/springbootweb/auth/AuthServiceImpl.java:36 | lower-cases character by character, keeping the length |
| Strs.BelowIrreflexive | spring-boot-web/src/main/java/net/wuxianjie/springbootweb/role/RoleService.java:259-263 | no path is below itself |
| Strs.BelowTrans | spring-boot-web/src/main/java/net/wuxianjie/springbootweb/role/RoleService.java:259-263 | "below" composes |

## Left out

- Decimal.ParseInteger: reads only the ASCII digits `0`-`9`, while `Integer.parseInt` and
  `Long.parseLong` also accept other Unicode decimal digits; the one caller
  (`SwitchExpression.java:59`) passes `"9" + code`, a `9` followed by the decimal text of an `int`, which is ASCII.
- Spring wiring: controllers, configuration classes, request validation annotations and
  DTO getters/setters beyond those listed are not modelled. HTTP replies appear as an
  `ApiError`/`Result` value.
- Two behaviours read as the code has them, not as a looser description of it:
  - an explicit parent chosen in `addRole` or `updateRole` must lie *strictly* below the
    caller's role (`role/RoleService.java:98-100` and `:180-183` call
    `isNotSubordinateRole`, which at `:259-263` requires the parent's path to start
    with the caller's path plus `.`); the caller's own role is refused as a parent;
  - `FileUtils.isMp4` compares the content type ignoring case
    (`shared/util/FileUtils.java:73-82`, `equalsAnyIgnoreCase`), as `isMp3` does.
- JWT and bcrypt: the real HMAC-SHA256 and bcrypt are not modelled. A token is a
  concrete symbolic encoding of (algorithm, claims, signature term), and a digest is a
  symbolic salted term. The salt is a parameter and stands for the encoder's
  randomness. Unforgeability and hash collisions are not modelled.
- TimedCaches.TimedCache.Put: the cache's time-to-live and pruning timer are not
  modelled; expiry is enforced only through the token's `exp` claim.
- The legacy `AuthService` refers to `TOKEN_EXPIRATION_SEC` and `rawAuth.menus()`.
  Neither is defined in the files of this model. The expiration is a constructor
  parameter (`expirationSec`). The cached record is modelled as `SessionRecord` without
  menus.
- `TokenResponse.authorities` is the list of codes, as `AuthData` holds it.
- A user row may hold a null status, which reads as "not disabled" at login.
- Every `orElseThrow()` without an argument is modelled as the server error
  `No value present`. Examples are a missing role of the signed-in user and a status
  code other than 0 or 1 in a request.
- MyBatis `update` writes only the non-null fields of its object; the model uses
  explicit `Option` fields for this. The SQL text itself is not part of this model.
  Each mapper does what its name says, and `selectByFullPathLike` and the
  `existsRoleByFullPathLike` check are prefix matches.
- Mappers.Database.Rollback: a rolled-back transaction restores the tables but not the
  auto-increment counter, matching MySQL.
- The ordering, pagination and fuzzy filters of the list queries are not modelled:
  `GetRoles` and `GetUsers` return sets. `selectUserDetailById` is an inner join.
- Strs.ToUpper / Strs.ToLower: the source calls the default-locale `toUpperCase()` and
  `toLowerCase()` (`auth/Auth.java:152`, `auth/Authority.java:149`,
  `auth/AuthServiceImpl.java:36`). The model assumes a default locale other than
  Turkish or Azeri, where `i` would upper-case to U+0130. ASCII letters are mapped; for
  upper-casing, U+0131 maps to `I` and U+017F to `S`, as `Character.toUpperCase` does.
  Other non-ASCII case mappings are not modelled.
- Null elements inside request lists are not modelled.
- The signed-in user (`Actor`) is a parameter; writes into the `SecurityContextHolder`
  are not modelled. `TokenAuthFilter.DoFilter` returns the principal it would install.
- `AddRoleRequest.parentId` is annotated `@NotNull`, but `addRole` handles a null
  parent by using the caller's role. The model keeps that branch, so `parentId` is an
  `Option`.
- hutool's `NumberUtil.equals` on the boxed ids is modelled as plain integer
  equality. A null parent id of a stored root role is `None`, which differs from every
  requested id.
- StringUtils.Utf8RoundTrip: Java replaces malformed UTF-8 with U+FFFD; the model's
  decoder returns `None` instead. hutool's `decodeHex` exceptions (odd length, bad
  digit) are also `None`.
- `getMachineCode` reads the host's MAC address; it is a parameter here.
- StringUtils.Utf8: hutool's `StrUtil.bytes` and `HexUtil.decodeHexStr` use the
  platform's default charset. The model fixes it to UTF-8 and does not model other
  charsets.
- HTTP methods in `ApiPair` are kept as text rather than parsed into `HttpMethod`.
- FileUtils: the platform separator is a parameter; `getAppDirPath` reads the running
  jar's location and is not modelled.
- EnumValidation: the reflective `getCode()` calls are modelled as an `Option<int>`
  per constant, `None` standing for a missing or failing method.
- EnumTypeHandler: the three `getNullableResult` overloads differ only in where they
  read the int, so they are one function of that int. SQL NULL reads (`wasNull`) are
  not modelled.
- NotFound: the request and the index resource are parameters; logging is not modelled.
- SwitchExpression: printed lines are returned instead of printed.
- Timestamps (`updatedAt`, `createdAt`) are not modelled.

## Findings

| source | as written | input that shows it | evidently intended | confidence | as-written member | corrected member |
|---|---|---|---|---|---|---|
| spring-boot-web/src/main/java/net/wuxianjie/springbootweb/shared/pagination/PaginationParam.java:43 | the offset `(pageNum - 1) * pageSize` is computed and stored as a 32-bit `int`, so it wraps | pageNum = 3, pageSize = 2^30 gives -2147483648 | the exact, non-negative offset 2^31, held in a `long` | not executed | Pagination.OffsetAsWrittenOverflows | Pagination.PaginationParam.SetOffset |
