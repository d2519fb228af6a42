/** The permission records both permission checks read. */
module PermissionModel {
  import opened Wrappers

  /** A user as the permission checks see it: a role and a permission list, `None` when
      `permissions` is not an array. */
  datatype User = User(role: string, permissions: Option<seq<string>>)

  const AdminRole: string := "admin"

  /** Whether the user's list holds `p`: `Array.isArray(list) && list.includes(p)`. */
  predicate Listed(u: User, p: string) {
    u.permissions.Some? && p in u.permissions.value
  }

  /** `u'` holds every permission `u` holds, in the same role. */
  predicate Extends(u: User, u': User) {
    u'.role == u.role && (u.permissions.Some? ==> u'.permissions.Some? && forall p :: p in u.permissions.value ==> p in u'.permissions.value)
  }
}

/** `hasPermission` of `server/utils/permissionUtils.ts`. */
module ServerPermissions {
  import opened Wrappers
  import opened PermissionModel

  /** The permissions the server knows of. */
  const AvailablePermissions: seq<string> := ["read", "write", "share", "rename", "delete", "move"]

  /** `hasPermission(user, permission)`: no user has nothing, an administrator has
      everything, anyone else exactly what their list holds. */
  function HasPermission(user: Option<User>, p: string): (r: bool)
    ensures user.None? ==> !r
    ensures user.Some? && user.value.role == AdminRole ==> r
    ensures user.Some? && user.value.role != AdminRole ==> (r <==> Listed(user.value, p))
  {
    if user.None? then false
    else if user.value.role == AdminRole then true
    else Listed(user.value, p)
  }

  /** Without `read` in the list a non-administrator cannot read. */
  lemma NoImplicitRead(u: User)
    requires u.role != AdminRole && !Listed(u, "read")
    ensures !HasPermission(Some(u), "read")
  {
  }

  /** Granting more permissions never takes one away. */
  lemma Monotone(u: User, u': User, p: string)
    requires Extends(u, u') && HasPermission(Some(u), p)
    ensures HasPermission(Some(u'), p)
  {
  }
}

/** `hasPermission` and `hasPermissions` of `src/utils/permissionUtils.ts`. */
module ClientPermissions {
  import opened Wrappers
  import opened PermissionModel
  import ServerPermissions

  /** The client's `PERMISSIONS` values. */
  const Read: string := "read"
  const Permissions: seq<string> := [Read, "write", "share", "rename", "delete", "move"]

  /** `hasPermission(user, permission)`: as on the server, except that `read` is granted to
      every user. */
  function HasPermission(user: Option<User>, p: string): (r: bool)
    ensures user.None? ==> !r
    ensures user.Some? && (user.value.role == AdminRole || p == Read) ==> r
    ensures user.Some? && user.value.role != AdminRole && p != Read ==> (r <==> Listed(user.value, p))
  {
    if user.None? then false
    else if user.value.role == AdminRole then true
    else if p == Read then true
    else Listed(user.value, p)
  }

  /** `permissions.every(p => hasPermission(user, p))`. */
  function Every(user: Option<User>, ps: seq<string>): bool {
    if ps == [] then true else HasPermission(user, ps[0]) && Every(user, ps[1..])
  }

  /** `hasPermissions(user, permissions)`. */
  function HasPermissions(user: Option<User>, ps: seq<string>): bool {
    if user.None? then false
    else if user.value.role == AdminRole then true
    else Every(user, ps)
  }

  lemma {:induction false} EveryIff(user: Option<User>, ps: seq<string>)
    ensures Every(user, ps) <==> forall i :: 0 <= i < |ps| ==> HasPermission(user, ps[i])
  {
    if ps != [] {
      EveryIff(user, ps[1..]);
      assert forall i :: 1 <= i < |ps| ==> ps[i] == ps[1..][i - 1];
    }
  }

  /** A user holds a list of permissions exactly when they hold each one; no user holds
      any list, and every user holds the empty list. */
  lemma HasPermissionsIff(user: Option<User>, ps: seq<string>)
    ensures HasPermissions(user, ps) <==> user.Some? && forall i :: 0 <= i < |ps| ==> HasPermission(user, ps[i])
    ensures user.Some? ==> HasPermissions(user, [])
  {
    EveryIff(user, ps);
  }

  /** The client and the server agree except on `read`, which the client grants to every
      user. */
  lemma AgreesWithServer(user: Option<User>, p: string)
    ensures HasPermission(user, p) <==> ServerPermissions.HasPermission(user, p) || (user.Some? && p == Read)
  {
  }

  /** Both sides know the same six permissions. */
  lemma SamePermissionNames()
    ensures Permissions == ServerPermissions.AvailablePermissions
  {
  }
}
