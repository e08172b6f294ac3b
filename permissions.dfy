/**
 * The role policy of src/lib/permissions.ts: total boolean functions of a
 * user's role, where `None` stands for a session without a role.
 */
module Permissions {
  import opened Wrappers

  datatype Role = Admin | Poster

  /** `hasRole`: no role grants nothing, ADMIN grants every role, POSTER grants only itself. */
  function HasRole(userRole: Option<Role>, requiredRole: Role): (r: bool)
    ensures userRole.None? ==> !r
    ensures userRole == Some(Admin) ==> r
    ensures userRole == Some(Poster) ==> (r <==> requiredRole == Poster)
  {
    if userRole.None? then false
    else if userRole.value == Admin then true
    else userRole.value == requiredRole
  }

  /** `isAdmin`: holds exactly for the ADMIN role. */
  function IsAdmin(userRole: Option<Role>): (r: bool)
    ensures r <==> HasRole(userRole, Admin)
  {
    userRole == Some(Admin)
  }

  /** `canManagePosts`: a role that includes POSTER. */
  function CanManagePosts(userRole: Option<Role>): (r: bool)
    ensures r <==> userRole.Some?
  {
    HasRole(userRole, Poster)
  }

  /** `canManageAllPosts`, `canManageUsers` and `canAccessAdmin` are all `isAdmin`. */
  function CanManageAllPosts(userRole: Option<Role>): (r: bool)
    ensures r <==> userRole == Some(Admin)
  {
    IsAdmin(userRole)
  }

  function CanManageUsers(userRole: Option<Role>): (r: bool)
    ensures r <==> userRole == Some(Admin)
  {
    IsAdmin(userRole)
  }

  function CanAccessAdmin(userRole: Option<Role>): (r: bool)
    ensures r <==> userRole == Some(Admin)
  {
    IsAdmin(userRole)
  }

  /** The capabilities the policy answers for. */
  datatype Capability = ManagePosts | ManageAllPosts | ManageUsers | AccessAdmin

  function Can(userRole: Option<Role>, c: Capability): bool {
    match c
    case ManagePosts => CanManagePosts(userRole)
    case ManageAllPosts => CanManageAllPosts(userRole)
    case ManageUsers => CanManageUsers(userRole)
    case AccessAdmin => CanAccessAdmin(userRole)
  }

  /** Roles are ordered: whatever POSTER may do, ADMIN may do; without a role nothing is allowed. */
  lemma AdminSubsumesPoster(c: Capability)
    ensures Can(Some(Poster), c) ==> Can(Some(Admin), c)
    ensures !Can(None, c)
    ensures Can(Some(Admin), c)
  {
  }

  /** `hasRole` is monotone in the role: whoever has POSTER rights through ADMIN has them too. */
  lemma HasRoleOrdered(required: Role)
    ensures HasRole(Some(Poster), required) ==> HasRole(Some(Admin), required)
    ensures !HasRole(None, required)
  {
  }
}
