/** The role authorization decision of the request guard. */
module RolesGuard {
  import opened Common
  import opened Strings

  /** Roles are plain strings; the application's roles are these two. */
  const ADMIN: string := "ADMIN"
  const USER: string := "USER"

  /**
   * The reflector's `getAllAndOverride(ROLES_KEY, [handler, class])`: the
   * handler's roles metadata if it has any, else the class's.
   */
  function RequiredRoles(handler: Option<seq<string>>, controller: Option<seq<string>>): (r: Option<seq<string>>)
    ensures r.Some? <==> handler.Some? || controller.Some?
    ensures handler.Some? ==> r == handler
    ensures handler.None? ==> r == controller
  {
    if handler.Some? then handler else controller
  }

  /** `requiredRoles.some((role) => user.role?.includes(role))` */
  function SomeRoleIncluded(required: seq<string>, userRole: Option<string>): (b: bool)
    ensures b <==> userRole.Some? && exists r :: r in required && Includes(userRole.value, r)
  {
    if required == [] then false
    else
      var rest := SomeRoleIncluded(required[1..], userRole);
      assert forall r :: r in required <==> r == required[0] || r in required[1..];
      (userRole.Some? && Includes(userRole.value, required[0])) || rest
  }

  /**
   * `canActivate`: no roles metadata lets every request through; otherwise
   * the request passes iff the user's role includes one of the required
   * roles as a substring. An empty list therefore lets nobody through.
   */
  function CanActivate(requiredRoles: Option<seq<string>>, userRole: Option<string>): (allow: bool)
    ensures allow <==> requiredRoles.None? ||
                       (userRole.Some? && exists r :: r in requiredRoles.value && Includes(userRole.value, r))
  {
    if requiredRoles.None? then true
    else SomeRoleIncluded(requiredRoles.value, userRole)
  }

  /** An empty list of required roles denies every user. */
  lemma EmptyRolesDeny(userRole: Option<string>)
    ensures !CanActivate(Some([]), userRole)
  {
  }

  /** A user without a role is denied whenever roles are required. */
  lemma MissingRoleDenied(required: seq<string>)
    ensures !CanActivate(Some(required), None)
  {
  }

  /** The order and multiplicity of the required roles do not matter. */
  lemma PermutationInvariant(a: seq<string>, b: seq<string>, userRole: Option<string>)
    requires multiset(a) == multiset(b)
    ensures CanActivate(Some(a), userRole) == CanActivate(Some(b), userRole)
  {
    assert forall r :: r in a <==> r in multiset(a);
    assert forall r :: r in b <==> r in multiset(b);
  }

  /** Adding required roles never turns allow into deny. */
  lemma Monotone(a: seq<string>, b: seq<string>, userRole: Option<string>)
    requires forall r :: r in a ==> r in b
    ensures CanActivate(Some(a), userRole) ==> CanActivate(Some(b), userRole)
  {
  }

  /** A user whose role is one of the required roles is allowed. */
  lemma ExactRoleAllowed(required: seq<string>, role: string)
    requires role in required
    ensures CanActivate(Some(required), Some(role))
  {
    IncludesSelf(role);
  }

  /** The application's two roles: ADMIN passes an ADMIN route, USER does not. */
  lemma AdminRouteDecisions()
    ensures CanActivate(Some([ADMIN]), Some(ADMIN))
    ensures !CanActivate(Some([ADMIN]), Some(USER))
    ensures CanActivate(Some([USER]), Some(USER))
    ensures !CanActivate(Some([USER]), Some(ADMIN))
  {
    ExactRoleAllowed([ADMIN], ADMIN);
    ExactRoleAllowed([USER], USER);
    IncludesNotLonger(USER, ADMIN);
    AdminDoesNotIncludeUser();
  }

  /** "ADMIN" does not contain "USER": no four consecutive letters of it are "USER". */
  lemma AdminDoesNotIncludeUser()
    ensures !Includes(ADMIN, USER)
  {
    IncludesAt(ADMIN, USER);
    forall i | 0 <= i <= |ADMIN| - |USER| ensures !IsPrefix(USER, ADMIN[i..]) {
      assert ADMIN[i..][0] != USER[0];
    }
  }

  /** The guards of the user routes, which all sit behind this guard. */
  datatype UserRoute = ListUsers | GetUser | UpdateUser | UpdateUserStatus | DeleteUser

  /** The roles metadata of each route: only the listing carries `@Roles(ADMIN)`. */
  function RouteRoles(route: UserRoute): Option<seq<string>> {
    RequiredRoles(if route == ListUsers then Some([ADMIN]) else None, None)
  }

  /**
   * Only the listing is restricted to administrators: reading, updating,
   * deactivating and deleting a user by id pass the guard for any
   * authenticated user, whatever role, and for any id.
   */
  lemma OnlyListingIsAdminOnly(route: UserRoute, userRole: Option<string>)
    ensures route == ListUsers ==> (CanActivate(RouteRoles(route), Some(USER)) == false &&
                                    CanActivate(RouteRoles(route), Some(ADMIN)))
    ensures route != ListUsers ==> CanActivate(RouteRoles(route), userRole)
  {
    AdminRouteDecisions();
  }
}
