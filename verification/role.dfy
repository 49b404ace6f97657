/** The role gate in front of the protected routes: the role the token
    carried is searched for in the route's list of allowed roles. */
module Role {
  import opened Base

  const StatusUnauthorized := 401
  const StatusForbidden := 403

  const RoleMissingMessage := "Role not found in token"
  const ForbiddenMessage := "You don't have permission to access this resource"

  /** The one outcome of a request at the gate: passed on to the handler,
      or answered with an error status and message and stopped. */
  datatype Decision = Next | Abort(status: int, message: string)

  /** RoleAuth: no role in the request context is 401; a role equal to one
      of the allowed roles passes; any other role, and every role when the
      list is empty, is 403. */
  method RoleAuth(allowedRoles: seq<string>, role: Option<string>) returns (d: Decision)
    ensures role.None? ==> d == Abort(StatusUnauthorized, RoleMissingMessage)
    ensures role.Some? ==> (d == Next <==> role.value in allowedRoles)
    ensures role.Some? && role.value !in allowedRoles ==> d == Abort(StatusForbidden, ForbiddenMessage)
    ensures d.Abort? ==> d.status in {StatusUnauthorized, StatusForbidden}
  {
    if role.None? {
      return Abort(StatusUnauthorized, RoleMissingMessage);
    }
    var i := 0;
    while i < |allowedRoles|
      invariant 0 <= i <= |allowedRoles|
      invariant forall j :: 0 <= j < i ==> allowedRoles[j] != role.value
    {
      if allowedRoles[i] == role.value {
        return Next;
      }
      i := i + 1;
    }
    d := Abort(StatusForbidden, ForbiddenMessage);
  }
}
