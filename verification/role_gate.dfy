/**
 * `RoleMiddleware.Handler`: lets a request through when the authenticated
 * user holds one of the roles the route was registered with.
 */
module RoleGate {
  import opened Common
  import opened Errs
  import opened AuthMiddleware
  import opened AuthService
  import UserRoles

  /** Through to the next handler, or turned away with `CodeUnauthorized`. */
  datatype Decision = Proceed | Denied

  /**
   * The handler as written: the route's `roles` are not passed on, so
   * `HasRole` is asked about an empty list.
   */
  function GateAsWritten(locals: Locals, users: Users, dbFails: bool, roles: seq<int>): (d: Decision)
    ensures d == Denied
  {
    var (uuid, ok) := GetUserUUID(locals);
    if !ok || uuid == "" then Denied
    else
      match HasRole(users, dbFails, uuid, [])
      case Err(_) => Denied
      case Ok(has) => if has then Proceed else Denied
  }

  /** An administrator on an administrators-only route, turned away by the handler as written. */
  lemma GateAsWrittenDeniesAdmin()
    ensures var users := [Account("u1", "a@b.c", "h", UserRoles.RoleAdmin, "user_000000", true)];
      var locals := map[ContextUserIdKey := Str("u1")];
      && HasRole(users, false, "u1", [UserRoles.RoleAdmin]) == Ok(true)
      && GateAsWritten(locals, users, false, [UserRoles.RoleAdmin]) == Denied
  {
    var users := [Account("u1", "a@b.c", "h", UserRoles.RoleAdmin, "user_000000", true)];
    assert users[0] in users;
  }

  /** The first live row with the user ID exists and has one of the roles. */
  predicate HoldsRole(users: Users, uuid: string, roles: seq<int>) {
    var a := FirstLive(users, (b: Account) => b.uuid == uuid);
    a.Some? && a.value.role in roles
  }

  /**
   * The handler with the route's roles passed on: a request passes exactly
   * when the authentication middleware stored a non-empty user ID whose
   * first live row holds one of the roles.
   */
  function Gate(locals: Locals, users: Users, dbFails: bool, roles: seq<int>): (d: Decision)
    ensures d == Proceed <==>
      var (uuid, ok) := GetUserUUID(locals);
      && ok && uuid != "" && !dbFails && HoldsRole(users, uuid, roles)
  {
    var (uuid, ok) := GetUserUUID(locals);
    if !ok || uuid == "" then Denied
    else
      match HasRole(users, dbFails, uuid, roles)
      case Err(_) => Denied
      case Ok(has) => if has then Proceed else Denied
  }

  /** The corrected handler asks `HasRole` the question the route registered. */
  lemma GateAsksHasRole(locals: Locals, users: Users, dbFails: bool, roles: seq<int>)
    requires GetUserUUID(locals).1 && GetUserUUID(locals).0 != ""
    ensures Gate(locals, users, dbFails, roles) == Proceed <==> HasRole(users, dbFails, GetUserUUID(locals).0, roles) == Ok(true)
  {
  }

  /** With the roles passed on, the administrator of the example is let through. */
  lemma GateAdmitsAdmin()
    ensures var users := [Account("u1", "a@b.c", "h", UserRoles.RoleAdmin, "user_000000", true)];
      Gate(map[ContextUserIdKey := Str("u1")], users, false, [UserRoles.RoleAdmin]) == Proceed
  {
    var users := [Account("u1", "a@b.c", "h", UserRoles.RoleAdmin, "user_000000", true)];
    assert users[0] in users;
  }
}
