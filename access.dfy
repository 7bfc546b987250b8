/** Who is calling: the identity the authentication layer resolves a request to. */
module Access {
  import opened Wrappers

  datatype Role = Admin | Customer

  datatype Identity = Anonymous | SignedIn(userId: nat, role: Role)

  /** Why a route refused the caller: 401 (no identity) or 403 (wrong role). */
  datatype Denial = Unauthorized | Forbidden

  /** Guard of the administrative routes: anonymous callers are unauthorized,
      customers are forbidden, administrators pass. */
  function RequireAdmin(who: Identity): (d: Option<Denial>)
    ensures d == None <==> who.SignedIn? && who.role == Admin
    ensures d == Some(Unauthorized) <==> who.Anonymous?
    ensures d == Some(Forbidden) <==> who.SignedIn? && who.role == Customer
  {
    match who
    case Anonymous => Some(Unauthorized)
    case SignedIn(_, Admin) => None
    case SignedIn(_, Customer) => Some(Forbidden)
  }

  /** Guard of the customer routes: any signed-in user passes, others are unauthorized. */
  function RequireSignedIn(who: Identity): (d: Option<Denial>)
    ensures d == None <==> who.SignedIn?
    ensures d != None ==> d == Some(Unauthorized)
  {
    if who.Anonymous? then Some(Unauthorized) else None
  }
}
