/** The HTTP side of the services' errors: the status codes the routes answer
    with and the message that boom's badData carries in this program. */
module Http {
  import opened Access

  const NotFoundStatus: nat := 404
  const UnprocessableStatus: nat := 422
  const ValidationFailedMessage := "Validation failed."

  /** 401 for a request without an identity, 403 for a caller without the role. */
  function DenialStatus(d: Denial): (s: nat)
    ensures s == 401 <==> d == Unauthorized
    ensures s == 403 <==> d == Forbidden
  {
    match d
    case Unauthorized => 401
    case Forbidden => 403
  }
}
