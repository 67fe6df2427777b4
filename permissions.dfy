/** `IsAuthenticatedAndNotBanned`: the permission that admits a request
    only for a signed-in user who is not banned. */
module Permissions {
  import opened Wrappers

  /** The user attached to a request. `banned` is `None` when the user
      object has no such attribute (an anonymous user, say). */
  datatype RequestUser = RequestUser(isAuthenticated: bool, banned: Option<bool>)

  /** `has_permission`: no user, or a user who is not authenticated, is
      refused; otherwise the `banned` flag decides, and a user without the
      attribute is let through. */
  function HasPermission(user: Option<RequestUser>): (r: bool)
    ensures r ==> user.Some? && user.value.isAuthenticated
    ensures r <==> user.Some? && user.value.isAuthenticated && user.value.banned != Some(true)
  {
    if user.None? || !user.value.isAuthenticated then false
    else match user.value.banned
      case Some(banned) => !banned
      case None => true
  }

  /** A missing or signed-out user is always refused, banned or not. */
  lemma UnauthenticatedDenied(user: Option<RequestUser>)
    requires user.None? || !user.value.isAuthenticated
    ensures !HasPermission(user)
  {
  }

  /** A signed-in banned user is refused. */
  lemma BannedDenied(user: RequestUser)
    requires user.isAuthenticated && user.banned == Some(true)
    ensures !HasPermission(Some(user))
  {
  }

  /** A signed-in user who is not banned is admitted. */
  lemma NotBannedAllowed(user: RequestUser)
    requires user.isAuthenticated && user.banned == Some(false)
    ensures HasPermission(Some(user))
  {
  }

  /** A signed-in user object without a `banned` attribute is admitted. */
  lemma MissingBanFlagAllowed(user: RequestUser)
    requires user.isAuthenticated && user.banned.None?
    ensures HasPermission(Some(user))
  {
  }
}
