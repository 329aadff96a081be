/**
 * The user accounts that rows and credentials refer to (`settings.AUTH_USER_MODEL`): only their
 * identity matters here, so a user is an opaque id.
 */
module Users {
  type UserId = nat
}
