/** The records the service hands to the presentation layer. */
module Types {

  /** An account as `getProfile` shows it: every stored field except the password. */
  datatype UserProfile = UserProfile(id: int, name: string, email: string, governmentId: string, createdAt: string)

  /** What a successful `login` returns. */
  datatype AuthResponse = AuthResponse(token: string)
}
