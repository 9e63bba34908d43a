/** The account records of `src/types/auth.ts`. */
module AuthTypes {
  import opened Wrappers

  datatype User = User(username: string, passwordHash: string, createdAt: int)

  /** The input an error is attached to. */
  datatype ErrorField = UsernameField | PasswordField

  datatype AuthError = AuthError(message: string, field: Option<ErrorField>)
}
