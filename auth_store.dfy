/** The session controller of `src/store/authStore.ts`: the signed-in username, a loading
    flag and the last credential error, kept in step with the credential store. */
module AuthStore {
  import opened Wrappers
  import opened JsStrings
  import opened AuthTypes
  import opened AuthService

  class AuthStore {
    const service: CredentialStore
    var session: Option<string>
    var isLoading: bool
    var error: Option<AuthError>

    constructor (service: CredentialStore)
      ensures this.service == service
      ensures session == None && !isLoading && error == None
    {
      this.service := service;
      session := None;
      isLoading := false;
      error := None;
    }

    /** `initializeSession`: adopt the persisted current user when there is one; otherwise
        leave `session` as it is rather than clearing it. */
    method InitializeSession()
      requires service.Valid()
      modifies this
      ensures service.currentUser.Some? ==> session == service.currentUser
      ensures service.currentUser.None? ==> session == old(session)
      ensures isLoading == old(isLoading) && error == old(error)
    {
      var currentUser := service.GetCurrentUser();
      if currentUser.Some? && currentUser.value != [] {
        session := currentUser;
      }
    }

    /** The state `signIn` and `signUp` set before calling the credential store. */
    method BeginRequest()
      modifies this
      ensures isLoading && error == None && session == old(session)
    {
      isLoading, error := true, None;
    }

    /** The state `signIn` and `signUp` set from the credential store's answer: the error
        object as it is, or the user's name as the session. */
    method Settle(result: Result<User, AuthError>) returns (ok: bool)
      modifies this
      ensures ok == result.Success? && !isLoading
      ensures result.Failure? ==> error == Some(result.error) && session == old(session)
      ensures result.Success? ==> error == None && session == Some(result.value.username)
    {
      match result
      case Failure(e) =>
        error, isLoading := Some(e), false;
        ok := false;
      case Success(user) =>
        session, isLoading, error := Some(user.username), false, None;
        ok := true;
    }

    /** `signIn`: on success the session is the credential store's current user. */
    method SignIn(username: string, password: string) returns (ok: bool)
      requires service.Valid()
      modifies this, service
      ensures service.Valid() && service.users == old(service.users)
      ensures var outcome := SignInOutcome(old(service.users), service.hash, username, password);
              && ok == outcome.Success?
              && (!ok ==> error == Some(outcome.error) && session == old(session)
                          && service.currentUser == old(service.currentUser))
              && (ok ==> error == None && session == Some(Trim(username)) && session == service.currentUser)
      ensures !isLoading
    {
      BeginRequest();
      var result := service.SignIn(username, password);
      ok := Settle(result);
    }

    /** `signUp`: on success the new user is registered and the session is the credential
        store's current user. */
    method SignUp(username: string, password: string, now: int) returns (ok: bool)
      requires service.Valid()
      modifies this, service
      ensures service.Valid()
      ensures var outcome := SignUpOutcome(old(service.users), service.hash, username, password, now);
              && ok == outcome.Success?
              && (!ok ==> error == Some(outcome.error) && session == old(session)
                          && service.users == old(service.users) && service.currentUser == old(service.currentUser))
              && (ok ==> error == None && session == Some(Trim(username)) && session == service.currentUser
                         && service.users == old(service.users) + [outcome.value])
      ensures !isLoading
    {
      BeginRequest();
      var result := service.SignUp(username, password, now);
      ok := Settle(result);
    }

    /** `signOut`: end the persisted session and clear the session and the error; a second
        call changes nothing more. */
    method SignOut()
      requires service.Valid()
      modifies this, service
      ensures service.Valid() && service.users == old(service.users) && service.currentUser == None
      ensures session == None && error == None && isLoading == old(isLoading)
    {
      service.SignOut();
      session, error := None, None;
    }

    /** `clearError`: only the error changes. */
    method ClearError()
      modifies this
      ensures error == None && session == old(session) && isLoading == old(isLoading)
    {
      error := None;
    }
  }
}
