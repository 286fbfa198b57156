/** The client's session store (frontend/src/store/authStore.ts): the signed-in
    user, both tokens and a few UI flags, overwritten field by field by the
    store's actions; four of the fields are persisted. The user record is a type
    parameter. */
module AuthState {
  import opened Wrappers

  /** The part of the state written to storage (`partialize`). */
  datatype PersistedAuth<U> = PersistedAuth(
    user: Option<U>, accessToken: Option<string>, refreshToken: Option<string>, isAuthenticated: bool)

  class AuthStore<U> {
    var user: Option<U>
    var accessToken: Option<string>
    var refreshToken: Option<string>
    var isAuthenticated: bool
    var isLoading: bool
    var error: Option<string>
    var shouldRedirect: bool

    /** An authenticated store holds a user and both tokens. (The converse does
        not hold: `updateAccessToken` may store a token while signed out.) */
    predicate Consistent()
      reads this
    {
      isAuthenticated ==> user.Some? && accessToken.Some? && refreshToken.Some?
    }

    /** The initial state: nobody signed in, nothing loading, no error, no redirect. */
    constructor()
      ensures Consistent()
      ensures user == None && accessToken == None && refreshToken == None
      ensures !isAuthenticated && !isLoading && error == None && !shouldRedirect
    {
      user := None;
      accessToken := None;
      refreshToken := None;
      isAuthenticated := false;
      isLoading := false;
      error := None;
      shouldRedirect := false;
    }

    /** `partialize`: exactly the user, both tokens and the authenticated flag. */
    function Persisted(): (p: PersistedAuth<U>)
      reads this
      ensures p.user == user && p.accessToken == accessToken && p.refreshToken == refreshToken
      ensures p.isAuthenticated == isAuthenticated
    {
      PersistedAuth(user, accessToken, refreshToken, isAuthenticated)
    }

    method SetLoading(loading: bool)
      modifies this
      ensures isLoading == loading
      ensures user == old(user) && accessToken == old(accessToken) && refreshToken == old(refreshToken)
      ensures isAuthenticated == old(isAuthenticated) && error == old(error) && shouldRedirect == old(shouldRedirect)
      ensures Consistent() == old(Consistent()) && Persisted() == old(Persisted())
    {
      isLoading := loading;
    }

    method SetError(e: Option<string>)
      modifies this
      ensures error == e
      ensures user == old(user) && accessToken == old(accessToken) && refreshToken == old(refreshToken)
      ensures isAuthenticated == old(isAuthenticated) && isLoading == old(isLoading) && shouldRedirect == old(shouldRedirect)
      ensures Consistent() == old(Consistent()) && Persisted() == old(Persisted())
    {
      error := e;
    }

    /** `login`: the user and both tokens, authenticated, no error; the loading
        and redirect flags are left alone. */
    method Login(u: U, access: string, refresh: string)
      modifies this
      ensures user == Some(u) && accessToken == Some(access) && refreshToken == Some(refresh)
      ensures isAuthenticated && error == None
      ensures isLoading == old(isLoading) && shouldRedirect == old(shouldRedirect)
      ensures Consistent()
    {
      user := Some(u);
      accessToken := Some(access);
      refreshToken := Some(refresh);
      isAuthenticated := true;
      error := None;
    }

    /** `logout`: everything persisted is cleared, with the error and the
        redirect flag; only the loading flag survives. */
    method Logout()
      modifies this
      ensures user == None && accessToken == None && refreshToken == None
      ensures !isAuthenticated && error == None && !shouldRedirect
      ensures isLoading == old(isLoading)
      ensures Consistent() && Persisted() == PersistedAuth(None, None, None, false)
    {
      user := None;
      accessToken := None;
      refreshToken := None;
      isAuthenticated := false;
      error := None;
      shouldRedirect := false;
    }

    /** `updateAccessToken`: a refreshed access token; the refresh token and
        the authenticated flag stay as they were. */
    method UpdateAccessToken(access: string)
      modifies this
      ensures accessToken == Some(access)
      ensures user == old(user) && refreshToken == old(refreshToken) && isAuthenticated == old(isAuthenticated)
      ensures isLoading == old(isLoading) && error == old(error) && shouldRedirect == old(shouldRedirect)
      ensures old(Consistent()) ==> Consistent()
    {
      accessToken := Some(access);
    }

    /** `updateUser`: a new user record, nothing else. */
    method UpdateUser(u: U)
      modifies this
      ensures user == Some(u)
      ensures accessToken == old(accessToken) && refreshToken == old(refreshToken) && isAuthenticated == old(isAuthenticated)
      ensures isLoading == old(isLoading) && error == old(error) && shouldRedirect == old(shouldRedirect)
      ensures old(Consistent()) ==> Consistent()
    {
      user := Some(u);
    }

    method ClearError()
      modifies this
      ensures error == None
      ensures user == old(user) && accessToken == old(accessToken) && refreshToken == old(refreshToken)
      ensures isAuthenticated == old(isAuthenticated) && isLoading == old(isLoading) && shouldRedirect == old(shouldRedirect)
      ensures Consistent() == old(Consistent()) && Persisted() == old(Persisted())
    {
      error := None;
    }

    method SetShouldRedirect(should: bool)
      modifies this
      ensures shouldRedirect == should
      ensures user == old(user) && accessToken == old(accessToken) && refreshToken == old(refreshToken)
      ensures isAuthenticated == old(isAuthenticated) && isLoading == old(isLoading) && error == old(error)
      ensures Consistent() == old(Consistent()) && Persisted() == old(Persisted())
    {
      shouldRedirect := should;
    }
  }
}
