/**
 * The client's authentication state and its reducer
 * (frontend/src/contexts/AuthContext.jsx). Every action builds a new state
 * record; nothing is updated in place.
 */
module AuthReducer {
  import opened Wrappers
  import opened Users

  datatype AuthState = AuthState(user: Option<User>, token: Option<string>, isAuthenticated: bool, isLoading: bool)

  /** Before the stored token is checked: nobody is signed in and loading is under way. */
  const InitialState: AuthState := AuthState(None, None, false, true)

  /** The dispatched actions; Unknown carries any other `type`. */
  datatype Action =
    | SetLoading(loading: bool)
    | LoginSuccess(payloadUser: Option<User>, payloadToken: Option<string>)
    | Logout
    | SetUser(newUser: Option<User>)
    | Unknown(kind: string)

  /** authReducer. */
  function Reduce(s: AuthState, a: Action): (r: AuthState)
    ensures a.SetLoading? ==> r == s.(isLoading := a.loading)
    ensures a.LoginSuccess? ==> r.user == a.payloadUser && r.token == a.payloadToken && r.isAuthenticated && !r.isLoading
    ensures a.Logout? ==> r.user.None? && r.token.None? && !r.isAuthenticated && !r.isLoading
    ensures a.SetUser? ==> r == s.(user := a.newUser)
    ensures a.Unknown? ==> r == s
  {
    match a
    case SetLoading(b) => s.(isLoading := b)
    case LoginSuccess(u, t) => s.(user := u, token := t, isAuthenticated := true, isLoading := false)
    case Logout => s.(user := None, token := None, isAuthenticated := false, isLoading := false)
    case SetUser(u) => s.(user := u)
    case Unknown(_) => s
  }

  /** The state after dispatching the actions in order. */
  function ReduceAll(s: AuthState, actions: seq<Action>): AuthState
    decreases |actions|
  {
    if actions == [] then s else ReduceAll(Reduce(s, actions[0]), actions[1..])
  }

  /** The state LOGOUT always produces, whatever came before. */
  const SignedOut: AuthState := AuthState(None, None, false, false)

  /** LOGOUT forgets everything: its result does not depend on the state, so
      it is idempotent and undoes any earlier LOGIN_SUCCESS. */
  lemma LogoutForgets(s: AuthState, u: Option<User>, t: Option<string>)
    ensures Reduce(s, Logout) == SignedOut
    ensures Reduce(Reduce(s, Logout), Logout) == Reduce(s, Logout)
    ensures Reduce(Reduce(s, LoginSuccess(u, t)), Logout) == SignedOut
  {
  }

  /** SET_LOADING and SET_USER touch different fields, so their order does not matter. */
  lemma LoadingAndUserCommute(s: AuthState, b: bool, u: Option<User>)
    ensures Reduce(Reduce(s, SetLoading(b)), SetUser(u)) == Reduce(Reduce(s, SetUser(u)), SetLoading(b))
  {
  }

  /** Signed in implies a token is held. */
  predicate TokenWhenAuthenticated(s: AuthState) {
    s.isAuthenticated ==> s.token.Some?
  }

  predicate LoginsCarryToken(actions: seq<Action>) {
    forall k :: 0 <= k < |actions| && actions[k].LoginSuccess? ==> actions[k].payloadToken.Some?
  }

  /** Every action keeps "authenticated implies a token" as long as a
      successful login delivers a token. */
  lemma ReduceKeepsToken(s: AuthState, a: Action)
    requires TokenWhenAuthenticated(s)
    requires a.LoginSuccess? ==> a.payloadToken.Some?
    ensures TokenWhenAuthenticated(Reduce(s, a))
  {
  }

  /** From the initial state, no sequence of actions whose logins carry a
      token reaches an authenticated state without a token. */
  lemma {:induction false} TokenInvariant(s: AuthState, actions: seq<Action>)
    requires TokenWhenAuthenticated(s) && LoginsCarryToken(actions)
    ensures TokenWhenAuthenticated(ReduceAll(s, actions))
    decreases |actions|
  {
    if actions != [] {
      ReduceKeepsToken(s, actions[0]);
      assert LoginsCarryToken(actions[1..]) by {
        forall k | 0 <= k < |actions[1..]| && actions[1..][k].LoginSuccess?
          ensures actions[1..][k].payloadToken.Some?
        {
          assert actions[1..][k] == actions[k + 1];
        }
      }
      TokenInvariant(Reduce(s, actions[0]), actions[1..]);
    }
  }

  /** The last LOGIN_SUCCESS or LOGOUT decides whether the user is signed in:
      the other actions never change isAuthenticated. */
  lemma {:induction false} OnlyLoginAndLogoutAuthenticate(s: AuthState, actions: seq<Action>)
    requires forall k :: 0 <= k < |actions| ==> !actions[k].LoginSuccess? && !actions[k].Logout?
    ensures ReduceAll(s, actions).isAuthenticated == s.isAuthenticated
    ensures ReduceAll(s, actions).token == s.token
    decreases |actions|
  {
    if actions != [] {
      assert forall k :: 0 <= k < |actions[1..]| ==> actions[1..][k] == actions[k + 1];
      OnlyLoginAndLogoutAuthenticate(Reduce(s, actions[0]), actions[1..]);
    }
  }

  /** The initial state satisfies the invariant. */
  lemma InitialStateSignedOut()
    ensures TokenWhenAuthenticated(InitialState)
    ensures !InitialState.isAuthenticated && InitialState.isLoading
    ensures InitialState.user.None? && InitialState.token.None?
  {
  }
}
