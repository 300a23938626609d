/** The signed-in user kept by the session store (`useUserStore`). */
module Session {
  import opened Wrappers

  /** `IUser`. */
  datatype User = User(id: string, name: string, isSuperAdmin: bool)

  /** The store's state: the user, or `null` when nobody is signed in. */
  datatype State = State(user: Option<User>)

  /** A fresh store holds no user. */
  const Initial: State := State(None)

  /** `setUser(user)`: replaces whatever user was signed in. */
  function SetUser(s: State, u: User): (r: State)
    ensures SignedIn(r) && r.user.value == u
    ensures IsSuperAdmin(r) <==> u.isSuperAdmin
  {
    State(Some(u))
  }

  /** `logout()`: forgets the user. */
  function Logout(s: State): (r: State)
    ensures !SignedIn(r) && !IsSuperAdmin(r)
    ensures UserIdText(r) == "undefined"
  {
    State(None)
  }

  predicate SignedIn(s: State) {
    s.user.Some?
  }

  /** `user?.isSuperAdmin`: false when nobody is signed in. */
  predicate IsSuperAdmin(s: State) {
    s.user.Some? && s.user.value.isSuperAdmin
  }

  /** `String(user?.id)`: the text "undefined" when nobody is signed in. */
  function UserIdText(s: State): string {
    if s.user.Some? then s.user.value.id else "undefined"
  }

  /** Logging out after any sequence of sign-ins returns the store to its initial
      state, and signing in again only depends on the new user. */
  lemma LogoutResets(s: State, u: User, v: User)
    ensures Logout(SetUser(s, u)) == Initial
    ensures SetUser(SetUser(s, u), v) == SetUser(Initial, v)
    ensures SetUser(Logout(s), u) == SetUser(s, u)
  {
  }
}
