/**
 * The ASP.NET Identity collaborators the login and refresh flows call into
 * (UserManager, SignInManager), reduced to the data they answer from.
 * None of them is changed by the flows, so they are plain values here.
 */
module Identity {
  import opened Wrappers

  /** A row of the users table as far as the flows read it; `UserName` and
      `Email` are nullable columns of the Identity user. */
  datatype User = User(id: string, userName: Option<string>, email: Option<string>)

  /** What `FindByEmailAsync`, `FindByIdAsync`, `CheckPasswordSignInAsync`
      and `GetRolesAsync` answer, as maps and an oracle. */
  datatype Directory = Directory(
    byEmail: map<string, User>,
    byId: map<string, User>,
    passwordAccepted: (User, string) -> bool,
    roles: map<string, seq<string>>)

  /** `FindByIdAsync(id)` finds a user whose `Id` is `id`, as a users
      table keyed by `Id` does. */
  predicate ConsistentIds(d: Directory)
  {
    forall k :: k in d.byId ==> d.byId[k].id == k
  }

  /** `GetRolesAsync(user)`: the user's role names in the order the store
      lists them; a user without roles gets the empty list. */
  function RolesOf(d: Directory, u: User): (r: seq<string>)
    ensures u.id in d.roles ==> r == d.roles[u.id]
    ensures u.id !in d.roles ==> r == []
  {
    if u.id in d.roles then d.roles[u.id] else []
  }
}
