/** The role checks of the relationship app's views (is_admin, is_librarian,
    is_member), used to guard the role-specific pages. */
module RelationshipRoles {
  import opened Wrappers

  /** A user profile; `role` is stored as free text. */
  datatype UserProfile = UserProfile(role: string)

  /** What the role checks read from a user: whether the user is
      authenticated, and the attached profile when there is one (`hasattr`
      is false when the profile is missing). */
  datatype User = User(isAuthenticated: bool, profile: Option<UserProfile>)

  /** is_admin: authenticated, with a profile whose role is exactly `Admin`. */
  predicate IsAdmin(user: User): (r: bool)
    ensures r <==> user.isAuthenticated && user.profile == Some(UserProfile("Admin"))
  {
    user.isAuthenticated && user.profile.Some? && user.profile.value.role == "Admin"
  }

  /** is_librarian: authenticated, with a profile whose role is exactly `Librarian`. */
  predicate IsLibrarian(user: User): (r: bool)
    ensures r <==> user.isAuthenticated && user.profile == Some(UserProfile("Librarian"))
  {
    user.isAuthenticated && user.profile.Some? && user.profile.value.role == "Librarian"
  }

  /** is_member: authenticated, with a profile whose role is exactly `Member`. */
  predicate IsMember(user: User): (r: bool)
    ensures r <==> user.isAuthenticated && user.profile == Some(UserProfile("Member"))
  {
    user.isAuthenticated && user.profile.Some? && user.profile.value.role == "Member"
  }

  /** The number of role checks a user passes. */
  function RoleCount(user: User): nat {
    (if IsAdmin(user) then 1 else 0)
    + (if IsLibrarian(user) then 1 else 0)
    + (if IsMember(user) then 1 else 0)
  }

  /** No user passes more than one role check. */
  lemma RolesAreExclusive(user: User)
    ensures RoleCount(user) <= 1
    ensures IsAdmin(user) ==> !IsLibrarian(user) && !IsMember(user)
    ensures IsLibrarian(user) ==> !IsMember(user)
  {
  }

  /** A user passes exactly one role check when authenticated with a
      profile whose role is one of the three names, and none otherwise. */
  lemma RoleCountExact(user: User)
    ensures RoleCount(user) == 1 <==>
      user.isAuthenticated && user.profile.Some?
      && user.profile.value.role in {"Admin", "Librarian", "Member"}
  {
  }

  /** An anonymous user passes none of the checks. */
  lemma AnonymousHasNoRole(user: User)
    requires !user.isAuthenticated
    ensures !IsAdmin(user) && !IsLibrarian(user) && !IsMember(user)
  {
  }

  /** A user without a profile passes none of the checks. */
  lemma NoProfileNoRole(user: User)
    requires user.profile.None?
    ensures !IsAdmin(user) && !IsLibrarian(user) && !IsMember(user)
  {
  }

  /** Role names are compared exactly: `admin` is not `Admin`. */
  lemma RoleMatchIsCaseSensitive(user: User)
    requires user.isAuthenticated && user.profile == Some(UserProfile("admin"))
    ensures !IsAdmin(user) && RoleCount(user) == 0
  {
  }
}
