/** The two read models of the index pages and their computed properties. */
module ViewModels {
  import opened Wrappers
  import opened Text
  import opened Identity

  // ---------------------------------------------------------------------
  // UserClaimsViewModel
  // ---------------------------------------------------------------------

  /** A user's name with the claims the user holds. */
  datatype UserClaimsViewModel = UserClaimsViewModel(userName: string, claims: seq<Claim>)
  {
    /** `Claims.Any()`. */
    predicate HasClaims() {
      exists c :: c in claims
    }

    /** `Claims.Count`. */
    function ClaimCount(): nat {
      |claims|
    }
  }

  /** `new UserClaimsViewModel()`: empty name, no claims. */
  function NewUserClaimsViewModel(): UserClaimsViewModel {
    UserClaimsViewModel("", [])
  }

  /** `HasClaims` holds exactly when there is a claim, exactly when the
      count is positive. */
  lemma HasClaimsIffCount(v: UserClaimsViewModel)
    ensures v.HasClaims() <==> v.claims != []
    ensures v.HasClaims() <==> v.ClaimCount() > 0
  {
    if v.claims != [] {
      assert v.claims[0] in v.claims;
    }
  }

  /** A fresh view model shows no claims. */
  lemma NewUserClaimsViewModelIsEmpty()
    ensures var v := NewUserClaimsViewModel();
            v.userName == "" && !v.HasClaims() && v.ClaimCount() == 0
  {
  }

  // ---------------------------------------------------------------------
  // UserRolesViewModel
  // ---------------------------------------------------------------------

  /** A user's name with the names of the user's roles; every field may be
      null. */
  datatype UserRolesViewModel = UserRolesViewModel(userName: Option<string>, roles: Option<seq<string>>,
                                                   roleName: Option<string>)
  {
    /** `Roles?.Any() == true`. */
    predicate HasRoles() {
      roles.Some? && exists r :: r in roles.value
    }

    /** `Roles?.Count ?? 0`. */
    function RoleCount(): nat {
      if roles.Some? then |roles.value| else 0
    }

    /** `Roles?.Any() == true ? string.Join(", ", Roles) : "No roles assigned"`. */
    function RolesDisplay(): string {
      if HasRoles() then Join(", ", roles.value) else "No roles assigned"
    }
  }

  /** `new UserRolesViewModel()`: no name, an empty role list, no role name. */
  function NewUserRolesViewModel(): UserRolesViewModel {
    UserRolesViewModel(None, Some([]), None)
  }

  /** `HasRoles` holds exactly when the list is present and not empty,
      exactly when the count is positive. */
  lemma HasRolesIffCount(v: UserRolesViewModel)
    ensures v.HasRoles() <==> v.roles.Some? && v.roles.value != []
    ensures v.HasRoles() <==> v.RoleCount() > 0
  {
    if v.roles.Some? && v.roles.value != [] {
      assert v.roles.value[0] in v.roles.value;
    }
  }

  /** The display text: "No roles assigned" for a missing or empty list; a
      single role by itself; one more role appends ", " and its name. */
  lemma RolesDisplayCases(v: UserRolesViewModel, extra: string)
    ensures v.roles.None? || v.roles == Some([]) ==> v.RolesDisplay() == "No roles assigned"
    ensures v.roles.Some? && |v.roles.value| == 1 ==> v.RolesDisplay() == v.roles.value[0]
    ensures v.roles.Some? && v.roles.value != [] ==>
              v.(roles := Some(v.roles.value + [extra])).RolesDisplay() == v.RolesDisplay() + ", " + extra
  {
    HasRolesIffCount(v);
    if v.roles.Some? && v.roles.value != [] {
      var w := v.(roles := Some(v.roles.value + [extra]));
      HasRolesIffCount(w);
      JoinAppend(", ", v.roles.value, extra);
    }
  }

  /** A fresh view model shows "No roles assigned". */
  lemma NewUserRolesViewModelShowsNoRoles()
    ensures var v := NewUserRolesViewModel();
            !v.HasRoles() && v.RoleCount() == 0 && v.RolesDisplay() == "No roles assigned"
  {
  }
}
