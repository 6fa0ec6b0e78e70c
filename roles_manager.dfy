/** The three role pages as classes over the identity store. Each handler's
    contract ties its outcome and the store's new state to the functions of
    `RoleRules`, whose properties are proved there. */
module RolesManager {
  import opened Wrappers
  import opened Identity
  import opened Outcomes
  import opened Text
  import opened RoleRules
  import opened ViewModels

  // ---------------------------------------------------------------------
  // RolesManager/Create
  // ---------------------------------------------------------------------

  /** The create page: one bound field, the role name as typed. */
  class CreateModel {
    const store: IdentityStore
    var name: string

    constructor (store: IdentityStore)
      ensures this.store == store && name == ""
    {
      this.store := store;
      name := "";
    }

    /** `OnPostAsync`: validate the name as typed, trim it, refuse a role
        that exists, then create. */
    method OnPost(ok: bool) returns (outcome: Outcome)
      modifies store
      ensures outcome == CreateOutcome(old(store.roles), store.normalize, name, ok)
      ensures store.roles == RolesAfterCreate(old(store.roles), store.normalize, name, ok)
      ensures store.users == old(store.users) && store.userClaims == old(store.userClaims)
      ensures store.memberships == old(store.memberships)
    {
      if !RoleNameValid(name) {
        return InvalidInput;
      }
      var roleName := Trim(name);
      if RoleExists(store.roles, store.normalize, roleName) {
        return DuplicateRole;
      }
      var created := store.CreateRole(roleName, ok);
      outcome := if created then Succeeded else StoreFailure;
    }
  }

  // ---------------------------------------------------------------------
  // RolesManager/Assign
  // ---------------------------------------------------------------------

  /** The assign page: the chosen user name and role name, and the success
      message (the user and role it names) left for the index page. */
  class AssignModel {
    const store: IdentityStore
    var selectedUserName: string
    var selectedRoleName: string
    var successMessage: Option<(string, string)>

    function Form(): AssignForm
      reads this
    {
      AssignForm(selectedUserName, selectedRoleName)
    }

    constructor (store: IdentityStore)
      ensures this.store == store && Form() == AssignForm("", "") && successMessage.None?
    {
      this.store := store;
      selectedUserName := "";
      selectedRoleName := "";
      successMessage := None;
    }

    /** `OnPostAsync`: validate, find the user by name, check the role
        exists, refuse a membership already held, then add it. */
    method OnPost(ok: bool) returns (outcome: Outcome)
      modifies this, store
      ensures outcome == AssignOutcome(old(store.users), old(store.roles), old(store.memberships),
                                       store.normalize, Form(), ok)
      ensures store.memberships == MembershipsAfterAssign(old(store.users), old(store.roles), old(store.memberships),
                                                          store.normalize, Form(), ok)
      ensures store.users == old(store.users) && store.userClaims == old(store.userClaims)
      ensures store.roles == old(store.roles)
      ensures Form() == old(Form())
      ensures successMessage == if outcome == Succeeded then Some((selectedUserName, selectedRoleName))
                                else old(successMessage)
    {
      if !AssignFormValid(Form()) {
        return InvalidInput;
      }
      var found := FindByName(store.users, store.normalize, selectedUserName);
      if found.None? {
        return UserNotFound;
      }
      var user := found.value;
      if !RoleExists(store.roles, store.normalize, selectedRoleName) {
        return RoleNotFound;
      }
      if IsInRole(store.memberships, store.normalize, user.id, selectedRoleName) {
        return AlreadyAssigned;
      }
      var added := store.AddToRole(user, selectedRoleName, ok);
      if !added {
        return StoreFailure;
      }
      successMessage := Some((selectedUserName, selectedRoleName));
      return Succeeded;
    }
  }

  // ---------------------------------------------------------------------
  // RolesManager/Index
  // ---------------------------------------------------------------------

  /** The entry the index page shows for user `u`. */
  function UserRolesEntry(roles: seq<string>, memberships: set<(UserId, string)>,
                          normalize: string -> string, u: User): UserRolesViewModel
  {
    UserRolesViewModel(u.userName, Some(RolesOf(roles, memberships, normalize, u.id)), None)
  }

  /** An entry copies the user name as it is (possibly missing), lists
      exactly the roles the user belongs to, shows roles exactly when the
      user belongs to one, and otherwise shows "No roles assigned". */
  lemma UserRolesEntryMeaning(roles: seq<string>, memberships: set<(UserId, string)>,
                              normalize: string -> string, u: User)
    ensures var e := UserRolesEntry(roles, memberships, normalize, u);
            && e.userName == u.userName
            && e.roles.Some?
            && (forall r :: r in e.roles.value <==> r in roles && (u.id, normalize(r)) in memberships)
            && (e.HasRoles() <==> exists r :: r in roles && (u.id, normalize(r)) in memberships)
            && (!e.HasRoles() ==> e.RolesDisplay() == "No roles assigned")
  {
    var e := UserRolesEntry(roles, memberships, normalize, u);
    HasRolesIffCount(e);
    if exists r :: r in roles && (u.id, normalize(r)) in memberships {
      var r :| r in roles && (u.id, normalize(r)) in memberships;
      assert r in e.roles.value;
    }
  }

  /** The index page: every role, and every user with the user's roles. */
  class IndexModel {
    const store: IdentityStore
    var roles: seq<string>
    var userRoles: seq<UserRolesViewModel>

    constructor (store: IdentityStore)
      ensures this.store == store && roles == [] && userRoles == []
    {
      this.store := store;
      roles := [];
      userRoles := [];
    }

    /** `OnGetAsync`: the full role list, then one entry per user in the
        store's order; the store is only read. */
    method OnGet()
      modifies this
      ensures roles == store.roles
      ensures |userRoles| == |store.users|
      ensures forall i :: 0 <= i < |store.users| ==>
                userRoles[i] == UserRolesEntry(store.roles, store.memberships, store.normalize, store.users[i])
    {
      roles := store.roles;
      var users := store.users;
      userRoles := [];
      for i := 0 to |users|
        invariant roles == store.roles
        invariant |userRoles| == i
        invariant forall k :: 0 <= k < i ==>
                    userRoles[k] == UserRolesEntry(store.roles, store.memberships, store.normalize, users[k])
      {
        var user := users[i];
        var userRoleNames := RolesOf(store.roles, store.memberships, store.normalize, user.id);
        userRoles := userRoles + [UserRolesViewModel(user.userName, Some(userRoleNames), None)];
      }
    }
  }
}
