/** The three claim pages as classes over the identity store. Each handler
    changes the store and the page's own fields step by step, and its
    contract ties the outcome and the new state to the functions of
    `ClaimRules`, `ClaimStatistics` and `UserSelection`, whose properties
    are proved there. */
module ClaimsManager {
  import opened Wrappers
  import opened Identity
  import opened Outcomes
  import opened Text
  import opened ClaimRules
  import opened ClaimStatistics
  import opened UserSelection
  import opened ViewModels

  // ---------------------------------------------------------------------
  // ClaimsManager/Create
  // ---------------------------------------------------------------------

  /** The create page: a form for a new claim, the overview of all claims,
      and the delete and update handlers. `statusMessage` records the kind
      of the message left for the next request. */
  class CreateModel {
    const store: IdentityStore
    var users: seq<SelectItem>
    var allUserClaims: seq<UserClaimDetail>
    var claimTypeGroups: seq<ClaimTypeGroup>
    var totalClaimTypes: nat
    var totalClaims: nat
    var usersWithClaims: nat
    var selectedUserId: string
    var claimType: string
    var claimValue: Option<string>
    var statusMessage: Option<Outcome>

    /** The bound form fields. */
    function Form(): ClaimForm
      reads this
    {
      ClaimForm(selectedUserId, claimType, claimValue)
    }

    /** The overview fields the page shows. */
    function Shown(): ClaimsOverview
      reads this
    {
      ClaimsOverview(allUserClaims, claimTypeGroups, totalClaimTypes, totalClaims, usersWithClaims)
    }

    constructor (store: IdentityStore)
      ensures this.store == store
      ensures users == [] && Shown() == ClaimsOverview([], [], 0, 0, 0)
      ensures Form() == ClaimForm("", "", None) && statusMessage.None?
    {
      this.store := store;
      users := [];
      allUserClaims := [];
      claimTypeGroups := [];
      totalClaimTypes := 0;
      totalClaims := 0;
      usersWithClaims := 0;
      selectedUserId := "";
      claimType := "";
      claimValue := None;
      statusMessage := None;
    }

    /** `LoadUsersAsync`: the drop-down entries, or none when loading throws. */
    method LoadUsers(loadFails: bool)
      modifies this
      ensures users == UserItems(store.users, loadFails)
      ensures Shown() == old(Shown()) && Form() == old(Form()) && statusMessage == old(statusMessage)
    {
      users := UserItems(store.users, loadFails);
    }

    /** `LoadExistingClaimsAsync`: the details and claims of every user,
        then the groups and the three totals; all empty and zero when
        loading throws. */
    method LoadExistingClaims(loadFails: bool)
      modifies this
      ensures Shown() == Overview(store.users, store.userClaims, loadFails)
      ensures users == old(users) && Form() == old(Form()) && statusMessage == old(statusMessage)
    {
      if loadFails {
        allUserClaims := [];
        claimTypeGroups := [];
        totalClaimTypes := 0;
        totalClaims := 0;
        usersWithClaims := 0;
      } else {
        var allClaims := CollectClaims();
        claimTypeGroups := GroupClaims(allClaims);
        totalClaimTypes := |claimTypeGroups|;
        totalClaims := |allClaims|;
        usersWithClaims := |UserIdsOf(allUserClaims)|;
      }
    }

    /** The loop of `LoadExistingClaimsAsync`: for every user in turn, the
        user's claims are appended to `allClaims` and one detail per claim
        to `allUserClaims`. */
    method CollectClaims() returns (allClaims: seq<Claim>)
      modifies this
      ensures allUserClaims == AllDetails(store.users, store.userClaims)
      ensures allClaims == AllClaims(store.users, store.userClaims)
      ensures users == old(users) && Form() == old(Form()) && statusMessage == old(statusMessage)
    {
      var all := store.users;
      var held := store.userClaims;
      allUserClaims := [];
      allClaims := [];
      var i := 0;
      while i < |all|
        invariant 0 <= i <= |all|
        invariant allUserClaims == AllDetails(all[..i], held)
        invariant allClaims == AllClaims(all[..i], held)
        invariant users == old(users) && Form() == old(Form()) && statusMessage == old(statusMessage)
      {
        var user := all[i];
        var cs := ClaimsOf(held, user.id);
        allClaims := allClaims + cs;
        AppendDetails(user, cs);
        assert all[..i + 1][..i] == all[..i];
        i := i + 1;
      }
      assert all[..|all|] == all;
    }

    /** The inner loop of `LoadExistingClaimsAsync`: one detail per claim
        of `user`, appended in order. */
    method AppendDetails(user: User, cs: seq<Claim>)
      modifies this
      ensures allUserClaims == old(allUserClaims) + DetailsOf(user, cs)
      ensures users == old(users) && Form() == old(Form()) && statusMessage == old(statusMessage)
    {
      var j := 0;
      while j < |cs|
        invariant 0 <= j <= |cs|
        invariant allUserClaims == old(allUserClaims) + DetailsOf(user, cs[..j])
        invariant users == old(users) && Form() == old(Form()) && statusMessage == old(statusMessage)
      {
        allUserClaims := allUserClaims + [DetailOf(user, cs[j])];
        assert cs[..j + 1][..j] == cs[..j];
        j := j + 1;
      }
      assert cs[..|cs|] == cs;
    }

    /** `OnGetAsync`. */
    method OnGet(usersLoadFails: bool, claimsLoadFails: bool)
      modifies this
      ensures users == UserItems(store.users, usersLoadFails)
      ensures Shown() == Overview(store.users, store.userClaims, claimsLoadFails)
      ensures Form() == old(Form()) && statusMessage == old(statusMessage)
    {
      LoadUsers(usersLoadFails);
      LoadExistingClaims(claimsLoadFails);
    }

    /** `OnPostAsync`: reload the drop-down and the overview, then submit
        the form. */
    method OnPost(usersLoadFails: bool, claimsLoadFails: bool, addOk: bool) returns (outcome: Outcome)
      modifies this, store
      ensures outcome == PostOutcome(old(store.users), old(store.userClaims), old(Form()), CreatedClaim(old(Form())), addOk)
      ensures store.userClaims == if outcome == Succeeded
                                  then AppendClaim(old(store.userClaims), old(selectedUserId), CreatedClaim(old(Form())))
                                  else old(store.userClaims)
      ensures store.users == old(store.users) && store.roles == old(store.roles)
      ensures store.memberships == old(store.memberships)
      ensures users == UserItems(old(store.users), usersLoadFails)
      ensures Shown() == Overview(old(store.users), old(store.userClaims), claimsLoadFails)
      ensures if outcome == Succeeded
              then Form() == ClaimForm("", "", Some("")) && statusMessage == Some(Succeeded)
              else Form() == old(Form()) && statusMessage == old(statusMessage)
    {
      LoadUsers(usersLoadFails);
      LoadExistingClaims(claimsLoadFails);
      outcome := SubmitClaim(addOk);
    }

    /** The body of `OnPostAsync` after the reload: validate, trim, find the
        user, refuse a duplicate (ignoring case), then add. The outcome and
        the store's new claims are those of `PostOutcome` and `AppendClaim`
        for the trimmed claim; on success the form is cleared. */
    method SubmitClaim(addOk: bool) returns (outcome: Outcome)
      modifies this, store
      ensures outcome == PostOutcome(old(store.users), old(store.userClaims), old(Form()), CreatedClaim(old(Form())), addOk)
      ensures store.userClaims == if outcome == Succeeded
                                  then AppendClaim(old(store.userClaims), old(selectedUserId), CreatedClaim(old(Form())))
                                  else old(store.userClaims)
      ensures store.users == old(store.users) && store.roles == old(store.roles)
      ensures store.memberships == old(store.memberships)
      ensures users == old(users) && Shown() == old(Shown())
      ensures if outcome == Succeeded
              then Form() == ClaimForm("", "", Some("")) && statusMessage == Some(Succeeded)
              else Form() == old(Form()) && statusMessage == old(statusMessage)
    {
      var form := Form();
      var c := Claim(Trim(claimType), TrimOrEmpty(claimValue));
      outcome := PostClaim(store, form, c, addOk);
      if outcome == Succeeded {
        statusMessage := Some(Succeeded);
        claimType := "";
        claimValue := Some("");
        selectedUserId := "";
      }
    }

    /** `OnPostDeleteClaimAsync`: find the user, build the claim (a missing
        field throws), remove it; the status reports the outcome. */
    method OnPostDeleteClaim(userId: UserId, claimType: Option<string>, claimValue: Option<string>, removeOk: bool)
      returns (outcome: Outcome)
      modifies this, store
      ensures outcome == DeleteOutcome(old(store.users), userId, claimType, claimValue, removeOk)
      ensures store.userClaims == ClaimsAfterDelete(old(store.users), old(store.userClaims), userId,
                                                    claimType, claimValue, removeOk)
      ensures store.users == old(store.users) && store.roles == old(store.roles)
      ensures store.memberships == old(store.memberships)
      ensures statusMessage == Some(outcome)
      ensures users == old(users) && Shown() == old(Shown()) && Form() == old(Form())
    {
      var found := FindById(store.users, userId);
      if found.None? {
        outcome := UserNotFound;
      } else if claimType.None? || claimValue.None? {
        outcome := Faulted;
      } else {
        var user := found.value;
        var c := Claim(claimType.value, claimValue.value);
        var removed := store.RemoveClaim(user, c, removeOk);
        outcome := if removed then Succeeded else StoreFailure;
      }
      statusMessage := Some(outcome);
    }

    /** `OnPostUpdateClaimAsync`, with a missing new type treated as a failed
        add: find the user, remove the old claim, add the trimmed new one
        and, when that fails, re-add the old one. */
    method OnPostUpdateClaim(u: ClaimUpdate, removeOk: bool, addOk: bool, readdOk: bool) returns (outcome: Outcome)
      modifies this, store
      ensures outcome == UpdateOutcome(old(store.users), u, removeOk, addOk)
      ensures store.userClaims == ClaimsAfterUpdate(old(store.users), old(store.userClaims), u, removeOk, addOk, readdOk)
      ensures store.users == old(store.users) && store.roles == old(store.roles)
      ensures store.memberships == old(store.memberships)
      ensures statusMessage == Some(outcome)
      ensures users == old(users) && Shown() == old(Shown()) && Form() == old(Form())
    {
      var found := FindById(store.users, u.userId);
      if found.None? {
        outcome := UserNotFound;
      } else if u.oldType.None? || u.oldValue.None? {
        outcome := Faulted;
      } else {
        outcome := ReplaceClaim(found.value, u, removeOk, addOk, readdOk);
      }
      statusMessage := Some(outcome);
    }

    /** The steps of `OnPostUpdateClaimAsync` once the user is found: remove
        the old claim; if that worked, add the new one and, when that fails,
        re-add the old one. The user's claims become `HeldAfterUpdate`. */
    method ReplaceClaim(user: User, u: ClaimUpdate, removeOk: bool, addOk: bool, readdOk: bool)
      returns (outcome: Outcome)
      requires u.oldType.Some? && u.oldValue.Some?
      modifies store
      ensures outcome == if !removeOk then StoreFailure
                         else if u.newType.Some? && addOk then Succeeded
                         else RestoredOriginal
      ensures store.userClaims ==
                if removeOk
                then old(store.userClaims)[user.id := HeldAfterUpdate(ClaimsOf(old(store.userClaims), user.id),
                                                                       u, removeOk, addOk, readdOk)]
                else old(store.userClaims)
      ensures store.users == old(store.users) && store.roles == old(store.roles)
      ensures store.memberships == old(store.memberships)
    {
      var oldClaim := OldClaim(u);
      var removed := store.RemoveClaim(user, oldClaim, removeOk);
      if !removed {
        return StoreFailure;
      }
      var added := false;
      if u.newType.Some? {
        added := store.AddClaim(user, NewClaim(u), addOk);
      }
      if added {
        return Succeeded;
      }
      var _ := store.AddClaim(user, oldClaim, readdOk);
      return RestoredOriginal;
    }
  }

  // ---------------------------------------------------------------------
  // ClaimsManager/Assign
  // ---------------------------------------------------------------------

  /** The assign page: the same form, the claim added as typed. */
  class AssignModel {
    const store: IdentityStore
    var users: seq<SelectItem>
    var selectedUserId: string
    var claimType: string
    var claimValue: Option<string>
    var statusMessage: Option<Outcome>

    function Form(): ClaimForm
      reads this
    {
      ClaimForm(selectedUserId, claimType, claimValue)
    }

    constructor (store: IdentityStore)
      ensures this.store == store
      ensures users == [] && Form() == ClaimForm("", "", None) && statusMessage.None?
    {
      this.store := store;
      users := [];
      selectedUserId := "";
      claimType := "";
      claimValue := None;
      statusMessage := None;
    }

    /** `LoadUsersAsync`. */
    method LoadUsers(loadFails: bool)
      modifies this
      ensures users == UserItems(store.users, loadFails)
      ensures Form() == old(Form()) && statusMessage == old(statusMessage)
    {
      users := UserItems(store.users, loadFails);
    }

    /** `OnPostAsync`: reload, validate, find the user, refuse a duplicate
        (ignoring case), then add the claim as typed. */
    method OnPost(loadFails: bool, addOk: bool) returns (outcome: Outcome)
      modifies this, store
      ensures outcome == PostOutcome(old(store.users), old(store.userClaims), Form(), AssignedClaim(Form()), addOk)
      ensures store.userClaims == if outcome == Succeeded
                                  then AppendClaim(old(store.userClaims), selectedUserId, AssignedClaim(Form()))
                                  else old(store.userClaims)
      ensures store.users == old(store.users) && store.roles == old(store.roles)
      ensures store.memberships == old(store.memberships)
      ensures users == UserItems(old(store.users), loadFails)
      ensures Form() == old(Form())
      ensures statusMessage == if outcome == Succeeded then Some(Succeeded) else old(statusMessage)
    {
      LoadUsers(loadFails);
      var form := Form();
      outcome := PostClaim(store, form, Claim(claimType, claimValue.GetOr("")), addOk);
      if outcome == Succeeded {
        statusMessage := Some(Succeeded);
      }
    }
  }

  /** The checks and the add both claim pages make for form `f` and the
      claim `c` built from it: validate the form, find the user by id, then
      the duplicate-checked add. (The Create page trims `c` before the
      validation runs; the validation does not read `c`, so the order does
      not matter.) */
  method PostClaim(store: IdentityStore, f: ClaimForm, c: Claim, addOk: bool) returns (outcome: Outcome)
    modifies store
    ensures outcome == PostOutcome(old(store.users), old(store.userClaims), f, c, addOk)
    ensures store.userClaims == if outcome == Succeeded then AppendClaim(old(store.userClaims), f.selectedUserId, c)
                                else old(store.userClaims)
    ensures store.users == old(store.users) && store.roles == old(store.roles)
    ensures store.memberships == old(store.memberships)
  {
    if !FormValid(f) {
      return InvalidInput;
    }
    var found := FindById(store.users, f.selectedUserId);
    if found.None? {
      return UserNotFound;
    }
    outcome := AddUnlessHeld(store, found.value, c, addOk);
  }

  /** The duplicate-checked add both claim pages end with: refuse `c` if the
      user holds a claim equal to it ignoring case, otherwise add it. */
  method AddUnlessHeld(store: IdentityStore, user: User, c: Claim, addOk: bool) returns (outcome: Outcome)
    modifies store
    ensures outcome == if HoldsIgnoreCase(ClaimsOf(old(store.userClaims), user.id), c.claimType, c.value)
                       then DuplicateClaim
                       else if addOk then Succeeded
                       else StoreFailure
    ensures store.userClaims == if outcome == Succeeded then AppendClaim(old(store.userClaims), user.id, c)
                                else old(store.userClaims)
    ensures store.users == old(store.users) && store.roles == old(store.roles)
    ensures store.memberships == old(store.memberships)
  {
    var existing := ClaimsOf(store.userClaims, user.id);
    if HoldsIgnoreCase(existing, c.claimType, c.value) {
      return DuplicateClaim;
    }
    var added := store.AddClaim(user, c, addOk);
    outcome := if added then Succeeded else StoreFailure;
  }

  // ---------------------------------------------------------------------
  // ClaimsManager/Index
  // ---------------------------------------------------------------------

  /** The entry the index page shows for user `u`. */
  function UserClaimsEntry(userClaims: map<UserId, seq<Claim>>, u: User): UserClaimsViewModel {
    UserClaimsViewModel(u.userName.GetOr(""), ClaimsOf(userClaims, u.id))
  }

  /** An entry names its user (or is "" for a user without a name), shows
      that user's claims exactly, and has claims exactly when the store
      holds some for the user. */
  lemma UserClaimsEntryMeaning(userClaims: map<UserId, seq<Claim>>, u: User)
    ensures var e := UserClaimsEntry(userClaims, u);
            && (u.userName.Some? ==> e.userName == u.userName.value)
            && (u.userName.None? ==> e.userName == "")
            && e.ClaimCount() == |ClaimsOf(userClaims, u.id)|
            && (e.HasClaims() <==> u.id in userClaims && userClaims[u.id] != [])
  {
    HasClaimsIffCount(UserClaimsEntry(userClaims, u));
  }

  /** The index page: every user with the user's claims. */
  class IndexModel {
    const store: IdentityStore
    var users: seq<User>
    var userClaims: seq<UserClaimsViewModel>

    constructor (store: IdentityStore)
      ensures this.store == store && users == [] && userClaims == []
    {
      this.store := store;
      users := [];
      userClaims := [];
    }

    /** `OnGetAsync`: one entry per user, in the store's order; the store is
        only read. */
    method OnGet()
      modifies this
      ensures users == store.users
      ensures |userClaims| == |users|
      ensures forall i :: 0 <= i < |users| ==> userClaims[i] == UserClaimsEntry(store.userClaims, users[i])
    {
      users := store.users;
      userClaims := [];
      for i := 0 to |users|
        invariant users == store.users
        invariant |userClaims| == i
        invariant forall k :: 0 <= k < i ==> userClaims[k] == UserClaimsEntry(store.userClaims, users[k])
      {
        var user := users[i];
        var claims := ClaimsOf(store.userClaims, user.id);
        userClaims := userClaims + [UserClaimsViewModel(user.userName.GetOr(""), claims)];
      }
    }
  }
}
