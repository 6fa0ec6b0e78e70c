/** The decisions the role pages make, as functions of the store's state:
    role creation (validation of the untrimmed name, trimming, the
    existence test, the create call) and role assignment (user, role and
    membership tests in that order, then the add). The page classes are
    proved to follow these functions. */
module RoleRules {
  import opened Text
  import opened Identity
  import opened Outcomes

  // ---------------------------------------------------------------------
  // Creating a role (RolesManager/Create)
  // ---------------------------------------------------------------------

  /** `[Required]` and `[StringLength(256, MinimumLength = 3)]` on `Name`,
      both applied to the name as typed, before it is trimmed; the
      lengths are in UTF-16 units. */
  predicate RoleNameValid(name: string) {
    !IsBlank(name) && 3 <= Utf16Length(name) <= 256
  }

  /** Outcome of the create post: validation, then the existence test on
      the trimmed name, then the store's create. */
  function CreateOutcome(roles: seq<string>, normalize: string -> string, name: string, ok: bool): (r: Outcome)
    ensures r in {Succeeded, InvalidInput, DuplicateRole, StoreFailure}
  {
    if !RoleNameValid(name) then InvalidInput
    else if RoleExists(roles, normalize, Trim(name)) then DuplicateRole
    else if ok then Succeeded
    else StoreFailure
  }

  /** The role list after the create post: the trimmed name appended on
      success, unchanged otherwise. */
  function RolesAfterCreate(roles: seq<string>, normalize: string -> string, name: string, ok: bool): seq<string> {
    if CreateOutcome(roles, normalize, name, ok) == Succeeded then roles + [Trim(name)] else roles
  }

  /** The outcomes in terms of the state: success exactly when the name is
      valid, no role normalises like its trimmed form and the store
      accepts; a duplicate exactly when the name is valid and such a role
      exists. On every outcome but success the role list is unchanged, and
      on success it grows by the trimmed name alone. */
  lemma CreateOutcomeMeaning(roles: seq<string>, normalize: string -> string, name: string, ok: bool)
    ensures CreateOutcome(roles, normalize, name, ok) == Succeeded <==>
              RoleNameValid(name) && ok && forall r :: r in roles ==> normalize(r) != normalize(Trim(name))
    ensures CreateOutcome(roles, normalize, name, ok) == DuplicateRole <==>
              RoleNameValid(name) && exists r :: r in roles && normalize(r) == normalize(Trim(name))
    ensures var after := RolesAfterCreate(roles, normalize, name, ok);
            if CreateOutcome(roles, normalize, name, ok) == Succeeded
            then |after| == |roles| + 1 && after[..|roles|] == roles && after[|roles|] == Trim(name)
            else after == roles
  {
    var after := RolesAfterCreate(roles, normalize, name, ok);
    if CreateOutcome(roles, normalize, name, ok) == Succeeded {
      assert after[..|roles|] == roles;
    }
  }

  /** The role a successful create adds is the name with its surrounding
      white space removed; it is not empty and at most 256 UTF-16 units
      long. */
  lemma CreatedRoleName(roles: seq<string>, normalize: string -> string, name: string, ok: bool)
    requires CreateOutcome(roles, normalize, name, ok) == Succeeded
    ensures IsTrimOf(name, Trim(name))
    ensures 0 < |Trim(name)| && Utf16Length(Trim(name)) <= 256
    ensures Trim(Trim(name)) == Trim(name)
  {
    TrimSpec(name);
    TrimEmptyIffBlank(name);
    TrimIdempotent(name);
    TrimUnits(name);
  }

  /** The length limits apply before trimming: " ab" passes them and
      creates the two-character role "ab". */
  lemma PaddedShortNameAccepted(roles: seq<string>, normalize: string -> string)
    requires forall r :: r in roles ==> normalize(r) != normalize("ab")
    ensures CreateOutcome(roles, normalize, " ab", true) == Succeeded
    ensures RolesAfterCreate(roles, normalize, " ab", true) == roles + ["ab"]
    ensures Utf16Length("ab") < 3
  {
    assert Trim(" ab") == "ab" by {
      assert TrimmedAt(" ab", 1, "ab");
      TrimSpec(" ab");
      TrimUnique(" ab", Trim(" ab"), "ab");
    }
    assert !IsWhiteSpace(" ab"[1]);
  }

  /** The minimum length is counted in UTF-16 units: a letter followed by
      one emoji is two characters but three units, and is accepted. */
  lemma SurrogatePairCountsTwice(roles: seq<string>, normalize: string -> string)
    requires forall r :: r in roles ==> normalize(r) != normalize("a\U{1F600}")
    ensures |"a\U{1F600}"| == 2 && Utf16Length("a\U{1F600}") == 3
    ensures CreateOutcome(roles, normalize, "a\U{1F600}", true) == Succeeded
  {
    var name := "a\U{1F600}";
    assert !IsWhiteSpace(name[0]);
    TrimNoOp(name);
  }

  /** Posting the same name twice creates the role at most once: after a
      successful create the second post is a duplicate. */
  lemma CreateTwiceIsDuplicate(roles: seq<string>, normalize: string -> string, name: string, ok1: bool, ok2: bool)
    ensures CreateOutcome(roles, normalize, name, ok1) == Succeeded ==>
              CreateOutcome(RolesAfterCreate(roles, normalize, name, ok1), normalize, name, ok2) == DuplicateRole
    ensures var after := RolesAfterCreate(roles, normalize, name, ok1);
            RolesAfterCreate(after, normalize, name, ok2) == after
              || RolesAfterCreate(after, normalize, name, ok2) == roles + [Trim(name)]
  {
    if CreateOutcome(roles, normalize, name, ok1) == Succeeded {
      var after := roles + [Trim(name)];
      assert after[|roles|] in after;
    }
  }

  /** A create keeps the store's invariant: the new role normalises unlike
      every existing one. */
  lemma CreateKeepsInvariant(users: seq<User>, userClaims: map<UserId, seq<Claim>>, roles: seq<string>,
                             memberships: set<(UserId, string)>, normalize: string -> string,
                             name: string, ok: bool)
    requires StoreInvariant(users, userClaims, roles, memberships, normalize)
    ensures StoreInvariant(users, userClaims, RolesAfterCreate(roles, normalize, name, ok), memberships, normalize)
  {
    var after := RolesAfterCreate(roles, normalize, name, ok);
    if CreateOutcome(roles, normalize, name, ok) == Succeeded {
      forall i, j | 0 <= i < j < |after| ensures normalize(after[i]) != normalize(after[j]) {
        if j == |roles| {
          assert after[i] == roles[i] && roles[i] in roles;
        } else {
          assert after[i] == roles[i] && after[j] == roles[j];
        }
      }
      forall m | m in memberships ensures HasRoleKey(after, normalize, m.1) {
        var r :| r in roles && normalize(r) == m.1;
        assert r in after;
      }
    }
  }

  // ---------------------------------------------------------------------
  // Assigning a role (RolesManager/Assign)
  // ---------------------------------------------------------------------

  /** The bound properties of the assign form. */
  datatype AssignForm = AssignForm(selectedUserName: string, selectedRoleName: string)

  /** `[Required]` on both fields. */
  predicate AssignFormValid(f: AssignForm) {
    !IsBlank(f.selectedUserName) && !IsBlank(f.selectedRoleName)
  }

  /** Outcome of the assign post: validation, user lookup by name, the
      role's existence, the membership test, then the store's add. */
  function AssignOutcome(users: seq<User>, roles: seq<string>, memberships: set<(UserId, string)>,
                         normalize: string -> string, f: AssignForm, ok: bool): (r: Outcome)
    ensures r in {Succeeded, InvalidInput, UserNotFound, RoleNotFound, AlreadyAssigned, StoreFailure}
  {
    if !AssignFormValid(f) then InvalidInput
    else match FindByName(users, normalize, f.selectedUserName)
      case None => UserNotFound
      case Some(u) =>
        if !RoleExists(roles, normalize, f.selectedRoleName) then RoleNotFound
        else if IsInRole(memberships, normalize, u.id, f.selectedRoleName) then AlreadyAssigned
        else if ok then Succeeded
        else StoreFailure
  }

  /** The memberships after the assign post: the (user, role) pair added on
      success, unchanged otherwise. */
  function MembershipsAfterAssign(users: seq<User>, roles: seq<string>, memberships: set<(UserId, string)>,
                                  normalize: string -> string, f: AssignForm, ok: bool): set<(UserId, string)>
  {
    if AssignOutcome(users, roles, memberships, normalize, f, ok) == Succeeded
    then memberships + {(FindByName(users, normalize, f.selectedUserName).value.id, normalize(f.selectedRoleName))}
    else memberships
  }

  /** The checks run in order: a missing role is reported only for a user
      that exists, and "already assigned" only when both exist. */
  lemma AssignOutcomeMeaning(users: seq<User>, roles: seq<string>, memberships: set<(UserId, string)>,
                             normalize: string -> string, f: AssignForm, ok: bool)
    ensures var r := AssignOutcome(users, roles, memberships, normalize, f, ok);
            var found := FindByName(users, normalize, f.selectedUserName);
            && (r == InvalidInput <==> !AssignFormValid(f))
            && (r == UserNotFound <==>
                  AssignFormValid(f) && forall u :: u in users && u.userName.Some? ==>
                                          normalize(u.userName.value) != normalize(f.selectedUserName))
            && (r == RoleNotFound <==>
                  AssignFormValid(f) && found.Some? && !RoleExists(roles, normalize, f.selectedRoleName))
            && (r == AlreadyAssigned <==>
                  AssignFormValid(f) && found.Some? && RoleExists(roles, normalize, f.selectedRoleName)
                  && IsInRole(memberships, normalize, found.value.id, f.selectedRoleName))
            && (r == Succeeded <==>
                  AssignFormValid(f) && found.Some? && RoleExists(roles, normalize, f.selectedRoleName)
                  && !IsInRole(memberships, normalize, found.value.id, f.selectedRoleName) && ok)
  {
  }

  /** A successful assignment adds exactly one new pair and nothing else;
      every other outcome leaves the memberships as they were. */
  lemma AssignAddsOnePair(users: seq<User>, roles: seq<string>, memberships: set<(UserId, string)>,
                          normalize: string -> string, f: AssignForm, ok: bool)
    ensures var after := MembershipsAfterAssign(users, roles, memberships, normalize, f, ok);
            if AssignOutcome(users, roles, memberships, normalize, f, ok) == Succeeded
            then memberships < after && |after| == |memberships| + 1
                 && after - memberships == {(FindByName(users, normalize, f.selectedUserName).value.id,
                                             normalize(f.selectedRoleName))}
            else after == memberships
  {
    if AssignOutcome(users, roles, memberships, normalize, f, ok) == Succeeded {
      var p := (FindByName(users, normalize, f.selectedUserName).value.id, normalize(f.selectedRoleName));
      assert p !in memberships;
      assert memberships + {p} - memberships == {p};
    }
  }

  /** Repeating a successful assignment is refused as already assigned, so
      a pair is never held twice. */
  lemma RepeatedAssignIsRefused(users: seq<User>, roles: seq<string>, memberships: set<(UserId, string)>,
                                normalize: string -> string, f: AssignForm, ok1: bool, ok2: bool)
    requires AssignOutcome(users, roles, memberships, normalize, f, ok1) == Succeeded
    ensures AssignOutcome(users, roles, MembershipsAfterAssign(users, roles, memberships, normalize, f, ok1),
                          normalize, f, ok2) == AlreadyAssigned
  {
  }

  /** An assignment keeps the store's invariant: the added pair names a
      user and a role that exist. */
  lemma AssignKeepsInvariant(users: seq<User>, userClaims: map<UserId, seq<Claim>>, roles: seq<string>,
                             memberships: set<(UserId, string)>, normalize: string -> string,
                             f: AssignForm, ok: bool)
    requires StoreInvariant(users, userClaims, roles, memberships, normalize)
    ensures StoreInvariant(users, userClaims, roles,
                           MembershipsAfterAssign(users, roles, memberships, normalize, f, ok), normalize)
  {
    if AssignOutcome(users, roles, memberships, normalize, f, ok) == Succeeded {
      var u := FindByName(users, normalize, f.selectedUserName).value;
      assert FindById(users, u.id).Some?;
    }
  }
}
