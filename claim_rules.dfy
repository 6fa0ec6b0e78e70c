/** The decisions the claim pages make, as functions of the store's state:
    the form validation shared by the Create and Assign pages, the
    ordinal case-insensitive duplicate test, which claim each page adds
    (trimmed on Create, as typed on Assign), and the outcome and effect of
    the delete and update handlers of the Create page. The page classes
    are proved to follow these functions; the lemmas below state what the
    pages promise. */
module ClaimRules {
  import opened Wrappers
  import opened Text
  import opened Identity
  import opened Outcomes

  // ---------------------------------------------------------------------
  // Adding a claim (ClaimsManager/Create and ClaimsManager/Assign)
  // ---------------------------------------------------------------------

  /** The bound properties of both claim forms. */
  datatype ClaimForm = ClaimForm(selectedUserId: string, claimType: string, claimValue: Option<string>)

  /** The data annotations: `[Required]` user id, `[Required]` claim type of
      1 to 100 UTF-16 units, optional claim value of at most 255. */
  predicate FormValid(f: ClaimForm) {
    && !IsBlank(f.selectedUserId)
    && !IsBlank(f.claimType) && 1 <= Utf16Length(f.claimType) <= 100
    && (f.claimValue.None? || Utf16Length(f.claimValue.value) <= 255)
  }

  /** `existing.Any(c => Equals(c.Type, t, OrdinalIgnoreCase) && Equals(c.Value, v, OrdinalIgnoreCase))`. */
  predicate HoldsIgnoreCase(held: seq<Claim>, claimType: string, value: string) {
    exists c :: c in held && EqualsIgnoreCase(c.claimType, claimType) && EqualsIgnoreCase(c.value, value)
  }

  /** `s?.Trim() ?? string.Empty`. */
  function TrimOrEmpty(s: Option<string>): string {
    match s
    case None => ""
    case Some(v) => Trim(v)
  }

  /** The claim the Create page checks and adds: both fields trimmed. */
  function CreatedClaim(f: ClaimForm): Claim {
    Claim(Trim(f.claimType), TrimOrEmpty(f.claimValue))
  }

  /** The claim the Assign page checks and adds: as typed, a missing value
      becoming the empty string. */
  function AssignedClaim(f: ClaimForm): Claim {
    Claim(f.claimType, f.claimValue.GetOr(""))
  }

  /** The user's claims with `c` appended (what a successful add leaves). */
  function AppendClaim(userClaims: map<UserId, seq<Claim>>, id: UserId, c: Claim): map<UserId, seq<Claim>> {
    userClaims[id := ClaimsOf(userClaims, id) + [c]]
  }

  /** Outcome of a claim post that adds claim `c` for form `f`, when the
      store's add reports `ok`: validation, then user lookup, then the
      duplicate test, then the add. */
  function PostOutcome(users: seq<User>, userClaims: map<UserId, seq<Claim>>,
                       f: ClaimForm, c: Claim, ok: bool): (r: Outcome)
    ensures r in {Succeeded, InvalidInput, UserNotFound, DuplicateClaim, StoreFailure}
  {
    if !FormValid(f) then InvalidInput
    else match FindById(users, f.selectedUserId)
      case None => UserNotFound
      case Some(u) =>
        if HoldsIgnoreCase(ClaimsOf(userClaims, u.id), c.claimType, c.value) then DuplicateClaim
        else if ok then Succeeded
        else StoreFailure
  }

  /** What the outcome of a post tells the caller about the state it was
      made in: success means the user exists and held no claim equal to
      `c` ignoring case; a duplicate means the user exists and held one. */
  lemma PostOutcomeMeaning(users: seq<User>, userClaims: map<UserId, seq<Claim>>,
                           f: ClaimForm, c: Claim, ok: bool)
    ensures PostOutcome(users, userClaims, f, c, ok) == Succeeded <==>
              FormValid(f) && ok && (exists u :: u in users && u.id == f.selectedUserId)
              && !HoldsIgnoreCase(ClaimsOf(userClaims, f.selectedUserId), c.claimType, c.value)
    ensures PostOutcome(users, userClaims, f, c, ok) == UserNotFound <==>
              FormValid(f) && forall u :: u in users ==> u.id != f.selectedUserId
    ensures PostOutcome(users, userClaims, f, c, ok) == DuplicateClaim <==>
              FormValid(f) && (exists u :: u in users && u.id == f.selectedUserId)
              && HoldsIgnoreCase(ClaimsOf(userClaims, f.selectedUserId), c.claimType, c.value)
  {
    var found := FindById(users, f.selectedUserId);
    if found.Some? {
      assert found.value in users;
    }
  }

  /** A post keeps the store's invariant: a claim is only ever added to a
      user that exists. */
  lemma PostKeepsInvariant(users: seq<User>, userClaims: map<UserId, seq<Claim>>, roles: seq<string>,
                           memberships: set<(UserId, string)>, normalize: string -> string,
                           f: ClaimForm, c: Claim, ok: bool)
    requires StoreInvariant(users, userClaims, roles, memberships, normalize)
    ensures StoreInvariant(users, if PostOutcome(users, userClaims, f, c, ok) == Succeeded
                                  then AppendClaim(userClaims, f.selectedUserId, c) else userClaims,
                           roles, memberships, normalize)
  {
    if PostOutcome(users, userClaims, f, c, ok) == Succeeded {
      UpdateClaimsKeepsInvariant(users, userClaims, roles, memberships, normalize,
                                 f.selectedUserId, ClaimsOf(userClaims, f.selectedUserId) + [c]);
    }
  }

  /** After a successful post, posting the same claim again for the same
      user is rejected as a duplicate, whatever the store would answer. */
  lemma RepeatedPostIsDuplicate(users: seq<User>, userClaims: map<UserId, seq<Claim>>,
                                f: ClaimForm, c: Claim, ok: bool, ok2: bool)
    requires PostOutcome(users, userClaims, f, c, ok) == Succeeded
    ensures PostOutcome(users, AppendClaim(userClaims, f.selectedUserId, c), f, c, ok2) == DuplicateClaim
  {
    var after := AppendClaim(userClaims, f.selectedUserId, c);
    var held := ClaimsOf(after, f.selectedUserId);
    assert held[|held| - 1] == c;
    EqualsIgnoreCaseProperties(c.claimType, c.claimType, c.claimType);
    EqualsIgnoreCaseProperties(c.value, c.value, c.value);
    assert HoldsIgnoreCase(held, c.claimType, c.value);
  }

  /** The Create page's claim is trimmed on both fields; on a valid form its
      type is not empty. */
  lemma CreatedClaimTrimmed(f: ClaimForm)
    ensures IsTrimOf(f.claimType, CreatedClaim(f).claimType)
    ensures Trim(CreatedClaim(f).claimType) == CreatedClaim(f).claimType
    ensures Trim(CreatedClaim(f).value) == CreatedClaim(f).value
    ensures f.claimValue.None? ==> CreatedClaim(f).value == ""
    ensures FormValid(f) ==> CreatedClaim(f).claimType != []
  {
    TrimSpec(f.claimType);
    TrimIdempotent(f.claimType);
    TrimEmptyIffBlank(f.claimType);
    if f.claimValue.Some? {
      TrimIdempotent(f.claimValue.value);
    }
  }

  /** A held ("Dept", "Eng") matches ("dept", "eng") ignoring case. */
  lemma CaseVariantIsHeld()
    ensures HoldsIgnoreCase([Claim("Dept", "Eng")], "dept", "eng")
  {
    EqualsIgnoreCaseProperties("Dept", "dept", "");
    EqualsIgnoreCaseProperties("Eng", "eng", "");
    assert Claim("Dept", "Eng") in [Claim("Dept", "Eng")];
  }

  /** A user holding ("Dept", "Eng") who is given ("dept", "eng") is
      refused as a duplicate on both pages. */
  lemma DuplicateIgnoresCase(users: seq<User>, userClaims: map<UserId, seq<Claim>>, id: UserId, ok: bool)
    requires !IsBlank(id) && FindById(users, id).Some?
    requires ClaimsOf(userClaims, id) == [Claim("Dept", "Eng")]
    ensures var f := ClaimForm(id, "dept", Some("eng"));
            && PostOutcome(users, userClaims, f, CreatedClaim(f), ok) == DuplicateClaim
            && PostOutcome(users, userClaims, f, AssignedClaim(f), ok) == DuplicateClaim
  {
    TrimNoOp("dept");
    TrimNoOp("eng");
    CaseVariantIsHeld();
  }

  /** Only the Create page trims: for a user holding ("Dept", ""), the
      type " Dept" with a leading space is a duplicate on Create but is
      added as a new claim on Assign. */
  lemma AssignDoesNotTrim(users: seq<User>, userClaims: map<UserId, seq<Claim>>, id: UserId)
    requires !IsBlank(id) && FindById(users, id).Some?
    requires ClaimsOf(userClaims, id) == [Claim("Dept", "")]
    ensures var f := ClaimForm(id, " Dept", None);
            && CreatedClaim(f) == Claim("Dept", "")
            && AssignedClaim(f) == Claim(" Dept", "")
            && PostOutcome(users, userClaims, f, CreatedClaim(f), true) == DuplicateClaim
            && PostOutcome(users, userClaims, f, AssignedClaim(f), true) == Succeeded
  {
    var f := ClaimForm(id, " Dept", None);
    LeadingSpaceTrimmed();
    LeadingSpaceNotHeld();
    assert !IsBlank(" Dept") by {
      assert !IsWhiteSpace(" Dept"[1]);
    }
  }

  lemma LeadingSpaceTrimmed()
    ensures Trim(" Dept") == "Dept"
  {
    assert TrimmedAt(" Dept", 1, "Dept");
    TrimSpec(" Dept");
    TrimUnique(" Dept", Trim(" Dept"), "Dept");
  }

  lemma LeadingSpaceNotHeld()
    ensures HoldsIgnoreCase([Claim("Dept", "")], "Dept", "")
    ensures !HoldsIgnoreCase([Claim("Dept", "")], " Dept", "")
  {
    var held := [Claim("Dept", "")];
    EqualsIgnoreCaseProperties("Dept", "Dept", "");
    EqualsIgnoreCaseProperties("", "", "");
    assert held[0] in held;
    EqualsIgnoreCaseProperties("Dept", " Dept", "");
  }

  // ---------------------------------------------------------------------
  // Deleting a claim (OnPostDeleteClaimAsync)
  // ---------------------------------------------------------------------

  /** Outcome of the delete handler: user lookup, then `new Claim(type, value)`
      (which throws on a null field), then the store's removal. */
  function DeleteOutcome(users: seq<User>, userId: UserId, claimType: Option<string>,
                         claimValue: Option<string>, ok: bool): (r: Outcome)
    ensures r in {Succeeded, UserNotFound, Faulted, StoreFailure}
  {
    if FindById(users, userId).None? then UserNotFound
    else if claimType.None? || claimValue.None? then Faulted
    else if ok then Succeeded
    else StoreFailure
  }

  /** The claims after the delete handler: on success the posted claim is
      removed from the user's list, otherwise nothing changes. */
  function ClaimsAfterDelete(users: seq<User>, userClaims: map<UserId, seq<Claim>>, userId: UserId,
                             claimType: Option<string>, claimValue: Option<string>, ok: bool)
    : map<UserId, seq<Claim>>
  {
    if DeleteOutcome(users, userId, claimType, claimValue, ok) == Succeeded
    then userClaims[userId := RemoveClaimFrom(ClaimsOf(userClaims, userId), Claim(claimType.value, claimValue.value))]
    else userClaims
  }

  /** A successful delete leaves the user without the claim and with every
      other claim as often as before, and touches no other user; every other
      outcome changes nothing. */
  lemma DeleteEffect(users: seq<User>, userClaims: map<UserId, seq<Claim>>, userId: UserId,
                     claimType: Option<string>, claimValue: Option<string>, ok: bool)
    ensures var after := ClaimsAfterDelete(users, userClaims, userId, claimType, claimValue, ok);
            if DeleteOutcome(users, userId, claimType, claimValue, ok) == Succeeded
            then
              var c := Claim(claimType.value, claimValue.value);
              && c !in ClaimsOf(after, userId)
              && (forall d :: d != c ==> multiset(ClaimsOf(after, userId))[d] == multiset(ClaimsOf(userClaims, userId))[d])
              && (forall id :: id != userId ==> ClaimsOf(after, id) == ClaimsOf(userClaims, id))
            else after == userClaims
  {
  }

  /** A delete keeps the store's invariant. */
  lemma DeleteKeepsInvariant(users: seq<User>, userClaims: map<UserId, seq<Claim>>, roles: seq<string>,
                             memberships: set<(UserId, string)>, normalize: string -> string,
                             userId: UserId, claimType: Option<string>, claimValue: Option<string>, ok: bool)
    requires StoreInvariant(users, userClaims, roles, memberships, normalize)
    ensures StoreInvariant(users, ClaimsAfterDelete(users, userClaims, userId, claimType, claimValue, ok),
                           roles, memberships, normalize)
  {
    if DeleteOutcome(users, userId, claimType, claimValue, ok) == Succeeded {
      UpdateClaimsKeepsInvariant(users, userClaims, roles, memberships, normalize, userId,
                                 RemoveClaimFrom(ClaimsOf(userClaims, userId), Claim(claimType.value, claimValue.value)));
    }
  }

  // ---------------------------------------------------------------------
  // Updating a claim (OnPostUpdateClaimAsync)
  // ---------------------------------------------------------------------

  /** The handler's parameters; any of the strings may arrive as null. */
  datatype ClaimUpdate = ClaimUpdate(userId: UserId, oldType: Option<string>, oldValue: Option<string>,
                                     newType: Option<string>, newValue: Option<string>)

  /** The old claim, taken as given (it is not trimmed). */
  function OldClaim(u: ClaimUpdate): Claim
    requires u.oldType.Some? && u.oldValue.Some?
  {
    Claim(u.oldType.value, u.oldValue.value)
  }

  /** The replacement claim: trimmed type, trimmed value or "". */
  function NewClaim(u: ClaimUpdate): Claim
    requires u.newType.Some?
  {
    Claim(Trim(u.newType.value), TrimOrEmpty(u.newValue))
  }

  /** Outcome of the update handler (with a missing new type treated as a
      failed add, see the README's findings): user lookup, construction of
      the old claim, removal, then the add of the new claim or, when that
      fails, the compensating re-add of the old one. The message says the
      original was restored whether or not the re-add succeeded. */
  function UpdateOutcome(users: seq<User>, u: ClaimUpdate, removeOk: bool, addOk: bool): (r: Outcome)
    ensures r in {Succeeded, UserNotFound, Faulted, StoreFailure, RestoredOriginal}
  {
    if FindById(users, u.userId).None? then UserNotFound
    else if u.oldType.None? || u.oldValue.None? then Faulted
    else if !removeOk then StoreFailure
    else if u.newType.Some? && addOk then Succeeded
    else RestoredOriginal
  }

  /** The user's claims after the update steps: remove the old claim; add
      the new one (no duplicate test); on failure re-add the old one. */
  function HeldAfterUpdate(held: seq<Claim>, u: ClaimUpdate, removeOk: bool, addOk: bool, readdOk: bool): seq<Claim>
    requires u.oldType.Some? && u.oldValue.Some?
  {
    if !removeOk then held
    else
      var removed := RemoveClaimFrom(held, OldClaim(u));
      if u.newType.Some? && addOk then removed + [NewClaim(u)]
      else if readdOk then removed + [OldClaim(u)]
      else removed
  }

  /** The claims map after the update handler: the user's list replaced by
      `HeldAfterUpdate` once the removal ran, unchanged before that. */
  function ClaimsAfterUpdate(users: seq<User>, userClaims: map<UserId, seq<Claim>>, u: ClaimUpdate,
                             removeOk: bool, addOk: bool, readdOk: bool): map<UserId, seq<Claim>>
  {
    if UpdateOutcome(users, u, removeOk, addOk) in {UserNotFound, Faulted, StoreFailure} then userClaims
    else userClaims[u.userId := HeldAfterUpdate(ClaimsOf(userClaims, u.userId), u, removeOk, addOk, readdOk)]
  }

  /** An update keeps the store's invariant. */
  lemma UpdateKeepsInvariant(users: seq<User>, userClaims: map<UserId, seq<Claim>>, roles: seq<string>,
                             memberships: set<(UserId, string)>, normalize: string -> string,
                             u: ClaimUpdate, removeOk: bool, addOk: bool, readdOk: bool)
    requires StoreInvariant(users, userClaims, roles, memberships, normalize)
    ensures StoreInvariant(users, ClaimsAfterUpdate(users, userClaims, u, removeOk, addOk, readdOk),
                           roles, memberships, normalize)
  {
    if UpdateOutcome(users, u, removeOk, addOk) !in {UserNotFound, Faulted, StoreFailure} {
      UpdateClaimsKeepsInvariant(users, userClaims, roles, memberships, normalize, u.userId,
                                 HeldAfterUpdate(ClaimsOf(userClaims, u.userId), u, removeOk, addOk, readdOk));
    }
  }

  /** The compensation contract: if the user held the old claim and the
      re-add would succeed, then afterwards the user holds the old claim
      unless the update succeeded. */
  lemma UpdateKeepsOldUnlessReplaced(users: seq<User>, held: seq<Claim>, u: ClaimUpdate,
                                     removeOk: bool, addOk: bool, readdOk: bool)
    requires FindById(users, u.userId).Some?
    requires u.oldType.Some? && u.oldValue.Some?
    requires OldClaim(u) in held && readdOk
    ensures UpdateOutcome(users, u, removeOk, addOk) == Succeeded ||
            OldClaim(u) in HeldAfterUpdate(held, u, removeOk, addOk, readdOk)
  {
  }

  /** A successful update leaves no copy of the old claim (unless it is also
      the new one) and one more copy of the new claim than before (exactly
      one when old and new coincide, since every copy was removed first);
      the other claims are untouched. */
  lemma UpdateEffect(users: seq<User>, held: seq<Claim>, u: ClaimUpdate, addOk: bool, readdOk: bool)
    requires UpdateOutcome(users, u, true, addOk) == Succeeded
    ensures var after := HeldAfterUpdate(held, u, true, addOk, readdOk);
            && NewClaim(u) in after
            && (OldClaim(u) != NewClaim(u) ==> OldClaim(u) !in after)
            && multiset(after)[NewClaim(u)]
               == (if OldClaim(u) == NewClaim(u) then 1 else multiset(held)[NewClaim(u)] + 1)
            && forall d :: d != OldClaim(u) && d != NewClaim(u) ==> multiset(after)[d] == multiset(held)[d]
  {
    assert u.oldType.Some? && u.oldValue.Some? && u.newType.Some? && addOk;
    var removed := RemoveClaimFrom(held, OldClaim(u));
    var n := NewClaim(u);
    assert HeldAfterUpdate(held, u, true, addOk, readdOk) == removed + [n];
    assert multiset(removed + [n]) == multiset(removed) + multiset{n};
    forall d | d != OldClaim(u) && d != n
      ensures multiset(removed + [n])[d] == multiset(held)[d]
    {
    }
  }

  /** The update performs no duplicate test: replacing one held claim by a
      case variant of another held claim succeeds and leaves both. */
  lemma UpdateSkipsDuplicateCheck(users: seq<User>, id: UserId)
    requires FindById(users, id).Some?
    ensures var held := [Claim("Dept", "Eng"), Claim("Team", "Ops")];
            var u := ClaimUpdate(id, Some("Team"), Some("Ops"), Some("dept"), Some("eng"));
            && NewClaim(u) == Claim("dept", "eng")
            && HoldsIgnoreCase([Claim("Dept", "Eng")], "dept", "eng")
            && UpdateOutcome(users, u, true, true) == Succeeded
            && HeldAfterUpdate(held, u, true, true, true) == [Claim("Dept", "Eng"), Claim("dept", "eng")]
  {
    var u := ClaimUpdate(id, Some("Team"), Some("Ops"), Some("dept"), Some("eng"));
    CaseVariantIsHeld();
    ReplaceTeamByDept(u);
  }

  /** The replacement step of `UpdateSkipsDuplicateCheck`. */
  lemma ReplaceTeamByDept(u: ClaimUpdate)
    requires u.oldType == Some("Team") && u.oldValue == Some("Ops")
    requires u.newType == Some("dept") && u.newValue == Some("eng")
    ensures NewClaim(u) == Claim("dept", "eng")
    ensures HeldAfterUpdate([Claim("Dept", "Eng"), Claim("Team", "Ops")], u, true, true, true)
              == [Claim("Dept", "Eng"), Claim("dept", "eng")]
  {
    TrimNoOp("dept");
    TrimNoOp("eng");
    RemoveLastOfTwo(Claim("Dept", "Eng"), Claim("Team", "Ops"));
  }

  lemma RemoveLastOfTwo(a: Claim, b: Claim)
    requires a != b
    ensures RemoveClaimFrom([a, b], b) == [a]
  {
    assert [a, b] == [a] + [b];
    RemoveFromAppended([a], b, b);
    RemoveAbsentClaim([a], b);
  }

  /** Round trip: after claim `a` was added, updating it to `b` and back to
      `a` restores the user's claims exactly (no copy of `b` left, no second
      copy of `a`), when neither was held before and both are trimmed. */
  lemma UpdateRoundTrip(held: seq<Claim>, a: Claim, b: Claim)
    requires a !in held && b !in held && a != b
    requires Trim(a.claimType) == a.claimType && Trim(a.value) == a.value
    requires Trim(b.claimType) == b.claimType && Trim(b.value) == b.value
    ensures var there := ClaimUpdate("u", Some(a.claimType), Some(a.value), Some(b.claimType), Some(b.value));
            var back := ClaimUpdate("u", Some(b.claimType), Some(b.value), Some(a.claimType), Some(a.value));
            HeldAfterUpdate(HeldAfterUpdate(held + [a], there, true, true, true), back, true, true, true)
              == held + [a]
  {
    var there := ClaimUpdate("u", Some(a.claimType), Some(a.value), Some(b.claimType), Some(b.value));
    var back := ClaimUpdate("u", Some(b.claimType), Some(b.value), Some(a.claimType), Some(a.value));
    assert NewClaim(there) == b && OldClaim(there) == a;
    assert NewClaim(back) == a && OldClaim(back) == b;
    RemoveFromAppended(held, a, a);
    RemoveAbsentClaim(held, a);
    var mid := HeldAfterUpdate(held + [a], there, true, true, true);
    assert mid == held + [b];
    RemoveFromAppended(held, b, b);
    RemoveAbsentClaim(held, b);
  }

  // ---------------------------------------------------------------------
  // The update handler as written
  // ---------------------------------------------------------------------

  /** The update handler exactly as written: `newClaimType.Trim()` runs after
      the old claim was removed, so a null new type throws there, the catch
      reports the exception, and the old claim is neither replaced nor
      re-added. Returns the outcome and the user's claims afterwards. */
  function UpdateAsWritten(users: seq<User>, held: seq<Claim>, u: ClaimUpdate,
                           removeOk: bool, addOk: bool, readdOk: bool): (r: (Outcome, seq<Claim>))
    ensures u.newType.Some? ==> r.0 == UpdateOutcome(users, u, removeOk, addOk)
    ensures u.newType.Some? && FindById(users, u.userId).Some? && u.oldType.Some? && u.oldValue.Some?
            ==> r.1 == HeldAfterUpdate(held, u, removeOk, addOk, readdOk)
    ensures FindById(users, u.userId).None? || u.oldType.None? || u.oldValue.None? ==> r.1 == held
  {
    if FindById(users, u.userId).None? then (UserNotFound, held)
    else if u.oldType.None? || u.oldValue.None? then (Faulted, held)
    else if !removeOk then (StoreFailure, held)
    else
      var removed := RemoveClaimFrom(held, OldClaim(u));
      if u.newType.None? then (Faulted, removed)
      else if addOk then (Succeeded, removed + [NewClaim(u)])
      else if readdOk then (RestoredOriginal, removed + [OldClaim(u)])
      else (RestoredOriginal, removed)
  }

  /** The input that shows it: the new claim type posted empty (model
      binding turns "" into null), every store call succeeding. As written
      the user loses the claim and is told only of an error; with the
      missing type treated as a failed add the claim is restored. */
  lemma UpdateAsWrittenLosesClaim()
    ensures var users := [User("u1", Some("alice"), None)];
            var held := [Claim("Dept", "Eng")];
            var u := ClaimUpdate("u1", Some("Dept"), Some("Eng"), None, Some("Ops"));
            && UpdateAsWritten(users, held, u, true, true, true) == (Faulted, [])
            && UpdateOutcome(users, u, true, true) == RestoredOriginal
            && HeldAfterUpdate(held, u, true, true, true) == held
  {
    var held := [Claim("Dept", "Eng")];
    assert held == [] + [Claim("Dept", "Eng")];
    RemoveFromAppended([], Claim("Dept", "Eng"), Claim("Dept", "Eng"));
  }
}
