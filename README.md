# User, role and claim administration — a Dafny model

This project models the administration pages of an ASP.NET Razor Pages application.

- The claim pages (`Pages/ClaimsManager/Create`, `Assign`, `Index`) add, delete and update the claims of a user. They also show every user's claims and a grouped overview with totals.
- The role pages (`Pages/RolesManager/Create`, `Assign`, `Index`) create roles, put users into roles and list every user's roles.
- The two read models `UserClaimsViewModel` and `UserRolesViewModel` derive a few display properties.

The pages call ASP.NET Identity's `UserManager` and `RoleManager`. These are modelled by an abstract identity store (`Identity.IdentityStore`), a class holding:

- the users, each with an id, an optional user name and an optional email;
- each user's claim list;
- the role list;
- the (user, normalised role name) memberships.

Each store call that can fail (`AddClaim`, `RemoveClaim`, `CreateRole`, `AddToRole`) takes its success as a parameter `ok`, so that every branch of the page code is reachable. User-name and role-name lookups go through a normaliser `normalize` supplied with the store. The model therefore assumes no particular case rule for those names.

Each page is a class whose fields are the page's bound and displayed properties. Each handler is a method that changes the store and the page fields step by step. Its `ensures` clauses tie the outcome and the whole new state to pure functions:

- `ClaimRules.PostOutcome`, `DeleteOutcome` and `UpdateOutcome` for the claim handlers;
- `RoleRules.CreateOutcome` and `AssignOutcome` for the role handlers;
- `ClaimStatistics.Overview` for the claim overview;
- `UserSelection.UserItems` for the user drop-down.

The lemmas beside those functions state what the pages promise:

- what each outcome means about the state it was reached in;
- that a repeated add or assignment is refused;
- that an update followed by the reverse update restores the claims;
- that the overview's totals add up;
- that every successful change keeps the store's referential integrity (`Identity.StoreInvariant`).

Outcomes are the values of `Outcomes.Outcome`: the success, the error kinds the pages report, `RestoredOriginal` for the compensated update, and `Faulted` for an exception caught by the handler.

Module layout:

- `common.dfy`: `Wrappers.Option` and `Outcomes.Outcome`.
- `text.dfy`: `Text`, covering `Trim`, white space, ordinal ignore-case equality, the string order, `Distinct().OrderBy(v => v)` and `string.Join`.
- `identity.dfy`: `Identity`, covering users, claims, the store class and its queries.
- `claim_rules.dfy`, `role_rules.dfy`: the decisions of the claim and role handlers.
- `claim_statistics.dfy`: the overview built by `LoadExistingClaimsAsync`.
- `user_selection.dfy`: the drop-down built by `LoadUsersAsync`.
- `view_models.dfy`: the two view models.
- `claims_manager.dfy`, `roles_manager.dfy`: the page classes.

Where the code and the design description differ, the model follows the code:

- Role names are compared through the store's lookup. That lookup is the normaliser here, not an exact match.
- The 3 to 256 UTF-16 unit limit on a role name applies to the name before it is trimmed (`RoleRules.PaddedShortNameAccepted`).

## Model

| member | source | states |
|---|---|---|
| Identity.ClaimsOf | Pages/ClaimsManager/Create.cshtml.cs:123 | definition: the claims held by a user, in store order, and none for an id without an entry |
| Identity.RoleExists | Pages/RolesManager/Assign.cshtml.cs:91 | definition: some role in the list normalises like the given name |
| Identity.IsInRole | Pages/RolesManager/Assign.cshtml.cs:100 | definition: the membership pair of the user and the normalised role name is present |
| Identity.FindById | Pages/ClaimsManager/Create.cshtml.cs:115-120 | a found user is in the store with that id; none is found exactly when no user has that id |
| Identity.FindByName | Pages/RolesManager/Assign.cshtml.cs:81-88 | a found user has a name that normalises like the given one; none is found exactly when no user's name does |
| Identity.RolesOf | Pages/RolesManager/Index.cshtml.cs:47 | a role is listed for a user exactly when it is in the role list and the user is a member of it |
| Identity.RemoveClaimFrom | Pages/ClaimsManager/Create.cshtml.cs:179-180 | after removal the claim is absent and every other claim occurs as often as before |
| Identity.RemoveAbsentClaim | Pages/ClaimsManager/Create.cshtml.cs:180 | removing a claim the user does not hold changes nothing |
| Identity.RemoveFromAppended | Pages/ClaimsManager/Create.cshtml.cs:215 | removal distributes over appending one claim |
| Identity.RemoveFromConcat | Pages/ClaimsManager/Create.cshtml.cs:179-180 | removal keeps or drops each claim on its own and distributes over concatenation, so the remaining claims keep their order |
| Identity.UpdateClaimsKeepsInvariant | Pages/ClaimsManager/Create.cshtml.cs:137 | changing the claims of an existing user keeps referential integrity |
| Identity.IdentityStore.AddClaim | Pages/ClaimsManager/Create.cshtml.cs:137 | on success the claim is appended to that user's list only; on failure nothing changes |
| Identity.IdentityStore.RemoveClaim | Pages/ClaimsManager/Create.cshtml.cs:180 | on success that user's list loses the claim; on failure nothing changes |
| Identity.IdentityStore.CreateRole | Pages/RolesManager/Create.cshtml.cs:64 | on success the role is appended to the role list; nothing else changes |
| Identity.IdentityStore.AddToRole | Pages/RolesManager/Assign.cshtml.cs:109 | on success exactly the pair (user, normalised role) is added; nothing else changes |
| Text.Utf16Length | Pages/ClaimsManager/Create.cshtml.cs:69 | a length counts each character outside the Basic Multilingual Plane as two UTF-16 units, so it lies between the character count and twice it, and equals the character count exactly when no such character occurs |
| Text.Utf16LengthAppend | Pages/ClaimsManager/Create.cshtml.cs:69 | the unit count of a concatenation is the sum of the parts' counts |
| Text.Utf16LengthOfSuffix | Pages/RolesManager/Create.cshtml.cs:30 | dropping a prefix never increases the unit count |
| Text.Utf16LengthOfPrefix | Pages/RolesManager/Create.cshtml.cs:30 | dropping a suffix never increases the unit count |
| Text.Trim | Pages/ClaimsManager/Create.cshtml.cs:111 | definition: `TrimStart` followed by `TrimEnd`; its meaning is stated by `Text.TrimSpec` |
| Text.TrimStartSpec | Pages/ClaimsManager/Create.cshtml.cs:111 | the result is the longest suffix not starting with white space |
| Text.TrimEndSpec | Pages/ClaimsManager/Create.cshtml.cs:111 | the result is the longest prefix not ending with white space |
| Text.TrimSpec | Pages/ClaimsManager/Create.cshtml.cs:111-112 | `Trim` returns the slice left after removing exactly the leading and trailing white space |
| Text.TrimUnique | Pages/RolesManager/Create.cshtml.cs:52 | that slice is unique, so the trimming relation determines `Trim` |
| Text.TrimIdempotent | Pages/RolesManager/Create.cshtml.cs:52 | trimming twice is trimming once |
| Text.TrimEmptyIffBlank | Pages/RolesManager/Create.cshtml.cs:29-30 | the trimmed string is empty exactly when the string is all white space |
| Text.TrimNoOp | Pages/ClaimsManager/Create.cshtml.cs:111 | a string with no white space at either end is its own trim |
| Text.TrimUnits | Pages/RolesManager/Create.cshtml.cs:30-52 | trimming never increases the UTF-16 length |
| Text.FoldUpperSpec | Pages/ClaimsManager/Create.cshtml.cs:125-126 | the case fold keeps the length and folds character by character |
| Text.EqualsIgnoreCase | Pages/ClaimsManager/Create.cshtml.cs:124-126 | definition: the two strings fold to the same upper-case string; its meaning is stated by `Text.EqualsIgnoreCaseProperties` |
| Text.EqualsIgnoreCaseProperties | Pages/ClaimsManager/Create.cshtml.cs:124-126 | ignore-case equality is equal length with equal folded characters, and it is an equivalence |
| Text.LessIrreflexive | Pages/ClaimsManager/Create.cshtml.cs:313 | no string is below itself |
| Text.LessAsymmetric | Pages/ClaimsManager/Create.cshtml.cs:313 | the string order is asymmetric |
| Text.LessTransitive | Pages/ClaimsManager/Create.cshtml.cs:316 | the string order is transitive |
| Text.LessTotal | Pages/ClaimsManager/Create.cshtml.cs:316 | any two different strings are ordered one way or the other |
| Text.InsertDistinctSpec | Pages/ClaimsManager/Create.cshtml.cs:313 | inserting into an ascending repeat-free list keeps it so and adds exactly the new element |
| Text.InsertAfterHead | Pages/ClaimsManager/Create.cshtml.cs:313 | the same, for an element that goes after the head |
| Text.SortDistinct | Pages/ClaimsManager/Create.cshtml.cs:313 | definition: insertion of each element, last first, into the sorted repeat-free list of the rest; its meaning is stated by `Text.SortDistinctSpec` |
| Text.SortDistinctSpec | Pages/ClaimsManager/Create.cshtml.cs:313 | `Distinct().OrderBy(v => v)` is ascending, repeat-free and has exactly the input's elements |
| Text.StrictlySortedCardinality | Pages/ClaimsManager/Create.cshtml.cs:320 | an ascending repeat-free list has as many elements as distinct values |
| Text.StrictlySortedUnique | Pages/ClaimsManager/Create.cshtml.cs:313 | two ascending repeat-free lists with the same elements are equal |
| Text.Join | ViewModels/UserRolesViewModel.cs:22 | definition: the names with the separator between consecutive ones, and "" for no names |
| Text.JoinAppend | ViewModels/UserRolesViewModel.cs:22 | joining one more name appends the separator and that name |
| ClaimRules.FormValid | Pages/ClaimsManager/Create.cshtml.cs:59-79 | definition: a non-blank user id, a non-blank claim type of 1 to 100 UTF-16 units and a missing value or one of at most 255 units |
| ClaimRules.HoldsIgnoreCase | Pages/ClaimsManager/Create.cshtml.cs:124-126 | definition: some held claim equals the given type and value ignoring case, field by field |
| ClaimRules.CreatedClaim | Pages/ClaimsManager/Create.cshtml.cs:111-112 | definition: the claim the Create page adds, with a trimmed type and a trimmed value or "" |
| ClaimRules.AssignedClaim | Pages/ClaimsManager/Assign.cshtml.cs:98 | definition: the claim the Assign page adds, type as typed and value as typed or "" |
| ClaimRules.PostOutcome | Pages/ClaimsManager/Create.cshtml.cs:105-148 | a post ends in success, invalid input, user not found, duplicate or store failure, and no other way |
| ClaimRules.PostOutcomeMeaning | Pages/ClaimsManager/Create.cshtml.cs:105-148 | success exactly when the form is valid, the user exists, holds no claim equal ignoring case, and the store accepts; user-not-found and duplicate likewise stated both ways |
| ClaimRules.PostKeepsInvariant | Pages/ClaimsManager/Assign.cshtml.cs:98-104 | a claim post keeps referential integrity |
| ClaimRules.RepeatedPostIsDuplicate | Pages/ClaimsManager/Assign.cshtml.cs:85-104 | after a successful post the same post is refused as a duplicate |
| ClaimRules.CreatedClaimTrimmed | Pages/ClaimsManager/Create.cshtml.cs:111-112 | the Create page's claim has both fields trimmed, "" for a missing value, and a non-empty type when the form is valid |
| ClaimRules.CaseVariantIsHeld | Pages/ClaimsManager/Create.cshtml.cs:124-126 | a held ("Dept", "Eng") matches ("dept", "eng") |
| ClaimRules.DuplicateIgnoresCase | Pages/ClaimsManager/Assign.cshtml.cs:85-95 | both pages refuse ("dept", "eng") for a user holding ("Dept", "Eng") |
| ClaimRules.AssignDoesNotTrim | Pages/ClaimsManager/Assign.cshtml.cs:98-99 | " Dept" is a duplicate of a held "Dept" on Create but is added as typed on Assign |
| ClaimRules.LeadingSpaceTrimmed | Pages/ClaimsManager/Create.cshtml.cs:111 | " Dept" trims to "Dept" |
| ClaimRules.LeadingSpaceNotHeld | Pages/ClaimsManager/Assign.cshtml.cs:86-89 | "Dept" matches a held "Dept" and " Dept" does not |
| ClaimRules.DeleteOutcome | Pages/ClaimsManager/Create.cshtml.cs:168-197 | a delete ends in success, user not found, an exception or store failure |
| ClaimRules.ClaimsAfterDelete | Pages/ClaimsManager/Create.cshtml.cs:179-189 | definition: on a successful delete the posted claim is removed from that user's list; otherwise the claims are unchanged |
| ClaimRules.DeleteEffect | Pages/ClaimsManager/Create.cshtml.cs:172-189 | a successful delete removes the claim from that user only and keeps every other claim's count; any other outcome changes nothing |
| ClaimRules.DeleteKeepsInvariant | Pages/ClaimsManager/Create.cshtml.cs:180 | a delete keeps referential integrity |
| ClaimRules.UpdateOutcome | Pages/ClaimsManager/Create.cshtml.cs:202-245 | an update ends in success, user not found, an exception, store failure or "restored original" |
| ClaimRules.HeldAfterUpdate | Pages/ClaimsManager/Create.cshtml.cs:213-231 | definition: the user's claims after the removal, then either the new claim or, on a failed add, the re-added old claim |
| ClaimRules.ClaimsAfterUpdate | Pages/ClaimsManager/Create.cshtml.cs:206-237 | definition: unchanged when the user is missing, the old claim cannot be built or the removal fails; otherwise that user's list becomes `HeldAfterUpdate` |
| ClaimRules.UpdateKeepsInvariant | Pages/ClaimsManager/Create.cshtml.cs:213-231 | an update keeps referential integrity |
| ClaimRules.UpdateKeepsOldUnlessReplaced | Pages/ClaimsManager/Create.cshtml.cs:213-231 | a user who held the old claim still holds it afterwards unless the update succeeded, provided the compensating re-add succeeds |
| ClaimRules.UpdateEffect | Pages/ClaimsManager/Create.cshtml.cs:213-225 | a successful update removes every copy of the old claim, leaves one more copy of the new claim than before (exactly one when old and new coincide), and leaves other claims' counts alone |
| ClaimRules.UpdateSkipsDuplicateCheck | Pages/ClaimsManager/Create.cshtml.cs:220-221 | an update to a case variant of a held claim succeeds and leaves both |
| ClaimRules.RemoveLastOfTwo | Pages/ClaimsManager/Create.cshtml.cs:215 | removing the second of two different claims leaves the first |
| ClaimRules.UpdateRoundTrip | Pages/ClaimsManager/Create.cshtml.cs:213-225 | after adding a, updating a to b and back to a restores the claims exactly |
| ClaimRules.UpdateAsWritten | Pages/ClaimsManager/Create.cshtml.cs:202-245 | the handler as written agrees with the corrected model whenever a new type is given, and changes nothing before the removal |
| ClaimRules.UpdateAsWrittenLosesClaim | Pages/ClaimsManager/Create.cshtml.cs:220 | with an empty new type, as written the user loses the old claim; the corrected model restores it |
| RoleRules.RoleNameValid | Pages/RolesManager/Create.cshtml.cs:29-30 | definition: a non-blank name of 3 to 256 UTF-16 units, before trimming |
| RoleRules.CreateOutcome | Pages/RolesManager/Create.cshtml.cs:45-78 | a create ends in success, invalid input, duplicate role or store failure |
| RoleRules.RolesAfterCreate | Pages/RolesManager/Create.cshtml.cs:52-64 | definition: the trimmed name appended on a successful create; the role list unchanged otherwise |
| RoleRules.CreateOutcomeMeaning | Pages/RolesManager/Create.cshtml.cs:48-77 | success exactly when the typed name is valid, no role normalises like its trimmed form, and the store accepts; duplicate likewise both ways; only success changes the role list, by the trimmed name alone |
| RoleRules.CreatedRoleName | Pages/RolesManager/Create.cshtml.cs:52-64 | the created role is the name without surrounding white space, non-empty, at most 256 UTF-16 units long, and trimmed |
| RoleRules.PaddedShortNameAccepted | Pages/RolesManager/Create.cshtml.cs:30-52 | " ab" passes the length check and creates the two-character role "ab" |
| RoleRules.SurrogatePairCountsTwice | Pages/RolesManager/Create.cshtml.cs:30 | a letter followed by one emoji is two characters but three UTF-16 units, and the create accepts it |
| RoleRules.CreateTwiceIsDuplicate | Pages/RolesManager/Create.cshtml.cs:55-64 | creating the same name twice succeeds at most once |
| RoleRules.CreateKeepsInvariant | Pages/RolesManager/Create.cshtml.cs:55-64 | a create keeps role names distinct under the normaliser |
| RoleRules.AssignFormValid | Pages/RolesManager/Assign.cshtml.cs:36-47 | definition: both the user name and the role name are non-blank |
| RoleRules.AssignOutcome | Pages/RolesManager/Assign.cshtml.cs:71-123 | an assignment ends in success, invalid input, user not found, role not found, already assigned or store failure |
| RoleRules.MembershipsAfterAssign | Pages/RolesManager/Assign.cshtml.cs:109 | definition: on success the pair of the found user and the normalised role name is added; otherwise memberships are unchanged |
| RoleRules.AssignOutcomeMeaning | Pages/RolesManager/Assign.cshtml.cs:77-109 | each outcome holds exactly under its condition, checked in order: user, then role, then membership |
| RoleRules.AssignAddsOnePair | Pages/RolesManager/Assign.cshtml.cs:109-122 | a successful assignment adds exactly one new pair; other outcomes change nothing |
| RoleRules.RepeatedAssignIsRefused | Pages/RolesManager/Assign.cshtml.cs:100-109 | repeating a successful assignment is refused as already assigned |
| RoleRules.AssignKeepsInvariant | Pages/RolesManager/Assign.cshtml.cs:109 | an assignment keeps referential integrity |
| ClaimStatistics.DetailOf | Pages/ClaimsManager/Create.cshtml.cs:296-303 | definition: the detail row of one claim, with "Unknown" for a missing user name and "No Email" for a missing email |
| ClaimStatistics.DetailsOf | Pages/ClaimsManager/Create.cshtml.cs:294-304 | one detail row per claim of the user, in order, with "Unknown" and "No Email" for missing fields |
| ClaimStatistics.DetailsMatchClaims | Pages/ClaimsManager/Create.cshtml.cs:289-305 | there is one detail row per collected claim, showing that claim |
| ClaimStatistics.TypesOf | Pages/ClaimsManager/Create.cshtml.cs:309 | the claim types, one per claim, in order |
| ClaimStatistics.ValuesOf | Pages/ClaimsManager/Create.cshtml.cs:313 | the claim values, one per claim, in order |
| ClaimStatistics.ClaimsOfType | Pages/ClaimsManager/Create.cshtml.cs:309 | a group holds exactly the claims of its exact type |
| ClaimStatistics.ClaimsOfTypeCounts | Pages/ClaimsManager/Create.cshtml.cs:309-314 | each claim of the type occurs in its group as often as among all claims and no other claim occurs, so the usage count counts repeated claims |
| ClaimStatistics.GroupsForSpec | Pages/ClaimsManager/Create.cshtml.cs:308-317 | one group per listed type, in that order |
| ClaimStatistics.TypeSetMembers | Pages/ClaimsManager/Create.cshtml.cs:309 | a type is among the distinct types exactly when some claim has it |
| ClaimStatistics.GroupOfShape | Pages/ClaimsManager/Create.cshtml.cs:310-315 | a group's values are distinct, ascending and exactly its claims' values; its count is its number of claims, at least one |
| ClaimStatistics.GroupTypes | Pages/ClaimsManager/Create.cshtml.cs:316 | the groups' types, in group order |
| ClaimStatistics.GroupClaims | Pages/ClaimsManager/Create.cshtml.cs:308-317 | definition: one group per distinct claim type, in ascending type order; its meaning is stated by `GroupClaimsTypes` and `GroupClaimsMembers` |
| ClaimStatistics.GroupClaimsTypes | Pages/ClaimsManager/Create.cshtml.cs:308-317 | groups are in ascending order of type, one per distinct type |
| ClaimStatistics.GroupClaimsMembers | Pages/ClaimsManager/Create.cshtml.cs:308-317 | every group is the group of a type that occurs |
| ClaimStatistics.SumUsageOfGroups | Pages/ClaimsManager/Create.cshtml.cs:314 | the groups' usage counts add up to the per-type claim counts |
| ClaimStatistics.SumTypeCountsEmpty | Pages/ClaimsManager/Create.cshtml.cs:314 | no claims count zero for any types |
| ClaimStatistics.SumTypeCountsAppend | Pages/ClaimsManager/Create.cshtml.cs:314 | one more claim adds one to the sum exactly when its type is listed |
| ClaimStatistics.SumTypeCountsTotal | Pages/ClaimsManager/Create.cshtml.cs:314-321 | distinct types covering every claim count every claim once |
| ClaimStatistics.UsageAddsUpToTotal | Pages/ClaimsManager/Create.cshtml.cs:314-321 | the usage counts add up to the number of claims |
| ClaimStatistics.HolderIds | Pages/ClaimsManager/Create.cshtml.cs:322 | an id is a holder exactly when that user exists and holds a claim |
| ClaimStatistics.HolderIdsBound | Pages/ClaimsManager/Create.cshtml.cs:322 | there are at most as many holders as users |
| ClaimStatistics.DetailUserIds | Pages/ClaimsManager/Create.cshtml.cs:322 | the distinct user ids of the detail rows are exactly the holders |
| ClaimStatistics.Overview | Pages/ClaimsManager/Create.cshtml.cs:280-333 | definition: the detail rows, the groups and the three totals, or all empty and zero when loading throws; its meaning is stated by `OverviewTotals` |
| ClaimStatistics.OverviewTotals | Pages/ClaimsManager/Create.cshtml.cs:319-332 | claims total equals rows and summed usage; type total equals groups and distinct types; users-with-claims equals holders, at most the users; all empty and zero on failure |
| UserSelection.DisplayText | Pages/ClaimsManager/Assign.cshtml.cs:139 | definition: the user name, else the email, else "Unknown User" |
| UserSelection.DisplayTextFallback | Pages/ClaimsManager/Assign.cshtml.cs:139 | the text falls back from the user name to the email to "Unknown User" |
| UserSelection.NameOrder | Pages/ClaimsManager/Assign.cshtml.cs:129-133 | the user-name order is total and transitive, a missing name first |
| UserSelection.InsertByNamePermutes | Pages/ClaimsManager/Assign.cshtml.cs:129-133 | inserting a user adds that user and nothing else |
| UserSelection.LowerBoundKept | Pages/ClaimsManager/Assign.cshtml.cs:129-133 | a lower bound of the parts bounds their permutation |
| UserSelection.InsertByNameSorted | Pages/ClaimsManager/Assign.cshtml.cs:129-133 | inserting into a sorted list keeps it sorted |
| UserSelection.SortByName | Pages/ClaimsManager/Assign.cshtml.cs:129-133 | definition: insertion sort by user name, a missing name first; its meaning is stated by `UserSelection.SortByNameSpec` |
| UserSelection.SortByNameSpec | Pages/ClaimsManager/Assign.cshtml.cs:129-133 | ordering by user name yields a sorted permutation |
| UserSelection.ItemsOf | Pages/ClaimsManager/Assign.cshtml.cs:136-140 | one entry per user, valued by its id and showing its display text |
| UserSelection.UserItems | Pages/ClaimsManager/Create.cshtml.cs:250-275 | definition: the entries of the users sorted by name, or none when loading throws |
| UserSelection.UserItemsShape | Pages/ClaimsManager/Create.cshtml.cs:250-275 | one entry per user in ascending name order with its display text, or none when loading fails |
| ViewModels.UserClaimsViewModel.HasClaims | ViewModels/UserClaimsViewModel.cs:23 | definition: some claim is present |
| ViewModels.UserClaimsViewModel.ClaimCount | ViewModels/UserClaimsViewModel.cs:28 | definition: the number of claims |
| ViewModels.HasClaimsIffCount | ViewModels/UserClaimsViewModel.cs:23-28 | `HasClaims` holds exactly when there is a claim, exactly when `ClaimCount` is positive |
| ViewModels.NewUserClaimsViewModelIsEmpty | ViewModels/UserClaimsViewModel.cs:13-28 | a fresh view model has an empty name, no claims and count 0 |
| ViewModels.UserRolesViewModel.HasRoles | ViewModels/UserRolesViewModel.cs:12 | definition: the role list is present and has an element |
| ViewModels.UserRolesViewModel.RoleCount | ViewModels/UserRolesViewModel.cs:17 | definition: the number of roles, 0 for a missing list |
| ViewModels.UserRolesViewModel.RolesDisplay | ViewModels/UserRolesViewModel.cs:22 | definition: the roles joined by ", " when there are roles, otherwise "No roles assigned" |
| ViewModels.HasRolesIffCount | ViewModels/UserRolesViewModel.cs:12-17 | `HasRoles` holds exactly when the list is present and non-empty, exactly when `RoleCount` is positive |
| ViewModels.RolesDisplayCases | ViewModels/UserRolesViewModel.cs:22 | "No roles assigned" for a missing or empty list; a single role alone; each further role appends ", " and its name |
| ViewModels.NewUserRolesViewModelShowsNoRoles | ViewModels/UserRolesViewModel.cs:6-22 | a fresh view model shows "No roles assigned" with count 0 |
| ClaimsManager.CreateModel.constructor | Pages/ClaimsManager/Create.cshtml.cs:23-84 | a new page has no entries, an empty overview and an empty form |
| ClaimsManager.CreateModel.LoadUsers | Pages/ClaimsManager/Create.cshtml.cs:250-275 | the drop-down is `UserItems` of the store's users; nothing else changes |
| ClaimsManager.CreateModel.LoadExistingClaims | Pages/ClaimsManager/Create.cshtml.cs:280-333 | the shown overview is `Overview` of the store, or the empty one on failure; the form is unchanged |
| ClaimsManager.CreateModel.CollectClaims | Pages/ClaimsManager/Create.cshtml.cs:285-305 | the loop collects all users' claims and one detail row per claim, user by user |
| ClaimsManager.CreateModel.AppendDetails | Pages/ClaimsManager/Create.cshtml.cs:294-304 | the inner loop appends one detail row per claim of the user, in order |
| ClaimsManager.CreateModel.OnGet | Pages/ClaimsManager/Create.cshtml.cs:89-93 | the page shows the drop-down and the overview of the store; the store is only read |
| ClaimsManager.CreateModel.OnPost | Pages/ClaimsManager/Create.cshtml.cs:98-163 | the outcome is `PostOutcome` of the trimmed claim; only success appends that claim to the chosen user and clears the form; the reloaded lists show the state before the post |
| ClaimsManager.CreateModel.SubmitClaim | Pages/ClaimsManager/Create.cshtml.cs:105-148 | the same outcome and store change; on success the form is reset to empty |
| ClaimsManager.PostClaim | Pages/ClaimsManager/Assign.cshtml.cs:71-104 | the outcome is `PostOutcome` of the form and claim; the store changes only by appending the claim to the chosen user on success |
| ClaimsManager.AddUnlessHeld | Pages/ClaimsManager/Create.cshtml.cs:123-139 | a claim the user holds ignoring case is refused; otherwise the store's add decides; only success appends the claim |
| ClaimsManager.CreateModel.OnPostDeleteClaim | Pages/ClaimsManager/Create.cshtml.cs:168-197 | the outcome is `DeleteOutcome`; the claims are `ClaimsAfterDelete`; the status message reports the outcome |
| ClaimsManager.CreateModel.OnPostUpdateClaim | Pages/ClaimsManager/Create.cshtml.cs:202-245 | the outcome is `UpdateOutcome`; the claims are `ClaimsAfterUpdate` (remove, add, compensating re-add); a missing new type restores the old claim |
| ClaimsManager.CreateModel.ReplaceClaim | Pages/ClaimsManager/Create.cshtml.cs:213-237 | a failed removal changes nothing; otherwise the user's claims become `HeldAfterUpdate` (new claim added, or the old one re-added) |
| ClaimsManager.AssignModel.constructor | Pages/ClaimsManager/Assign.cshtml.cs:24-52 | a new page has no entries and an empty form |
| ClaimsManager.AssignModel.LoadUsers | Pages/ClaimsManager/Assign.cshtml.cs:124-149 | the drop-down is `UserItems` of the store's users |
| ClaimsManager.AssignModel.OnPost | Pages/ClaimsManager/Assign.cshtml.cs:65-119 | the outcome is `PostOutcome` of the untrimmed claim; only success appends it to the chosen user; the form is kept |
| ClaimsManager.UserClaimsEntry | Pages/ClaimsManager/Index.cshtml.cs:59-63 | definition: the user's name or "" with the user's claims |
| ClaimsManager.UserClaimsEntryMeaning | Pages/ClaimsManager/Index.cshtml.cs:59-63 | an entry names its user ("" when missing), shows exactly that user's claims, and has claims exactly when the store holds some |
| ClaimsManager.IndexModel.constructor | Pages/ClaimsManager/Index.cshtml.cs:23-36 | a new page lists no users |
| ClaimsManager.IndexModel.OnGet | Pages/ClaimsManager/Index.cshtml.cs:42-65 | one entry per user, in store order, each the user's claims entry; the store is only read |
| RolesManager.CreateModel.constructor | Pages/RolesManager/Create.cshtml.cs:29-32 | a new page has an empty name |
| RolesManager.CreateModel.OnPost | Pages/RolesManager/Create.cshtml.cs:45-78 | the outcome is `CreateOutcome` and the roles are `RolesAfterCreate`; users, claims and memberships are unchanged |
| RolesManager.AssignModel.constructor | Pages/RolesManager/Assign.cshtml.cs:36-47 | a new page has an empty form and no message |
| RolesManager.AssignModel.OnPost | Pages/RolesManager/Assign.cshtml.cs:71-123 | the outcome is `AssignOutcome` and the memberships are `MembershipsAfterAssign`; nothing else in the store changes; success leaves a message naming the user and role |
| RolesManager.UserRolesEntry | Pages/RolesManager/Index.cshtml.cs:47-52 | definition: the user's name as it is with the user's roles, and no role name |
| RolesManager.UserRolesEntryMeaning | Pages/RolesManager/Index.cshtml.cs:47-52 | an entry copies the possibly missing user name, lists exactly the user's roles, and shows "No roles assigned" when there are none |
| RolesManager.IndexModel.constructor | Pages/RolesManager/Index.cshtml.cs:17-29 | a new page lists no roles and no users |
| RolesManager.IndexModel.OnGet | Pages/RolesManager/Index.cshtml.cs:31-54 | the roles are the store's role list; one entry per user, in store order; the store is only read |

## Left out

- Asynchrony and concurrent requests are not modelled. Each handler runs to completion alone. The duplicate checks are check-then-act without a lock, and the model makes no claim about races.
- ASP.NET Identity's internals are not modelled: user and role managers, the EF stores and name normalisation. Every store call that can fail is a success parameter. The store's own validation (for instance of user or role names) is folded into that parameter.
- Role-name case sensitivity is not decided. Role and user-name comparison goes through the abstract `normalize`.
- Exceptions thrown inside the store are not modelled. The only exceptions modelled are those the page code itself raises. One is `new Claim` with a null type or value, which becomes `Faulted`. The other is the `NullReferenceException` from `newClaimType.Trim()` on a null new type in the update handler (Pages/ClaimsManager/Create.cshtml.cs:220). `ClaimRules.UpdateAsWritten` models that one; see the findings. On load paths, an exception is a single `loadFails` parameter per load.
- `ClaimsManager.CreateModel.LoadExistingClaims` does not model partial progress. An exception part-way through the loop is modelled as one `loadFails`, which leaves the fallback values, as the catch does.
- Culture-sensitive string ordering is not modelled. `OrderBy` on strings is modelled by the ordinal order `Text.Less`.
- `Text.Less` compares Unicode scalar values. Ordinal .NET order compares UTF-16 units, and the two differ only between a character above U+FFFF and one in U+E000..U+FFFF.
- Full Unicode case folding is not modelled. Ordinal ignore-case equality is modelled by an ASCII upper-case fold.
- Database collation of claim comparison on removal is not modelled. `RemoveClaimAsync` removes the claims that are ordinally equal.
- `UserSelection.UserItemsShape`: states a sorted permutation, not the stability of `OrderBy` among users with equal names.
- `Identity.RolesOf`: `GetRolesAsync` order is not specified by the store; the model lists roles in role-list order.
- The role list is a sequence in creation order. The page only relies on membership of it.
- ModelState messages, TempData, redirects and message wording are not modelled. Only the kind of the status message is kept, plus the names in the role-assignment success message.
- `SelectList` construction is not modelled. The claim pages' drop-downs are modelled as lists of (value, text) entries.
- `RolesManager/Assign` `PopulateListsAsync` and `OnGetAsync` are not modelled. They only fill the two drop-downs. `RolesManager/Create` `OnGetAsync` does nothing.
- The `Roles` and `UserRoles` fields of the role index start empty in the model, where the page leaves them null before `OnGetAsync`. `Roles` holds role names rather than role objects.
- The counts are unbounded naturals. C# `int` overflow of the totals is not modelled.
- `Identity.StoreInvariant`: referential integrity is stated as lemmas over the functions that give each handler's new state (`*KeepsInvariant`), not as a class invariant of the store.
- Authorization attributes, `Program.cs`, the Movies and Casts pages, `Data/ApplicationDbContext.cs`, `Models/ApplicationUser.cs` and the integration tests are not part of this model.

## Findings

| source | as written | input that shows it | evidently intended | confidence | as-written member | corrected member |
|---|---|---|---|---|---|---|
| Pages/ClaimsManager/Create.cshtml.cs:213-231 | the old claim is removed first; then `newClaimType.Trim()` throws on a null new type; the catch reports only the exception, and the old claim is neither replaced nor re-added | user "u1" holds ("Dept", "Eng"); the update posts old ("Dept", "Eng") with an empty new type (bound as null); every store call succeeds; afterwards the user holds no claims | a failed replacement restores the original claim, as the compensating branch does for a failed add | medium, not executed | ClaimRules.UpdateAsWritten, ClaimRules.UpdateAsWrittenLosesClaim | ClaimsManager.CreateModel.OnPostUpdateClaim, ClaimRules.UpdateKeepsOldUnlessReplaced |
