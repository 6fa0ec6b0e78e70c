/** The overview of existing claims that the claim Create page shows: one
    detail row per claim of every user, the claims grouped by exact type
    (each group with its distinct values in ascending order and its number
    of claims), and three totals. Everything here is a function of the
    users and their claims; the page's loading loop is proved to build
    the same rows. */
module ClaimStatistics {
  import opened Wrappers
  import opened Text
  import opened Identity

  /** `UserClaimDetail`. */
  datatype UserClaimDetail = UserClaimDetail(userId: UserId, userName: string, email: string,
                                             claimType: string, claimValue: string)

  /** `ClaimTypeGroup`. */
  datatype ClaimTypeGroup = ClaimTypeGroup(claimType: string, values: seq<string>, usageCount: nat)

  /** The detail row of claim `c` of user `u`; a missing name shows as
      "Unknown" and a missing email as "No Email". */
  function DetailOf(u: User, c: Claim): UserClaimDetail {
    UserClaimDetail(u.id, u.userName.GetOr("Unknown"), u.email.GetOr("No Email"), c.claimType, c.value)
  }

  /** The detail rows of one user, one per claim, in claim order. */
  function DetailsOf(u: User, cs: seq<Claim>): (r: seq<UserClaimDetail>)
    ensures |r| == |cs|
    ensures forall i :: 0 <= i < |cs| ==> r[i] == DetailOf(u, cs[i])
  {
    if cs == [] then [] else DetailsOf(u, cs[..|cs| - 1]) + [DetailOf(u, cs[|cs| - 1])]
  }

  /** The detail rows of all users, user by user. */
  function AllDetails(users: seq<User>, userClaims: map<UserId, seq<Claim>>): seq<UserClaimDetail> {
    if users == [] then []
    else
      var last := users[|users| - 1];
      AllDetails(users[..|users| - 1], userClaims) + DetailsOf(last, ClaimsOf(userClaims, last.id))
  }

  /** The claims of all users, user by user (`allClaims`). */
  function AllClaims(users: seq<User>, userClaims: map<UserId, seq<Claim>>): seq<Claim> {
    if users == [] then []
    else
      var last := users[|users| - 1];
      AllClaims(users[..|users| - 1], userClaims) + ClaimsOf(userClaims, last.id)
  }

  /** There is one detail row per claim, and row `i` shows claim `i`. */
  lemma {:induction false} DetailsMatchClaims(users: seq<User>, userClaims: map<UserId, seq<Claim>>)
    ensures var ds := AllDetails(users, userClaims);
            var cs := AllClaims(users, userClaims);
            && |ds| == |cs|
            && forall i :: 0 <= i < |ds| ==> ds[i].claimType == cs[i].claimType && ds[i].claimValue == cs[i].value
  {
    if users != [] {
      DetailsMatchClaims(users[..|users| - 1], userClaims);
      var ds := AllDetails(users, userClaims);
      var cs := AllClaims(users, userClaims);
      var ds0 := AllDetails(users[..|users| - 1], userClaims);
      var cs0 := AllClaims(users[..|users| - 1], userClaims);
      forall i | 0 <= i < |ds| ensures ds[i].claimType == cs[i].claimType && ds[i].claimValue == cs[i].value {
        if i >= |ds0| {
          assert ds[i] == DetailsOf(users[|users| - 1], ClaimsOf(userClaims, users[|users| - 1].id))[i - |ds0|];
          assert cs[i] == ClaimsOf(userClaims, users[|users| - 1].id)[i - |cs0|];
        }
      }
    }
  }

  // ---------------------------------------------------------------------
  // Grouping by type
  // ---------------------------------------------------------------------

  function TypesOf(cs: seq<Claim>): (r: seq<string>)
    ensures |r| == |cs| && forall i :: 0 <= i < |cs| ==> r[i] == cs[i].claimType
  {
    if cs == [] then [] else TypesOf(cs[..|cs| - 1]) + [cs[|cs| - 1].claimType]
  }

  function ValuesOf(cs: seq<Claim>): (r: seq<string>)
    ensures |r| == |cs| && forall i :: 0 <= i < |cs| ==> r[i] == cs[i].value
  {
    if cs == [] then [] else ValuesOf(cs[..|cs| - 1]) + [cs[|cs| - 1].value]
  }

  /** The claims whose type is exactly `t` (`GroupBy(c => c.Type)` compares
      types ordinally and case-sensitively), in order. */
  function ClaimsOfType(cs: seq<Claim>, t: string): (r: seq<Claim>)
    ensures forall c :: c in r <==> c in cs && c.claimType == t
  {
    if cs == [] then []
    else
      var rest := ClaimsOfType(cs[..|cs| - 1], t);
      assert forall c :: c in cs <==> c in cs[..|cs| - 1] || c == cs[|cs| - 1] by {
        assert cs == cs[..|cs| - 1] + [cs[|cs| - 1]];
      }
      if cs[|cs| - 1].claimType == t then rest + [cs[|cs| - 1]] else rest
  }

  /** Every claim of type `t` occurs in `ClaimsOfType` as often as in
      `cs`, and no other claim occurs: a claim held twice is counted twice
      in its group's usage. */
  lemma {:induction false} ClaimsOfTypeCounts(cs: seq<Claim>, t: string)
    ensures forall c :: multiset(ClaimsOfType(cs, t))[c] == if c.claimType == t then multiset(cs)[c] else 0
  {
    if cs != [] {
      var init := cs[..|cs| - 1];
      ClaimsOfTypeCounts(init, t);
      assert cs == init + [cs[|cs| - 1]];
    }
  }

  /** The group of type `t`: its values distinct and sorted, and the
      number of claims of that type. */
  function GroupOf(cs: seq<Claim>, t: string): ClaimTypeGroup {
    var members := ClaimsOfType(cs, t);
    ClaimTypeGroup(t, SortDistinct(ValuesOf(members)), |members|)
  }

  /** One group per type of `types`, in that order. */
  function GroupsFor(cs: seq<Claim>, types: seq<string>): seq<ClaimTypeGroup> {
    if types == [] then [] else [GroupOf(cs, types[0])] + GroupsFor(cs, types[1..])
  }

  lemma {:induction false} GroupsForSpec(cs: seq<Claim>, types: seq<string>)
    ensures |GroupsFor(cs, types)| == |types|
    ensures forall i :: 0 <= i < |types| ==> GroupsFor(cs, types)[i] == GroupOf(cs, types[i])
  {
    if types != [] {
      GroupsForSpec(cs, types[1..]);
    }
  }

  /** `allClaims.GroupBy(c => c.Type).Select(...).OrderBy(g => g.ClaimType)`. */
  function GroupClaims(cs: seq<Claim>): seq<ClaimTypeGroup> {
    GroupsFor(cs, SortDistinct(TypesOf(cs)))
  }

  /** The distinct types of the claims. */
  function TypeSet(cs: seq<Claim>): set<string> {
    Elements(TypesOf(cs))
  }

  /** A type is in `TypeSet` exactly when some claim has it. */
  lemma TypeSetMembers(cs: seq<Claim>, t: string)
    ensures t in TypeSet(cs) <==> exists c :: c in cs && c.claimType == t
  {
    if t in TypeSet(cs) {
      var k :| 0 <= k < |cs| && TypesOf(cs)[k] == t;
      assert cs[k] in cs;
    }
    if exists c :: c in cs && c.claimType == t {
      var c :| c in cs && c.claimType == t;
      var k :| 0 <= k < |cs| && cs[k] == c;
      assert TypesOf(cs)[k] == t;
    }
  }

  /** The group of a type that occurs: its values are distinct, ascending
      and exactly the values of the claims of that type, and its count is
      the number of those claims, at least one. */
  lemma GroupOfShape(cs: seq<Claim>, t: string)
    requires t in TypeSet(cs)
    ensures var g := GroupOf(cs, t);
            && g.claimType == t
            && StrictlySorted(g.values)
            && (forall v :: v in g.values <==> Claim(t, v) in cs)
            && g.usageCount == |ClaimsOfType(cs, t)| > 0
  {
    var members := ClaimsOfType(cs, t);
    var g := GroupOf(cs, t);
    SortDistinctSpec(ValuesOf(members));
    forall v ensures v in g.values <==> Claim(t, v) in cs {
      assert v in g.values <==> v in Elements(ValuesOf(members));
      if Claim(t, v) in cs {
        assert Claim(t, v) in members;
        var k :| 0 <= k < |members| && members[k] == Claim(t, v);
        assert ValuesOf(members)[k] == v;
      }
      if v in Elements(ValuesOf(members)) {
        var k :| 0 <= k < |members| && ValuesOf(members)[k] == v;
        assert members[k] in members;
      }
    }
    TypeSetMembers(cs, t);
    var c :| c in cs && c.claimType == t;
    assert c in members;
  }

  /** The types of the groups, in group order. */
  function GroupTypes(gs: seq<ClaimTypeGroup>): (r: seq<string>)
    ensures |r| == |gs| && forall i :: 0 <= i < |gs| ==> r[i] == gs[i].claimType
  {
    if gs == [] then [] else [gs[0].claimType] + GroupTypes(gs[1..])
  }

  /** The groups are in ascending order of type, one per distinct type. */
  lemma GroupClaimsTypes(cs: seq<Claim>)
    ensures var gs := GroupClaims(cs);
            && (forall i, j :: 0 <= i < j < |gs| ==> Less(gs[i].claimType, gs[j].claimType))
            && Elements(GroupTypes(gs)) == TypeSet(cs)
            && |gs| == |TypeSet(cs)|
  {
    var types := SortDistinct(TypesOf(cs));
    var gs := GroupClaims(cs);
    SortDistinctSpec(TypesOf(cs));
    GroupsForSpec(cs, types);
    assert GroupTypes(gs) == types;
    StrictlySortedCardinality(types);
  }

  /** Every group is the group of a type that occurs (see `GroupOfShape`). */
  lemma GroupClaimsMembers(cs: seq<Claim>)
    ensures forall g :: g in GroupClaims(cs) ==> g == GroupOf(cs, g.claimType) && g.claimType in TypeSet(cs)
  {
    var types := SortDistinct(TypesOf(cs));
    var gs := GroupClaims(cs);
    SortDistinctSpec(TypesOf(cs));
    GroupsForSpec(cs, types);
    forall g | g in gs ensures g == GroupOf(cs, g.claimType) && g.claimType in TypeSet(cs) {
      var i :| 0 <= i < |gs| && gs[i] == g;
      assert g == GroupOf(cs, types[i]);
      assert types[i] in types;
    }
  }

  // ---------------------------------------------------------------------
  // Totals
  // ---------------------------------------------------------------------

  /** The sum of the groups' usage counts. */
  function SumUsage(gs: seq<ClaimTypeGroup>): nat {
    if gs == [] then 0 else gs[0].usageCount + SumUsage(gs[1..])
  }

  /** The number of claims of each of `types`, summed. */
  function SumTypeCounts(cs: seq<Claim>, types: seq<string>): nat {
    if types == [] then 0 else |ClaimsOfType(cs, types[0])| + SumTypeCounts(cs, types[1..])
  }

  lemma {:induction false} SumUsageOfGroups(cs: seq<Claim>, types: seq<string>)
    ensures SumUsage(GroupsFor(cs, types)) == SumTypeCounts(cs, types)
  {
    if types != [] {
      assert GroupsFor(cs, types)[1..] == GroupsFor(cs, types[1..]);
      SumUsageOfGroups(cs, types[1..]);
    }
  }

  lemma {:induction false} SumTypeCountsEmpty(types: seq<string>)
    ensures SumTypeCounts([], types) == 0
  {
    if types != [] {
      SumTypeCountsEmpty(types[1..]);
    }
  }

  /** One more claim adds one to the count of its own type and to no
      other, so it adds one to the sum exactly when its type is listed. */
  lemma {:induction false} SumTypeCountsAppend(cs: seq<Claim>, c: Claim, types: seq<string>)
    requires StrictlySorted(types)
    ensures SumTypeCounts(cs + [c], types) == SumTypeCounts(cs, types) + (if c.claimType in types then 1 else 0)
  {
    if types != [] {
      assert (cs + [c])[..|cs + [c]| - 1] == cs;
      SumTypeCountsAppend(cs, c, types[1..]);
      if c.claimType == types[0] {
        assert c.claimType !in types[1..] by {
          if c.claimType in types[1..] {
            var k :| 0 <= k < |types[1..]| && types[1..][k] == c.claimType;
            assert Less(types[0], types[k + 1]);
            LessIrreflexive(types[0]);
          }
        }
      }
      assert c.claimType in types <==> c.claimType == types[0] || c.claimType in types[1..] by {
        assert types == [types[0]] + types[1..];
      }
    }
  }

  /** Summing over a list of distinct types that covers every claim's type
      counts every claim exactly once. */
  lemma {:induction false} SumTypeCountsTotal(cs: seq<Claim>, types: seq<string>)
    requires StrictlySorted(types)
    requires forall c :: c in cs ==> c.claimType in types
    ensures SumTypeCounts(cs, types) == |cs|
  {
    if cs == [] {
      SumTypeCountsEmpty(types);
    } else {
      var init := cs[..|cs| - 1];
      var c := cs[|cs| - 1];
      assert cs == init + [c];
      assert c in cs;
      SumTypeCountsTotal(init, types);
      SumTypeCountsAppend(init, c, types);
    }
  }

  /** The usage counts of the groups add up to the number of claims. */
  lemma UsageAddsUpToTotal(cs: seq<Claim>)
    ensures SumUsage(GroupClaims(cs)) == |cs|
  {
    var types := SortDistinct(TypesOf(cs));
    SortDistinctSpec(TypesOf(cs));
    SumUsageOfGroups(cs, types);
    forall c | c in cs ensures c.claimType in types {
      TypeSetMembers(cs, c.claimType);
    }
    SumTypeCountsTotal(cs, types);
  }

  // ---------------------------------------------------------------------
  // Users with claims
  // ---------------------------------------------------------------------

  /** `AllUserClaims.Select(uc => uc.UserId).Distinct()`, as a set. */
  function UserIdsOf(ds: seq<UserClaimDetail>): set<UserId> {
    set d | d in ds :: d.userId
  }

  /** The ids of the users that hold at least one claim. */
  function HolderIds(users: seq<User>, userClaims: map<UserId, seq<Claim>>): (r: set<UserId>)
    ensures forall id :: id in r <==> exists u :: u in users && u.id == id && ClaimsOf(userClaims, id) != []
  {
    if users == [] then {}
    else
      var last := users[|users| - 1];
      assert forall u :: u in users <==> u in users[..|users| - 1] || u == last by {
        assert users == users[..|users| - 1] + [last];
      }
      HolderIds(users[..|users| - 1], userClaims) + (if ClaimsOf(userClaims, last.id) != [] then {last.id} else {})
  }

  /** There are at most as many holders as users. */
  lemma {:induction false} HolderIdsBound(users: seq<User>, userClaims: map<UserId, seq<Claim>>)
    ensures |HolderIds(users, userClaims)| <= |users|
  {
    if users != [] {
      HolderIdsBound(users[..|users| - 1], userClaims);
    }
  }

  /** The distinct user ids among the detail rows are exactly the holders. */
  lemma {:induction false} DetailUserIds(users: seq<User>, userClaims: map<UserId, seq<Claim>>)
    ensures UserIdsOf(AllDetails(users, userClaims)) == HolderIds(users, userClaims)
  {
    if users != [] {
      var init := users[..|users| - 1];
      var last := users[|users| - 1];
      DetailUserIds(init, userClaims);
      var cs := ClaimsOf(userClaims, last.id);
      var mine := DetailsOf(last, cs);
      assert UserIdsOf(mine) == if cs != [] then {last.id} else {} by {
        if cs != [] {
          assert mine[0] in mine;
        }
      }
      assert UserIdsOf(AllDetails(init, userClaims) + mine) == UserIdsOf(AllDetails(init, userClaims)) + UserIdsOf(mine);
    }
  }

  // ---------------------------------------------------------------------
  // The overview the page shows
  // ---------------------------------------------------------------------

  /** The page's claim overview fields. */
  datatype ClaimsOverview = ClaimsOverview(allUserClaims: seq<UserClaimDetail>,
                                           claimTypeGroups: seq<ClaimTypeGroup>,
                                           totalClaimTypes: nat, totalClaims: nat, usersWithClaims: nat)

  /** The overview built from the store, or the all-empty fallback when
      loading throws. */
  function Overview(users: seq<User>, userClaims: map<UserId, seq<Claim>>, loadFails: bool): ClaimsOverview {
    if loadFails then ClaimsOverview([], [], 0, 0, 0)
    else
      var details := AllDetails(users, userClaims);
      var groups := GroupClaims(AllClaims(users, userClaims));
      ClaimsOverview(details, groups, |groups|, |AllClaims(users, userClaims)|, |UserIdsOf(details)|)
  }

  /** The totals agree with the lists: the number of claims equals the
      number of detail rows and the sum of the usage counts; the number of
      claim types is the number of groups and of distinct types; the users
      with claims are the distinct holders, at most the number of users.
      When loading fails, everything is empty and zero. */
  lemma OverviewTotals(users: seq<User>, userClaims: map<UserId, seq<Claim>>, loadFails: bool)
    ensures var o := Overview(users, userClaims, loadFails);
            var cs := AllClaims(users, userClaims);
            && o.totalClaims == |o.allUserClaims| == SumUsage(o.claimTypeGroups)
            && o.totalClaimTypes == |o.claimTypeGroups|
            && (!loadFails ==> o.totalClaims == |cs| && o.totalClaimTypes == |TypeSet(cs)|)
            && (!loadFails ==> o.usersWithClaims == |HolderIds(users, userClaims)|)
            && o.usersWithClaims <= |users|
            && (loadFails ==> o.allUserClaims == [] && o.claimTypeGroups == []
                              && o.totalClaims == o.totalClaimTypes == o.usersWithClaims == 0)
  {
    if !loadFails {
      var cs := AllClaims(users, userClaims);
      DetailsMatchClaims(users, userClaims);
      UsageAddsUpToTotal(cs);
      GroupClaimsTypes(cs);
      DetailUserIds(users, userClaims);
      HolderIdsBound(users, userClaims);
    }
  }
}
