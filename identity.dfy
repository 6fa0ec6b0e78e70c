/** The identity store the pages work against. The original pages call
    ASP.NET Identity's `UserManager` and `RoleManager`; here that library is
    replaced by an abstract store: its state (users, each user's claim list,
    the role list and the user/role memberships) is held in a class, its
    queries are functions of that state, and each call that can fail takes
    its success as a parameter `ok`, so that every branch of the page code
    can be reached. Name lookups go through an abstract normaliser
    `normalize` supplied with the store, so no case rule is assumed for user
    or role names. */
module Identity {
  import opened Wrappers

  type UserId = string

  /** `IdentityUser`: the fields the pages read. */
  datatype User = User(id: UserId, userName: Option<string>, email: Option<string>)

  /** `System.Security.Claims.Claim`: a (type, value) pair. */
  datatype Claim = Claim(claimType: string, value: string)

  /** `FindByIdAsync`: the user with this id, if any. */
  function FindById(users: seq<User>, id: UserId): (r: Option<User>)
    ensures r.Some? ==> r.value in users && r.value.id == id
    ensures r.None? <==> forall u :: u in users ==> u.id != id
  {
    if users == [] then None
    else if users[0].id == id then Some(users[0])
    else FindById(users[1..], id)
  }

  /** `FindByNameAsync`: a user whose name normalises like `name`, if any. */
  function FindByName(users: seq<User>, normalize: string -> string, name: string): (r: Option<User>)
    ensures r.Some? ==> r.value in users && r.value.userName.Some?
                        && normalize(r.value.userName.value) == normalize(name)
    ensures r.None? <==> forall u :: u in users && u.userName.Some? ==>
                                     normalize(u.userName.value) != normalize(name)
  {
    if users == [] then None
    else if users[0].userName.Some? && normalize(users[0].userName.value) == normalize(name)
    then Some(users[0])
    else FindByName(users[1..], normalize, name)
  }

  /** `GetClaimsAsync`: the claims held by user `id`, in store order. */
  function ClaimsOf(userClaims: map<UserId, seq<Claim>>, id: UserId): seq<Claim> {
    if id in userClaims then userClaims[id] else []
  }

  /** Some role in the list has the normalised name `key`. */
  predicate HasRoleKey(roles: seq<string>, normalize: string -> string, key: string) {
    exists r :: r in roles && normalize(r) == key
  }

  /** `RoleExistsAsync(name)`. */
  predicate RoleExists(roles: seq<string>, normalize: string -> string, name: string) {
    HasRoleKey(roles, normalize, normalize(name))
  }

  /** `IsInRoleAsync(user, role)`: memberships are kept by normalised role name. */
  predicate IsInRole(memberships: set<(UserId, string)>, normalize: string -> string,
                     id: UserId, role: string) {
    (id, normalize(role)) in memberships
  }

  /** `GetRolesAsync(user)`: the names of the roles user `id` belongs to,
      in the order of the role list. */
  function RolesOf(roles: seq<string>, memberships: set<(UserId, string)>,
                   normalize: string -> string, id: UserId): (r: seq<string>)
    ensures forall x :: x in r <==> x in roles && (id, normalize(x)) in memberships
  {
    if roles == [] then []
    else
      var rest := RolesOf(roles[1..], memberships, normalize, id);
      if (id, normalize(roles[0])) in memberships then [roles[0]] + rest else rest
  }

  /** `RemoveClaimAsync(user, c)`: every claim of the user equal to `c`
      (ordinal, both fields) is removed; the others keep their order, as
      `RemoveFromConcat` states. */
  function RemoveClaimFrom(held: seq<Claim>, c: Claim): (r: seq<Claim>)
    ensures c !in r
    ensures forall d :: d != c ==> multiset(r)[d] == multiset(held)[d]
  {
    if held == [] then []
    else
      var rest := RemoveClaimFrom(held[1..], c);
      assert held == [held[0]] + held[1..];
      if held[0] == c then rest else [held[0]] + rest
  }

  /** Removing a claim that is not held changes nothing. */
  lemma {:induction false} RemoveAbsentClaim(held: seq<Claim>, c: Claim)
    requires c !in held
    ensures RemoveClaimFrom(held, c) == held
  {
    if held != [] {
      RemoveAbsentClaim(held[1..], c);
    }
  }

  /** Removal distributes over appending one claim. */
  lemma {:induction false} RemoveFromAppended(held: seq<Claim>, d: Claim, c: Claim)
    ensures RemoveClaimFrom(held + [d], c)
            == RemoveClaimFrom(held, c) + (if d == c then [] else [d])
  {
    if held == [] {
      assert [] + [d] == [d];
    } else {
      assert (held + [d])[1..] == held[1..] + [d];
      RemoveFromAppended(held[1..], d, c);
    }
  }

  /** Removal keeps or drops each claim on its own and distributes over
      concatenation; together these determine the result, so the claims
      that remain keep their relative order. */
  lemma {:induction false} RemoveFromConcat(a: seq<Claim>, b: seq<Claim>, c: Claim)
    ensures RemoveClaimFrom(a + b, c) == RemoveClaimFrom(a, c) + RemoveClaimFrom(b, c)
    ensures forall d :: RemoveClaimFrom([d], c) == (if d == c then [] else [d])
  {
    if a == [] {
      assert a + b == b;
    } else {
      assert (a + b)[1..] == a[1..] + b;
      RemoveFromConcat(a[1..], b, c);
    }
    forall d ensures RemoveClaimFrom([d], c) == (if d == c then [] else [d]) {
      assert [d][1..] == [];
    }
  }

  /** Referential integrity of the store: user ids are unique, claims and
      memberships refer to existing users, memberships to existing roles,
      and no two roles have the same normalised name. */
  ghost predicate StoreInvariant(users: seq<User>, userClaims: map<UserId, seq<Claim>>, roles: seq<string>,
                                 memberships: set<(UserId, string)>, normalize: string -> string)
  {
    && (forall i, j :: 0 <= i < j < |users| ==> users[i].id != users[j].id)
    && (forall id :: id in userClaims ==> FindById(users, id).Some?)
    && (forall i, j :: 0 <= i < j < |roles| ==> normalize(roles[i]) != normalize(roles[j]))
    && (forall m :: m in memberships ==>
          FindById(users, m.0).Some? && HasRoleKey(roles, normalize, m.1))
  }

  /** Changing the claims of a user that exists keeps the invariant. */
  lemma UpdateClaimsKeepsInvariant(users: seq<User>, userClaims: map<UserId, seq<Claim>>, roles: seq<string>,
                                   memberships: set<(UserId, string)>, normalize: string -> string,
                                   id: UserId, held: seq<Claim>)
    requires StoreInvariant(users, userClaims, roles, memberships, normalize)
    requires FindById(users, id).Some?
    ensures StoreInvariant(users, userClaims[id := held], roles, memberships, normalize)
  {
  }

  class IdentityStore {
    var users: seq<User>
    var userClaims: map<UserId, seq<Claim>>
    var roles: seq<string>
    var memberships: set<(UserId, string)>
    const normalize: string -> string

    constructor (users: seq<User>, userClaims: map<UserId, seq<Claim>>, roles: seq<string>,
                 memberships: set<(UserId, string)>, normalize: string -> string)
      ensures this.users == users && this.userClaims == userClaims
      ensures this.roles == roles && this.memberships == memberships
      ensures this.normalize == normalize
    {
      this.users := users;
      this.userClaims := userClaims;
      this.roles := roles;
      this.memberships := memberships;
      this.normalize := normalize;
    }

    /** `AddClaimAsync(user, c)`: on success `c` is appended to the user's claims. */
    method AddClaim(u: User, c: Claim, ok: bool) returns (succeeded: bool)
      modifies this
      ensures succeeded == ok
      ensures userClaims == if ok then old(userClaims)[u.id := ClaimsOf(old(userClaims), u.id) + [c]]
                            else old(userClaims)
      ensures users == old(users) && roles == old(roles) && memberships == old(memberships)
    {
      succeeded := ok;
      if ok {
        userClaims := userClaims[u.id := ClaimsOf(userClaims, u.id) + [c]];
      }
    }

    /** `RemoveClaimAsync(user, c)`: on success the claims equal to `c` are gone. */
    method RemoveClaim(u: User, c: Claim, ok: bool) returns (succeeded: bool)
      modifies this
      ensures succeeded == ok
      ensures userClaims == if ok then old(userClaims)[u.id := RemoveClaimFrom(ClaimsOf(old(userClaims), u.id), c)]
                            else old(userClaims)
      ensures users == old(users) && roles == old(roles) && memberships == old(memberships)
    {
      succeeded := ok;
      if ok {
        userClaims := userClaims[u.id := RemoveClaimFrom(ClaimsOf(userClaims, u.id), c)];
      }
    }

    /** `RoleManager.CreateAsync(new IdentityRole(name))`. */
    method CreateRole(name: string, ok: bool) returns (succeeded: bool)
      modifies this
      ensures succeeded == ok
      ensures roles == if ok then old(roles) + [name] else old(roles)
      ensures users == old(users) && userClaims == old(userClaims) && memberships == old(memberships)
    {
      succeeded := ok;
      if ok {
        roles := roles + [name];
      }
    }

    /** `AddToRoleAsync(user, role)`. */
    method AddToRole(u: User, role: string, ok: bool) returns (succeeded: bool)
      modifies this
      ensures succeeded == ok
      ensures memberships == if ok then old(memberships) + {(u.id, normalize(role))}
                             else old(memberships)
      ensures users == old(users) && userClaims == old(userClaims) && roles == old(roles)
    {
      succeeded := ok;
      if ok {
        memberships := memberships + {(u.id, normalize(role))};
      }
    }
  }
}
