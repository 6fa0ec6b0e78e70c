/** The user drop-down of the claim pages: the users ordered by user name
    (`OrderBy(u => u.UserName)`, a missing name first), each shown by its
    user name, else its email, else "Unknown User", with its id as the
    value; an empty list when loading fails. */
module UserSelection {
  import opened Wrappers
  import opened Text
  import opened Identity

  /** `SelectListItem`: the submitted value and the shown text. */
  datatype SelectItem = SelectItem(value: string, text: string)

  /** `u.UserName ?? u.Email ?? "Unknown User"`. */
  function DisplayText(u: User): string {
    match u.userName
    case Some(name) => name
    case None => u.email.GetOr("Unknown User")
  }

  /** The text falls back from the user name to the email to "Unknown User".
      No other property is promised: this is the whole meaning of the `??`
      chain the page writes, here stated case by case. */
  lemma DisplayTextFallback(u: User)
    ensures u.userName.Some? ==> DisplayText(u) == u.userName.value
    ensures u.userName.None? && u.email.Some? ==> DisplayText(u) == u.email.value
    ensures u.userName.None? && u.email.None? ==> DisplayText(u) == "Unknown User"
    ensures DisplayText(u) == "Unknown User" ==>
              u.userName == Some("Unknown User") || (u.userName.None? && u.email.GetOr("Unknown User") == "Unknown User")
  {
  }

  // ---------------------------------------------------------------------
  // OrderBy(u => u.UserName)
  // ---------------------------------------------------------------------

  /** Order on optional names: a missing name first, then by `Less`. */
  predicate NameLess(a: Option<string>, b: Option<string>) {
    (a.None? && b.Some?) || (a.Some? && b.Some? && Less(a.value, b.value))
  }

  predicate NameAtMost(a: Option<string>, b: Option<string>) {
    a.None? || (b.Some? && !Less(b.value, a.value))
  }

  lemma NameOrder(a: Option<string>, b: Option<string>, c: Option<string>)
    ensures NameLess(a, b) ==> NameAtMost(a, b)
    ensures !NameLess(a, b) ==> NameAtMost(b, a)
    ensures NameAtMost(a, b) && NameAtMost(b, c) ==> NameAtMost(a, c)
  {
    if a.Some? && b.Some? {
      LessAsymmetric(a.value, b.value);
    }
    if a.Some? && b.Some? && c.Some? && NameAtMost(a, b) && NameAtMost(b, c) {
      LessTotal(a.value, b.value);
      if Less(c.value, a.value) && Less(a.value, b.value) {
        LessTransitive(c.value, a.value, b.value);
      }
    }
  }

  /** In ascending order of user name. */
  predicate SortedByName(us: seq<User>) {
    forall i, j :: 0 <= i < j < |us| ==> NameAtMost(us[i].userName, us[j].userName)
  }

  /** Insert `u` after every user whose name is not greater, keeping the
      order of equal names. */
  function InsertByName(u: User, us: seq<User>): seq<User> {
    if us == [] then [u]
    else if NameLess(u.userName, us[0].userName) then [u] + us
    else [us[0]] + InsertByName(u, us[1..])
  }

  /** Inserting adds `u` and nothing else. */
  lemma {:induction false} InsertByNamePermutes(u: User, us: seq<User>)
    ensures multiset(InsertByName(u, us)) == multiset(us) + multiset{u}
  {
    if us != [] && !NameLess(u.userName, us[0].userName) {
      InsertByNamePermutes(u, us[1..]);
      assert us == [us[0]] + us[1..];
    }
  }

  /** A lower bound of `us` and of `u` bounds every permutation of them. */
  lemma LowerBoundKept(x: Option<string>, u: User, us: seq<User>, rest: seq<User>)
    requires forall j :: 0 <= j < |us| ==> NameAtMost(x, us[j].userName)
    requires NameAtMost(x, u.userName)
    requires multiset(rest) == multiset(us) + multiset{u}
    ensures forall y :: y in rest ==> NameAtMost(x, y.userName)
  {
    forall y | y in rest ensures NameAtMost(x, y.userName) {
      assert y in multiset(rest);
      if y != u {
        assert y in multiset(us);
        var k :| 0 <= k < |us| && us[k] == y;
      }
    }
  }

  /** Inserting into a sorted list keeps it sorted. */
  lemma {:induction false} InsertByNameSorted(u: User, us: seq<User>)
    requires SortedByName(us)
    ensures SortedByName(InsertByName(u, us))
  {
    if us == [] {
    } else if NameLess(u.userName, us[0].userName) {
      forall j | 0 <= j < |us| ensures NameAtMost(u.userName, us[j].userName) {
        NameOrder(u.userName, us[0].userName, us[j].userName);
      }
    } else {
      NameOrder(u.userName, us[0].userName, us[0].userName);
      var rest := InsertByName(u, us[1..]);
      InsertByNameSorted(u, us[1..]);
      InsertByNamePermutes(u, us[1..]);
      LowerBoundKept(us[0].userName, u, us[1..], rest);
    }
  }

  /** `OrderBy(u => u.UserName)`. */
  function SortByName(us: seq<User>): seq<User> {
    if us == [] then [] else InsertByName(us[|us| - 1], SortByName(us[..|us| - 1]))
  }

  /** Sorting yields a sorted permutation of the users. */
  lemma {:induction false} SortByNameSpec(us: seq<User>)
    ensures SortedByName(SortByName(us))
    ensures multiset(SortByName(us)) == multiset(us)
  {
    if us != [] {
      var init := us[..|us| - 1];
      SortByNameSpec(init);
      InsertByNameSorted(us[|us| - 1], SortByName(init));
      InsertByNamePermutes(us[|us| - 1], SortByName(init));
      assert us == init + [us[|us| - 1]];
    }
  }

  // ---------------------------------------------------------------------
  // LoadUsersAsync
  // ---------------------------------------------------------------------

  function ItemsOf(us: seq<User>): (r: seq<SelectItem>)
    ensures |r| == |us|
    ensures forall i :: 0 <= i < |us| ==> r[i] == SelectItem(us[i].id, DisplayText(us[i]))
  {
    if us == [] then [] else [SelectItem(us[0].id, DisplayText(us[0]))] + ItemsOf(us[1..])
  }

  /** The drop-down entries `LoadUsersAsync` builds, or none when loading
      throws. */
  function UserItems(users: seq<User>, loadFails: bool): seq<SelectItem> {
    if loadFails then [] else ItemsOf(SortByName(users))
  }

  /** One entry per user, in ascending order of user name, each showing the
      user's display text; none at all when loading fails. */
  lemma UserItemsShape(users: seq<User>, loadFails: bool)
    ensures var items := UserItems(users, loadFails);
            && (loadFails ==> items == [])
            && (!loadFails ==>
                  && |items| == |users|
                  && exists sorted: seq<User> ::
                       && |sorted| == |items|
                       && SortedByName(sorted) && multiset(sorted) == multiset(users)
                       && forall i :: 0 <= i < |items| ==> items[i] == SelectItem(sorted[i].id, DisplayText(sorted[i])))
  {
    if !loadFails {
      var sorted := SortByName(users);
      SortByNameSpec(users);
      assert |sorted| == |multiset(sorted)| == |multiset(users)| == |users|;
    }
  }
}
