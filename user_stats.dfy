/** The counts shown on the statistics cards, over the fetched list
    (absent while it is loading). */
module UserStats {
  import opened Wrappers
  import opened Users

  /** `users?.length || 0`. */
  function TotalUsers(users: Option<seq<User>>): (r: nat)
    ensures users.None? ==> r == 0
    ensures users.Some? ==> r == |users.value|
  {
    match users
    case None => 0
    case Some(s) => |s|
  }

  /** `users?.length || 0`, a second time under another label. */
  function TotalEmails(users: Option<seq<User>>): (r: nat)
    ensures r == TotalUsers(users)
  {
    match users
    case None => 0
    case Some(s) => |s|
  }

  /** `new Set(users.map(u => u.company.name))`. */
  function CompanyNames(s: seq<User>): set<string>
  {
    set u | u in s :: u.company.name
  }

  /** `new Set(users?.map(u => u.company.name)).size || 0`; a Set built
      from `undefined` is empty. */
  function TotalCompanies(users: Option<seq<User>>): (r: nat)
    ensures users.None? || users == Some([]) ==> r == 0
  {
    match users
    case None => 0
    case Some(s) => |CompanyNames(s)|
  }

  lemma CompanyNamesSnoc(s: seq<User>, u: User)
    ensures CompanyNames(s + [u]) == CompanyNames(s) + {u.company.name}
  {
    assert forall v :: v in s + [u] <==> v in s || v == u;
  }

  /** There are never more distinct company names than users. */
  lemma {:induction false} CompaniesAtMostUsers(users: Option<seq<User>>)
    ensures TotalCompanies(users) <= TotalUsers(users)
    decreases TotalUsers(users)
  {
    if users.Some? && users.value != [] {
      var s := users.value;
      var front := s[..|s| - 1];
      CompaniesAtMostUsers(Some(front));
      CompanyNamesSnoc(front, s[|s| - 1]);
      assert front + [s[|s| - 1]] == s;
    }
  }

  /** A non-empty list names at least one company. */
  lemma CompaniesAtLeastOne(s: seq<User>)
    requires s != []
    ensures TotalCompanies(Some(s)) >= 1
  {
    assert s[0].company.name in CompanyNames(s);
  }

  /** Reordering the list does not change the number of companies. */
  lemma CompaniesIgnoreOrder(s: seq<User>, t: seq<User>)
    requires multiset(s) == multiset(t)
    ensures TotalCompanies(Some(s)) == TotalCompanies(Some(t))
  {
    forall u ensures u in s <==> u in t {
      assert u in s <==> u in multiset(s);
      assert u in t <==> u in multiset(t);
    }
    assert CompanyNames(s) == CompanyNames(t);
  }
}
