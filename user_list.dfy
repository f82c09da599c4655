/** The derived view of the user list: the fetched users that match the
    search query, sorted by the selected key in the selected direction.

    `String.prototype.toLowerCase` and `String.prototype.localeCompare` are
    not re-implemented: `lower` stands for the first and `cmp` for the
    second, and the lemmas say what they assume of them. */
module UserList {
  import opened Wrappers
  import opened Seqs
  import opened StableSort
  import opened Users
  import FS = FilterStore

  /** Every character of `s` is in the ASCII range. */
  predicate IsAscii(s: string)
  {
    forall i :: 0 <= i < |s| ==> s[i] < 128 as char
  }

  /** The lower case of one ASCII character: `A`-`Z` become `a`-`z`. */
  function AsciiLowerChar(ch: char): (r: char)
    ensures 'A' <= ch <= 'Z' ==> 'a' <= r <= 'z' && r as int - ch as int == 32
    ensures !('A' <= ch <= 'Z') ==> r == ch
  {
    if 'A' <= ch <= 'Z' then (ch as int + 32) as char else ch
  }

  /** Lower-casing character by character, which is what `toLowerCase`
      does on an ASCII string (no context-dependent mapping applies). */
  function AsciiLower(s: string): (r: string)
    ensures |r| == |s|
    ensures forall i :: 0 <= i < |s| ==> r[i] == AsciiLowerChar(s[i])
  {
    seq(|s|, i requires 0 <= i < |s| => AsciiLowerChar(s[i]))
  }

  /** `lower` agrees with `toLowerCase` on ASCII strings. Outside ASCII
      nothing is assumed. */
  ghost predicate LowersAscii(lower: string -> string)
  {
    forall s: string :: IsAscii(s) ==> lower(s) == AsciiLower(s)
  }

  /** On ASCII strings such a `lower` maps a concatenation to the
      concatenation of the images. */
  lemma AsciiLowerConcat(lower: string -> string, a: string, b: string)
    requires LowersAscii(lower) && IsAscii(a) && IsAscii(b)
    ensures lower(a + b) == lower(a) + lower(b)
  {
    assert IsAscii(a + b) by {
      forall i | 0 <= i < |a + b| ensures (a + b)[i] < 128 as char {
        if i >= |a| { assert (a + b)[i] == b[i - |a|]; }
      }
    }
    assert AsciiLower(a + b) == AsciiLower(a) + AsciiLower(b);
  }

  /** `LowersAscii` does not exclude `toLowerCase` outside ASCII: some
      `lower` meets it and maps Greek capital alpha to alpha, capital sigma
      to sigma, and their concatenation to alpha followed by final sigma,
      as Unicode's Final_Sigma rule does. */
  lemma FinalSigmaAllowed()
    ensures exists lower: string -> string ::
      && LowersAscii(lower)
      && lower("\U{391}") == "\U{3B1}" && lower("\U{3A3}") == "\U{3C3}"
      && lower("\U{391}\U{3A3}") == "\U{3B1}\U{3C2}"
  {
    var lower := (s: string) =>
      if s == "\U{391}" then "\U{3B1}"
      else if s == "\U{3A3}" then "\U{3C3}"
      else if s == "\U{391}\U{3A3}" then "\U{3B1}\U{3C2}"
      else AsciiLower(s);
    forall s: string | IsAscii(s) ensures lower(s) == AsciiLower(s) {
      if s != [] {
        assert s[0] < 128 as char;
      }
    }
    assert LowersAscii(lower);
  }

  /** The filter callback: the lower-cased query occurs in the lower-cased
      name, e-mail, username or company name. */
  predicate Matches(u: User, query: string, lower: string -> string)
    ensures lower(query) == "" ==> Matches(u, query, lower)
  {
    var q := lower(query);
    || Includes(lower(u.name), q)
    || Includes(lower(u.email), q)
    || Includes(lower(u.username), q)
    || Includes(lower(u.company.name), q)
  }

  function MatchesQuery(query: string, lower: string -> string): User -> bool
  {
    u => Matches(u, query, lower)
  }

  lemma MatchesQueryAt(query: string, lower: string -> string, u: User)
    ensures MatchesQuery(query, lower)(u) == Matches(u, query, lower)
  {
  }

  /** `users.filter(...)`: a fresh sequence of the matching users. */
  function FilterUsers(users: seq<User>, query: string, lower: string -> string): (r: seq<User>)
    ensures |r| <= |users|
    ensures forall u :: u in r ==> u in users && Matches(u, query, lower)
  {
    Filter(users, MatchesQuery(query, lower))
  }

  /** The string the comparator compares for the chosen key. */
  function SortKey(key: FS.SortBy, u: User): string
  {
    match key
    case Name => u.name
    case Email => u.email
    case Company => u.company.name
  }

  /** `sortOrder === "asc" ? comparison : -comparison`. */
  function Directed(order: FS.SortOrder, comparison: int): (r: int)
    ensures r == 0 <==> comparison == 0
    ensures order == FS.Asc ==> (r < 0 <==> comparison < 0)
    ensures order == FS.Desc ==> (r < 0 <==> comparison > 0)
  {
    if order == FS.Asc then comparison else -comparison
  }

  /** The comparator passed to `filtered.sort`. */
  function Comparator(key: FS.SortBy, order: FS.SortOrder, cmp: (string, string) -> int): (User, User) -> int
  {
    (a: User, b: User) => Directed(order, cmp(SortKey(key, a), SortKey(key, b)))
  }

  lemma ComparatorAt(key: FS.SortBy, order: FS.SortOrder, cmp: (string, string) -> int, a: User, b: User)
    ensures Comparator(key, order, cmp)(a, b) == Directed(order, cmp(SortKey(key, a), SortKey(key, b)))
  {
  }

  /** The users whose sort key ties with that of `k`; this does not depend
      on the direction. */
  function KeyTies(s: seq<User>, key: FS.SortBy, cmp: (string, string) -> int, k: User): seq<User>
  {
    Filter(s, (u: User) => cmp(SortKey(key, u), SortKey(key, k)) == 0)
  }

  /** The view for the given (possibly not yet loaded) list and criteria. */
  function View(users: Option<seq<User>>, criteria: FS.Criteria, lower: string -> string,
                cmp: (string, string) -> int): (r: seq<User>)
    ensures users.None? ==> r == []
  {
    match users
    case None => []
    case Some(s) =>
      InsertionSort(FilterUsers(s, criteria.searchQuery, lower),
                    Comparator(criteria.sortBy, criteria.sortOrder, cmp))
  }

  /** The memoised computation: `null` stands for the list that has not
      been loaded. Only the fresh array is sorted in place; with no
      `modifies` clause, the input array is left unchanged. */
  method FilteredAndSortedUsers(users: array?<User>, criteria: FS.Criteria,
                                lower: string -> string, cmp: (string, string) -> int)
    returns (view: seq<User>)
    ensures view == View(if users == null then None else Some(users[..]), criteria, lower, cmp)
  {
    if users == null {
      return [];
    }
    var filtered := FilterUsers(users[..], criteria.searchQuery, lower);
    var a := new User[|filtered|](i requires 0 <= i < |filtered| => filtered[i]);
    assert a[..] == filtered;
    SortInPlace(a, Comparator(criteria.sortBy, criteria.sortOrder, cmp));
    view := a[..];
  }

  /** Reversing the direction negates every comparison. */
  lemma DescendingNegates(key: FS.SortBy, cmp: (string, string) -> int, a: User, b: User)
    ensures Comparator(key, FS.Desc, cmp)(a, b) == -Comparator(key, FS.Asc, cmp)(a, b)
  {
    ComparatorAt(key, FS.Desc, cmp, a, b);
    ComparatorAt(key, FS.Asc, cmp, a, b);
  }

  /** A consistent string comparison gives a consistent user comparator in
      both directions. */
  lemma ComparatorConsistent(key: FS.SortBy, order: FS.SortOrder, cmp: (string, string) -> int)
    requires Consistent(cmp)
    ensures Consistent(Comparator(key, order, cmp))
  {
    var c := Comparator(key, order, cmp);
    forall a ensures c(a, a) == 0 {
      ComparatorAt(key, order, cmp, a, a);
    }
    forall a, b ensures c(a, b) < 0 <==> c(b, a) > 0 {
      ComparatorAt(key, order, cmp, a, b);
      ComparatorAt(key, order, cmp, b, a);
    }
    forall a, b, d | c(a, b) <= 0 && c(b, d) <= 0 ensures c(a, d) <= 0 {
      ComparatorAt(key, order, cmp, a, b);
      ComparatorAt(key, order, cmp, b, d);
      ComparatorAt(key, order, cmp, a, d);
      var ka, kb, kd := SortKey(key, a), SortKey(key, b), SortKey(key, d);
      if order == FS.Desc {
        assert cmp(kb, ka) <= 0 && cmp(kd, kb) <= 0;
        assert cmp(kd, ka) <= 0;
      }
    }
  }

  /** Every user shown is a fetched user that matches the query. */
  lemma ViewSound(users: seq<User>, criteria: FS.Criteria, lower: string -> string,
                  cmp: (string, string) -> int, u: User)
    requires u in View(Some(users), criteria, lower, cmp)
    ensures u in users && Matches(u, criteria.searchQuery, lower)
  {
    var filtered := FilterUsers(users, criteria.searchQuery, lower);
    SortPermutes(filtered, Comparator(criteria.sortBy, criteria.sortOrder, cmp));
    assert u in multiset(filtered);
    FilterMembership(users, MatchesQuery(criteria.searchQuery, lower), u);
  }

  /** The view is a permutation of the filtered users. */
  lemma ViewPermutes(users: seq<User>, criteria: FS.Criteria, lower: string -> string,
                     cmp: (string, string) -> int)
    ensures multiset(View(Some(users), criteria, lower, cmp))
         == multiset(FilterUsers(users, criteria.searchQuery, lower))
  {
    var filtered := FilterUsers(users, criteria.searchQuery, lower);
    SortPermutes(filtered, Comparator(criteria.sortBy, criteria.sortOrder, cmp));
  }

  /** Each matching user is shown exactly as often as it was fetched, any
      other user not at all: nothing is dropped or duplicated. */
  lemma ViewCount(users: seq<User>, criteria: FS.Criteria, lower: string -> string,
                  cmp: (string, string) -> int, u: User)
    ensures multiset(View(Some(users), criteria, lower, cmp))[u]
         == if Matches(u, criteria.searchQuery, lower) then multiset(users)[u] else 0
  {
    ViewPermutes(users, criteria, lower, cmp);
    FilterCount(users, MatchesQuery(criteria.searchQuery, lower), u);
  }

  /** A fetched user is shown if and only if it matches the query. */
  lemma ViewComplete(users: seq<User>, criteria: FS.Criteria, lower: string -> string,
                     cmp: (string, string) -> int, u: User)
    ensures u in View(Some(users), criteria, lower, cmp)
        <==> u in users && Matches(u, criteria.searchQuery, lower)
  {
    ViewCount(users, criteria, lower, cmp, u);
    var v := View(Some(users), criteria, lower, cmp);
    assert u in v <==> multiset(v)[u] > 0;
    assert u in users <==> multiset(users)[u] > 0;
  }

  /** With an empty query every fetched user is shown: the view is a
      permutation of the whole list. */
  lemma EmptyQueryKeepsAll(users: seq<User>, criteria: FS.Criteria, lower: string -> string,
                           cmp: (string, string) -> int)
    requires criteria.searchQuery == "" && lower("") == ""
    ensures multiset(View(Some(users), criteria, lower, cmp)) == multiset(users)
  {
    forall u | u in users ensures MatchesQuery("", lower)(u) {
      IncludesEmpty(lower(u.name));
    }
    FilterAll(users, MatchesQuery("", lower));
    ViewPermutes(users, criteria, lower, cmp);
  }

  /** Ascending, each shown user's key compares at most equal to every
      later one's; descending, at least equal. */
  lemma ViewOrdered(users: seq<User>, criteria: FS.Criteria, lower: string -> string,
                    cmp: (string, string) -> int, i: int, j: int)
    requires Consistent(cmp)
    requires 0 <= i < j < |View(Some(users), criteria, lower, cmp)|
    ensures var v := View(Some(users), criteria, lower, cmp);
            var c := cmp(SortKey(criteria.sortBy, v[i]), SortKey(criteria.sortBy, v[j]));
            if criteria.sortOrder == FS.Asc then c <= 0 else c >= 0
  {
    var comparator := Comparator(criteria.sortBy, criteria.sortOrder, cmp);
    ComparatorConsistent(criteria.sortBy, criteria.sortOrder, cmp);
    SortSorts(FilterUsers(users, criteria.searchQuery, lower), comparator);
  }

  /** The comparator's ties, in either direction, are the users with an
      equal key. */
  lemma TiesAreKeyTies(s: seq<User>, key: FS.SortBy, order: FS.SortOrder,
                       cmp: (string, string) -> int, k: User)
    ensures Ties(s, Comparator(key, order, cmp), k) == KeyTies(s, key, cmp, k)
  {
    forall u | u in s
      ensures TiesWith(Comparator(key, order, cmp), k)(u)
           == ((u: User) => cmp(SortKey(key, u), SortKey(key, k)) == 0)(u)
    {
      ComparatorAt(key, order, cmp, u, k);
    }
    FilterExtensional(s, TiesWith(Comparator(key, order, cmp), k),
                      (u: User) => cmp(SortKey(key, u), SortKey(key, k)) == 0);
  }

  /** Users with equal keys are shown in the order the filter left them,
      in both directions. */
  lemma ViewStable(users: seq<User>, criteria: FS.Criteria, lower: string -> string,
                   cmp: (string, string) -> int, k: User)
    requires Consistent(cmp)
    ensures KeyTies(View(Some(users), criteria, lower, cmp), criteria.sortBy, cmp, k)
         == KeyTies(FilterUsers(users, criteria.searchQuery, lower), criteria.sortBy, cmp, k)
  {
    var comparator := Comparator(criteria.sortBy, criteria.sortOrder, cmp);
    var filtered := FilterUsers(users, criteria.searchQuery, lower);
    ComparatorConsistent(criteria.sortBy, criteria.sortOrder, cmp);
    SortStable(filtered, comparator, k);
    TiesAreKeyTies(filtered, criteria.sortBy, criteria.sortOrder, cmp, k);
    TiesAreKeyTies(View(Some(users), criteria, lower, cmp), criteria.sortBy, criteria.sortOrder, cmp, k);
  }

  /** The view is the only ordering of the filtered users that is sorted
      by the comparator and keeps users with equal keys in filter order:
      whichever stable sort the engine runs, it produces this view. */
  lemma ViewIsTheStableSort(users: seq<User>, criteria: FS.Criteria, lower: string -> string,
                            cmp: (string, string) -> int, r: seq<User>)
    requires Consistent(cmp)
    requires Sorted(r, Comparator(criteria.sortBy, criteria.sortOrder, cmp))
    requires forall k :: KeyTies(r, criteria.sortBy, cmp, k)
                      == KeyTies(FilterUsers(users, criteria.searchQuery, lower), criteria.sortBy, cmp, k)
    ensures r == View(Some(users), criteria, lower, cmp)
  {
    var comparator := Comparator(criteria.sortBy, criteria.sortOrder, cmp);
    var filtered := FilterUsers(users, criteria.searchQuery, lower);
    ComparatorConsistent(criteria.sortBy, criteria.sortOrder, cmp);
    forall k ensures Ties(r, comparator, k) == Ties(filtered, comparator, k) {
      TiesAreKeyTies(r, criteria.sortBy, criteria.sortOrder, cmp, k);
      TiesAreKeyTies(filtered, criteria.sortBy, criteria.sortOrder, cmp, k);
    }
    StableSortIsInsertionSort(filtered, r, comparator);
  }

  /** Two matching users with equal keys are shown in fetch order in BOTH
      directions: the descending view is not the reversed ascending view. */
  lemma DescendingIsNotReversed(x: User, y: User, criteria: FS.Criteria,
                                lower: string -> string, cmp: (string, string) -> int)
    requires Matches(x, criteria.searchQuery, lower) && Matches(y, criteria.searchQuery, lower)
    requires cmp(SortKey(criteria.sortBy, x), SortKey(criteria.sortBy, y)) == 0
    ensures View(Some([x, y]), criteria.(sortOrder := FS.Asc), lower, cmp) == [x, y]
    ensures View(Some([x, y]), criteria.(sortOrder := FS.Desc), lower, cmp) == [x, y]
  {
    forall u | u in [x, y] ensures MatchesQuery(criteria.searchQuery, lower)(u) {
      MatchesQueryAt(criteria.searchQuery, lower, u);
    }
    FilterAll([x, y], MatchesQuery(criteria.searchQuery, lower));
    forall order: FS.SortOrder
      ensures InsertionSort([x, y], Comparator(criteria.sortBy, order, cmp)) == [x, y]
    {
      var c := Comparator(criteria.sortBy, order, cmp);
      ComparatorAt(criteria.sortBy, order, cmp, x, y);
      assert [x, y][..1] == [x];
      assert [x][..0] == [];
      assert InsertionSort([x], c) == [x];
      assert InsertionSort([x, y], c) == Insert([x], y, c);
    }
  }

  /** Searching "Leanne" shows a fetched user named "Leanne Graham",
      whatever the sort, for a lower-casing that agrees with `toLowerCase`
      on ASCII strings. */
  lemma LeanneIsShown(users: seq<User>, u: User, criteria: FS.Criteria,
                      lower: string -> string, cmp: (string, string) -> int)
    requires LowersAscii(lower)
    requires u in users && u.name == "Leanne Graham" && criteria.searchQuery == "Leanne"
    ensures u in View(Some(users), criteria, lower, cmp)
  {
    assert u.name == "Leanne" + " Graham";
    assert IsAscii("Leanne") && IsAscii(" Graham");
    AsciiLowerConcat(lower, "Leanne", " Graham");
    IncludesPrefix(lower("Leanne"), lower(" Graham"));
    ViewComplete(users, criteria, lower, cmp, u);
  }
}
