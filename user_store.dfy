/** The user store: a list of users and the selected user. Each list
    operation builds a new list (spread-append, `map` with an object merge,
    `filter`) and the store replaces its field with it. */
module UserStore {
  import opened Wrappers
  import opened Seqs
  import opened Users

  /** `[...users, user]`. */
  function Added(users: seq<User>, u: User): (r: seq<User>)
    ensures |r| == |users| + 1
    ensures r[..|users|] == users && r[|users|] == u
  {
    users + [u]
  }

  /** `users.map(user => user.id === id ? { ...user, ...patch } : user)`:
      same length and order, the records with that id merged, every other
      record untouched. */
  function Updated(users: seq<User>, id: int, patch: UserPatch): (r: seq<User>)
    ensures |r| == |users|
    ensures forall i :: 0 <= i < |users| && users[i].id == id ==> r[i] == Merge(users[i], patch)
    ensures forall i :: 0 <= i < |users| && users[i].id != id ==> r[i] == users[i]
  {
    if users == [] then []
    else [if users[0].id == id then Merge(users[0], patch) else users[0]] + Updated(users[1..], id, patch)
  }

  function HasOtherId(id: int): User -> bool
  {
    (u: User) => u.id != id
  }

  /** `users.filter(user => user.id !== id)`. */
  function Deleted(users: seq<User>, id: int): (r: seq<User>)
    ensures |r| <= |users|
    ensures forall u :: u in r ==> u in users && u.id != id
  {
    Filter(users, HasOtherId(id))
  }

  /** After deleting an id, no record carries it; every other record is
      kept as often as before and in its original order. */
  lemma DeletedSpec(users: seq<User>, id: int, u: User)
    ensures u in Deleted(users, id) ==> u.id != id
    ensures multiset(Deleted(users, id))[u] == if u.id == id then 0 else multiset(users)[u]
    ensures IsSubsequence(Deleted(users, id), users)
  {
    FilterCount(users, HasOtherId(id), u);
    FilterIsSubsequence(users, HasOtherId(id));
  }

  /** Deleting an id that no record carries changes nothing. */
  lemma DeleteAbsent(users: seq<User>, id: int)
    requires forall u :: u in users ==> u.id != id
    ensures Deleted(users, id) == users
  {
    FilterAll(users, HasOtherId(id));
  }

  /** Deleting twice is deleting once. */
  lemma DeleteTwice(users: seq<User>, id: int)
    ensures Deleted(Deleted(users, id), id) == Deleted(users, id)
  {
    DeleteAbsent(Deleted(users, id), id);
  }

  /** Updating an id that no record carries changes nothing. */
  lemma UpdateAbsent(users: seq<User>, id: int, patch: UserPatch)
    requires forall i :: 0 <= i < |users| ==> users[i].id != id
    ensures Updated(users, id, patch) == users
  {
  }

  /** A patch without an `id` key keeps every record's id; one with an
      `id` key moves the matched records to the new id. */
  lemma UpdateIds(users: seq<User>, id: int, patch: UserPatch, i: int)
    requires 0 <= i < |users|
    ensures patch.id.None? ==> Updated(users, id, patch)[i].id == users[i].id
    ensures patch.id.Some? && users[i].id == id ==> Updated(users, id, patch)[i].id == patch.id.value
  {
  }

  /** The store's state. Each member function is the update that the
      store's action passes to `set`; none of the list actions touches
      `selectedUser`, and `setSelectedUser` does not touch the list. */
  datatype UserState = UserState(users: seq<User>, selectedUser: Option<User>)
  {
    function SetUsers(xs: seq<User>): (r: UserState)
      ensures r.users == xs && r.selectedUser == selectedUser
    {
      this.(users := xs)
    }

    function SetSelectedUser(u: Option<User>): (r: UserState)
      ensures r.selectedUser == u && r.users == users
    {
      this.(selectedUser := u)
    }

    function AddUser(u: User): (r: UserState)
      ensures r.users == Added(users, u) && r.selectedUser == selectedUser
    {
      this.(users := Added(users, u))
    }

    function UpdateUser(id: int, patch: UserPatch): (r: UserState)
      ensures r.users == Updated(users, id, patch) && r.selectedUser == selectedUser
    {
      this.(users := Updated(users, id, patch))
    }

    /** The selected user stays selected even when it is the one deleted. */
    function DeleteUser(id: int): (r: UserState)
      ensures r.users == Deleted(users, id) && r.selectedUser == selectedUser
    {
      this.(users := Deleted(users, id))
    }
  }

  /** No users, none selected. */
  const Initial := UserState([], None)

  /** The store object, whose actions replace its two fields. */
  class Store {
    var users: seq<User>
    var selectedUser: Option<User>

    function State(): UserState
      reads this
    {
      UserState(users, selectedUser)
    }

    constructor ()
      ensures State() == Initial
    {
      users, selectedUser := [], None;
    }

    method SetUsers(xs: seq<User>)
      modifies this
      ensures State() == old(State()).SetUsers(xs)
    {
      users := xs;
    }

    method SetSelectedUser(u: Option<User>)
      modifies this
      ensures State() == old(State()).SetSelectedUser(u)
    {
      selectedUser := u;
    }

    method AddUser(u: User)
      modifies this
      ensures State() == old(State()).AddUser(u)
    {
      users := Added(users, u);
    }

    method UpdateUser(id: int, patch: UserPatch)
      modifies this
      ensures State() == old(State()).UpdateUser(id, patch)
    {
      users := Updated(users, id, patch);
    }

    method DeleteUser(id: int)
      modifies this
      ensures State() == old(State()).DeleteUser(id)
    {
      users := Deleted(users, id);
    }
  }
}
