/** The `User` record held by the user store and shown by the user list,
    and the `Partial<User>` update that `updateUser` merges into it. */
module Users {
  import opened Wrappers

  datatype Company = Company(name: string)

  datatype User = User(
    id: int,
    name: string,
    email: string,
    username: string,
    phone: string,
    website: string,
    company: Company)

  /** `Partial<User>`: every key may be absent. The company is replaced
      whole, as the object spread is shallow. */
  datatype UserPatch = UserPatch(
    id: Option<int>,
    name: Option<string>,
    email: Option<string>,
    username: Option<string>,
    phone: Option<string>,
    website: Option<string>,
    company: Option<Company>)

  /** The patch with no keys. */
  const NoChange := UserPatch(None, None, None, None, None, None, None)

  /** `{ ...user, ...patch }`: each key present in the patch takes the
      patch's value, each absent key keeps the record's value. The `id` is
      a key like the others, so a patch that carries one overwrites it. */
  function Merge(u: User, p: UserPatch): (r: User)
    ensures p.id.Some? ==> r.id == p.id.value
    ensures p.id.None? ==> r.id == u.id
    ensures p.name.Some? ==> r.name == p.name.value
    ensures p.name.None? ==> r.name == u.name
    ensures p.email.Some? ==> r.email == p.email.value
    ensures p.email.None? ==> r.email == u.email
    ensures p.username.Some? ==> r.username == p.username.value
    ensures p.username.None? ==> r.username == u.username
    ensures p.phone.Some? ==> r.phone == p.phone.value
    ensures p.phone.None? ==> r.phone == u.phone
    ensures p.website.Some? ==> r.website == p.website.value
    ensures p.website.None? ==> r.website == u.website
    ensures p.company.Some? ==> r.company == p.company.value
    ensures p.company.None? ==> r.company == u.company
  {
    User(
      p.id.GetOr(u.id),
      p.name.GetOr(u.name),
      p.email.GetOr(u.email),
      p.username.GetOr(u.username),
      p.phone.GetOr(u.phone),
      p.website.GetOr(u.website),
      p.company.GetOr(u.company))
  }

  /** Merging the empty patch changes nothing. */
  lemma MergeNoChange(u: User)
    ensures Merge(u, NoChange) == u
  {
  }

  /** Merging the same patch twice is merging it once. */
  lemma MergeIdempotent(u: User, p: UserPatch)
    ensures Merge(Merge(u, p), p) == Merge(u, p)
  {
  }
}
