# User management core of the enterprise boilerplate, modelled in Dafny

This project models the client-side logic of the user-management screen:

- **The user list view** (`UserList`). The fetched users are filtered by a case-insensitive substring search over name, e-mail, username and company name. The matching users are then sorted by name, e-mail or company name, ascending or descending.
- **The three Zustand stores**: the filter criteria (`FilterStore`), the user list with its selected user (`UserStore`), and the sidebar and modal flags (`UIStore`).
- **The statistics cards** (`UserStats`): total users, distinct companies, total e-mails.

`String.prototype.toLowerCase` and `String.prototype.localeCompare` are parameters, `lower` and `cmp`. Lemmas that need facts about them say so:

- `StableSort.Consistent(cmp)` states the ECMA-262 consistent-comparator conditions: reflexive, sign-antisymmetric, transitive.
- `lower("") == ""` is needed for the empty-query lemma.
- `UserList.LowersAscii(lower)` is needed for the e2e "Leanne" example. It says that `lower` maps `A`-`Z` to `a`-`z` and leaves every other character alone on ASCII strings, which `toLowerCase` does. Nothing is assumed about other strings: there, Unicode's context-dependent rules (Final_Sigma) mean that lower-casing a concatenation need not concatenate the lower-cased parts.

ECMA-262 (2023), section 23.1.3.30, requires `Array.prototype.sort` to be stable. The sort is therefore modelled as insertion sort (`StableSort`), run in place on a fresh array. `StableSort.StableSortIsInsertionSort` proves that every sorted rearrangement that keeps tied elements in input order IS the insertion-sort result. So the model does not depend on which stable algorithm an engine uses.

Each Zustand store is modelled in two layers:

- a state datatype whose member functions are the updaters the store passes to `set`;
- a class holding the store's fields, whose methods apply those updaters.

The `User` record is the interface declared in `src/stores/user-store.ts`. The user list imports no `User` type itself. Its records reach it through `useUsers` (`src/features/users/hooks/use-users.ts`), whose `getUsers` (`src/features/users/services/api.ts`) types them with the `User` of `src/features/users/types`. That file is not part of this model; the records are taken to have the same shape.

The `company` sort key compares `user.company.name`.

## Model

| member | source | states |
|---|---|---|
| Seqs.IncludesAtOffset | src/features/users/components/user-list.tsx:29-32 | `includes(q)` holds exactly when `q` occurs in the string at some offset |
| Seqs.FilterCount | src/features/users/components/user-list.tsx:26 | `filter` keeps every occurrence of an element that passes and none of one that fails |
| Seqs.FilterIsSubsequence | src/stores/user-store.ts:43 | `filter` keeps the original order (its result is a subsequence of its input) |
| StableSort.SortInPlace | src/features/users/components/user-list.tsx:37-54 | sorting the array in place leaves it equal to the insertion sort of its old contents |
| StableSort.SortPermutes | src/features/users/components/user-list.tsx:37 | sorting drops and duplicates nothing (multiset equality) |
| StableSort.SortSorts | src/features/users/components/user-list.tsx:37 | for a consistent comparator, every element compares at most equal to every later one |
| StableSort.SortStable | src/features/users/components/user-list.tsx:37 | elements that tie keep their input order |
| StableSort.StableSortIsInsertionSort | src/features/users/components/user-list.tsx:37 | any sorted rearrangement that keeps ties in input order equals the insertion sort |
| Seqs.Filter | src/features/users/components/user-list.tsx:26 | `Array.prototype.filter`: the result is no longer than the input and holds only input elements that pass |
| Seqs.Includes | src/features/users/components/user-list.tsx:29-32 | `String.prototype.includes`: a string only includes strings no longer than itself |
| StableSort.InsertionSort | src/features/users/components/user-list.tsx:37 | the stable sort; its result has the input's length |
| StableSort.InsertInPlace | src/features/users/components/user-list.tsx:37 | one round of the in-place sort: the prefix up to `i` becomes `Insert` of the old sorted prefix and the old `a[i]`; the rest of the array is unchanged |
| UserList.Matches | src/features/users/components/user-list.tsx:27-33 | the filter callback; a query that lower-cases to `""` matches every user |
| UserList.FilterUsers | src/features/users/components/user-list.tsx:26-34 | the filtered list is no longer than the fetched one and holds only fetched users that match |
| UserList.SortKey | src/features/users/components/user-list.tsx:38-50 | the compared string: name, e-mail or company name for the three keys |
| UserList.Directed | src/features/users/components/user-list.tsx:52-53 | the direction keeps ties as ties; "asc" keeps the sign of the comparison and "desc" flips it |
| UserList.Comparator | src/features/users/components/user-list.tsx:37-54 | the comparator passed to `sort`: the direction applied to `localeCompare` of the two keys |
| UserList.FinalSigmaAllowed | src/features/users/components/user-list.tsx:28 | the ASCII assumption on `lower` is compatible with `toLowerCase`'s Final_Sigma rule: "ΑΣ" lower-cases to "ας" although "Σ" alone gives "σ" |
| UserList.AsciiLowerConcat | src/features/users/components/user-list.tsx:28 | on ASCII strings, a `lower` that agrees with `toLowerCase` maps a concatenation to the concatenation of the images |
| UserStore.Deleted | src/stores/user-store.ts:43 | the kept records are old records, none with the deleted id, and there are no more of them |
| UIStore.UIState.Valid | src/stores/ui-store.ts:15-21 | the invariant that every action keeps: a closed modal has no content |
| UserStats.CompanyNames | src/features/users/components/user-stats.tsx:13 | the set of company names of the users |
| UserList.View | src/features/users/components/user-list.tsx:23-57 | a list that is not loaded yet gives an empty view |
| UserList.FilteredAndSortedUsers | src/features/users/components/user-list.tsx:23-57 | the computation (filter, then sort a fresh array in place) yields the view; it has no `modifies` clause, so the fetched array is not changed |
| UserList.ViewSound | src/features/users/components/user-list.tsx:26-34 | every shown user is a fetched user whose lower-cased name, e-mail, username or company name contains the lower-cased query |
| UserList.ViewComplete | src/features/users/components/user-list.tsx:26-34 | a fetched user is shown if and only if it matches the query |
| UserList.ViewPermutes | src/features/users/components/user-list.tsx:26-37 | the view is a permutation of the filtered users |
| UserList.ViewCount | src/features/users/components/user-list.tsx:26-37 | a matching user is shown exactly as often as it was fetched, a non-matching one never |
| UserList.EmptyQueryKeepsAll | src/features/users/components/user-list.tsx:27-33 | with an empty query the view is a permutation of the whole fetched list |
| UserList.ComparatorConsistent | src/features/users/components/user-list.tsx:37-53 | a consistent `localeCompare` gives a consistent user comparator in both directions |
| UserList.DescendingNegates | src/features/users/components/user-list.tsx:52-53 | "desc" negates the comparison of every pair |
| UserList.ViewOrdered | src/features/users/components/user-list.tsx:37-53 | the sort key is name, e-mail or company name as selected; ascending, keys never decrease; descending, never increase |
| UserList.ViewStable | src/features/users/components/user-list.tsx:37-53 | users with equal keys keep their filter order, in both directions |
| UserList.ViewIsTheStableSort | src/features/users/components/user-list.tsx:37-54 | the view is the only sorted ordering of the filtered users that keeps equal keys in filter order |
| UserList.DescendingIsNotReversed | src/features/users/components/user-list.tsx:52-53 | two matching users with equal keys keep fetch order ascending AND descending, so the descending view is not the reversed ascending view |
| UserList.LeanneIsShown | e2e/users.spec.ts:35-46 | searching "Leanne" shows a fetched user named "Leanne Graham", whatever the sort |
| FilterStore.Criteria.SetSearchQuery | src/stores/filter-store.ts:19 | sets the query; key and direction unchanged |
| FilterStore.Criteria.SetSortBy | src/stores/filter-store.ts:20 | sets the key; query and direction unchanged |
| FilterStore.Criteria.SetSortOrder | src/stores/filter-store.ts:21 | sets the direction; query and key unchanged |
| FilterStore.Criteria.ResetFilters | src/stores/filter-store.ts:22-23 | from any state, back to ("", name, asc) |
| FilterStore.ResetFiltersIdempotent | src/stores/filter-store.ts:16-23 | resetting twice equals resetting once, and equals the initial criteria |
| FilterStore.Toggled | src/features/users/components/user-filters.tsx:53 | the button always switches the direction |
| FilterStore.ToggledTwice | src/features/users/components/user-filters.tsx:53 | toggling twice restores the direction |
| FilterStore.ToggleSortOrder | src/features/users/components/user-filters.tsx:53 | the click handler sets the store's direction to the other one and changes nothing else |
| FilterStore.Store.constructor | src/stores/filter-store.ts:16-18 | the initial state is ("", name, asc) |
| FilterStore.Store.SetSearchQuery | src/stores/filter-store.ts:19 | the store's new state is its old state with the query set |
| FilterStore.Store.SetSortBy | src/stores/filter-store.ts:20 | the store's new state is its old state with the key set |
| FilterStore.Store.SetSortOrder | src/stores/filter-store.ts:21 | the store's new state is its old state with the direction set |
| FilterStore.Store.ResetFilters | src/stores/filter-store.ts:22-23 | the store's new state is the initial one |
| Users.Merge | src/stores/user-store.ts:38 | each key present in the patch takes the patch's value (including `id`), each absent key keeps the old value |
| Users.MergeNoChange | src/stores/user-store.ts:38 | merging an empty patch changes nothing |
| Users.MergeIdempotent | src/stores/user-store.ts:38 | merging a patch twice equals merging it once |
| UserStore.Added | src/stores/user-store.ts:34 | appending: one longer, old records unchanged in order, new one last |
| UserStore.Updated | src/stores/user-store.ts:37-39 | same length and order; records with the id are merged, all others untouched |
| UserStore.UpdateAbsent | src/stores/user-store.ts:37-39 | updating an id no record has changes nothing |
| UserStore.UpdateIds | src/stores/user-store.ts:38 | a patch without `id` keeps every id; one with `id` moves the matched records to it |
| UserStore.DeletedSpec | src/stores/user-store.ts:43 | no record with the id remains; every other record remains as often as before, in original order |
| UserStore.DeleteAbsent | src/stores/user-store.ts:43 | deleting an id no record has changes nothing |
| UserStore.DeleteTwice | src/stores/user-store.ts:43 | deleting twice equals deleting once |
| UserStore.UserState.SetUsers | src/stores/user-store.ts:32 | the list becomes exactly the given one; the selection is unchanged |
| UserStore.UserState.SetSelectedUser | src/stores/user-store.ts:33 | sets the selection; the list is unchanged |
| UserStore.UserState.AddUser | src/stores/user-store.ts:34 | appends to the list; the selection is unchanged |
| UserStore.UserState.UpdateUser | src/stores/user-store.ts:35-40 | updates the list by id; the selection is unchanged |
| UserStore.UserState.DeleteUser | src/stores/user-store.ts:41-44 | deletes by id; the selection is unchanged, even when it is the deleted user |
| UserStore.Store.constructor | src/stores/user-store.ts:30-31 | the initial state has no users and no selection |
| UserStore.Store.SetUsers | src/stores/user-store.ts:32 | the store's new state is `setUsers` applied to the old one |
| UserStore.Store.SetSelectedUser | src/stores/user-store.ts:33 | the store's new state is `setSelectedUser` applied to the old one |
| UserStore.Store.AddUser | src/stores/user-store.ts:34 | the store's new state is `addUser` applied to the old one |
| UserStore.Store.UpdateUser | src/stores/user-store.ts:35-40 | the store's new state is `updateUser` applied to the old one |
| UserStore.Store.DeleteUser | src/stores/user-store.ts:41-44 | the store's new state is `deleteUser` applied to the old one |
| UIStore.UIState.ToggleSidebar | src/stores/ui-store.ts:18-19 | negates the sidebar flag, leaves both modal fields, keeps "closed modal has no content" |
| UIStore.UIState.OpenModal | src/stores/ui-store.ts:20 | opens the modal with the given content; sidebar unchanged; the invariant holds |
| UIStore.UIState.CloseModal | src/stores/ui-store.ts:21 | closes the modal and clears the content; sidebar unchanged; the invariant holds |
| UIStore.Initial | src/stores/ui-store.ts:15-17 | sidebar and modal closed, no content; the invariant holds |
| UIStore.ToggleSidebarTwice | src/stores/ui-store.ts:18-19 | toggling the sidebar twice restores the state |
| UIStore.Store.constructor | src/stores/ui-store.ts:15-17 | the store starts in the initial state |
| UIStore.Store.ToggleSidebar | src/stores/ui-store.ts:18-19 | the store's new state is `toggleSidebar` applied to the old one |
| UIStore.Store.OpenModal | src/stores/ui-store.ts:20 | the store's new state is `openModal` applied to the old one |
| UIStore.Store.CloseModal | src/stores/ui-store.ts:21 | the store's new state is `closeModal` applied to the old one |
| UserStats.TotalUsers | src/features/users/components/user-stats.tsx:12 | the number of users, 0 while the list is absent |
| UserStats.TotalEmails | src/features/users/components/user-stats.tsx:14 | always equals the total of users |
| UserStats.TotalCompanies | src/features/users/components/user-stats.tsx:13 | 0 for an absent or empty list |
| UserStats.CompaniesAtMostUsers | src/features/users/components/user-stats.tsx:12-13 | never more distinct company names than users |
| UserStats.CompaniesAtLeastOne | src/features/users/components/user-stats.tsx:13 | at least one company for a non-empty list |
| UserStats.CompaniesIgnoreOrder | src/features/users/components/user-stats.tsx:13 | reordering the list does not change the company count |

## Left out

- Exact string semantics: `toLowerCase` and `localeCompare` are parameters, not re-implemented. No Unicode case mapping and no collation data are modelled; only the ASCII case of `toLowerCase` is stated (`LowersAscii`).
- UTF-16 code units in the search (user-list.tsx:28-32): a Dafny `string` is a sequence of Unicode scalar values, while a JavaScript string is a sequence of UTF-16 code units that may hold lone surrogates. So `includes` can match half of a surrogate pair, which `Includes` over Dafny characters cannot express.
- The `else` branch of the comparator that leaves both keys `""` (user-list.tsx:47-50). It is unreachable: `sortBy` is typed as one of three values, and the model's `SortBy` datatype has exactly those three.
- Keys present in a `Partial<User>` with the value `undefined`. The spread would copy `undefined` into the record; the model has only present (with a value) or absent keys.
- `openModal(null)`. `React.ReactNode` includes `null`, but the model's content type is opaque; it represents that case only if the content type has such a value of its own.
- The confirmation dialog in `handleDelete` (user-list.tsx:16-20): a browser call.
- HTTP access and the React Query hooks (`src/lib/axios.ts`, `src/features/*/services/api.ts`, `src/features/*/hooks/*`): asynchronous I/O over foreign libraries. So is the refetch after a delete.
- The Zustand `persist` (localStorage) and `devtools` middleware: storage and tooling. Only the state transitions are modelled.
- `avgNameLength` and its `toFixed(1)` display (user-stats.tsx:15-18): floating point. JavaScript string length also counts UTF-16 code units, not Dafny characters.
- Date and currency formatting (`src/utils/format.ts`): locale data and floating point.
- Rendering-only components, pages and configuration constants.
- Inconsistent comparators: the ordering lemmas assume a consistent `localeCompare` (`StableSort.Consistent`). For an inconsistent comparator ECMA-262 leaves the order implementation-defined, and the model says nothing about it.
