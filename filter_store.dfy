/** The filter criteria store: the search query, the sort key and the sort
    direction that the user list is filtered and sorted by. */
module FilterStore {

  datatype SortBy = Name | Email | Company

  datatype SortOrder = Asc | Desc

  /** The store's state. Each member function is the update that the
      store's action passes to `set`. */
  datatype Criteria = Criteria(searchQuery: string, sortBy: SortBy, sortOrder: SortOrder)
  {
    function SetSearchQuery(query: string): (r: Criteria)
      ensures r.searchQuery == query
      ensures r.sortBy == sortBy && r.sortOrder == sortOrder
    {
      this.(searchQuery := query)
    }

    function SetSortBy(key: SortBy): (r: Criteria)
      ensures r.sortBy == key
      ensures r.searchQuery == searchQuery && r.sortOrder == sortOrder
    {
      this.(sortBy := key)
    }

    function SetSortOrder(order: SortOrder): (r: Criteria)
      ensures r.sortOrder == order
      ensures r.searchQuery == searchQuery && r.sortBy == sortBy
    {
      this.(sortOrder := order)
    }

    /** Back to the initial criteria, whatever they were. */
    function ResetFilters(): (r: Criteria)
      ensures r.searchQuery == "" && r.sortBy == Name && r.sortOrder == Asc
    {
      Initial
    }
  }

  /** Empty query, sorted by name, ascending. */
  const Initial := Criteria("", Name, Asc)

  /** The sort-direction button of the filter bar: the direction it asks
      the store to switch to. */
  function Toggled(order: SortOrder): (r: SortOrder)
    ensures r != order
  {
    if order == Asc then Desc else Asc
  }

  lemma ToggledTwice(order: SortOrder)
    ensures Toggled(Toggled(order)) == order
  {
  }

  lemma ResetFiltersIdempotent(c: Criteria)
    ensures c.ResetFilters().ResetFilters() == c.ResetFilters()
    ensures c.ResetFilters() == Initial
  {
  }

  /** The store object: three fields that its actions overwrite. */
  class Store {
    var searchQuery: string
    var sortBy: SortBy
    var sortOrder: SortOrder

    function State(): Criteria
      reads this
    {
      Criteria(searchQuery, sortBy, sortOrder)
    }

    constructor ()
      ensures State() == Initial
    {
      searchQuery, sortBy, sortOrder := "", Name, Asc;
    }

    method SetSearchQuery(query: string)
      modifies this
      ensures State() == old(State()).SetSearchQuery(query)
    {
      searchQuery := query;
    }

    method SetSortBy(key: SortBy)
      modifies this
      ensures State() == old(State()).SetSortBy(key)
    {
      sortBy := key;
    }

    method SetSortOrder(order: SortOrder)
      modifies this
      ensures State() == old(State()).SetSortOrder(order)
    {
      sortOrder := order;
    }

    method ResetFilters()
      modifies this
      ensures State() == old(State()).ResetFilters()
    {
      searchQuery, sortBy, sortOrder := "", Name, Asc;
    }
  }

  /** The click handler of the sort-direction button. */
  method ToggleSortOrder(store: Store)
    modifies store
    ensures store.State() == old(store.State()).SetSortOrder(Toggled(old(store.sortOrder)))
  {
    store.SetSortOrder(Toggled(store.sortOrder));
  }
}
