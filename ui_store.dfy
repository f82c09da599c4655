/** The UI store: whether the sidebar is open, and a modal dialog with its
    content. The content is opaque here: a type parameter. */
module UIStore {
  import opened Wrappers

  /** The store's state. Each member function is the update that the
      store's action passes to `set`. */
  datatype UIState<C> = UIState(isSidebarOpen: bool, isModalOpen: bool, modalContent: Option<C>)
  {
    /** A closed modal has no content. */
    predicate Valid()
    {
      !isModalOpen ==> modalContent.None?
    }

    function ToggleSidebar(): (r: UIState<C>)
      ensures r.isSidebarOpen == !isSidebarOpen
      ensures r.isModalOpen == isModalOpen && r.modalContent == modalContent
      ensures Valid() ==> r.Valid()
    {
      this.(isSidebarOpen := !isSidebarOpen)
    }

    function OpenModal(content: C): (r: UIState<C>)
      ensures r.isModalOpen && r.modalContent == Some(content)
      ensures r.isSidebarOpen == isSidebarOpen
      ensures r.Valid()
    {
      this.(isModalOpen := true, modalContent := Some(content))
    }

    function CloseModal(): (r: UIState<C>)
      ensures !r.isModalOpen && r.modalContent.None?
      ensures r.isSidebarOpen == isSidebarOpen
      ensures r.Valid()
    {
      this.(isModalOpen := false, modalContent := None)
    }
  }

  /** Sidebar closed, modal closed, no content. */
  function Initial<C>(): (r: UIState<C>)
    ensures r.Valid()
  {
    UIState(false, false, None)
  }

  lemma ToggleSidebarTwice<C>(s: UIState<C>)
    ensures s.ToggleSidebar().ToggleSidebar() == s
  {
  }

  /** The store object, whose actions overwrite its three fields. */
  class Store<C> {
    var isSidebarOpen: bool
    var isModalOpen: bool
    var modalContent: Option<C>

    function State(): UIState<C>
      reads this
    {
      UIState(isSidebarOpen, isModalOpen, modalContent)
    }

    constructor ()
      ensures State() == Initial()
    {
      isSidebarOpen, isModalOpen, modalContent := false, false, None;
    }

    method ToggleSidebar()
      modifies this
      ensures State() == old(State()).ToggleSidebar()
    {
      isSidebarOpen := !isSidebarOpen;
    }

    method OpenModal(content: C)
      modifies this
      ensures State() == old(State()).OpenModal(content)
    {
      isModalOpen, modalContent := true, Some(content);
    }

    method CloseModal()
      modifies this
      ensures State() == old(State()).CloseModal()
    {
      isModalOpen, modalContent := false, None;
    }
  }
}
