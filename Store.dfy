/** The selection store: the project, the locale and the search query every view reads, kept in a
    zustand store whose `persist` middleware mirrors it into local storage under one name. */
module Store {
  import opened Wrappers

  datatype State = State(selectedProject: string, selectedLocale: string, searchQuery: string)

  /** The object a setter hands to zustand's `set`: the fields it names, and only those. */
  datatype Partial = Partial(
    selectedProject: Option<string>,
    selectedLocale: Option<string>,
    searchQuery: Option<string>)

  /** The name the `persist` middleware stores the state under. */
  const StorageName: string := "helium-store"

  /** `initTranslationManagementStore()`: the state a fresh page starts from. */
  function InitTranslationManagementStore(): State {
    State("", "", "")
  }

  /** `defaultInitState`: the state used when no initial state is passed. */
  const DefaultInitState: State := State("", "", "")

  /** Both ways of starting a store give the empty selection. */
  lemma InitialStatesEmpty()
    ensures InitTranslationManagementStore() == DefaultInitState
    ensures DefaultInitState.selectedProject == "" && DefaultInitState.selectedLocale == ""
         && DefaultInitState.searchQuery == ""
  {
  }

  /** `set(partial)`: a shallow merge, `{...state, ...partial}`. */
  function Merge(s: State, p: Partial): State {
    State(p.selectedProject.GetOr(s.selectedProject),
          p.selectedLocale.GetOr(s.selectedLocale),
          p.searchQuery.GetOr(s.searchQuery))
  }

  function OnlyProject(project: string): Partial { Partial(Some(project), None, None) }
  function OnlyLocale(locale: string): Partial { Partial(None, Some(locale), None) }
  function OnlyQuery(query: string): Partial { Partial(None, None, Some(query)) }

  /** Each setter writes its own field and leaves the two others as they were. */
  lemma SettersTouchOneField(s: State, x: string)
    ensures Merge(s, OnlyProject(x)) == s.(selectedProject := x)
    ensures Merge(s, OnlyLocale(x)) == s.(selectedLocale := x)
    ensures Merge(s, OnlyQuery(x)) == s.(searchQuery := x)
  {
  }

  /** Setting the same fields twice to the same values is the same as setting them once. */
  lemma MergeIdempotent(s: State, p: Partial)
    ensures Merge(Merge(s, p), p) == Merge(s, p)
  {
  }

  /** Setters of different fields can be applied in either order. */
  lemma MergeCommutes(s: State, p: Partial, q: Partial)
    requires p.selectedProject.None? || q.selectedProject.None?
    requires p.selectedLocale.None? || q.selectedLocale.None?
    requires p.searchQuery.None? || q.searchQuery.None?
    ensures Merge(Merge(s, p), q) == Merge(Merge(s, q), p)
  {
  }

  /** The state a store starts from: what local storage holds under `StorageName`, else the
      initial state it was created with. */
  function Rehydrate(storage: map<string, State>, initState: State): State {
    if StorageName in storage then storage[StorageName] else initState
  }

  /** A state written under `StorageName` is what the next store starts from, whatever the
      initial state and whatever else local storage holds. */
  lemma PersistRoundTrip(storage: map<string, State>, s: State, initState: State)
    ensures Rehydrate(storage[StorageName := s], initState) == s
  {
  }

  class TranslationManagementStore {
    var selectedProject: string
    var selectedLocale: string
    var searchQuery: string
    /** Local storage, as the `persist` middleware reads and writes it. */
    var storage: map<string, State>

    function Current(): State
      reads this
    {
      State(selectedProject, selectedLocale, searchQuery)
    }

    /** `createTranslationManagementStore(initState)`: the store starts from the persisted state
        when there is one. */
    constructor (initState: State, localStorage: map<string, State>)
      ensures Current() == Rehydrate(localStorage, initState)
      ensures storage == localStorage
    {
      var s := Rehydrate(localStorage, initState);
      selectedProject, selectedLocale, searchQuery := s.selectedProject, s.selectedLocale, s.searchQuery;
      storage := localStorage;
    }

    /** Writes the merged state to the store and to local storage. */
    method Set(p: Partial)
      modifies this
      ensures Current() == Merge(old(Current()), p)
      ensures storage == old(storage)[StorageName := Current()]
    {
      var s := Merge(Current(), p);
      selectedProject, selectedLocale, searchQuery := s.selectedProject, s.selectedLocale, s.searchQuery;
      storage := storage[StorageName := s];
    }

    method SetSelectedProject(project: string)
      modifies this
      ensures Current() == old(Current()).(selectedProject := project)
      ensures storage == old(storage)[StorageName := Current()]
    {
      Set(OnlyProject(project));
    }

    method SetSelectedLocale(locale: string)
      modifies this
      ensures Current() == old(Current()).(selectedLocale := locale)
      ensures storage == old(storage)[StorageName := Current()]
    {
      Set(OnlyLocale(locale));
    }

    method SetSearchQuery(query: string)
      modifies this
      ensures Current() == old(Current()).(searchQuery := query)
      ensures storage == old(storage)[StorageName := Current()]
    {
      Set(OnlyQuery(query));
    }
  }
}
