/**
 The filter state held by the candidates table: the transition run on every
 edit of a filter input, the reset button, and the cascading enablement of
 the position and status inputs (position needs a name, status needs a
 position).
 */
module CandidatesTable {
  import opened Text
  import opened CandidateFilter

  /** The four keys of the filter state. */
  datatype FilterKey = NameKey | PositionKey | StatusKey | ExperienceKey

  /** The state the table starts in and that reset restores: every field empty. */
  const InitialFilters: FilterState := EmptyFilters

  /** `filters[key]`. */
  function Field(f: FilterState, key: FilterKey): string {
    match key
    case NameKey => f.name
    case PositionKey => f.position
    case StatusKey => f.status
    case ExperienceKey => f.experience
  }

  /** `{ ...f, [key]: value }`: a copy of `f` with one field replaced. */
  function SetField(f: FilterState, key: FilterKey, value: string): (r: FilterState)
    ensures Field(r, key) == value
    ensures forall k :: k != key ==> Field(r, k) == Field(f, k)
  {
    match key
    case NameKey => f.(name := value)
    case PositionKey => f.(position := value)
    case StatusKey => f.(status := value)
    case ExperienceKey => f.(experience := value)
  }

  /** The fields that setting `key` to `value` clears besides `key` itself. */
  function ClearedBy(key: FilterKey, value: string): set<FilterKey> {
    if key == NameKey && value == "" then {PositionKey, StatusKey}
    else if key == PositionKey && value == "" then {StatusKey}
    else {}
  }

  /** The value field `k` takes when field `key` is set to `value` in state `f`. */
  function NextField(f: FilterState, key: FilterKey, value: string, k: FilterKey): string {
    if k == key then value else if k in ClearedBy(key, value) then "" else Field(f, k)
  }

  /** The state after setting field `key` to `value`, defined field by field. */
  function ChangeFilter(f: FilterState, key: FilterKey, value: string): (r: FilterState)
    ensures forall k :: Field(r, k) == NextField(f, key, value, k)
  {
    FilterState(
      NextField(f, key, value, NameKey),
      NextField(f, key, value, PositionKey),
      NextField(f, key, value, StatusKey),
      NextField(f, key, value, ExperienceKey))
  }

  /** Setting a field stores the value given, whatever it is. */
  lemma ChangeSetsField(f: FilterState, key: FilterKey, value: string)
    ensures Field(ChangeFilter(f, key, value), key) == value
  {
  }

  /** Clearing the name clears position and status too, and keeps the experience. */
  lemma ClearNameCascades(f: FilterState)
    ensures ChangeFilter(f, NameKey, "") == FilterState("", "", "", f.experience)
  {
    assert PositionKey in ClearedBy(NameKey, "") && StatusKey in ClearedBy(NameKey, "");
  }

  /** Clearing the position clears the status too, and keeps name and experience. */
  lemma ClearPositionCascades(f: FilterState)
    ensures ChangeFilter(f, PositionKey, "") == FilterState(f.name, "", "", f.experience)
  {
    assert StatusKey in ClearedBy(PositionKey, "");
  }

  /** Setting the status or the experience, or a non-empty name or position, changes that field only. */
  lemma ChangeTouchesOnlyKey(f: FilterState, key: FilterKey, value: string)
    requires key == StatusKey || key == ExperienceKey || value != ""
    ensures ChangeFilter(f, key, value) == SetField(f, key, value)
  {
    var r, s := ChangeFilter(f, key, value), SetField(f, key, value);
    assert forall k :: Field(r, k) == Field(s, k);
    assert Field(r, NameKey) == Field(s, NameKey) && Field(r, PositionKey) == Field(s, PositionKey);
    assert Field(r, StatusKey) == Field(s, StatusKey) && Field(r, ExperienceKey) == Field(s, ExperienceKey);
  }

  /** `isPositionDisabled`: the trimmed name is empty, that is, the name text is blank. */
  predicate PositionDisabled(f: FilterState)
    ensures PositionDisabled(f) <==> IsBlank(f.name)
  {
    TrimEmptyIff(f.name);
    |Trim(f.name)| == 0
  }

  /**
   `isStatusDisabled`: no position is chosen or the name is blank, so a
   disabled position input always disables the status input too.
   */
  predicate StatusDisabled(f: FilterState)
    ensures StatusDisabled(f) <==> f.position == "" || IsBlank(f.name)
    ensures PositionDisabled(f) ==> StatusDisabled(f)
  {
    f.position == "" || PositionDisabled(f)
  }

  /** The input for `key` accepts edits in state `f`. */
  predicate Enabled(f: FilterState, key: FilterKey) {
    match key
    case PositionKey => !PositionDisabled(f)
    case StatusKey => !StatusDisabled(f)
    case _ => true
  }

  /** A position is held only with a name, and a status only with a position. */
  predicate Cascaded(f: FilterState) {
    (f.position != "" ==> f.name != "") && (f.status != "" ==> f.position != "")
  }

  lemma InitialFiltersCascaded()
    ensures Cascaded(InitialFilters)
    ensures PositionDisabled(InitialFilters) && StatusDisabled(InitialFilters)
  {
  }

  /** Edits made through enabled inputs keep the state cascaded. */
  lemma ChangePreservesCascaded(f: FilterState, key: FilterKey, value: string)
    requires Cascaded(f) && Enabled(f, key)
    ensures Cascaded(ChangeFilter(f, key, value))
  {
    var r := ChangeFilter(f, key, value);
    assert Field(r, NameKey) == r.name && Field(r, PositionKey) == r.position && Field(r, StatusKey) == r.status;
    if key == StatusKey {
      assert f.position != "";
    }
  }

  /**
   A name that is blank but not empty disables the position input without
   clearing it: the stale position stays in the state and still constrains the filter.
   */
  lemma BlankNameKeepsStalePosition()
    ensures var f := ChangeFilter(FilterState("a", "Designer", "", ""), NameKey, " ");
      PositionDisabled(f) && f.position == "Designer"
      && !Matches(f, Candidate(2, "Bob Smith", "bob@test.com", "Backend Developer", "Interview", 3))
  {
    var f := ChangeFilter(FilterState("a", "Designer", "", ""), NameKey, " ");
    assert f == FilterState(" ", "Designer", "", "");
  }

  /** The filter state of the candidates table component. */
  class FilterPanel {
    var filters: FilterState

    /** `useState(initialFilters)`. */
    constructor ()
      ensures filters == InitialFilters
    {
      filters := InitialFilters;
    }

    /**
     `handleFilterChange(key, value)`: copy the state with `key` set to `value`,
     clear position and status when the name is set to empty, clear the status
     when the position is set to empty, then commit the copy.
     */
    method HandleFilterChange(key: FilterKey, value: string)
      modifies this
      ensures filters == ChangeFilter(old(filters), key, value)
      ensures old(Cascaded(filters)) && old(Enabled(filters, key)) ==> Cascaded(filters)
    {
      ghost var prev := filters;
      var newFilters := SetField(filters, key, value);
      if key == NameKey && value == "" {
        newFilters := newFilters.(position := "", status := "");
      }
      if key == PositionKey && value == "" {
        newFilters := newFilters.(status := "");
      }
      assert forall k :: Field(newFilters, k) == NextField(prev, key, value, k);
      filters := newFilters;
      FieldsDetermineState(filters, ChangeFilter(prev, key, value));
      if Cascaded(prev) && Enabled(prev, key) {
        ChangePreservesCascaded(prev, key, value);
      }
    }

    /** `handleReset()`: back to the all-empty state, whatever came before. */
    method HandleReset()
      modifies this
      ensures filters == InitialFilters
    {
      filters := InitialFilters;
    }
  }

  /** Helper for `HandleFilterChange`: two states that agree on every key are equal. */
  lemma FieldsDetermineState(f: FilterState, g: FilterState)
    requires forall k :: Field(f, k) == Field(g, k)
    ensures f == g
  {
    assert Field(f, NameKey) == Field(g, NameKey) && Field(f, PositionKey) == Field(g, PositionKey);
    assert Field(f, StatusKey) == Field(g, StatusKey) && Field(f, ExperienceKey) == Field(g, ExperienceKey);
  }
}
