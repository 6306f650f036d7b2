/**
 * The widget's props and state, and the pure rules that update the selection:
 * `getDerivedStateFromProps`, `select` and the state change of a row press
 * (components/ModalDropdown.js).
 *
 * Caller-supplied renderers are total functions; `toString` is the item's own
 * string form.  A hook's outcome is an input (see `HookResult`).
 */
module Selection {
  import opened Wrappers
  import opened Placement
  import opened Rows

  /** `defaultProps.defaultIndex`: no selection. */
  const DefaultIndex: int := -1

  /** `defaultProps.defaultValue`. */
  const DefaultValue: string := "Please select..."

  /** The props the core reads. `renderButtonText` receives `None` for an undefined item. */
  datatype Props<!T> = Props(
    options: Option<seq<T>>,
    defaultIndex: int,
    defaultValue: string,
    accessible: Option<bool>,
    renderButtonText: Option<Option<T> -> string>,
    renderRow: Option<(T, nat, bool) -> Element>,
    toString: T -> string,
    style: StyleBox,
    dropdownStyle: Option<StyleBox>,
    dropdownAutoWidth: bool,
    adjustFrame: Option<PositionStyle -> PositionStyle>)

  /** Props with every optional one left at its default. */
  function DefaultProps<T>(options: Option<seq<T>>, toString: T -> string): Props<T> {
    Props(options, DefaultIndex, DefaultValue, None, None, None, toString, EmptyStyle, None, false, None)
  }

  /** The `accessible` prop as it is passed on to a row. */
  function AccessibleProp<T>(p: Props<T>): PropValue {
    if p.accessible.Some? then Flag(p.accessible.value) else Undefined
  }

  /**
   * What a veto hook did: it is not supplied, it returned exactly `false`, or
   * it returned anything else (including nothing).
   */
  datatype HookResult = Absent | ReturnedFalse | ReturnedOther

  /** `!hook || hook() !== false`: only an explicit `false` vetoes. */
  predicate Permits(h: HookResult) {
    !h.ReturnedFalse?
  }

  /** The component state (`this.state`). */
  datatype State = State(
    accessible: bool,
    loading: bool,
    showDropdown: bool,
    buttonText: string,
    selectedIndex: int)

  /** The state the constructor sets up. */
  function InitialState<T>(p: Props<T>): State {
    State(p.accessible == Some(true), p.options.None?, false, p.defaultValue, p.defaultIndex)
  }

  /** `getDerivedStateFromProps`, merged into the previous state as React merges it. */
  function DeriveState<T>(p: Props<T>, s: State): (r: State)
    // loading exactly while there are no options
    ensures r.loading <==> p.options.None?
    ensures r.accessible == s.accessible && r.showDropdown == s.showDropdown
    // an existing selection is kept, with its text
    ensures s.selectedIndex >= 0 ==> r.selectedIndex == s.selectedIndex && r.buttonText == s.buttonText
    // no selection falls back to the default index; the text is kept when that names one
    ensures s.selectedIndex < 0 ==> r.selectedIndex == p.defaultIndex
    ensures s.selectedIndex < 0 && p.defaultIndex >= 0 ==> r.buttonText == s.buttonText
    // afterwards, having no selection always means showing the default text
    ensures r.selectedIndex < 0 ==> r.buttonText == p.defaultValue
    ensures IsDerived(p, r)
  {
    var selectedIndex := if s.selectedIndex < 0 then p.defaultIndex else s.selectedIndex;
    var buttonText := if s.selectedIndex < 0 && p.defaultIndex < 0 then p.defaultValue else s.buttonText;
    s.(loading := p.options.None?, buttonText := buttonText, selectedIndex := selectedIndex)
  }

  /**
   * A state as it is rendered: loading exactly while there are no options, and
   * a negative index only as the (negative) default index, with the default text.
   */
  predicate IsDerived<T>(p: Props<T>, s: State) {
    && s.loading == p.options.None?
    && (s.selectedIndex < 0 ==> s.selectedIndex == p.defaultIndex && s.buttonText == p.defaultValue)
  }

  /** The derived states are exactly those the derivation leaves unchanged. */
  lemma DerivedIsFixpoint<T>(p: Props<T>, s: State)
    ensures IsDerived(p, s) <==> DeriveState(p, s) == s
  {
  }

  /** Deriving twice with the same props is deriving once. */
  lemma DeriveStateIdempotent<T>(p: Props<T>, s: State)
    ensures DeriveState(p, DeriveState(p, s)) == DeriveState(p, s)
  {
  }

  /**
   * A freshly constructed widget shows the default text, whatever the default
   * index: the constructor starts from `defaultValue` and a non-negative
   * default index keeps it.
   */
  lemma ConstructedShowsDefaultValue<T>(p: Props<T>)
    ensures DeriveState(p, InitialState(p)).buttonText == p.defaultValue
    ensures DeriveState(p, InitialState(p)).selectedIndex == p.defaultIndex
  {
  }

  /** Whether `select` replaces the requested index by the default one. */
  predicate SubstitutesDefault<T>(p: Props<T>, idx: Option<int>) {
    idx.None? || p.options.None? || idx.value >= |p.options.value|
  }

  /** The index `select` settles on. */
  function ResolveIndex<T>(p: Props<T>, idx: Option<int>): (r: int)
    // null, no options, or past the end: the default index
    ensures SubstitutesDefault(p, idx) ==> r == p.defaultIndex
    // an index below the length, negative ones included, is kept
    ensures !SubstitutesDefault(p, idx) ==> r == idx.value && r < |p.options.value|
  {
    if SubstitutesDefault(p, idx) then p.defaultIndex else idx.value
  }

  /** The text and index `select` stores. */
  datatype Selected = Selected(buttonText: string, selectedIndex: int)

  /**
   * `select(idx)`: `None` when reading `options[idx]` throws (no options, or
   * `toString` of an undefined item), in which case no state is set.
   */
  function SelectResult<T>(p: Props<T>, idx: Option<int>): (r: Option<Selected>)
    // it fails exactly when a non-negative resolved index reads a missing option
    ensures var i := ResolveIndex(p, idx);
      r.None? <==> i >= 0 && (p.options.None? || (i >= |p.options.value| && p.renderButtonText.None?))
    // the resolved index is always stored, even a negative one
    ensures r.Some? ==> r.value.selectedIndex == ResolveIndex(p, idx)
    // no selection shows the default text
    ensures r.Some? && r.value.selectedIndex < 0 ==> r.value.buttonText == p.defaultValue
    // a selection shows the item's text, from renderButtonText when given, else its string form
    ensures r.Some? && 0 <= r.value.selectedIndex < |p.options.GetOr([])| ==>
      var item := p.options.value[r.value.selectedIndex];
      r.value.buttonText == (if p.renderButtonText.Some? then p.renderButtonText.value(Some(item)) else p.toString(item))
    // a default index past the end hands an undefined item to renderButtonText
    ensures r.Some? && r.value.selectedIndex >= |p.options.GetOr([])| >= 0 ==>
      p.renderButtonText.Some? && r.value.buttonText == p.renderButtonText.value(None)
  {
    var i := ResolveIndex(p, idx);
    if i < 0 then Some(Selected(p.defaultValue, i))
    else if p.options.None? then None
    else if i < |p.options.value| then
      var item := p.options.value[i];
      Some(Selected(if p.renderButtonText.Some? then p.renderButtonText.value(Some(item)) else p.toString(item), i))
    else if p.renderButtonText.Some? then Some(Selected(p.renderButtonText.value(None), i))
    else None
  }

  /** Selecting null or an index past the end is selecting the default index. */
  lemma SelectOutOfRangeIsDefault<T>(p: Props<T>, idx: Option<int>)
    requires SubstitutesDefault(p, idx)
    ensures SelectResult(p, idx) == SelectResult(p, Some(p.defaultIndex))
  {
  }

  /** With no default index, selecting -1 shows the default text. */
  lemma SelectNothingShowsDefault<T>(p: Props<T>)
    requires p.defaultIndex == -1
    ensures SelectResult(p, Some(-1)) == Some(Selected(p.defaultValue, -1))
  {
  }

  /**
   * `select` itself does not replace a negative index by the default one: with
   * options a, b, c and default index 1, `select(-1)` stores -1 and the default
   * text, while `select(1)` shows "b".
   */
  lemma SelectNegativeIsKept()
    ensures var p := DefaultProps(Some(["a", "b", "c"]), (s: string) => s).(defaultIndex := 1);
      && SelectResult(p, Some(-1)) == Some(Selected(DefaultValue, -1))
      && SelectResult(p, Some(1)) == Some(Selected("b", 1))
  {
  }

  /**
   * What is rendered after `select` stores a negative index while a default
   * index exists: the derivation before the render moves the selection to the
   * default index, and the text stays the default text.
   */
  lemma SelectNegativeRendersDefaultIndex<T>(p: Props<T>, s: State, idx: Option<int>)
    requires SelectResult(p, idx).Some? && SelectResult(p, idx).value.selectedIndex < 0
    requires p.defaultIndex >= 0
    ensures var sel := SelectResult(p, idx).value;
      var r := DeriveState(p, s.(buttonText := sel.buttonText, selectedIndex := sel.selectedIndex));
      r.selectedIndex == p.defaultIndex && r.buttonText == p.defaultValue
  {
  }

  /** `renderButtonText && renderButtonText(item) || item.toString()` */
  function RowPressText<T>(p: Props<T>, item: T): (r: string)
    // a non-empty text from renderButtonText wins
    ensures p.renderButtonText.Some? && p.renderButtonText.value(Some(item)) != "" ==>
      r == p.renderButtonText.value(Some(item))
    // without a renderer, or when it gives the empty (falsy) string, the item's string form is used
    ensures p.renderButtonText.None? || p.renderButtonText.value(Some(item)) == "" ==> r == p.toString(item)
    // the button is left blank only if the item's own string form is empty
    ensures r == "" ==> p.toString(item) == ""
  {
    if p.renderButtonText.Some? && p.renderButtonText.value(Some(item)) != "" then p.renderButtonText.value(Some(item))
    else p.toString(item)
  }

  /**
   * The state after a press on row `rowID` showing `item`, given what
   * `onSelect(rowID, item)` and `onDropdownWillHide()` did.
   */
  function RowPressed<T>(p: Props<T>, s: State, item: T, rowID: nat,
                         onSelect: HookResult, willHide: HookResult): (r: State)
    // the selection is committed unless onSelect vetoes
    ensures Permits(onSelect) ==> r.selectedIndex == rowID && r.buttonText == RowPressText(p, item)
    ensures !Permits(onSelect) ==> r.selectedIndex == s.selectedIndex && r.buttonText == s.buttonText
    // the dropdown closes unless onDropdownWillHide vetoes
    ensures r.showDropdown <==> s.showDropdown && !Permits(willHide)
    ensures r.loading == s.loading && r.accessible == s.accessible
  {
    var selected :=
      if Permits(onSelect) then s.(buttonText := RowPressText(p, item), selectedIndex := rowID) else s;
    if Permits(willHide) then selected.(showDropdown := false) else selected
  }

  /** The two gates of a row press are independent: each hook affects only its own part. */
  lemma RowPressGatesIndependent<T>(p: Props<T>, s: State, item: T, rowID: nat,
                                    onSelect: HookResult, onSelect': HookResult,
                                    willHide: HookResult, willHide': HookResult)
    ensures var a := RowPressed(p, s, item, rowID, onSelect, willHide);
            var b := RowPressed(p, s, item, rowID, onSelect, willHide');
      a.selectedIndex == b.selectedIndex && a.buttonText == b.buttonText
    ensures var a := RowPressed(p, s, item, rowID, onSelect, willHide);
            var b := RowPressed(p, s, item, rowID, onSelect', willHide);
      a.showDropdown == b.showDropdown
  {
  }

  /** An onSelect veto keeps the selection but, without a hide veto, still closes the dropdown. */
  lemma SelectVetoStillCloses<T>(p: Props<T>, s: State, item: T, rowID: nat, willHide: HookResult)
    requires Permits(willHide)
    ensures var r := RowPressed(p, s, item, rowID, ReturnedFalse, willHide);
      r == s.(showDropdown := false)
  {
  }
}
