/**
 * The dropdown component (`ModalDropdown` in components/ModalDropdown.js):
 * its state fields and the methods that open, close and select.
 *
 * Each `setState` is an immediate field update.  The button's asynchronous
 * `measure` callback is the `measured` argument of `Show`: `None` when the
 * button cannot be measured.
 */
module Widget {
  import opened Wrappers
  import opened Placement
  import opened Rows
  import opened Selection

  class Dropdown<T> {
    var props: Props<T>
    var accessible: bool
    var loading: bool
    var showDropdown: bool
    var buttonText: string
    var selectedIndex: int
    /** `_buttonFrame`: the last measured frame of the button. */
    var buttonFrame: Option<Frame>

    /** The state record these fields make up. */
    function CurrentState(): State
      reads this
    {
      State(accessible, loading, showDropdown, buttonText, selectedIndex)
    }

    /**
     * The dropdown is open only once the button has been measured, and the
     * state is as `getDerivedStateFromProps` leaves it for rendering.
     */
    ghost predicate Valid()
      reads this
    {
      && (showDropdown ==> buttonFrame.Some?)
      && IsDerived(props, CurrentState())
    }

    constructor (p: Props<T>)
      ensures Valid()
      ensures props == p && CurrentState() == InitialState(p) && buttonFrame.None?
    {
      props := p;
      accessible := p.accessible == Some(true);
      loading := p.options.None?;
      showDropdown := false;
      buttonText := p.defaultValue;
      selectedIndex := p.defaultIndex;
      buttonFrame := None;
    }

    /** New props from the parent: `getDerivedStateFromProps` runs before the next render. */
    method ReceiveProps(p: Props<T>)
      requires Valid()
      modifies this
      ensures Valid()
      ensures props == p && CurrentState() == DeriveState(p, old(CurrentState()))
      ensures buttonFrame == old(buttonFrame)
    {
      var derived := DeriveState(p, CurrentState());
      props := p;
      loading, buttonText, selectedIndex := derived.loading, derived.buttonText, derived.selectedIndex;
    }

    /** `_updatePosition`: records the measured frame, if the button could be measured. */
    method UpdatePosition(measured: Option<Frame>)
      requires Valid()
      modifies this`buttonFrame
      ensures Valid()
      ensures buttonFrame == if measured.Some? then measured else old(buttonFrame)
    {
      if measured.Some? {
        buttonFrame := measured;
      }
    }

    /** `show`: opens once the button has been measured; otherwise nothing happens. */
    method Show(measured: Option<Frame>)
      requires Valid()
      modifies this
      ensures Valid()
      ensures buttonFrame == if measured.Some? then measured else old(buttonFrame)
      ensures CurrentState() == if measured.Some? then old(CurrentState()).(showDropdown := true) else old(CurrentState())
      ensures props == old(props)
    {
      UpdatePosition(measured);
      if measured.Some? {
        showDropdown := true;
      }
    }

    /** `hide`: always closes. */
    method Hide()
      requires Valid()
      modifies this`showDropdown
      ensures Valid()
      ensures CurrentState() == old(CurrentState()).(showDropdown := false)
    {
      showDropdown := false;
    }

    /**
     * `select(idx)`: stores the resolved index and its text, and the state is
     * derived again before the next render; `thrown` when reading the option
     * throws, and then nothing changes.
     */
    method Select(idx: Option<int>) returns (thrown: bool)
      requires Valid()
      modifies this`buttonText, this`selectedIndex
      ensures Valid()
      ensures thrown <==> SelectResult(props, idx).None?
      ensures !thrown ==>
        var sel := SelectResult(props, idx).value;
        CurrentState() == DeriveState(props,
          old(CurrentState()).(buttonText := sel.buttonText, selectedIndex := sel.selectedIndex))
      ensures thrown ==> CurrentState() == old(CurrentState())
    {
      var result := SelectResult(props, idx);
      thrown := result.None?;
      if !thrown {
        buttonText, selectedIndex := result.value.buttonText, result.value.selectedIndex;
        var derived := DeriveState(props, CurrentState());
        buttonText, selectedIndex := derived.buttonText, derived.selectedIndex;
      }
    }

    /** `_onButtonPress`: shows unless `onDropdownWillShow` returns `false`. */
    method OnButtonPress(willShow: HookResult, measured: Option<Frame>)
      requires Valid()
      modifies this
      ensures Valid()
      ensures props == old(props)
      ensures !Permits(willShow) ==> CurrentState() == old(CurrentState()) && buttonFrame == old(buttonFrame)
      ensures Permits(willShow) ==>
        && buttonFrame == (if measured.Some? then measured else old(buttonFrame))
        && CurrentState() == if measured.Some? then old(CurrentState()).(showDropdown := true) else old(CurrentState())
    {
      if Permits(willShow) {
        Show(measured);
      }
    }

    /** `_onRequestClose` (back button): hides unless `onDropdownWillHide` returns `false`. */
    method OnRequestClose(willHide: HookResult)
      requires Valid()
      modifies this`showDropdown
      ensures Valid()
      ensures CurrentState() == if Permits(willHide) then old(CurrentState()).(showDropdown := false) else old(CurrentState())
    {
      if Permits(willHide) {
        Hide();
      }
    }

    /** `_onModalPress` (a press outside the list): the same gate as `OnRequestClose`. */
    method OnModalPress(willHide: HookResult)
      requires Valid()
      modifies this`showDropdown
      ensures Valid()
      ensures CurrentState() == if Permits(willHide) then old(CurrentState()).(showDropdown := false) else old(CurrentState())
    {
      if Permits(willHide) {
        Hide();
      }
    }

    /** `_onRowPress(item, rowID)`, given what `onSelect` and `onDropdownWillHide` did. */
    method OnRowPress(item: T, rowID: nat, onSelect: HookResult, willHide: HookResult)
      requires Valid()
      modifies this`buttonText, this`selectedIndex, this`showDropdown
      ensures Valid()
      ensures CurrentState() == RowPressed(props, old(CurrentState()), item, rowID, onSelect, willHide)
    {
      if Permits(onSelect) {
        buttonText, selectedIndex := RowPressText(props, item), rowID;
      }
      if Permits(willHide) {
        showDropdown := false;
      }
    }

    /** Whether `_renderModal` renders the modal: open and measured. */
    function ModalShown(): (r: bool)
      reads this
      ensures r ==> showDropdown && buttonFrame.Some?
      // under the invariant, the modal is shown exactly while the dropdown is open
      ensures Valid() ==> (r <==> showDropdown)
    {
      showDropdown && buttonFrame.Some?
    }

    /** The position the modal's dropdown is given, when the modal is rendered. */
    function ModalPosition(window: Window, defaultHeight: int): (r: Option<PositionStyle>)
      reads this
      ensures r.Some? <==> ModalShown()
      ensures r.Some? ==> r.value == CalcPosition(buttonFrame.value, window, defaultHeight,
        props.dropdownStyle, props.style, props.dropdownAutoWidth, props.adjustFrame)
    {
      if ModalShown() then
        Some(CalcPosition(buttonFrame.value, window, defaultHeight,
          props.dropdownStyle, props.style, props.dropdownAutoWidth, props.adjustFrame))
      else None
    }

    /** The row the list renders for `item` at `rowID`. */
    function Row(item: T, rowID: nat): (r: Element)
      reads this
      ensures PressableRow(r, rowID)
      ensures r == RenderRow(props.renderRow, props.toString, AccessibleProp(props), selectedIndex, item, rowID)
    {
      RenderRow(props.renderRow, props.toString, AccessibleProp(props), selectedIndex, item, rowID)
    }
  }

  /** A client: a vetoed show stays closed, showing needs a measurement, a vetoed select still closes. */
  method Scenario(p: Props<string>, frame: Frame)
    requires p.options == Some(["a", "b", "c"]) && p.renderButtonText.None?
  {
    var d := new Dropdown(p);
    d.ReceiveProps(p);
    d.OnButtonPress(ReturnedFalse, Some(frame));
    assert !d.showDropdown && !d.ModalShown();
    d.OnButtonPress(Absent, Some(frame));
    assert d.ModalShown();
    var before := d.CurrentState();
    d.OnRowPress("b", 1, ReturnedFalse, ReturnedOther);
    assert d.selectedIndex == before.selectedIndex && !d.showDropdown;
    // a frame is on record, but without a fresh measurement the dropdown stays closed
    d.OnButtonPress(ReturnedOther, None);
    assert !d.showDropdown;
    d.OnButtonPress(ReturnedOther, Some(frame));
    d.OnRowPress("b", 1, Absent, Absent);
    assert d.selectedIndex == 1 && d.buttonText == RowPressText(p, "b") && !d.showDropdown;
    var thrown := d.Select(Some(7));
    assert !thrown ==> d.selectedIndex == p.defaultIndex;
  }
}
