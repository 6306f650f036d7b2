# ModalDropdown in Dafny

A model of `components/ModalDropdown.js` from react-native-modal-dropdown. The component is a
button that opens a dropdown list in a modal, lets the user pick a row, and then closes.
The model covers four parts:

- **Placement** (`placement.dfy`, module `Placement`). This is `_calcPosition`. From the measured
  button frame, the window size, the dropdown's declared height and width, and the button style's
  border and padding, it computes where the dropdown goes.
  - Vertically, it opens below when the dropdown fits below the button, or when the space below is
    at least the space above. Otherwise it opens above and is clamped to the top of the window.
  - Horizontally, it is anchored by its left edge when the button starts in the left half of the
    window. Otherwise it is anchored by its right edge, lined up with the button's right edge.
  - `dropdownAutoWidth` forces the button's width. `adjustFrame` replaces the whole result.
- **Rows** (`rows.dfy`, module `Rows`). This is `_renderRow`.
  - A row's root is either one of the four touchable kinds (`TOUCHABLE_ELEMENTS`) or plain content.
    A touchable root is re-created with its own props, and only `key` and `onPress` are overridden.
    Plain content is wrapped once in a `TouchableHighlight`.
  - Every row is keyed `row_<index>`. The index can be read back from the key, so two rows never
    share a key.
  - A row is highlighted exactly when its index is the selected index.
- **Selection rules** (`selection.dfy`, module `Selection`). These are the props, the state record,
  `getDerivedStateFromProps`, the index resolution and text of `select`, and the state change of a
  row press with its two independent veto gates.
- **The component** (`widget.dfy`, class `Widget.Dropdown`). Its fields are the state fields and
  `_buttonFrame`. Its methods are `show`, `hide`, `select`, `_updatePosition` and the press handlers.
  Each method states the whole new state. Every method keeps the invariant `Valid()`:
  - the dropdown is open only after the button has been measured, so the modal is rendered exactly
    while `showDropdown` holds;
  - the state is as `getDerivedStateFromProps` leaves it before a render (`Selection.IsDerived`):
    loading exactly while there are no options, and a negative selected index only as a negative
    default index, shown with the default button text. Since such a state is a fixpoint of the
    derivation (`Selection.DerivedIsFixpoint`), no method's result is changed by deriving it again.
    `Select` is the one operation whose stored state needs it, and its contract includes it.

A veto hook's outcome is an input of type `HookResult`: `Absent`, `ReturnedFalse` or `ReturnedOther`.
Only `ReturnedFalse` vetoes. These values are inputs rather than modelled:
- the window size and the default dropdown height (which depends on the platform's hairline width);
- the result of measuring the button (`Show(measured)`, where `None` means it cannot be measured);
- the caller's renderers, which are total functions.

Two behaviours of the code are easy to expect otherwise, and the model follows the code:
- `select` itself does not replace a negative index by the default index; only a null index,
  missing options or an index past the end are (`Selection.SelectNegativeIsKept`). Its `setState`
  stores the negative index and the default text. Before the next render, `getDerivedStateFromProps`
  moves a negative index to the default index and keeps the default text. So with options a, b, c
  and default index 1, `select(-1)` renders row 1 highlighted while the button shows the default
  text (`Selection.SelectNegativeRendersDefaultIndex`, and `Widget.Dropdown.Select`).
- A freshly constructed component shows `defaultValue` even when `defaultIndex` names an option.
  The constructor starts from `defaultValue`, and `getDerivedStateFromProps` keeps the text when the
  index is non-negative. See `Selection.ConstructedShowsDefaultValue`.

## Model

| member | source | states |
|---|---|---|
| `Placement.ComputedPosition` | components/ModalDropdown.js:238-267 | height is the declared or default height; below: top just under the button plus bottom offset; above: top is at least 0, and the dropdown's bottom meets the button's top unless clamped; exactly one of left/right; left exactly when `2x <= windowWidth`, at `x - leftOffset`; right-anchored: right edges line up; width is the button's under auto width, else only a declared width when right-anchored |
| `Placement.CalcPosition` | components/ModalDropdown.js:231-270 | without `adjustFrame` the computed record is returned; with it, `adjustFrame` of the computed record is returned verbatim |
| `Placement.FitsBelowOpensBelow` | components/ModalDropdown.js:241-251 | if the dropdown fits below the button it opens below, wherever the button is |
| `Placement.OpensAboveOnlyWhenCramped` | components/ModalDropdown.js:241-251 | opening above happens only when the space below is less than the height and less than the space above |
| `Placement.BottomOffsetIgnoresPaddingVertical` | components/ModalDropdown.js:247 | `paddingVertical` never changes the bottom offset (the code reads the misspelt `paddingVertica`) |
| `Placement.ScenarioOpensAbove` | components/ModalDropdown.js:241-255 | window 400x800, button (20,700,100,40), height 165: opens above at top 535, left-anchored at 20 |
| `Placement.ScenarioRightAnchored` | components/ModalDropdown.js:254-263 | button (350,100,40,40), declared width 200: right-anchored at 10 with width 200 |
| `Rows.DecimalString` | components/ModalDropdown.js:317 | the index is rendered as non-empty decimal digits, with no leading zero except for 0 |
| `Rows.DecimalRoundTrip` | components/ModalDropdown.js:317 | reading the rendered digits back gives the index |
| `Rows.RowKey` | components/ModalDropdown.js:317 | the key starts with `row_` and the rest reads back as the row index |
| `Rows.RowKeysDistinct` | components/ModalDropdown.js:317 | different rows have different keys |
| `Rows.RootOf` | components/ModalDropdown.js:27-32 | a root is pressable exactly when its display name is one of the four touchable names |
| `Rows.AdaptRow` | components/ModalDropdown.js:330-377 | the result is touchable, keyed `row_<rowID>`, and its `onPress` reports `rowID`; a touchable root keeps its kind, its children and every other prop, and gains only `key`/`onPress`; any other root is wrapped exactly once in a `TouchableHighlight` with just `key`, `accessible`, `onPress` |
| `Rows.AdaptRowIdempotent` | components/ModalDropdown.js:335-377 | adapting an adapted row changes nothing, so no row is wrapped twice |
| `Rows.RowContent` | components/ModalDropdown.js:318-329 | the caller's `renderRow` gets the highlight flag `rowID == selectedIndex`; the default row is a Text element of the item, styled by that flag |
| `Rows.RenderRow` | components/ModalDropdown.js:314-378 | every rendered row is pressable and reports its index; the default row is wrapped in a `TouchableHighlight` whose props are exactly `key`, `accessible`, `onPress`; a caller's touchable row keeps its kind, children and every prop but `key`/`onPress`; any other caller row is wrapped once in a `TouchableHighlight` whose props are exactly `key`, `accessible`, `onPress` |
| `Rows.DefaultRowHighlightedIffSelected` | components/ModalDropdown.js:318-328 | a default row has the highlighted style iff its index is the selected index |
| `Selection.DeriveState` | components/ModalDropdown.js:98-112 | loading iff there are no options; a non-negative selection and its text are kept; a negative one becomes the default index, with the default text when that is negative too; afterwards a negative index always shows the default text, and the result is a derived state |
| `Selection.DerivedIsFixpoint` | components/ModalDropdown.js:98-112 | a state is derived (loading iff no options; a negative index only as the negative default index, with the default text) exactly when deriving it again leaves it unchanged |
| `Selection.DeriveStateIdempotent` | components/ModalDropdown.js:98-112 | deriving twice with the same props equals deriving once |
| `Selection.ConstructedShowsDefaultValue` | components/ModalDropdown.js:89-112 | after construction and derivation the text is `defaultValue` and the index is `defaultIndex` |
| `Selection.ResolveIndex` | components/ModalDropdown.js:150-152 | a null index, missing options or an index past the end becomes the default index; any other index, negative ones included, is kept |
| `Selection.SelectResult` | components/ModalDropdown.js:146-163 | fails exactly when a non-negative resolved index reads a missing option; stores the resolved index, even a negative one; a negative index shows the default text; a valid one shows `renderButtonText(item)` or the item's string form; an index past the end hands an undefined item to `renderButtonText` |
| `Selection.SelectOutOfRangeIsDefault` | components/ModalDropdown.js:150-152 | selecting null or an index past the end is the same as selecting the default index |
| `Selection.SelectNothingShowsDefault` | components/ModalDropdown.js:149-163 | with default index -1, `select(-1)` stores -1 and the default text |
| `Selection.SelectNegativeIsKept` | components/ModalDropdown.js:150-156 | with options a, b, c and default index 1, `select(-1)` stores -1 with the default text, while `select(1)` shows "b" |
| `Selection.SelectNegativeRendersDefaultIndex` | components/ModalDropdown.js:98-112 | when `select` stores a negative index while a default index exists, the derivation before the render selects the default index and keeps the default text |
| `Selection.RowPressText` | components/ModalDropdown.js:383 | a non-empty `renderButtonText(item)` is the text; without a renderer, or when it gives the empty string, the item's string form is; the text is blank only if the item's string form is |
| `Selection.RowPressed` | components/ModalDropdown.js:380-394 | the selection (row index and its text) is committed iff `onSelect` does not return `false`; the dropdown closes iff `onDropdownWillHide` does not return `false`; nothing else changes |
| `Selection.RowPressGatesIndependent` | components/ModalDropdown.js:382-393 | the selection does not depend on the hide hook, and the visibility does not depend on the select hook |
| `Selection.SelectVetoStillCloses` | components/ModalDropdown.js:382-393 | an `onSelect` veto keeps the state unchanged except that, without a hide veto, the dropdown closes |
| `Widget.Dropdown.constructor` | components/ModalDropdown.js:83-96 | closed, not measured, default text and default index, loading iff no options; the invariant holds |
| `Widget.Dropdown.ReceiveProps` | components/ModalDropdown.js:98-112 | the new state is the derivation from the new props; the frame is unchanged; the invariant is kept |
| `Widget.Dropdown.UpdatePosition` | components/ModalDropdown.js:123-130 | a measured frame replaces the recorded one; without a measurement nothing changes |
| `Widget.Dropdown.Show` | components/ModalDropdown.js:132-138 | with a measurement: records the frame and opens; without one: nothing changes |
| `Widget.Dropdown.Hide` | components/ModalDropdown.js:140-144 | always closes; nothing else changes |
| `Widget.Dropdown.Select` | components/ModalDropdown.js:146-163 | the new state is the derivation of the old one with `SelectResult`'s text and index stored; when reading the option throws, nothing changes |
| `Widget.Dropdown.OnButtonPress` | components/ModalDropdown.js:195-201 | behaves as `Show` unless `onDropdownWillShow` returns `false`, in which case nothing changes |
| `Widget.Dropdown.OnRequestClose` | components/ModalDropdown.js:272-278 | closes unless `onDropdownWillHide` returns `false`, in which case nothing changes |
| `Widget.Dropdown.OnModalPress` | components/ModalDropdown.js:280-286 | closes unless `onDropdownWillHide` returns `false`, in which case nothing changes |
| `Widget.Dropdown.OnRowPress` | components/ModalDropdown.js:380-394 | the new state is `RowPressed` of the old one; the invariant is kept |
| `Widget.Dropdown.ModalShown` | components/ModalDropdown.js:206 | the modal is rendered only when open and measured; under the invariant, exactly when open |
| `Widget.Dropdown.ModalPosition` | components/ModalDropdown.js:206-207 | a position exists exactly when the modal is rendered, and it is `CalcPosition` of the recorded frame and the props |
| `Widget.Dropdown.Row` | components/ModalDropdown.js:314-318 | the row for an item is pressable, keyed by its index, and highlighted by the current selected index |

## Left out

- Rendering: `render`, `_renderButton`, the markup of `_renderModal`, `_renderLoading`,
  `_renderDropdown` with its FlatList, and the style sheet. These are UI built from third-party
  components. Only the modal's visibility condition and position are modelled.
- `_renderSeparator`: it is never passed to the list, so it is dead code.
- Platform lookups. `Dimensions.get('window')` and the default height are inputs.
  `StyleSheet.flatten` is not modelled, so a style is a single object of optional integer properties.
  The offsets read the raw `style` prop; a style given as an array or a style-sheet number would
  have no such properties, and the model does not distinguish that case.
- Numbers are integers. Floating-point values and `NaN` (which is falsy to `||`) are not modelled.
- The asynchronous `measure` callback. Its result is the argument of `Show`, applied at once, so
  stale or late measurements and concurrent shows are not modelled. A button that is not mounted,
  or that has no `measure`, is `None`.
- React timing. `setState` batching is not modelled: each `setState` is an immediate field update.
  `getDerivedStateFromProps` runs in `ReceiveProps`, which the host calls when props change, and
  at the end of `Select`, the one state update whose result it can change. After every other
  method the state is already a fixpoint of the derivation, so it is not applied there.
- Hooks and renderers. Their internals, their exceptions and the arguments they receive are left
  out; a hook is its outcome, and a renderer is a total function.
- `Rows.AdaptRow`, `Rows.RenderRow`, `Widget.Dropdown.Row`: a row's press handler `PressRow(rowID)`
  carries only the row index, while the code's handler also captures the item. So nothing ties the
  item passed to `Widget.Dropdown.OnRowPress` to the row that was pressed.
- Items that are `null` or `undefined` inside `options` (whose `toString` would throw) are not
  modelled. An item's string form is the `toString` prop.
- A row root that is not an element (for example, a string from `renderRow`) makes `row.type.displayName`
  throw. It is not modelled: a row is always an element. A missing display name is a name outside
  the four touchable names.
- React's special handling of `key` is not modelled: the key is an ordinary prop of the element.
- Presentation-only props are not modelled: animation, `disabled`, `buttonOpacity`, highlight colour,
  scroll and keyboard settings, orientations, and the style props other than the ones placement reads.
