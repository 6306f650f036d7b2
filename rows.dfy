/**
 * Row adaptation (`_renderRow` of components/ModalDropdown.js): every row the
 * caller renders is turned into a pressable element that carries the key
 * `row_<index>` and a press handler reporting its index.
 *
 * An element is modelled as an abstract tagged record: the display name of
 * its type, its props, and its children.
 */
module Rows {
  import opened Wrappers

  /** The display names of the four touchable primitives (`TOUCHABLE_ELEMENTS`). */
  const TouchableElements: seq<string> :=
    ["TouchableHighlight", "TouchableOpacity", "TouchableWithoutFeedback", "TouchableNativeFeedback"]

  /** A prop value.  `PressRow(i)` is the handler `() => this._onRowPress(item, i)`. */
  datatype PropValue =
    | Text(s: string)
    | Number(n: int)
    | Flag(b: bool)
    | Undefined
    | PressRow(rowID: nat)
    | RowTextStyle(highlighted: bool)
    | Other(id: int)

  /** A rendered element; its type is known by its display name. */
  datatype Element = Element(displayName: string, props: map<string, PropValue>, children: seq<Node>)

  /** A child of an element: another element or text. */
  datatype Node = Child(element: Element) | Content(text: string)

  /** The two ways a row's root is treated. */
  datatype RowRoot = Pressable(name: string) | PlainContent

  /** The decimal digit character of `d`. */
  function DigitChar(d: nat): char
    requires d < 10
  {
    (('0' as int) + d) as char
  }

  predicate IsDigits(s: string) {
    forall i :: 0 <= i < |s| ==> '0' <= s[i] <= '9'
  }

  /** JavaScript's decimal rendering of a non-negative integer, as in a template literal. */
  function DecimalString(n: nat): (s: string)
    ensures |s| >= 1 && IsDigits(s)
    // no leading zero except for 0 itself
    ensures s[0] == '0' ==> n == 0 && s == "0"
  {
    if n < 10 then [DigitChar(n)] else DecimalString(n / 10) + [DigitChar(n % 10)]
  }

  /** The number a string of decimal digits denotes. */
  function DecimalValue(s: string): nat
    requires IsDigits(s)
  {
    if s == [] then 0 else DecimalValue(s[..|s| - 1]) * 10 + ((s[|s| - 1] as int) - ('0' as int))
  }

  /** Reading a rendered index back gives the index. */
  lemma {:induction false} DecimalRoundTrip(n: nat)
    ensures DecimalValue(DecimalString(n)) == n
  {
    var s := DecimalString(n);
    if n < 10 {
      assert s[..|s| - 1] == [];
    } else {
      assert s[..|s| - 1] == DecimalString(n / 10);
      DecimalRoundTrip(n / 10);
    }
  }

  /** The key of row `rowID`: `row_${rowID}`. */
  function RowKey(rowID: nat): (k: string)
    ensures |k| > 4 && k[..4] == "row_"
    // the index can be read back from the key
    ensures IsDigits(k[4..]) && DecimalValue(k[4..]) == rowID
  {
    var k := "row_" + DecimalString(rowID);
    assert k[4..] == DecimalString(rowID);
    DecimalRoundTrip(rowID);
    k
  }

  /** Different rows get different keys. */
  lemma RowKeysDistinct(i: nat, j: nat)
    requires i != j
    ensures RowKey(i) != RowKey(j)
  {
  }

  /** A row is highlighted exactly when it is the selected one (`rowID == selectedIndex`). */
  predicate Highlighted(rowID: nat, selectedIndex: int) {
    rowID == selectedIndex
  }

  /** How a row's root is treated: one of the four touchable kinds, or plain content. */
  function RootOf(row: Element): (k: RowRoot)
    ensures k.Pressable? <==> row.displayName in TouchableElements
    ensures k.Pressable? ==> k.name == row.displayName
  {
    if row.displayName in TouchableElements then Pressable(row.displayName) else PlainContent
  }

  /** A row that is pressable, is keyed `row_<rowID>` and reports `rowID` when pressed. */
  predicate PressableRow(r: Element, rowID: nat) {
    && r.displayName in TouchableElements
    && "key" in r.props && r.props["key"] == Text(RowKey(rowID))
    && "onPress" in r.props && r.props["onPress"] == PressRow(rowID)
  }

  /** The adaptation step of `_renderRow`. */
  function AdaptRow(row: Element, rowID: nat, accessible: PropValue): (r: Element)
    // every row, however rendered, is pressable and reports its index
    ensures PressableRow(r, rowID)
    // a touchable root is re-created with all its other props and its children
    ensures RootOf(row).Pressable? ==>
      && r.displayName == row.displayName
      && r.children == row.children
      && r.props.Keys == row.props.Keys + {"key", "onPress"}
      && forall p :: p in row.props && p != "key" && p != "onPress" ==> r.props[p] == row.props[p]
    // any other root is wrapped, once, in a default TouchableHighlight
    ensures RootOf(row).PlainContent? ==>
      && r.displayName == "TouchableHighlight"
      && r.children == [Child(row)]
      && r.props.Keys == {"key", "accessible", "onPress"}
      && r.props["accessible"] == accessible
  {
    var key := Text(RowKey(rowID));
    var onPress := PressRow(rowID);
    match RootOf(row)
    case Pressable(name) =>
      Element(name, row.props["key" := key]["onPress" := onPress], row.children)
    case PlainContent =>
      Element("TouchableHighlight", map["key" := key, "accessible" := accessible, "onPress" := onPress], [Child(row)])
  }

  /** Adapting an adapted row changes nothing: no row is wrapped twice. */
  lemma AdaptRowIdempotent(row: Element, rowID: nat, accessible: PropValue)
    ensures AdaptRow(AdaptRow(row, rowID, accessible), rowID, accessible) == AdaptRow(row, rowID, accessible)
  {
  }

  /**
   * The row content before adaptation: the caller's `renderRow(item, rowID, highlighted)`,
   * or by default a Text element showing the item, styled as highlighted when selected.
   */
  function RowContent<T>(renderRow: Option<(T, nat, bool) -> Element>, toString: T -> string,
                         item: T, rowID: nat, selectedIndex: int): (r: Element)
    ensures renderRow.Some? ==> r == renderRow.value(item, rowID, Highlighted(rowID, selectedIndex))
    ensures renderRow.None? ==>
      && r.displayName == "Text"
      && r.props == map["style" := RowTextStyle(Highlighted(rowID, selectedIndex))]
      && r.children == [Content(toString(item))]
  {
    var highlighted := Highlighted(rowID, selectedIndex);
    if renderRow.Some? then renderRow.value(item, rowID, highlighted)
    else Element("Text", map["style" := RowTextStyle(highlighted)], [Content(toString(item))])
  }

  /** `_renderRow`: the row shown for `item` at `rowID`. */
  function RenderRow<T>(renderRow: Option<(T, nat, bool) -> Element>, toString: T -> string,
                        accessible: PropValue, selectedIndex: int, item: T, rowID: nat): (r: Element)
    ensures PressableRow(r, rowID)
    // the default row is a Text element, never touchable, so it is wrapped
    ensures renderRow.None? ==>
      && r.displayName == "TouchableHighlight"
      && r.children == [Child(RowContent(renderRow, toString, item, rowID, selectedIndex))]
      && r.props.Keys == {"key", "accessible", "onPress"} && r.props["accessible"] == accessible
    // a caller's touchable row keeps its kind, its children and every prop but key and onPress
    ensures renderRow.Some? ==>
      var row := renderRow.value(item, rowID, Highlighted(rowID, selectedIndex));
      RootOf(row).Pressable? ==>
        && r.displayName == row.displayName
        && r.children == row.children
        && r.props.Keys == row.props.Keys + {"key", "onPress"}
        && forall p :: p in row.props && p != "key" && p != "onPress" ==> r.props[p] == row.props[p]
    // any other caller row is wrapped once in a TouchableHighlight
    ensures renderRow.Some? ==>
      var row := renderRow.value(item, rowID, Highlighted(rowID, selectedIndex));
      RootOf(row).PlainContent? ==>
        && r.displayName == "TouchableHighlight"
        && r.children == [Child(row)]
        && r.props.Keys == {"key", "accessible", "onPress"} && r.props["accessible"] == accessible
  {
    AdaptRow(RowContent(renderRow, toString, item, rowID, selectedIndex), rowID, accessible)
  }

  /** Among the rows of a list, only the selected one is rendered highlighted by default. */
  lemma DefaultRowHighlightedIffSelected<T>(toString: T -> string, accessible: PropValue,
                                            selectedIndex: int, item: T, rowID: nat)
    ensures var r := RenderRow(None, toString, accessible, selectedIndex, item, rowID);
      r.children[0].element.props["style"] == RowTextStyle(true) <==> rowID == selectedIndex
  {
  }
}
