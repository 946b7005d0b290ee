/**
 * The multiple-selection combobox of pages/index.js (`DropdownMultipleCombobox`):
 * the candidate filter, the state reducer it installs in downshift's `useCombobox`,
 * and the change handler that keeps the query and the list of selected names.
 */
module Combobox {
  import opened Wrappers
  import opened Seqs
  import opened Strings

  // ---------------------------------------------------------------------------
  // Candidate filter (`getFilteredItems`)
  // ---------------------------------------------------------------------------

  /** A catalog name is offered when it is not selected yet and, lower-cased, starts with the lower-cased query. */
  predicate Offered(item: string, selected: seq<string>, query: string) {
    item !in selected && StartsWith(ToLower(item), ToLower(query))
  }

  /** The names shown in the menu: the offered items, in the order of `items`. */
  function FilteredItems(items: seq<string>, selected: seq<string>, query: string): (r: seq<string>)
    ensures forall x :: x in r <==> x in items && Offered(x, selected, query)
    ensures |r| <= |items|
  {
    if items == [] then []
    else
      var rest := FilteredItems(items[1..], selected, query);
      assert items == [items[0]] + items[1..];
      if Offered(items[0], selected, query) then [items[0]] + rest else rest
  }

  /** The menu lists its names in catalog order. */
  lemma {:induction false} FilteredItemsInOrder(items: seq<string>, selected: seq<string>, query: string)
    ensures Subsequence(FilteredItems(items, selected, query), items)
  {
    if items != [] {
      FilteredItemsInOrder(items[1..], selected, query);
      var rest := FilteredItems(items[1..], selected, query);
      assert ([items[0]] + rest)[1..] == rest;
      SubsequenceOfTail(rest, items[1..], items[0]);
      assert [items[0]] + items[1..] == items;
    }
  }

  /** Each offered name occurs in the menu exactly as often as in `items`; no other name occurs. */
  lemma {:induction false} FilteredItemsCount(items: seq<string>, selected: seq<string>, query: string, x: string)
    ensures multiset(FilteredItems(items, selected, query))[x]
            == if Offered(x, selected, query) then multiset(items)[x] else 0
  {
    if items != [] {
      FilteredItemsCount(items[1..], selected, query, x);
      assert items == [items[0]] + items[1..];
    }
  }

  /** Filtering a concatenation filters each part. */
  lemma {:induction false} FilteredItemsAppend(a: seq<string>, b: seq<string>, selected: seq<string>, query: string)
    ensures FilteredItems(a + b, selected, query)
            == FilteredItems(a, selected, query) + FilteredItems(b, selected, query)
  {
    if a != [] {
      assert (a + b)[1..] == a[1..] + b;
      assert (a + b)[0] == a[0];
      FilteredItemsAppend(a[1..], b, selected, query);
      if Offered(a[0], selected, query) {
        calc {
          FilteredItems(a + b, selected, query);
          [a[0]] + FilteredItems(a[1..] + b, selected, query);
          [a[0]] + (FilteredItems(a[1..], selected, query) + FilteredItems(b, selected, query));
          ([a[0]] + FilteredItems(a[1..], selected, query)) + FilteredItems(b, selected, query);
        }
      }
    } else {
      assert a + b == b;
    }
  }

  /** With nothing selected and an empty query, the whole catalog is offered, in order. */
  lemma {:induction false} FilteredItemsEmptyQuery(items: seq<string>)
    ensures FilteredItems(items, [], "") == items
  {
    if items != [] {
      FilteredItemsEmptyQuery(items[1..]);
      assert [items[0]] + items[1..] == items;
    }
  }

  /** The filter is case-insensitive in the query: two queries with the same lower-case form give the same menu. */
  lemma {:induction false} FilteredItemsIgnoreQueryCase(items: seq<string>, selected: seq<string>, q1: string, q2: string)
    requires ToLower(q1) == ToLower(q2)
    ensures FilteredItems(items, selected, q1) == FilteredItems(items, selected, q2)
  {
    if items != [] {
      FilteredItemsIgnoreQueryCase(items[1..], selected, q1, q2);
    }
  }

  /** Confirming a menu entry never creates a duplicate in the selected names (the `indexOf` guard). */
  lemma ConfirmKeepsDistinct(items: seq<string>, selected: seq<string>, query: string, x: string)
    requires Distinct(selected)
    requires x in FilteredItems(items, selected, query)
    ensures Distinct(selected + [x])
  {
  }

  // ---------------------------------------------------------------------------
  // State reducer (`stateReducer`)
  // ---------------------------------------------------------------------------

  /** The action types downshift's `useCombobox` reports to the reducer and the change handler. */
  datatype ActionType =
    | InputKeyDownArrowDown | InputKeyDownArrowUp | InputKeyDownEscape
    | InputKeyDownHome | InputKeyDownEnd | InputKeyDownEnter
    | InputChange | InputBlur | MenuMouseLeave | ItemMouseMove | ItemClick
    | ToggleButtonClick | FunctionToggleMenu | FunctionOpenMenu | FunctionCloseMenu
    | FunctionSetHighlightedIndex | FunctionSelectItem | FunctionSetInputValue | FunctionReset

  /**
   * The changes downshift proposes for one action. A field is `None` when the change
   * object does not carry it (or, for `selectedItem`, carries `null`).
   */
  datatype Changes = Changes(
    isOpen: Option<bool>,
    highlightedIndex: Option<int>,
    inputValue: Option<string>,
    selectedItem: Option<string>)

  /** Enter on an item and a click on an item are the actions the reducer rewrites. */
  predicate ConfirmsByKeyOrClick(t: ActionType) {
    t == InputKeyDownEnter || t == ItemClick
  }

  /**
   * The reducer: for Enter and item click it returns the proposed changes with
   * `isOpen` forced to false; for every other action the proposed changes as they are.
   * (The current state downshift also passes in is not read.)
   */
  function StateReducer(t: ActionType, changes: Changes): (r: Changes)
    ensures r.(isOpen := changes.isOpen) == changes
    ensures ConfirmsByKeyOrClick(t) ==> r.isOpen == Some(false)
    ensures !ConfirmsByKeyOrClick(t) ==> r == changes
  {
    match t
    case InputKeyDownEnter => changes.(isOpen := Some(false))
    case ItemClick => changes.(isOpen := Some(false))
    case _ => changes
  }

  // ---------------------------------------------------------------------------
  // Change handler (`onStateChange`) and the component's own state
  // ---------------------------------------------------------------------------

  /** The actions on which the handler commits a selection. */
  predicate Confirms(t: ActionType) {
    t == InputKeyDownEnter || t == ItemClick || t == InputBlur
  }

  /** JavaScript truthiness of the reported `selectedItem`: null and the empty string are false. */
  predicate Chosen(selectedItem: Option<string>) {
    selectedItem.Some? && selectedItem.value != ""
  }

  /**
   * The component's state: the catalog names it receives as `items`, the query
   * (`inputValue`) and the names kept by `useMultipleSelection` (`selectedItems`).
   */
  class DropdownMultipleCombobox {
    const items: seq<string>
    var inputValue: string
    var selectedItems: seq<string>

    /** Initially the query is empty and nothing is selected. */
    constructor (items: seq<string>)
      ensures this.items == items
      ensures inputValue == "" && selectedItems == []
    {
      this.items := items;
      inputValue := "";
      selectedItems := [];
    }

    /** The names the menu offers in the current state. */
    function Candidates(): (r: seq<string>)
      reads this
      ensures forall x :: x in r <==> x in items && x !in selectedItems
                                       && StartsWith(ToLower(x), ToLower(inputValue))
    {
      FilteredItems(items, selectedItems, inputValue)
    }

    /**
     * `onStateChange`: a typed input sets the query; a confirming action with a chosen
     * item clears the query, appends the item to the selected names and reports it
     * (the call to `onSelectedItem`); anything else changes nothing.
     */
    method OnStateChange(t: ActionType, newInputValue: string, selectedItem: Option<string>)
      returns (selected: Option<string>)
      modifies this
      ensures t == InputChange ==>
        inputValue == newInputValue && selectedItems == old(selectedItems) && selected == None
      ensures Confirms(t) && Chosen(selectedItem) ==>
        inputValue == "" && selectedItems == old(selectedItems) + [selectedItem.value]
        && selected == selectedItem
      ensures t != InputChange && !(Confirms(t) && Chosen(selectedItem)) ==>
        inputValue == old(inputValue) && selectedItems == old(selectedItems) && selected == None
      ensures old(Distinct(selectedItems)) && selected.Some? && selected.value in old(Candidates()) ==>
        Distinct(selectedItems)
    {
      selected := None;
      match t {
        case InputChange =>
          inputValue := newInputValue;
        case InputKeyDownEnter | ItemClick | InputBlur =>
          if Chosen(selectedItem) {
            if Distinct(selectedItems) && selectedItem.value !in selectedItems {
              AppendDistinct(selectedItems, selectedItem.value);
            }
            inputValue := "";
            selectedItems := selectedItems + [selectedItem.value];
            selected := selectedItem;
          }
        case _ =>
      }
    }

    /** The remove mark on a selected name's chip: `removeSelectedItem` drops that name. */
    method RemoveSelectedItem(name: string)
      requires name in selectedItems
      modifies this
      ensures inputValue == old(inputValue)
      ensures selectedItems == RemoveFirst(old(selectedItems), name)
      ensures old(Distinct(selectedItems)) ==> Distinct(selectedItems) && name !in selectedItems
    {
      if Distinct(selectedItems) {
        DistinctRemoveFirst(selectedItems, name);
      }
      selectedItems := RemoveFirst(selectedItems, name);
    }
  }
}
