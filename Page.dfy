/**
 * The whole page of pages/index.js: the `Home` component and the combobox it renders,
 * wired through the `onSelectedItem` and `onRemoveSelectedItem` callbacks. Its invariant
 * is the page's promise that a template is never selected twice.
 */
module IndexPage {
  import opened Wrappers
  import opened Seqs
  import opened Strings
  import opened Catalog
  import opened Combobox
  import opened HomeComponent

  class Page {
    const home: Home
    const combobox: DropdownMultipleCombobox

    /**
     * The combobox is given the catalog's names; the names it keeps as selected are
     * the names of the page's selections, in the same order, each once; and no
     * download is pending between events.
     */
    ghost predicate Valid()
      reads this, home, combobox
    {
      && combobox.items == ItemNames(home.catalog)
      && combobox.selectedItems == SelectedNames(home.selections)
      && Distinct(combobox.selectedItems)
      && !home.loading
    }

    /** The page once the catalog has been received. */
    constructor (catalog: seq<Template>)
      ensures Valid() && fresh(home) && fresh(combobox)
      ensures home.catalog == catalog && home.selections == [] && combobox.inputValue == ""
    {
      home := new Home(catalog);
      combobox := new DropdownMultipleCombobox(ItemNames(catalog));
    }

    /**
     * One combobox event followed, when it confirms an entry of the menu, by the
     * page's `onSelectedItem` for that name; `text` is what the download returns.
     * downshift only ever reports an item of the list it was given, the menu.
     */
    method OnComboboxStateChange(t: ActionType, newInputValue: string, selectedItem: Option<string>, text: string)
      returns (fetched: Option<string>)
      requires Valid()
      requires Confirms(t) && Chosen(selectedItem) ==> selectedItem.value in combobox.Candidates()
      modifies home, combobox
      ensures Valid()
      ensures Confirms(t) && Chosen(selectedItem) ==>
        && home.selections == old(home.selections) + [Selection(selectedItem.value, text)]
        && combobox.inputValue == ""
        && fetched.Some?
      ensures !(Confirms(t) && Chosen(selectedItem)) ==>
        && home.selections == old(home.selections)
        && combobox.inputValue == (if t == InputChange then newInputValue else old(combobox.inputValue))
        && fetched == None
    {
      var selected := combobox.OnStateChange(t, newInputValue, selectedItem);
      fetched := None;
      if selected.Some? {
        fetched := home.OnSelectedItem(selected.value, text);
        assert SelectedNames(home.selections)
            == SelectedNames(old(home.selections)) + [selected.value];
      }
    }

    /** Clicking the remove mark of a selected name: the combobox drops it, then `onRemoveSelectedItem`. */
    method OnRemoveChip(name: string)
      requires Valid()
      requires name in combobox.selectedItems
      modifies home, combobox
      ensures Valid()
      ensures home.selections == RemoveByName(old(home.selections), name)
      ensures name !in SelectedNames(home.selections)
      ensures combobox.inputValue == old(combobox.inputValue)
    {
      RemoveByNameNames(home.selections, name);
      DistinctRemoveFirst(combobox.selectedItems, name);
      combobox.RemoveSelectedItem(name);
      home.OnRemoveSelectedItem(name);
    }

    /** What the page currently shows. */
    function Rendered(): (v: View)
      reads this, home
      ensures v.combobox.Some? <==> |home.catalog| > 0
      ensures v.output.Some? <==> |home.catalog| > 0
    {
      Render(home.catalog, home.loading, home.selections)
    }
  }

  /** The worked example, menu side: with the templates Node and Python, the query "No" offers only Node. */
  lemma NodeScenarioMenu()
    ensures FilteredItems(["Node", "Python"], [], "No") == ["Node"]
  {
    var items := ["Node", "Python"];
    assert ToLower("No") == "no";
    assert ToLower("Node") == "node";
    assert ToLower("Python")[0] == 'p';
    assert Offered("Node", [], "No");
    assert !Offered("Python", [], "No");
    assert items[1..] == ["Python"];
    assert items[1..][1..] == [];
    assert FilteredItems(["Python"], [], "No") == [];
  }

  /** The worked example, panel side: once Node is chosen with text "node-body" the panel shows its block. */
  lemma NodeScenarioPanel()
    ensures OutputText(false, [Selection("Node", "node-body")]) == "\n\n##### Node\n\nnode-body"
    ensures OutputText(false, []) == "Choose a template"
    ensures OutputText(true, [Selection("Node", "node-body")]) == "Loading..."
  {
    var node := Selection("Node", "node-body");
    assert [node][1..] == [];
    assert Blocks([node]) == Block(node);
  }
}
