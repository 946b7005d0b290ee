/**
 * The page component of pages/index.js (`Home`): the catalog, the list of selected
 * templates with their downloaded text, the loading flag, and what the page shows.
 */
module HomeComponent {
  import opened Wrappers
  import opened Seqs
  import opened Catalog

  /** A chosen template together with the text downloaded for it. */
  datatype Selection = Selection(name: string, text: string)

  /**
   * The names of the selections, in order: the selection-side counterpart of
   * `Catalog.ItemNames`, used to compare this list with the combobox's selected names.
   */
  function SelectedNames(selections: seq<Selection>): (r: seq<string>)
    ensures |r| == |selections|
    ensures forall i :: 0 <= i < |selections| ==> r[i] == selections[i].name
  {
    seq(|selections|, i requires 0 <= i < |selections| => selections[i].name)
  }

  // ---------------------------------------------------------------------------
  // Removal (`onRemoveSelectedItem`)
  // ---------------------------------------------------------------------------

  /** `selections.filter(i => i.name !== name)`. */
  function RemoveByName(selections: seq<Selection>, name: string): (r: seq<Selection>)
    ensures forall s :: s in r <==> s in selections && s.name != name
    ensures |r| <= |selections|
  {
    if selections == [] then []
    else
      var rest := RemoveByName(selections[1..], name);
      assert selections == [selections[0]] + selections[1..];
      if selections[0].name != name then [selections[0]] + rest else rest
  }

  /** Removal keeps the surviving selections in their original order. */
  lemma {:induction false} RemoveByNameInOrder(selections: seq<Selection>, name: string)
    ensures Subsequence(RemoveByName(selections, name), selections)
  {
    if selections != [] {
      RemoveByNameInOrder(selections[1..], name);
      var rest := RemoveByName(selections[1..], name);
      assert ([selections[0]] + rest)[1..] == rest;
      SubsequenceOfTail(rest, selections[1..], selections[0]);
      assert [selections[0]] + selections[1..] == selections;
    }
  }

  /** On names, removal by name drops exactly the occurrences of that name. */
  lemma {:induction false} RemoveByNameNames(selections: seq<Selection>, name: string)
    ensures SelectedNames(RemoveByName(selections, name)) == Without(SelectedNames(selections), name)
  {
    if selections != [] {
      RemoveByNameNames(selections[1..], name);
      assert SelectedNames(selections) == [selections[0].name] + SelectedNames(selections[1..]);
      var rest := RemoveByName(selections[1..], name);
      assert SelectedNames([selections[0]] + rest) == [selections[0].name] + SelectedNames(rest);
    }
  }

  /** Removing a name no selection carries leaves the list as it is. */
  lemma {:induction false} RemoveAbsentName(selections: seq<Selection>, name: string)
    requires name !in SelectedNames(selections)
    ensures RemoveByName(selections, name) == selections
  {
    if selections != [] {
      assert SelectedNames(selections) == [selections[0].name] + SelectedNames(selections[1..]);
      RemoveAbsentName(selections[1..], name);
      assert [selections[0]] + selections[1..] == selections;
    }
  }

  /** Selecting a name that was not selected and then removing it restores the previous list. */
  lemma SelectThenRemove(selections: seq<Selection>, name: string, text: string)
    requires name !in SelectedNames(selections)
    ensures RemoveByName(selections + [Selection(name, text)], name) == selections
  {
    RemoveByNameAppend(selections, [Selection(name, text)], name);
    RemoveAbsentName(selections, name);
    assert RemoveByName([Selection(name, text)], name) == [];
  }

  /** Removal distributes over concatenation. */
  lemma {:induction false} RemoveByNameAppend(a: seq<Selection>, b: seq<Selection>, name: string)
    ensures RemoveByName(a + b, name) == RemoveByName(a, name) + RemoveByName(b, name)
  {
    if a == [] {
      assert a + b == b;
    } else {
      assert (a + b)[1..] == a[1..] + b;
      assert (a + b)[0] == a[0];
      RemoveByNameAppend(a[1..], b, name);
      if a[0].name != name {
        calc {
          RemoveByName(a + b, name);
          [a[0]] + RemoveByName(a[1..] + b, name);
          [a[0]] + (RemoveByName(a[1..], name) + RemoveByName(b, name));
          ([a[0]] + RemoveByName(a[1..], name)) + RemoveByName(b, name);
        }
      }
    }
  }

  // ---------------------------------------------------------------------------
  // Output panel and what the page renders
  // ---------------------------------------------------------------------------

  /** The block shown for one selection: a level-5 heading with its name, then its text. */
  function Block(s: Selection): (r: string) {
    "\n\n##### " + s.name + "\n\n" + s.text
  }

  /** The blocks of all selections, in insertion order. */
  function Blocks(selections: seq<Selection>): (r: string) {
    if selections == [] then "" else Block(selections[0]) + Blocks(selections[1..])
  }

  /** The blocks of a concatenation are the blocks of its parts, in order. */
  lemma {:induction false} BlocksAppend(a: seq<Selection>, b: seq<Selection>)
    ensures Blocks(a + b) == Blocks(a) + Blocks(b)
  {
    if a == [] {
      assert a + b == b;
    } else {
      assert (a + b)[1..] == a[1..] + b;
      assert (a + b)[0] == a[0];
      BlocksAppend(a[1..], b);
    }
  }

  /** Output for at least one selection starts with a blank line, so it is never one of the two fixed messages. */
  lemma BlocksStartWithNewline(selections: seq<Selection>)
    requires selections != []
    ensures |Blocks(selections)| >= 8 && Blocks(selections)[..8] == "\n\n##### "
  {
  }

  /** The text of the output panel: "Loading..." first, then the placeholder, then the blocks. */
  function OutputText(loading: bool, selections: seq<Selection>): (r: string)
    ensures r == "Loading..." <==> loading
    ensures r == "Choose a template" <==> !loading && selections == []
    ensures !loading && selections != [] ==> r == Blocks(selections)
  {
    if loading then "Loading..."
    else if selections == [] then "Choose a template"
    else
      BlocksStartWithNewline(selections);
      assert "Loading..."[0] != '\n' && "Choose a template"[0] != '\n';
      Blocks(selections)
  }

  /** What the page shows: the combobox (with its items) and the output panel, each present or not. */
  datatype View = View(combobox: Option<seq<string>>, output: Option<string>)

  /** The page's render: both the combobox and the output panel appear only for a non-empty catalog. */
  function Render(catalog: seq<Template>, loading: bool, selections: seq<Selection>): (v: View)
    ensures v.combobox.Some? <==> |catalog| > 0
    ensures v.output.Some? <==> |catalog| > 0
    ensures v.combobox.Some? ==> v.combobox.value == ItemNames(catalog)
    ensures v.output.Some? ==> v.output.value == OutputText(loading, selections)
  {
    if |catalog| > 0 then View(Some(ItemNames(catalog)), Some(OutputText(loading, selections)))
    else View(None, None)
  }

  // ---------------------------------------------------------------------------
  // The component's state
  // ---------------------------------------------------------------------------

  /** The page's state once the catalog has been received. */
  class Home {
    const catalog: seq<Template>
    var loading: bool
    var selections: seq<Selection>

    /** Nothing is loading and nothing is selected at first. */
    constructor (catalog: seq<Template>)
      ensures this.catalog == catalog
      ensures !loading && selections == []
    {
      this.catalog := catalog;
      loading := false;
      selections := [];
    }

    /**
     * `onSelectedItem`: raise the loading flag, look the name up in the catalog, download
     * the template (its text is `text`; the URL asked for is returned) and append it, then
     * lower the flag. When the lookup finds nothing the download cannot start: the handler
     * fails with the flag still raised and the selections untouched.
     */
    method OnSelectedItem(name: string, text: string) returns (fetched: Option<string>)
      modifies this
      ensures name in ItemNames(catalog) ==>
        && selections == old(selections) + [Selection(name, text)]
        && !loading
        && fetched.Some?
        && exists i :: 0 <= i < |catalog| && catalog[i].name == name && catalog[i].downloadUrl == fetched.value
                       && forall j :: 0 <= j < i ==> catalog[j].name != name
      ensures name !in ItemNames(catalog) ==>
        selections == old(selections) && loading && fetched == None
    {
      loading := true;
      var template := FindByName(catalog, name);
      match template {
        case None =>
          fetched := None;
        case Some(t) =>
          fetched := Some(t.downloadUrl);
          selections := selections + [Selection(t.name, text)];
          loading := false;
      }
    }

    /** `onRemoveSelectedItem`: drop every selection with that name. */
    method OnRemoveSelectedItem(name: string)
      modifies this
      ensures selections == RemoveByName(old(selections), name)
      ensures loading == old(loading)
    {
      selections := RemoveByName(selections, name);
    }
  }
}
