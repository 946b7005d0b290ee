# Gitignore as a Service: a Dafny model of the selection page

The page lists the `.gitignore` templates of a public catalog. The user types into a
combobox to filter them, picks several, and sees the downloaded text of each pick
concatenated in an output panel. Everything lives in `pages/index.js`. This project
models the page's sequential logic:

- `Combobox.dfy`, module `Combobox`: the `DropdownMultipleCombobox` component. It holds
  the candidate filter (`getFilteredItems`), the state reducer it gives to downshift's
  `useCombobox`, and the change handler. The handler keeps the query (`inputValue`) and
  the list of selected names. The filter is a pure function. The component is a class
  whose methods update the query and the names.
- `Home.dfy`, module `HomeComponent`: the `Home` component. It holds the catalog, the
  `loading` flag and the list of `{name, text}` selections, which is a second list
  separate from the combobox's names. Selecting and removing are methods of the class
  `Home`. The output panel and the decision of what is rendered are pure functions.
- `Page.dfy`, module `IndexPage`: the two components wired together through the
  `onSelectedItem` / `onRemoveSelectedItem` callbacks. The invariant `Page.Valid()`
  holds after every event. It says the two lists agree name by name and no name appears
  twice. This is the page's "no duplicate selection" promise, and the filter's
  `indexOf` exclusion is its only guard.
- `Catalog.dfy` (templates, names, lookup by name), `Strings.dfy` (ASCII lower-casing,
  prefix test), `Seqs.dfy` (distinctness, order-preserving sublists, removal) and
  `Wrappers.dfy` (`Option`) are the shared vocabulary.

Where the code and its own comment disagree, the model follows the code:

- The reducer forces `isOpen` to `false` on Enter and item click, so the menu closes. The
  comment beside that line (pages/index.js:45) says the menu stays open after a selection.
- `if (selectedItem)` follows JavaScript truthiness, so an empty-string name counts as
  "no selection" (`Combobox.Chosen`).

## Model

| member | source | states |
|---|---|---|
| `Combobox.FilteredItems` | pages/index.js:18-23 | a name is a candidate exactly when it is in the catalog, is not already selected, and its lower-cased form starts with the lower-cased query |
| `Combobox.FilteredItemsInOrder` | pages/index.js:19-23 | the candidates appear in catalog order (they form a subsequence of the items) |
| `Combobox.FilteredItemsCount` | pages/index.js:19-23 | each offered name occurs among the candidates exactly as often as in the catalog; any other name occurs zero times |
| `Combobox.FilteredItemsAppend` | pages/index.js:19-23 | filtering is element-wise: filtering a concatenation concatenates the filtered parts |
| `Combobox.FilteredItemsEmptyQuery` | pages/index.js:21-22 | with an empty query and nothing selected, the whole catalog is offered, in order |
| `Combobox.FilteredItemsIgnoreQueryCase` | pages/index.js:22 | two queries that lower-case to the same string give the same candidates |
| `Strings.ToLowerIdempotent` | pages/index.js:22 | lower-casing an already lower-cased query changes nothing, so the filter treats a query and its lower-case form alike |
| `Combobox.ConfirmKeepsDistinct` | pages/index.js:21 | appending a menu candidate to a duplicate-free list of selected names keeps it duplicate-free |
| `Combobox.StateReducer` | pages/index.js:38-49 | Enter and item click get the proposed changes with `isOpen` forced to false; every other action gets the proposed changes unchanged; no field other than `isOpen` is ever altered |
| `Combobox.DropdownMultipleCombobox.constructor` | pages/index.js:10-17 | the query starts empty and no name is selected |
| `Combobox.DropdownMultipleCombobox.Candidates` | pages/index.js:37 | the menu's items are the current catalog names that are not selected and match the current query |
| `Combobox.DropdownMultipleCombobox.OnStateChange` | pages/index.js:50-67 | `InputChange` sets the query and nothing else. Enter, click or blur with a truthy item clears the query, appends the item to the selected names and reports it to `onSelectedItem`. Every other event changes nothing. Confirming a menu candidate keeps the names duplicate-free |
| `Combobox.DropdownMultipleCombobox.RemoveSelectedItem` | pages/index.js:127-131 | the chip's remove mark drops the name from the selected names and keeps the query; with no duplicates the name is then absent |
| `Catalog.ItemNames` | pages/index.js:199 | the combobox items are the catalog's names, one per template, in catalog order |
| `Catalog.FindByName` | pages/index.js:170 | returns the first template with the given name; returns nothing exactly when no template has that name |
| `HomeComponent.Home.constructor` | pages/index.js:143-144 | not loading, no selections |
| `HomeComponent.Home.OnSelectedItem` | pages/index.js:168-175 | for a catalog name, appends exactly one `{name, text}` after the earlier entries, clears `loading`, and fetches the download URL of the first template with that name; for an unknown name the handler fails with `loading` still set and the selections unchanged |
| `HomeComponent.Home.OnRemoveSelectedItem` | pages/index.js:177-180 | the selections become the old ones with every entry of that name removed; `loading` is untouched |
| `HomeComponent.RemoveByName` | pages/index.js:178 | an entry survives exactly when it was present and its name differs from the removed name |
| `HomeComponent.RemoveByNameInOrder` | pages/index.js:178 | the surviving entries keep their original order |
| `HomeComponent.RemoveByNameNames` | pages/index.js:178 | on names, removal drops every occurrence of the name and nothing else |
| `HomeComponent.RemoveAbsentName` | pages/index.js:178 | removing a name that no entry carries leaves the list unchanged |
| `HomeComponent.RemoveByNameAppend` | pages/index.js:178 | removal by name is element-wise over a concatenation |
| `HomeComponent.SelectThenRemove` | pages/index.js:168-180 | selecting a name not yet present and then removing it restores the previous list |
| `HomeComponent.OutputText` | pages/index.js:208-216 | the text is "Loading..." exactly when loading; it is "Choose a template" exactly when not loading and nothing is selected; otherwise it is the blocks of the selections |
| `HomeComponent.BlocksAppend` | pages/index.js:212-216 | the blocks of a list are the blocks of its entries, concatenated in insertion order |
| `HomeComponent.BlocksStartWithNewline` | pages/index.js:215 | a non-empty output starts with the `"\n\n##### "` heading of its first entry |
| `HomeComponent.Render` | pages/index.js:197-217 | the combobox and the output panel are both shown exactly when the catalog is non-empty; the combobox gets the catalog names and the panel shows the output text |
| `Seqs.DistinctRemoveFirst` | pages/index.js:129-130 | when no name is repeated, the combobox dropping one occurrence and the page dropping all occurrences give the same list, which stays duplicate-free |
| `IndexPage.Page.constructor` | pages/index.js:142-203 | a fresh page satisfies the invariant: combobox items are the catalog names, both selection lists are empty |
| `IndexPage.Page.OnComboboxStateChange` | pages/index.js:55-62 | a confirmed menu candidate is appended to both lists with the downloaded text and the query is cleared; any other event leaves the selections alone; the invariant (same names in both lists, none repeated, nothing loading) is preserved |
| `IndexPage.Page.OnRemoveChip` | pages/index.js:127-131 | removing a selected name takes it out of both lists, keeps the rest, and preserves the invariant |
| `IndexPage.Page.Rendered` | pages/index.js:197-206 | the page shows the combobox and the output panel only for a non-empty catalog |
| `IndexPage.NodeScenarioMenu` | pages/index.js:18-23 | with templates Node and Python, the query "No" offers only Node |
| `IndexPage.NodeScenarioPanel` | pages/index.js:208-216 | the panel shows `"\n\n##### Node\n\nnode-body"` for that one selection, "Choose a template" for none, and "Loading..." while loading |

## Left out

- The catalog download (lines 151-166), including its error message and the misspelled
  `loding` field, is not modelled. The catalog is a constructor parameter: the list that
  arrived, or the empty list after a failed download.
- The template download (lines 171-172) is not modelled. The downloaded text is a
  parameter of `OnSelectedItem`, and the method returns the URL it would request.
- HomeComponent.Home.OnSelectedItem: modelled as one atomic step. The stale
  `selectedItems` closure at line 173 can lose one of two overlapping selections, and a
  failed download leaves `loading` set. Both come from the event loop interleaving
  asynchronous handlers, which is not modelled. The failed lookup, where `find` returns
  `undefined`, is modelled.
- IndexPage.Page.Valid: includes "nothing is loading". That holds only because each
  selection is one atomic step.
- Downshift internals are not modelled: highlighted index, keyboard navigation,
  `preventKeyAction`, prop getters, and how `selectedItem` is picked on blur. The model
  relies on two facts about the library. `addSelectedItem` appends. `removeSelectedItem`
  drops the first occurrence of the name (`Seqs.RemoveFirst`). `OnComboboxStateChange`
  also requires that a reported item is one of the menu's candidates, because downshift
  only reports items from the list it was given.
- Strings.ToLower: lower-cases ASCII `A`-`Z` only. JavaScript's `toLowerCase` follows
  full Unicode case mapping.
- Presentation is not modelled: markup, CSS classes, `<Head>`, the footer, React `key`
  strings, and the menu's `isOpen` rendering.
