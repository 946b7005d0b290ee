/** The template catalog: the list the page receives from the listing endpoint. */
module Catalog {
  import opened Wrappers

  /** One entry of the listing: a template's name and where its text is downloaded from. */
  datatype Template = Template(name: string, downloadUrl: string)

  /** The names handed to the combobox as its items (`result.data.map(item => item.name)`). */
  function ItemNames(catalog: seq<Template>): (r: seq<string>)
    ensures |r| == |catalog|
    ensures forall i :: 0 <= i < |catalog| ==> r[i] == catalog[i].name
  {
    seq(|catalog|, i requires 0 <= i < |catalog| => catalog[i].name)
  }

  /** `result.data.find(t => t.name === name)`: the first template with that name, if any. */
  function FindByName(catalog: seq<Template>, name: string): (r: Option<Template>)
    ensures r.None? <==> name !in ItemNames(catalog)
    ensures r.Some? ==> exists i :: 0 <= i < |catalog| && catalog[i] == r.value
                                    && forall j :: 0 <= j < i ==> catalog[j].name != name
    ensures r.Some? ==> r.value.name == name
  {
    if catalog == [] then None
    else if catalog[0].name == name then Some(catalog[0])
    else
      var r := FindByName(catalog[1..], name);
      assert ItemNames(catalog) == [catalog[0].name] + ItemNames(catalog[1..]);
      if r.Some? then
        ghost var i :| 0 <= i < |catalog[1..]| && catalog[1..][i] == r.value
                       && forall j :: 0 <= j < i ==> catalog[1..][j].name != name;
        assert catalog[i + 1] == r.value;
        assert forall j :: 0 <= j < i + 1 ==> catalog[j].name != name by {
          forall j | 0 <= j < i + 1 ensures catalog[j].name != name {
            if j > 0 { assert catalog[j] == catalog[1..][j - 1]; }
          }
        }
        r
      else r
  }
}
