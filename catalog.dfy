/** Catalogue records shared by the matcher and the review store. */
module Catalog {

  datatype Option<+T> = None | Some(value: T)

  /** One line of a catalogue file: an integer id and a free-text description. */
  datatype Item = Item(id: int, description: string)

  /** `items.find(x => x.id === id)`: the first record carrying `id`, or nothing
      when no record does (the case in which the matched tag cannot be drawn). */
  function FindById(items: seq<Item>, id: int): (r: Option<Item>)
    ensures r.None? <==> forall i :: 0 <= i < |items| ==> items[i].id != id
    ensures r.Some? ==> exists i :: 0 <= i < |items| && items[i] == r.value
                                    && r.value.id == id
                                    && forall j :: 0 <= j < i ==> items[j].id != id
  {
    if items == [] then None
    else if items[0].id == id then Some(items[0])
    else
      var r := FindById(items[1..], id);
      assert forall i :: 1 <= i < |items| ==> items[i] == items[1..][i - 1];
      r
  }
}
