/**
 * Renaming a data source in the edit dialog
 * (packages/web/src/components/LeftPanel/DataSourceManage/EditDataSourceModal.tsx): the
 * rename-by-id list update, and the button that toggles between showing the name and editing it.
 */
module DataSourceManage {
  import opened Wrappers

  /** `IDataSourceItem`: the id, the name, and the type (kept by a rename like any other field). */
  datatype DataSourceItem = DataSourceItem(id: string, name: string, kind: string)

  /** The rename: the item with the given id gets the new name, every other item is kept. */
  function Rename(list: seq<DataSourceItem>, id: string, value: string): (r: seq<DataSourceItem>)
    ensures |r| == |list|
    ensures forall i :: 0 <= i < |list| && list[i].id == id ==> r[i] == list[i].(name := value)
    ensures forall i :: 0 <= i < |list| && list[i].id != id ==> r[i] == list[i]
  {
    if list == [] then []
    else [if list[0].id == id then list[0].(name := value) else list[0]] + Rename(list[1..], id, value)
  }

  /** The lookup the dialog shows: the first item with that id, if any. */
  function FindById(list: seq<DataSourceItem>, id: string): (r: Option<DataSourceItem>)
    ensures r.Some? <==> exists i :: 0 <= i < |list| && list[i].id == id
    ensures r.Some? ==> exists i :: 0 <= i < |list| && list[i] == r.value && r.value.id == id &&
                                    forall j :: 0 <= j < i ==> list[j].id != id
  {
    if list == [] then None
    else if list[0].id == id then Some(list[0])
    else
      var tail := FindById(list[1..], id);
      assert forall j :: 0 <= j < |list[1..]| ==> list[1..][j] == list[j + 1];
      tail
  }

  ghost predicate HasId(list: seq<DataSourceItem>, id: string) {
    exists i :: 0 <= i < |list| && list[i].id == id
  }

  /** After renaming, looking the id up finds the same item with the new name. */
  lemma {:induction false} RenameThenFind(list: seq<DataSourceItem>, id: string, value: string)
    requires HasId(list, id)
    ensures FindById(Rename(list, id, value), id) == Some(FindById(list, id).value.(name := value))
  {
    var r := Rename(list, id, value);
    if list[0].id != id {
      assert HasId(list[1..], id) by {
        var i :| 0 <= i < |list| && list[i].id == id;
        assert list[1..][i - 1] == list[i];
      }
      RenameThenFind(list[1..], id, value);
      assert r[1..] == Rename(list[1..], id, value);
    }
  }

  /** A second rename of the same id overrides the first. */
  lemma RenameLastWins(list: seq<DataSourceItem>, id: string, a: string, b: string)
    ensures Rename(Rename(list, id, a), id, b) == Rename(list, id, b)
  {
    var x, y := Rename(Rename(list, id, a), id, b), Rename(list, id, b);
    assert |x| == |y|;
    forall i | 0 <= i < |x| ensures x[i] == y[i] { }
  }

  /** The name committed from the input box: a missing input box or value commits the empty name. */
  function CommittedName(input: Option<string>): (name: string)
    ensures input.None? ==> name == ""
    ensures input.Some? ==> name == input.value
  {
    input.GetOr("")
  }

  /** The dialog's state: the data-source list (a shared store) and `isEditName`. */
  datatype Dialog = Dialog(list: seq<DataSourceItem>, isEditName: bool)

  /**
   * The name button: while not editing it starts editing; while editing it commits the input
   * to the item with the dialog's id and stops editing.
   */
  function NameButtonStep(d: Dialog, dataSourceId: string, input: Option<string>): (r: Dialog)
    ensures r.isEditName == !d.isEditName
    ensures !d.isEditName ==> r.list == d.list
    ensures d.isEditName ==> r.list == Rename(d.list, dataSourceId, CommittedName(input))
  {
    if d.isEditName then Dialog(Rename(d.list, dataSourceId, CommittedName(input)), false)
    else Dialog(d.list, true)
  }

  /** Starting to edit, then confirming, renames the item (and only it) and leaves the dialog showing the name. */
  lemma EditThenCommit(list: seq<DataSourceItem>, dataSourceId: string, input0: Option<string>, input: Option<string>)
    requires HasId(list, dataSourceId)
    ensures var r := NameButtonStep(NameButtonStep(Dialog(list, false), dataSourceId, input0), dataSourceId, input);
      && !r.isEditName
      && |r.list| == |list|
      && FindById(r.list, dataSourceId).Some?
      && FindById(r.list, dataSourceId).value.name == CommittedName(input)
      && FindById(r.list, dataSourceId).value.kind == FindById(list, dataSourceId).value.kind
      && forall i :: 0 <= i < |list| && list[i].id != dataSourceId ==> r.list[i] == list[i]
  {
    RenameThenFind(list, dataSourceId, CommittedName(input));
  }

  /** The dialog as the component holds it; the shown name belongs to `dataSourceId`, which must be listed. */
  class EditDataSourceModal {
    const dataSourceId: string
    var list: seq<DataSourceItem>
    var isEditName: bool

    ghost predicate Valid()
      reads this
    {
      HasId(list, dataSourceId)
    }

    /** The name shown next to "名字：". */
    function Name(): string
      reads this
      requires Valid()
    {
      FindById(list, dataSourceId).value.name
    }

    constructor (list: seq<DataSourceItem>, dataSourceId: string)
      requires HasId(list, dataSourceId)
      ensures Valid() && this.list == list && this.dataSourceId == dataSourceId && !isEditName
    {
      this.dataSourceId := dataSourceId;
      this.list := list;
      isEditName := false;
    }

    /** The click handler of the name button; `input` is the input box's value when it is shown. */
    method ClickNameButton(input: Option<string>)
      requires Valid()
      modifies this
      ensures Valid()
      ensures Dialog(list, isEditName) == NameButtonStep(Dialog(old(list), old(isEditName)), dataSourceId, input)
      ensures old(isEditName) ==> Name() == CommittedName(input)
    {
      if isEditName {
        var id := FindById(list, dataSourceId).value.id;
        var value := CommittedName(input);
        RenameThenFind(list, id, value);
        list := Rename(list, id, value);
        isEditName := false;
      } else {
        isEditName := true;
      }
    }
  }
}
