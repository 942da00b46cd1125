/** One row of the list: a checkbox, the text and a delete button, rendered from a
    single record. The row keeps no state of its own; its two controls report the
    record's id to the callbacks the list hands it. */
module TodoItem {
  import opened Todos

  /** What a row shows, and the ids its two controls report. */
  datatype ItemView = ItemView(checked: bool, struckThrough: bool, text: string, toggleId: int, deleteId: int)

  /** What a control of a row asks the store to do. */
  datatype Intent = ToggleIntent(id: int) | DeleteIntent(id: int)

  /** A row as rendering can produce it: strike-through goes with the checkbox, and both
      controls report the same record. */
  predicate WellFormed(v: ItemView) {
    v.struckThrough == v.checked && v.toggleId == v.deleteId
  }

  /** `TodoItem`: the checkbox is ticked and the text struck through exactly when the
      record is completed, the text is the stored text, both controls carry its id. */
  function Render(t: Todo): (v: ItemView)
    ensures WellFormed(v)
    ensures v.checked == t.completed && v.text == t.text && v.toggleId == t.id
  {
    ItemView(t.completed, t.completed, t.text, t.id, t.id)
  }

  /** The record a row was rendered from. */
  function Shown(v: ItemView): Todo {
    Todo(v.toggleId, v.text, v.checked)
  }

  /** A row loses nothing of its record: the record can be read back from it, so two
      records with equal rows are equal. */
  lemma ShownRender(t: Todo)
    ensures Shown(Render(t)) == t
  {
  }

  /** Rendering is one-to-one on records. */
  lemma RenderInjective(a: Todo, b: Todo)
    requires Render(a) == Render(b)
    ensures a == b
  {
  }

  /** Clicking the checkbox calls `onToggle` with the record's id. */
  function ClickCheckbox(v: ItemView): (i: Intent)
    ensures i.ToggleIntent?
    ensures i.id == v.toggleId
  {
    ToggleIntent(v.toggleId)
  }

  /** Clicking the delete button calls `onDelete` with the record's id. */
  function ClickDelete(v: ItemView): (i: Intent)
    ensures i.DeleteIntent?
    ensures i.id == v.deleteId
  {
    DeleteIntent(v.deleteId)
  }

  /** `n` clicks on the checkbox of a row that is not re-rendered in between. */
  function ClickCheckboxTimes(v: ItemView, n: nat): (calls: seq<Intent>)
    ensures |calls| == n
    ensures forall k :: 0 <= k < n ==> calls[k] == ToggleIntent(v.toggleId)
  {
    if n == 0 then [] else [ClickCheckbox(v)] + ClickCheckboxTimes(v, n - 1)
  }

  /** The row of record `t` reports `t.id` to both callbacks, however often it is clicked. */
  lemma ControlsReportId(t: Todo, n: nat)
    ensures ClickCheckbox(Render(t)) == ToggleIntent(t.id)
    ensures ClickDelete(Render(t)) == DeleteIntent(t.id)
    ensures ClickCheckboxTimes(Render(t), n) == seq(n, _ => ToggleIntent(t.id))
  {
  }
}
