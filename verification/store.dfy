/** The persistence-backed task store: the collection the page shows, the three
    operations that change it, and the storage slot it is mirrored to after each
    change. Every operation is a pure transition from one store value to the next;
    the fresh id a new record receives is supplied by the caller. */
module TodoStore {
  import opened Todos
  import opened Text

  /** The storage key under which the whole collection is persisted. */
  const StorageKey: string := "todos"

  /** What a storage slot holds: a collection that parses, or data that does not. */
  datatype Stored = Unparseable | Saved(items: seq<Todo>)

  /** The browser's key-value storage; a key that is absent has never been written. */
  type Storage = map<string, Stored>

  /** The collection in memory and the storage it is mirrored to. */
  datatype Store = Store(todos: seq<Todo>, storage: Storage)

  /** What a reload reads back from storage: the saved collection, or an empty one
      when the slot is absent or does not parse. */
  function Restore(storage: Storage): seq<Todo> {
    if StorageKey in storage && storage[StorageKey].Saved? then storage[StorageKey].items else []
  }

  /** Writes the whole collection under the storage key; a reload then reads it back,
      and every other key keeps its value. */
  function Persist(storage: Storage, todos: seq<Todo>): (r: Storage)
    ensures Restore(r) == todos
    ensures r.Keys == storage.Keys + {StorageKey}
    ensures forall k :: k in storage && k != StorageKey ==> r[k] == storage[k]
  {
    storage[StorageKey := Saved(todos)]
  }

  /** A reload right now would show exactly the collection in memory. */
  predicate Synced(s: Store) {
    Restore(s.storage) == s.todos
  }

  /** The store invariant: ids are distinct and the storage mirrors the collection. */
  predicate Valid(s: Store) {
    DistinctIds(s.todos) && Synced(s)
  }

  /** Startup: the collection is whatever the storage holds (nothing, if the slot is
      absent or unparseable); storage is not touched. */
  function Load(storage: Storage): (s: Store)
    ensures s.storage == storage
    ensures Synced(s)
    ensures StorageKey !in storage ==> s.todos == []
    ensures StorageKey in storage && storage[StorageKey] == Unparseable ==> s.todos == []
    ensures DistinctIds(Restore(storage)) ==> Valid(s)
  {
    Store(Restore(storage), storage)
  }

  /** `addTodo`: blank text changes nothing; any other text appends one record at the
      end, with the fresh id, the trimmed text and `completed == false`, and persists. */
  function AddTodo(s: Store, text: string, freshId: int): (r: Store)
    requires freshId !in Ids(s.todos)
    ensures IsBlank(text) ==> r == s
    ensures !IsBlank(text) ==> |r.todos| == |s.todos| + 1 && r.todos[..|s.todos|] == s.todos
    ensures !IsBlank(text) ==> r.todos[|s.todos|] == Todo(freshId, Trim(text), false)
    ensures !IsBlank(text) ==> Synced(r)
    ensures !IsBlank(text) ==> r.storage == Persist(s.storage, r.todos)
    ensures Valid(s) ==> Valid(r)
  {
    if IsBlank(text) then s
    else
      var todos := s.todos + [Todo(freshId, Trim(text), false)];
      Store(todos, Persist(s.storage, todos))
  }

  /** The collection with the completion flag of every record carrying `id` inverted. */
  function FlipId(todos: seq<Todo>, id: int): (r: seq<Todo>)
    ensures |r| == |todos|
    ensures forall i :: 0 <= i < |todos| ==> r[i].id == todos[i].id && r[i].text == todos[i].text
    ensures forall i :: 0 <= i < |todos| ==> (r[i].completed <==> (todos[i].completed != (todos[i].id == id)))
  {
    seq(|todos|, i requires 0 <= i < |todos| => if todos[i].id == id then Flip(todos[i]) else todos[i])
  }

  /** `toggleTodo`: the record with `id` has its flag inverted in place, every field and
      position of every other record is kept, and the result is persisted. An unknown
      id leaves the collection as it was. */
  function ToggleTodo(s: Store, id: int): (r: Store)
    ensures |r.todos| == |s.todos|
    ensures forall i :: 0 <= i < |s.todos| ==> r.todos[i].id == s.todos[i].id && r.todos[i].text == s.todos[i].text
    ensures forall i :: 0 <= i < |s.todos| && s.todos[i].id == id ==> r.todos[i].completed == !s.todos[i].completed
    ensures forall i :: 0 <= i < |s.todos| && s.todos[i].id != id ==> r.todos[i] == s.todos[i]
    ensures id !in Ids(s.todos) ==> r.todos == s.todos
    ensures Synced(r)
    ensures r.storage == Persist(s.storage, r.todos)
    ensures Valid(s) ==> Valid(r)
  {
    var todos := FlipId(s.todos, id);
    assert DistinctIds(s.todos) ==> DistinctIds(todos);
    Store(todos, Persist(s.storage, todos))
  }

  /** The collection with every record carrying `id` removed, the rest in order. */
  function WithoutId(todos: seq<Todo>, id: int): (r: seq<Todo>)
    ensures |r| <= |todos|
    ensures forall t :: t in r <==> t in todos && t.id != id
    ensures DistinctIds(todos) ==> DistinctIds(r)
  {
    if todos == [] then []
    else if todos[0].id == id then WithoutId(todos[1..], id)
    else
      var rest := WithoutId(todos[1..], id);
      assert DistinctIds(todos) ==> forall j :: 0 <= j < |rest| ==> rest[j].id != todos[0].id by {
        if DistinctIds(todos) {
          forall j | 0 <= j < |rest| ensures rest[j].id != todos[0].id {
            assert rest[j] in todos[1..];
          }
        }
      }
      [todos[0]] + rest
  }

  /** `deleteTodo`: no record with `id` remains, every other record does, and the
      result is persisted. */
  function DeleteTodo(s: Store, id: int): (r: Store)
    ensures id !in Ids(r.todos)
    ensures forall t :: t in r.todos <==> t in s.todos && t.id != id
    ensures id !in Ids(s.todos) ==> r.todos == s.todos
    ensures Synced(r)
    ensures r.storage == Persist(s.storage, r.todos)
    ensures Valid(s) ==> Valid(r)
  {
    var todos := WithoutId(s.todos, id);
    assert id !in Ids(s.todos) ==> todos == s.todos by {
      if id !in Ids(s.todos) {
        WithoutAbsentId(s.todos, id);
      }
    }
    Store(todos, Persist(s.storage, todos))
  }

  /** Removing an id that does not occur changes nothing. */
  lemma {:induction false} WithoutAbsentId(todos: seq<Todo>, id: int)
    requires id !in Ids(todos)
    ensures WithoutId(todos, id) == todos
  {
    if todos != [] {
      WithoutAbsentId(todos[1..], id);
    }
  }

  /** With distinct ids, deleting the id of the record at position `i` removes exactly
      that record and keeps the others in their relative order. */
  lemma {:induction false} WithoutIdAt(todos: seq<Todo>, i: int)
    requires DistinctIds(todos)
    requires 0 <= i < |todos|
    ensures WithoutId(todos, todos[i].id) == todos[..i] + todos[i + 1..]
  {
    var id := todos[i].id;
    if i == 0 {
      WithoutAbsentId(todos[1..], id);
    } else {
      assert todos[1..][i - 1] == todos[i];
      WithoutIdAt(todos[1..], i - 1);
      assert todos[..i] == [todos[0]] + todos[1..][..i - 1];
      assert todos[i + 1..] == todos[1..][i..];
    }
  }

  /** A slot holding the empty array loads as the empty collection. */
  lemma LoadEmptyArray(storage: Storage)
    requires StorageKey in storage && storage[StorageKey] == Saved([])
    ensures Load(storage).todos == []
    ensures Valid(Load(storage))
  {
  }

  /** Adding trimmed, non-blank text to an empty collection yields exactly one record,
      carrying that text, not completed. */
  lemma AddToEmpty(s: Store, text: string, freshId: int)
    requires s.todos == []
    requires !IsBlank(text) && IsTrimmed(text)
    ensures AddTodo(s, text, freshId).todos == [Todo(freshId, text, false)]
  {
  }

  /** Adding whitespace-only text leaves the collection and the storage untouched. */
  lemma AddSpacesIsNoOp(s: Store, freshId: int)
    requires freshId !in Ids(s.todos)
    ensures AddTodo(s, "   ", freshId) == s
  {
  }

  /** After a successful add, a reload finds a record carrying the added text, trimmed
      (for text that is already trimmed, the text itself). */
  lemma AddPersistsText(s: Store, text: string, freshId: int)
    requires freshId !in Ids(s.todos)
    requires !IsBlank(text)
    ensures exists t :: t in Restore(AddTodo(s, text, freshId).storage) && t.text == Trim(text)
  {
    var r := AddTodo(s, text, freshId);
    assert r.todos[|s.todos|] in Restore(r.storage);
  }

  /** With distinct ids, toggling the id of the record at position `i` replaces exactly
      that record by its flipped copy. */
  lemma ToggleAt(s: Store, i: int)
    requires DistinctIds(s.todos)
    requires 0 <= i < |s.todos|
    ensures ToggleTodo(s, s.todos[i].id).todos == s.todos[i := Flip(s.todos[i])]
  {
  }

  /** Toggling the same id twice restores the collection, and a reload shows it. */
  lemma ToggleTwice(s: Store, id: int)
    ensures ToggleTodo(ToggleTodo(s, id), id).todos == s.todos
    ensures Synced(ToggleTodo(ToggleTodo(s, id), id))
  {
  }

  /** With distinct ids, deleting the id of the record at position `i` removes exactly
      that record and keeps the others in order. */
  lemma DeleteAt(s: Store, i: int)
    requires DistinctIds(s.todos)
    requires 0 <= i < |s.todos|
    ensures DeleteTodo(s, s.todos[i].id).todos == s.todos[..i] + s.todos[i + 1..]
    ensures |DeleteTodo(s, s.todos[i].id).todos| == |s.todos| - 1
  {
    WithoutIdAt(s.todos, i);
  }

  /** Start from an empty slot, add a task, complete it, delete it: the collection and
      what a reload shows are empty again, and along the way the record is as expected. */
  lemma AddToggleDeleteScenario(storage: Storage, id: int)
    requires StorageKey in storage && storage[StorageKey] == Saved([])
    ensures var s0 := Load(storage);
      var s1 := AddTodo(s0, "Test task", id);
      var s2 := ToggleTodo(s1, id);
      var s3 := DeleteTodo(s2, id);
      && s1.todos == [Todo(id, "Test task", false)]
      && s2.todos == [Todo(id, "Test task", true)]
      && s3.todos == []
      && Restore(s3.storage) == []
  {
    var s0 := Load(storage);
    assert !IsBlank("Test task") by {
      assert !IsWhitespace("Test task"[0]);
    }
    assert IsTrimmed("Test task");
    var s1 := AddTodo(s0, "Test task", id);
    ToggleAt(s1, 0);
    var s2 := ToggleTodo(s1, id);
    DeleteAt(s2, 0);
  }
}
