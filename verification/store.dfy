/**
 The in-memory to-do store that the HTTP handlers of the server mutate: an
 ordered list of records and the counter that hands out identifiers.

 Each handler body that touches the store is lifted into a pure function from
 the old store to the new store (and, where the handler answers with a record,
 that record). Rendering the answer as HTML is not part of this module.
 */
module TodoStore {
  import opened Wrappers

  /** One to-do record. */
  datatype Todo = Todo(id: nat, content: string, completed: bool)

  /** The list `db` in insertion order, and the counter `nextID`. */
  datatype Store = Store(db: seq<Todo>, nextID: nat)

  /** The error the create handler throws before it touches the store. */
  datatype AddError = EmptyContent

  /** Some record of `db` carries identifier `id`. */
  predicate HasId(db: seq<Todo>, id: nat)
  {
    exists j :: 0 <= j < |db| && db[j].id == id
  }

  /** The store invariant: identifiers strictly increase along the list (so no
      two records share one), every identifier lies below the counter, and no
      record has empty content. */
  predicate Valid(s: Store)
  {
    && (forall i, j :: 0 <= i < j < |s.db| ==> s.db[i].id < s.db[j].id)
    && (forall i :: 0 <= i < |s.db| ==> s.db[i].id < s.nextID && s.db[i].content != [])
  }

  /** The position of the record `db.find(todo => todo.id === id)` returns:
      the first record whose identifier matches, found by a linear scan. */
  function Find(db: seq<Todo>, id: nat): (r: Option<nat>)
    ensures r.None? <==> !HasId(db, id)
    ensures r.Some? ==> r.value < |db| && db[r.value].id == id
    ensures r.Some? ==> forall j :: 0 <= j < r.value ==> db[j].id != id
  {
    if |db| == 0 then None
    else if db[0].id == id then Some(0)
    else
      match Find(db[1..], id)
      case None =>
        assert forall j :: 1 <= j < |db| ==> db[j] == db[1..][j - 1];
        None
      case Some(k) => Some(k + 1)
  }

  /** `db.indexOf(t)`: the first position holding `t`, or -1 when there is none.
      Records are compared by value. */
  function IndexOf(db: seq<Todo>, t: Todo): (r: int)
    ensures -1 <= r < |db|
    ensures r == -1 <==> t !in db
    ensures 0 <= r ==> db[r] == t && forall j :: 0 <= j < r ==> db[j] != t
  {
    if |db| == 0 then -1
    else if db[0] == t then 0
    else
      var k := IndexOf(db[1..], t);
      if k == -1 then -1 else k + 1
  }

  /** `{ id: nextID++, content, completed }` pushed onto the end of the list. */
  function Append(s: Store, content: string, completed: bool): Store
  {
    Store(s.db + [Todo(s.nextID, content, completed)], s.nextID + 1)
  }

  /** The store at start-up: three seed records created from a counter that
      starts at 0. */
  function Initial(): (s: Store)
    ensures Valid(s)
    ensures s.nextID == 3
    ensures s.db == [Todo(0, "Buy milk", false), Todo(1, "Buy eggs", true), Todo(2, "Buy bread", false)]
  {
    var empty := Store([], 0);
    Append(Append(Append(empty, "Buy milk", false), "Buy eggs", true), "Buy bread", false)
  }

  /** POST /todos: reject empty content before anything changes; otherwise
      append a new incomplete record numbered from the counter and answer with it. */
  function Add(s: Store, content: string): (r: (Store, Result<Todo, AddError>))
    ensures content == [] ==> r.0 == s && r.1 == Failure(EmptyContent)
    ensures content != [] ==> r.1.Success?
    ensures r.1.Success? ==>
              && |r.0.db| == |s.db| + 1
              && r.0.db[..|s.db|] == s.db
              && r.0.db[|s.db|] == r.1.value
              && r.1.value == Todo(s.nextID, content, false)
              && r.0.nextID == s.nextID + 1
  {
    if |content| == 0 then (s, Failure(EmptyContent))
    else
      var s' := Append(s, content, false);
      (s', Success(s'.db[|s.db|]))
  }

  /** POST /todos/toggle/:id: flip the `completed` flag of the record `find`
      returns and answer with it; answer nothing when no record matches. */
  function Toggle(s: Store, id: nat): (r: (Store, Option<Todo>))
    ensures r.1.None? <==> !HasId(s.db, id)
    ensures r.1.None? ==> r.0 == s
    ensures r.0.nextID == s.nextID && |r.0.db| == |s.db|
    ensures forall j :: 0 <= j < |s.db| ==>
              r.0.db[j].id == s.db[j].id && r.0.db[j].content == s.db[j].content
    ensures forall j :: 0 <= j < |s.db| ==>
              (r.0.db[j].completed != s.db[j].completed <==> Find(s.db, id) == Some(j))
    ensures r.1.Some? ==> r.1.value.id == id && r.1.value == r.0.db[Find(s.db, id).value]
  {
    match Find(s.db, id)
    case None => (s, None)
    case Some(i) =>
      var t := s.db[i].(completed := !s.db[i].completed);
      (s.(db := s.db[i := t]), Some(t))
  }

  /** DELETE /todos/:id: splice out the record `find` returns, at the position
      `indexOf` gives for it; do nothing when no record matches. */
  function Remove(s: Store, id: nat): (r: Store)
    ensures r.nextID == s.nextID
    ensures !HasId(s.db, id) ==> r == s
    ensures HasId(s.db, id) ==>
              var i := Find(s.db, id).value;
              |r.db| == |s.db| - 1 && r.db[..i] == s.db[..i] && r.db[i..] == s.db[i + 1..]
  {
    match Find(s.db, id)
    case None => s
    case Some(i) =>
      var k := IndexOf(s.db, s.db[i]);
      assert k == i;
      s.(db := s.db[..k] + s.db[k + 1..])
  }
}
