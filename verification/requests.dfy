/**
 Sequences of the three store-mutating requests, applied one after another
 as the single-threaded server handles them.
 */
module TodoRequests {
  import opened Wrappers
  import opened TodoStore
  import opened TodoProperties

  /** POST /todos, POST /todos/toggle/:id and DELETE /todos/:id. */
  datatype Request =
    | PostTodo(content: string)
    | PostToggle(id: nat)
    | DeleteTodo(id: nat)

  /** The store after one request; what the handler answers is dropped. */
  function Handle(s: Store, req: Request): Store
  {
    match req
    case PostTodo(content) => Add(s, content).0
    case PostToggle(id) => Toggle(s, id).0
    case DeleteTodo(id) => Remove(s, id)
  }

  /** The store after handling `reqs` in order. */
  function Run(s: Store, reqs: seq<Request>): Store
    decreases |reqs|
  {
    if |reqs| == 0 then s else Run(Handle(s, reqs[0]), reqs[1..])
  }

  /** Every request keeps the invariant, and the counter never goes down. */
  lemma HandlePreservesValid(s: Store, req: Request)
    requires Valid(s)
    ensures Valid(Handle(s, req))
    ensures Handle(s, req).nextID >= s.nextID
  {
    match req
    case PostTodo(content) => AddPreservesValid(s, content);
    case PostToggle(id) => TogglePreservesValid(s, id);
    case DeleteTodo(id) => RemovePreservesValid(s, id);
  }

  /** Any run of requests from a valid store keeps the invariant and never
      lowers the counter. */
  lemma {:induction false} RunPreservesValid(s: Store, reqs: seq<Request>)
    requires Valid(s)
    ensures Valid(Run(s, reqs))
    ensures Run(s, reqs).nextID >= s.nextID
    decreases |reqs|
  {
    if |reqs| != 0 {
      HandlePreservesValid(s, reqs[0]);
      RunPreservesValid(Handle(s, reqs[0]), reqs[1..]);
    }
  }

  /** An identifier below the counter that no record carries stays unused
      through any one request. */
  lemma HandleKeepsRetiredId(s: Store, req: Request, id: nat)
    requires Valid(s)
    requires id < s.nextID && !HasId(s.db, id)
    ensures id < Handle(s, req).nextID && !HasId(Handle(s, req).db, id)
  {
  }

  /** An identifier below the counter that no record carries is never handed
      out again, whatever requests follow. */
  lemma {:induction false} RetiredIdNeverReused(s: Store, reqs: seq<Request>, id: nat)
    requires Valid(s)
    requires id < s.nextID && !HasId(s.db, id)
    ensures !HasId(Run(s, reqs).db, id)
    decreases |reqs|
  {
    if |reqs| != 0 {
      HandleKeepsRetiredId(s, reqs[0], id);
      HandlePreservesValid(s, reqs[0]);
      RetiredIdNeverReused(Handle(s, reqs[0]), reqs[1..], id);
    }
  }

  /** Once a record is deleted its identifier never appears again. */
  lemma DeletedIdNeverReturns(s: Store, id: nat, reqs: seq<Request>)
    requires Valid(s) && HasId(s.db, id)
    ensures !HasId(Run(Remove(s, id), reqs).db, id)
  {
    RemoveDeletesOnlyId(s, id);
    RemovePreservesValid(s, id);
    RetiredIdNeverReused(Remove(s, id), reqs, id);
  }

  /** From the seed store: adding "Buy cheese" answers record 3 and makes four
      records; toggling 1 clears its flag; deleting 0 leaves three records and
      none numbered 0. */
  lemma SeedScenario()
    ensures Add(Initial(), "Buy cheese").1 == Success(Todo(3, "Buy cheese", false))
    ensures |Add(Initial(), "Buy cheese").0.db| == 4
    ensures Toggle(Add(Initial(), "Buy cheese").0, 1).1 == Some(Todo(1, "Buy eggs", false))
    ensures var s := Remove(Toggle(Add(Initial(), "Buy cheese").0, 1).0, 0);
            |s.db| == 3 && !HasId(s.db, 0) && s.nextID == 4
  {
    var s1 := Add(Initial(), "Buy cheese").0;
    assert s1.db[1].id == 1;
    var s2 := Toggle(s1, 1).0;
    assert s2.db[0].id == 0;
    AddPreservesValid(Initial(), "Buy cheese");
    TogglePreservesValid(s1, 1);
    RemoveDeletesOnlyId(s2, 0);
  }
}
