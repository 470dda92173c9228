# To-do store model

A Dafny model of the in-memory to-do store behind the server's HTTP handlers
in `src/index.tsx`. The store is an ordered list of `Todo { id, content,
completed }` records plus the identifier counter `nextID`. At start-up it holds
three seed records. Three handlers mutate it:

- `POST /todos` (add) rejects empty content and otherwise appends a new record numbered from the counter;
- `POST /todos/toggle/:id` (toggle) flips the `completed` flag of the record with that id;
- `DELETE /todos/:id` (remove) splices that record out of the list.

Each handler body becomes a pure function from the old `Store` to the new one.
Add and toggle also return the record the handler renders. The module-level
mutable state of the server becomes a value passed in and returned.

Files:

- `wrappers.dfy`: `Option` and `Result`.
- `store.dfy` (module `TodoStore`): the data model, the store invariant `Valid`, the linear scans `Find` (`db.find`) and `IndexOf` (`db.indexOf`), the seed store and the three operations.
- `properties.dfy` (module `TodoProperties`): independent by-identifier definitions of toggle (`Flip`) and remove (`Without`). It also holds the lemmas tying the operations to those definitions, the invariant lemmas and the round trips.
- `requests.dfy` (module `TodoRequests`): sequences of requests, the result that a deleted identifier is never handed out again, and the seed scenario.

The invariant `Valid` says three things. Identifiers strictly increase along the list, so they are unique. Every identifier lies below `nextID`. No record has empty content.

## Model

| member | source | states |
|---|---|---|
| TodoStore.Find | src/index.tsx:51 | `find` yields nothing exactly when no record has the id; otherwise it yields a position holding that id with no earlier position holding it |
| TodoStore.IndexOf | src/index.tsx:68 | `indexOf` is -1 exactly when the record is absent; otherwise it is the first position holding the record |
| TodoStore.Initial | src/index.tsx:98-103 | the start-up store holds records 0 "Buy milk" (open), 1 "Buy eggs" (done), 2 "Buy bread" (open) in that order, has counter 3 and satisfies the invariant |
| TodoStore.Add | src/index.tsx:30-40 | empty content fails and leaves the list and counter untouched; otherwise exactly one record is appended, numbered with the old counter, with the given content and not completed, earlier records are unchanged, the counter goes up by one and the new record is returned |
| TodoStore.Toggle | src/index.tsx:50-56 | answers nothing and changes nothing exactly when no record has the id; otherwise only the flag of the found record changes (length, order, ids, contents, counter kept) and the returned record is the found record as it now stands, with that id |
| TodoStore.Remove | src/index.tsx:65-70 | the counter is never changed; with no matching record the store is unchanged; otherwise the list is one shorter, with the records before the found one kept and the ones after it shifted down |
| TodoProperties.FoundIsUnique | src/index.tsx:66 | on a valid store any record with the id is the one `find` stops at |
| TodoProperties.IndexOfFound | src/index.tsx:66-68 | `indexOf` of the record `find` returned is the position `find` stopped at, on every list |
| TodoProperties.AddPreservesValid | src/index.tsx:34-39 | add keeps the invariant, and the identifier it hands out was not in use |
| TodoProperties.AddThenFind | src/index.tsx:35-39 | after a successful add on a valid store, `find` on the new identifier locates the appended record |
| TodoProperties.AddThenRemove | src/index.tsx:34-39 | on a valid store, removing the record just added gives back the original list, with the counter one higher |
| TodoProperties.TogglePreservesValid | src/index.tsx:51-53 | toggle keeps the invariant |
| TodoProperties.ToggleIsFlip | src/index.tsx:51-54 | on a valid store, toggle equals flipping the flag of every record with the id and nothing else, and returns that record with its flag flipped |
| TodoProperties.ToggleTwice | src/index.tsx:51-53 | toggling the same id twice restores the original store, valid or not |
| TodoProperties.RemovePreservesValid | src/index.tsx:66-68 | remove keeps the invariant |
| TodoProperties.RemoveIsWithout | src/index.tsx:66-68 | on a valid store, remove equals dropping every record with the id while keeping the rest in their relative order |
| TodoProperties.RemoveDeletesOnlyId | src/index.tsx:66-68 | after a remove on a valid store no record has the id, and every other identifier is present exactly when it was before |
| TodoProperties.RemoveTwice | src/index.tsx:66-69 | on a valid store, removing the same id twice equals removing it once |
| TodoRequests.RunPreservesValid | src/index.tsx:28-72 | any sequence of add, toggle and remove requests from a valid store ends in a valid store and never lowers the counter |
| TodoRequests.RetiredIdNeverReused | src/index.tsx:35 | an identifier below the counter that no record has never reappears, whatever requests follow |
| TodoRequests.DeletedIdNeverReturns | src/index.tsx:68 | once a record is deleted from a valid store, its identifier is absent after any further requests |
| TodoRequests.SeedScenario | src/index.tsx:98-103 | from the seed store, adding "Buy cheese" answers record 3 and gives four records; toggling 1 answers "Buy eggs" now open; deleting 0 leaves three records, none numbered 0, and counter 4 |

Notes on the handlers' behaviour:

- `Remove` returns only the new store: the DELETE handler answers nothing whether or not a record matched (src/index.tsx:65-70).
- `Add` returns `Failure(EmptyContent)` with the store unchanged: the handler throws before `nextID++` and `push` (src/index.tsx:31-33).
- Non-empty content is checked only at creation. The model proves that no later operation can break it, so it is part of `Valid`.

## Left out

- HTML rendering (`BaseHtml`, `TodoItem`, `TodoList`, `TodoForm`) and the `GET /`, `GET /todos` and `POST /clicked` handlers: string templating with no store logic. `GET /todos` only reads `db`, which is the model's `Store.db`.
- Application setup, routing, the static-asset plugin, `listen` and `console.log`: framework and I/O plumbing.
- Request schema validation and the numeric coercion of `:id` by the validation library: its behaviour is not visible. The model takes a `nat` id and a string.
- JavaScript `number` semantics: ids are unbounded naturals, so the 2^53 limit on `nextID++` is not modelled.
- Object identity: `indexOf` compares objects by reference, while `IndexOf` compares records by value. `IndexOfFound` proves that `IndexOf` returns `find`'s position. JavaScript's reference-based `indexOf` returns the same position, because every earlier record has a different id and so is a different object.
- The `splice(-1, 1)` case: it cannot arise, because the record handed to `indexOf` was just found in the list.
- Module-level mutable state and concurrency: the server is single-threaded, so the store is passed explicitly.
- Responses inside request sequences: `Handle` and `Run` keep only the new store. The responses are stated per operation by `Add` and `Toggle`.
