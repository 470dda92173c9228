/**
 Properties of the store operations: each one keeps the store invariant, and
 on a valid store each agrees with an independent by-identifier definition of
 what it should do.
 */
module TodoProperties {
  import opened Wrappers
  import opened TodoStore

  /** The list with the `completed` flag of every record numbered `id` flipped. */
  function Flip(db: seq<Todo>, id: nat): (r: seq<Todo>)
  {
    seq(|db|, j requires 0 <= j < |db| =>
      if db[j].id == id then db[j].(completed := !db[j].completed) else db[j])
  }

  /** The list with every record numbered `id` left out, the rest in order. */
  function Without(db: seq<Todo>, id: nat): (r: seq<Todo>)
  {
    if |db| == 0 then []
    else (if db[0].id == id then [] else [db[0]]) + Without(db[1..], id)
  }

  /** On a valid store the record `find` stops at is the only one with that id. */
  lemma FoundIsUnique(s: Store, id: nat, j: nat)
    requires Valid(s)
    requires j < |s.db| && s.db[j].id == id
    ensures Find(s.db, id) == Some(j)
  {
  }

  /** `indexOf` of the record `find` returned is the position `find` stopped
      at, whether or not the store is valid. */
  lemma IndexOfFound(db: seq<Todo>, id: nat)
    requires HasId(db, id)
    ensures IndexOf(db, db[Find(db, id).value]) == Find(db, id).value
  {
  }

  // ----- add -----

  /** Adding keeps the invariant, and the new identifier was not in use. */
  lemma AddPreservesValid(s: Store, content: string)
    requires Valid(s)
    ensures Valid(Add(s, content).0)
    ensures Add(s, content).1.Success? ==> !HasId(s.db, Add(s, content).1.value.id)
  {
  }

  /** After a successful add, `find` locates the new record at the end. */
  lemma AddThenFind(s: Store, content: string)
    requires Valid(s) && content != []
    ensures Find(Add(s, content).0.db, s.nextID) == Some(|s.db|)
  {
  }

  /** Removing the record just added restores the list; only the counter has
      moved on. */
  lemma AddThenRemove(s: Store, content: string)
    requires Valid(s) && content != []
    ensures Remove(Add(s, content).0, s.nextID) == Store(s.db, s.nextID + 1)
  {
  }

  // ----- toggle -----

  /** Toggling keeps the invariant. */
  lemma TogglePreservesValid(s: Store, id: nat)
    requires Valid(s)
    ensures Valid(Toggle(s, id).0)
  {
  }

  /** On a valid store, toggling flips the flag of exactly the record with
      that id, and answers with that record as it now stands. */
  lemma ToggleIsFlip(s: Store, id: nat)
    requires Valid(s)
    ensures Toggle(s, id).0 == Store(Flip(s.db, id), s.nextID)
    ensures forall j :: 0 <= j < |s.db| && s.db[j].id == id ==>
              Toggle(s, id).1 == Some(s.db[j].(completed := !s.db[j].completed))
  {
  }

  /** Toggling the same id twice gives back the original store, for every
      store. */
  lemma ToggleTwice(s: Store, id: nat)
    ensures Toggle(Toggle(s, id).0, id).0 == s
  {
  }

  // ----- remove -----

  /** Splicing out the only record numbered `id` is the same as filtering the
      list by identifier. */
  lemma {:induction false} SpliceIsWithout(db: seq<Todo>, id: nat, i: nat)
    requires i < |db| && db[i].id == id
    requires forall j :: 0 <= j < |db| && j != i ==> db[j].id != id
    ensures db[..i] + db[i + 1..] == Without(db, id)
  {
    if i == 0 {
      NotPresentWithout(db[1..], id);
    } else {
      SpliceIsWithout(db[1..], id, i - 1);
      assert db[..i] == [db[0]] + db[1..][..i - 1];
      assert db[i + 1..] == db[1..][i - 1 + 1..];
    }
  }

  /** Filtering out an identifier no record carries changes nothing. */
  lemma {:induction false} NotPresentWithout(db: seq<Todo>, id: nat)
    requires forall j :: 0 <= j < |db| ==> db[j].id != id
    ensures Without(db, id) == db
  {
    if |db| != 0 {
      NotPresentWithout(db[1..], id);
    }
  }

  /** Removing keeps the invariant. */
  lemma RemovePreservesValid(s: Store, id: nat)
    requires Valid(s)
    ensures Valid(Remove(s, id))
  {
  }

  /** On a valid store, removing deletes exactly the record with that id and
      keeps the others in their relative order. */
  lemma RemoveIsWithout(s: Store, id: nat)
    requires Valid(s)
    ensures Remove(s, id) == Store(Without(s.db, id), s.nextID)
  {
    var r := Remove(s, id);
    if HasId(s.db, id) {
      var i := Find(s.db, id).value;
      assert r.db == s.db[..i] + s.db[i + 1..] by {
        assert r.db == r.db[..i] + r.db[i..];
      }
      SpliceIsWithout(s.db, id, i);
    } else {
      NotPresentWithout(s.db, id);
    }
  }

  /** After a remove on a valid store no record carries the id, and every
      other identifier is present exactly when it was before. */
  lemma RemoveDeletesOnlyId(s: Store, id: nat)
    requires Valid(s)
    ensures !HasId(Remove(s, id).db, id)
    ensures forall x: nat :: x != id ==> (HasId(Remove(s, id).db, x) <==> HasId(s.db, x))
  {
  }

  /** Removing the same id twice is the same as removing it once. */
  lemma RemoveTwice(s: Store, id: nat)
    requires Valid(s)
    ensures Remove(Remove(s, id), id) == Remove(s, id)
  {
  }
}
