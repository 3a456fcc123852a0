/** The generic service template every entity service extends: persist
    runs the entity's pre-persist hook before saving; delete soft-deletes
    entities that carry a boolean `deleted` field and removes the others;
    find-by-id and find-all do not look at `deleted`. */
module BaseService {
  import opened Common
  import opened Tables

  /** `persist(t)`: the hook may reject or adjust the entity; only what it
      returns is saved, under the next id. */
  function Persist<T>(t: Table<T>, x: T, prePersist: T -> Result<T>): (r: Result<(Table<T>, Id)>)
    ensures prePersist(x).Err? <==> r.Err?
    ensures r.Err? ==> r.error == prePersist(x).error
    ensures r.Ok? ==> r.value.1 == t.next && r.value.1 !in t.rows
    ensures r.Ok? ==> r.value.0.rows == t.rows[r.value.1 := prePersist(x).value]
  {
    var y :- prePersist(x);
    Ok(Insert(t, y))
  }

  /** Whether the entity class declares a boolean `deleted` field, and how
      setting it to true changes an entity. */
  datatype DeletedField<!T> = HasDeletedField(markDeleted: T -> T) | NoDeletedField

  /** `deleteById(id)` */
  function DeleteById<T>(t: Table<T>, id: Id, field: DeletedField<T>): (r: Result<Table<T>>)
    ensures r.Err? <==> id !in t.rows
    ensures r.Err? ==> r.error == NotFound
    ensures r.Ok? && field.HasDeletedField? ==>
      r.value.rows.Keys == t.rows.Keys && r.value.rows[id] == field.markDeleted(t.rows[id])
    ensures r.Ok? && field.NoDeletedField? ==> r.value.rows.Keys == t.rows.Keys - {id}
    ensures r.Ok? ==> forall k :: k in r.value.rows && k != id ==> r.value.rows[k] == t.rows[k]
  {
    if id !in t.rows then Err(NotFound)
    else match field
      case HasDeletedField(mark) => Ok(Put(t, id, mark(t.rows[id])))
      case NoDeletedField => Ok(Remove(t, id))
  }

  /** Soft delete keeps the row, so deleting again succeeds. */
  lemma SoftDeleteRepeats<T>(t: Table<T>, id: Id, mark: T -> T)
    requires DeleteById(t, id, HasDeletedField(mark)).Ok?
    ensures id in DeleteById(t, id, HasDeletedField(mark)).value.rows
    ensures DeleteById(DeleteById(t, id, HasDeletedField(mark)).value, id, HasDeletedField(mark)).Ok?
  {
  }

  /** Hard delete removes the row, so deleting again fails. */
  lemma HardDeleteDoesNotRepeat<T>(t: Table<T>, id: Id)
    requires DeleteById(t, id, NoDeletedField).Ok?
    ensures DeleteById(DeleteById(t, id, NoDeletedField).value, id, NoDeletedField) == Err(NotFound)
  {
  }

  /** `findById(id)`: deleted entities are found too. */
  function FindById<T>(t: Table<T>, id: Id): (r: Result<T>)
    ensures r.Ok? <==> id in t.rows
    ensures r.Ok? ==> r.value == t.rows[id]
    ensures r.Err? ==> r.error == NotFound
  {
    Lookup(t, id, NotFound)
  }

  /** `findAll()`: every stored entity, deleted or not, in id order. */
  function FindAll<T>(t: Table<T>): (r: seq<Id>)
    ensures forall k :: k in r <==> k in t.rows
    ensures forall i, j :: 0 <= i < j < |r| ==> r[i] < r[j]
  {
    Select(t, (x: T) => true)
  }
}
