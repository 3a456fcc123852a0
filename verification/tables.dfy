/** Repositories as tables: a finite map from ids to rows plus the next id
    the database will hand out (identity generation). Finders that select
    by attributes scan the ids in increasing order, so a finder that
    returns one row returns the first match. */
module Tables {
  import opened Common

  type Id = nat

  datatype RawTable<T> = RawTable(rows: map<Id, T>, next: Id)

  /** Every stored id is below the next id to be issued. */
  type Table<T> = t: RawTable<T> | forall k :: k in t.rows ==> k < t.next
    witness RawTable(map[], 0)

  function Empty<T>(): (t: Table<T>)
    ensures t.rows == map[]
  {
    RawTable(map[], 0)
  }

  /** `repository.findById(id)`, with absence reported as `e`. */
  function Lookup<T>(t: Table<T>, id: Id, e: Error): (r: Result<T>)
    ensures r.Ok? <==> id in t.rows
    ensures r.Ok? ==> r.value == t.rows[id]
    ensures r.Err? ==> r.error == e
  {
    if id in t.rows then Ok(t.rows[id]) else Err(e)
  }

  /** `repository.save(x)` of a new entity: it gets the next id. */
  function Insert<T>(t: Table<T>, x: T): (r: (Table<T>, Id))
    ensures r.1 == t.next && r.1 !in t.rows
    ensures r.0.rows == t.rows[r.1 := x]
    ensures r.0.next == t.next + 1
  {
    (RawTable(t.rows[t.next := x], t.next + 1), t.next)
  }

  /** `repository.save(x)` of an entity that already has id `k`. */
  function Put<T>(t: Table<T>, k: Id, x: T): (r: Table<T>)
    requires k in t.rows
    ensures r.rows == t.rows[k := x] && r.rows.Keys == t.rows.Keys
    ensures r.next == t.next
  {
    RawTable(t.rows[k := x], t.next)
  }

  /** Saves a batch of rows that all exist already. */
  function PutAll<T>(t: Table<T>, m: map<Id, T>): (r: Table<T>)
    requires m.Keys <= t.rows.Keys
    ensures r.rows.Keys == t.rows.Keys && r.next == t.next
    ensures forall k :: k in m ==> r.rows[k] == m[k]
    ensures forall k :: k in t.rows && k !in m ==> r.rows[k] == t.rows[k]
  {
    RawTable(t.rows + m, t.next)
  }

  /** `repository.delete(x)` */
  function Remove<T>(t: Table<T>, k: Id): (r: Table<T>)
    ensures r.rows == t.rows - {k} && r.next == t.next
  {
    RawTable(t.rows - {k}, t.next)
  }

  /** The first id in `[lo, hi)` whose row satisfies `p`. */
  function ScanFrom<T>(rows: map<Id, T>, p: T -> bool, lo: nat, hi: nat): (r: Option<Id>)
    ensures r.Some? ==> lo <= r.value < hi && r.value in rows && p(rows[r.value])
    ensures r.Some? ==> forall k :: lo <= k < r.value && k in rows ==> !p(rows[k])
    ensures r.None? ==> forall k :: lo <= k < hi && k in rows ==> !p(rows[k])
    decreases hi - lo
  {
    if lo >= hi then None
    else if lo in rows && p(rows[lo]) then Some(lo)
    else ScanFrom(rows, p, lo + 1, hi)
  }

  /** A finder returning at most one row: the matching row with the
      smallest id, or `None` when no row matches. */
  function FindFirst<T>(t: Table<T>, p: T -> bool): (r: Option<Id>)
    ensures r.Some? ==> r.value in t.rows && p(t.rows[r.value])
    ensures r.Some? ==> forall k :: k in t.rows && k < r.value ==> !p(t.rows[k])
    ensures r.None? <==> forall k :: k in t.rows ==> !p(t.rows[k])
  {
    ScanFrom(t.rows, p, 0, t.next)
  }

  /** The ids in `[lo, hi)` whose rows satisfy `p`, in increasing order. */
  function SelectFrom<T>(rows: map<Id, T>, p: T -> bool, lo: nat, hi: nat): (r: seq<Id>)
    ensures forall i :: 0 <= i < |r| ==> lo <= r[i] < hi && r[i] in rows && p(rows[r[i]])
    ensures forall k :: lo <= k < hi && k in rows && p(rows[k]) ==> k in r
    ensures forall i, j :: 0 <= i < j < |r| ==> r[i] < r[j]
    decreases hi - lo
  {
    if lo >= hi then []
    else if lo in rows && p(rows[lo]) then [lo] + SelectFrom(rows, p, lo + 1, hi)
    else SelectFrom(rows, p, lo + 1, hi)
  }

  /** A list finder: the ids of all rows satisfying `p`, in id order. */
  function Select<T>(t: Table<T>, p: T -> bool): (r: seq<Id>)
    ensures forall i :: 0 <= i < |r| ==> r[i] in t.rows && p(t.rows[r[i]])
    ensures forall k :: k in t.rows && p(t.rows[k]) ==> k in r
    ensures forall i, j :: 0 <= i < j < |r| ==> r[i] < r[j]
  {
    SelectFrom(t.rows, p, 0, t.next)
  }

  /** Two tables that agree on their ids and on `p` select the same ids. */
  lemma {:induction false} SelectFromAgrees<T>(rows: map<Id, T>, rows': map<Id, T>, p: T -> bool, p': T -> bool, lo: nat, hi: nat)
    requires rows.Keys == rows'.Keys
    requires forall k :: k in rows ==> p(rows[k]) == p'(rows'[k])
    ensures SelectFrom(rows, p, lo, hi) == SelectFrom(rows', p', lo, hi)
    decreases hi - lo
  {
    if lo < hi {
      SelectFromAgrees(rows, rows', p, p', lo + 1, hi);
    }
  }

  lemma SelectAgrees<T>(t: Table<T>, t': Table<T>, p: T -> bool, p': T -> bool)
    requires t.rows.Keys == t'.rows.Keys && t.next == t'.next
    requires forall k :: k in t.rows ==> p(t.rows[k]) == p'(t'.rows[k])
    ensures Select(t, p) == Select(t', p')
  {
    SelectFromAgrees(t.rows, t'.rows, p, p', 0, t.next);
  }

  /** Two tables that agree on their ids and on `p` find the same row. */
  lemma FindFirstAgrees<T>(t: Table<T>, t': Table<T>, p: T -> bool, p': T -> bool)
    requires t.rows.Keys == t'.rows.Keys
    requires forall k :: k in t.rows ==> p(t.rows[k]) == p'(t'.rows[k])
    ensures FindFirst(t, p) == FindFirst(t', p')
  {
    var a, b := FindFirst(t, p), FindFirst(t', p');
    if a.Some? && b.Some? {
      assert !(a.value < b.value) && !(b.value < a.value);
    }
  }
  /** A new row goes under the largest id, so it is found only when no
      older row matches. */
  lemma FindFirstAfterInsert<T>(t: Table<T>, x: T, p: T -> bool)
    ensures FindFirst(t, p).Some? ==> FindFirst(Insert(t, x).0, p) == FindFirst(t, p)
    ensures FindFirst(t, p).None? && p(x) ==> FindFirst(Insert(t, x).0, p) == Some(t.next)
    ensures FindFirst(t, p).None? && !p(x) ==> FindFirst(Insert(t, x).0, p).None?
  {
    var t' := Insert(t, x).0;
    var a, b := FindFirst(t, p), FindFirst(t', p);
    if a.Some? {
      assert b.Some? && b.value <= a.value;
      assert b.value in t.rows;
    }
  }
}
