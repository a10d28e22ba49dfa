/**
 * An abstract relational table standing in for a PostgreSQL table with a
 * `SERIAL PRIMARY KEY id` column: rows in store order, each tagged with its
 * id, and the next value of the id sequence.
 *
 * PostgreSQL promises no row order for a `SELECT` without `ORDER BY`; this
 * model fixes one: insertion order, with an updated row kept in place.
 * "First matching row" (what `fetchone()` yields) is the first entry in that
 * order. The map view `ToMap` forgets the order and lets frame properties
 * be stated as map updates.
 */
module Tables {
  import opened Wrappers

  datatype Entry<R> = Entry(id: int, row: R)

  datatype Table<R> = Table(entries: seq<Entry<R>>, nextId: int)

  /** The first value a SERIAL column hands out. */
  const FIRST_ID: int := 1

  predicate DistinctIds<R>(es: seq<Entry<R>>) {
    forall i, j | 0 <= i < j < |es| :: es[i].id != es[j].id
  }

  /**
   * What the store guarantees of a SERIAL primary key: every id was handed
   * out by the sequence (so it lies in [FIRST_ID, nextId)) and no id repeats.
   */
  predicate Valid<R>(t: Table<R>) {
    && FIRST_ID <= t.nextId
    && (forall i | 0 <= i < |t.entries| :: FIRST_ID <= t.entries[i].id < t.nextId)
    && DistinctIds(t.entries)
  }

  /** The table as a map from id to row; the first entry with an id wins. */
  function ToMap<R>(es: seq<Entry<R>>): map<int, R>
    decreases |es|
  {
    if |es| == 0 then map[]
    else ToMap(es[1..])[es[0].id := es[0].row]
  }

  /** Index of the first entry satisfying `p`, or None when no entry does. */
  function FindFirst<R>(es: seq<Entry<R>>, p: Entry<R> -> bool): (r: Option<nat>)
    ensures r.None? <==> forall i | 0 <= i < |es| :: !p(es[i])
    ensures r.Some? ==> r.value < |es| && p(es[r.value])
    ensures r.Some? ==> forall j | 0 <= j < r.value :: !p(es[j])
    decreases |es|
  {
    if |es| == 0 then None
    else if p(es[0]) then Some(0)
    else match FindFirst(es[1..], p)
      case None => None
      case Some(k) => Some(k + 1)
  }

  function HasId<R>(id: int): Entry<R> -> bool {
    (e: Entry<R>) => e.id == id
  }

  /** `SELECT ... WHERE id = %s` followed by `fetchone()`. */
  function FindById<R>(t: Table<R>, id: int): (r: Option<Entry<R>>)
    ensures r.None? <==> forall i | 0 <= i < |t.entries| :: t.entries[i].id != id
    ensures r.Some? ==> r.value.id == id && r.value in t.entries
    ensures r.Some? ==> id in ToMap(t.entries) && r.value.row == ToMap(t.entries)[id]
  {
    ToMapFirst(t.entries, id);
    match FindFirst(t.entries, HasId(id))
    case None => None
    case Some(i) => Some(t.entries[i])
  }

  /** `INSERT ... RETURNING id`: append one row under the next id of the sequence. */
  function Insert<R>(t: Table<R>, row: R): (r: (Table<R>, int))
    ensures r.0.entries == t.entries + [Entry(r.1, row)]
    ensures Valid(t) ==> && Valid(r.0)
                         && FIRST_ID <= r.1
                         && r.1 !in ToMap(t.entries)
                         && ToMap(r.0.entries) == ToMap(t.entries)[r.1 := row]
  {
    var id := t.nextId;
    var t' := Table(t.entries + [Entry(id, row)], id + 1);
    if Valid(t) then
      ToMapAppendFresh(t.entries, Entry(id, row));
      (t', id)
    else
      (t', id)
  }

  function UpdateEntries<R>(es: seq<Entry<R>>, id: int, f: R -> R): (r: seq<Entry<R>>)
    ensures |r| == |es|
    ensures forall i | 0 <= i < |es| :: r[i].id == es[i].id
    ensures forall i | 0 <= i < |es| && es[i].id == id :: r[i].row == f(es[i].row)
    ensures forall i | 0 <= i < |es| && es[i].id != id :: r[i] == es[i]
    decreases |es|
  {
    if |es| == 0 then []
    else
      var e := if es[0].id == id then Entry(id, f(es[0].row)) else es[0];
      [e] + UpdateEntries(es[1..], id, f)
  }

  /** `UPDATE ... SET ... WHERE id = %s`: rewrite the matching rows with `f`, none if no row matches. */
  function Update<R>(t: Table<R>, id: int, f: R -> R): (t': Table<R>)
    ensures t'.nextId == t.nextId
    ensures |t'.entries| == |t.entries|
    ensures forall i | 0 <= i < |t.entries| :: t'.entries[i].id == t.entries[i].id
    ensures forall i | 0 <= i < |t.entries| && t.entries[i].id == id :: t'.entries[i].row == f(t.entries[i].row)
    ensures forall i | 0 <= i < |t.entries| && t.entries[i].id != id :: t'.entries[i] == t.entries[i]
    ensures ToMap(t'.entries) == if id in ToMap(t.entries) then ToMap(t.entries)[id := f(ToMap(t.entries)[id])]
                                 else ToMap(t.entries)
    ensures Valid(t) ==> Valid(t')
  {
    var es' := UpdateEntries(t.entries, id, f);
    ToMapUpdate(t.entries, id, f);
    Table(es', t.nextId)
  }

  function DeleteEntries<R>(es: seq<Entry<R>>, id: int): (r: seq<Entry<R>>)
    ensures forall i | 0 <= i < |r| :: r[i] in es && r[i].id != id
    ensures forall i | 0 <= i < |es| && es[i].id != id :: es[i] in r
    ensures |r| <= |es|
    decreases |es|
  {
    if |es| == 0 then []
    else if es[0].id == id then DeleteEntries(es[1..], id)
    else [es[0]] + DeleteEntries(es[1..], id)
  }

  /** `DELETE ... WHERE id = %s`: drop every row with that id. */
  function Delete<R>(t: Table<R>, id: int): (t': Table<R>)
    ensures t'.nextId == t.nextId
    ensures ToMap(t'.entries) == ToMap(t.entries) - {id}
    ensures Valid(t) ==> Valid(t')
    ensures Valid(t) && id in ToMap(t.entries) ==> |t'.entries| == |t.entries| - 1
    ensures id !in ToMap(t.entries) ==> t' == t
  {
    ToMapDelete(t.entries, id);
    DeleteCount(t.entries, id);
    DeleteKeepsDistinct(t.entries, id);
    Table(DeleteEntries(t.entries, id), t.nextId)
  }

  // ---------------------------------------------------------------------
  // Lemmas about the map view

  /** An id is a key of the map view exactly when some entry carries it. */
  lemma {:induction false} ToMapKeys<R>(es: seq<Entry<R>>, id: int)
    ensures id in ToMap(es) <==> exists i | 0 <= i < |es| :: es[i].id == id
    decreases |es|
  {
    if |es| > 0 {
      ToMapKeys(es[1..], id);
      if id in ToMap(es[1..]) {
        var i :| 0 <= i < |es[1..]| && es[1..][i].id == id;
        assert es[i + 1].id == id;
      }
      if exists i | 0 <= i < |es| :: es[i].id == id {
        var i :| 0 <= i < |es| && es[i].id == id;
        if i > 0 {
          assert es[1..][i - 1].id == id;
        }
      }
    }
  }

  /** The map view agrees with the first entry carrying the id. */
  lemma {:induction false} ToMapFirst<R>(es: seq<Entry<R>>, id: int)
    ensures var i := FindFirst(es, HasId(id));
            && (id in ToMap(es) <==> i.Some?)
            && (i.Some? ==> ToMap(es)[id] == es[i.value].row)
    decreases |es|
  {
    if |es| > 0 && es[0].id != id {
      ToMapFirst(es[1..], id);
    }
  }

  lemma {:induction false} ToMapAppendFresh<R>(es: seq<Entry<R>>, e: Entry<R>)
    requires forall i | 0 <= i < |es| :: es[i].id != e.id
    ensures e.id !in ToMap(es)
    ensures ToMap(es + [e]) == ToMap(es)[e.id := e.row]
    decreases |es|
  {
    if |es| > 0 {
      assert (es + [e])[1..] == es[1..] + [e];
      ToMapAppendFresh(es[1..], e);
    }
  }

  lemma {:induction false} ToMapUpdate<R>(es: seq<Entry<R>>, id: int, f: R -> R)
    ensures var m := ToMap(es);
            ToMap(UpdateEntries(es, id, f)) == if id in m then m[id := f(m[id])] else m
    decreases |es|
  {
    if |es| > 0 {
      var us := UpdateEntries(es, id, f);
      assert us[1..] == UpdateEntries(es[1..], id, f);
      ToMapUpdate(es[1..], id, f);
      assert ToMap(us) == ToMap(us[1..])[us[0].id := us[0].row];
    }
  }

  lemma {:induction false} ToMapDelete<R>(es: seq<Entry<R>>, id: int)
    ensures ToMap(DeleteEntries(es, id)) == ToMap(es) - {id}
    decreases |es|
  {
    if |es| > 0 {
      ToMapDelete(es[1..], id);
      if es[0].id != id {
        var ds := [es[0]] + DeleteEntries(es[1..], id);
        assert ds[1..] == DeleteEntries(es[1..], id);
        assert ToMap(ds) == ToMap(ds[1..])[es[0].id := es[0].row];
      }
    }
  }

  /** Deleting keeps the surviving ids distinct. */
  lemma {:induction false} DeleteKeepsDistinct<R>(es: seq<Entry<R>>, id: int)
    ensures DistinctIds(es) ==> DistinctIds(DeleteEntries(es, id))
    decreases |es|
  {
    if |es| > 0 && DistinctIds(es) {
      var rest := DeleteEntries(es[1..], id);
      assert DistinctIds(es[1..]);
      DeleteKeepsDistinct(es[1..], id);
      if es[0].id != id {
        var r := [es[0]] + rest;
        forall i, j | 0 <= i < j < |r| ensures r[i].id != r[j].id {
          if i == 0 {
            assert r[j] == rest[j - 1];
            assert rest[j - 1] in es[1..];
          } else {
            assert r[i] == rest[i - 1] && r[j] == rest[j - 1];
          }
        }
      }
    }
  }

  /** Deleting an absent id changes nothing; with distinct ids, a present one costs exactly one row. */
  lemma {:induction false} DeleteCount<R>(es: seq<Entry<R>>, id: int)
    ensures id !in ToMap(es) ==> DeleteEntries(es, id) == es
    ensures DistinctIds(es) && id in ToMap(es) ==> |DeleteEntries(es, id)| == |es| - 1
    decreases |es|
  {
    if |es| > 0 {
      DeleteCount(es[1..], id);
      ToMapKeys(es[1..], id);
      if DistinctIds(es) {
        assert DistinctIds(es[1..]);
      }
    }
  }

  /** With distinct ids, every entry is what the map view holds for its id. */
  lemma ToMapDistinct<R>(es: seq<Entry<R>>, i: nat)
    requires DistinctIds(es)
    requires i < |es|
    ensures es[i].id in ToMap(es) && ToMap(es)[es[i].id] == es[i].row
  {
    ToMapFirst(es, es[i].id);
    assert HasId<R>(es[i].id)(es[i]);
  }
}
