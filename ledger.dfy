/** The result ledger of db_utils.py: one row per file id in an SQLite table
    whose `data` column holds the record as JSON. Since `json.loads` undoes
    `json.dumps` on the records the backend writes, the table is modelled as
    a map from file id to record held in a class, and each operation as a
    method on it that reassigns the map. */
module Ledger {
  import opened Types

  /** A JSON value. */
  datatype Value =
    | Null
    | Bool(b: bool)
    | Int(i: int)
    | Str(s: string)
    | List(items: seq<Value>)
    | Object(fields: map<string, Value>)

  /** A decoded row: a JSON object. */
  type Record = map<string, Value>

  type Table = map<string, Record>

  // ----- the operations on values of the table -----

  /** `REPLACE INTO results (file_id, data)`: insert or wholly replace. */
  function Save(t: Table, fileId: string, data: Record): (t': Table)
    ensures fileId in t' && t'[fileId] == data
    ensures t'.Keys == t.Keys + {fileId}
    ensures forall id :: id in t && id != fileId ==> id in t' && t'[id] == t[id]
  {
    t[fileId := data]
  }

  /** `SELECT data ... WHERE file_id=?`: the record, or None without a row. */
  function Load(t: Table, fileId: string): (r: Option<Record>)
    ensures r.Some? <==> fileId in t
    ensures r.Some? ==> r.value == t[fileId]
  {
    if fileId in t then Some(t[fileId]) else None
  }

  /** The read-modify-write of `update_result_field`: set one field of an
      existing row; an absent id leaves the table as it is. */
  function UpdateField(t: Table, fileId: string, field: string, value: Value): (t': Table)
    ensures t'.Keys == t.Keys
  {
    match Load(t, fileId)
    case None => t
    case Some(data) => Save(t, fileId, data[field := value])
  }

  /** `DELETE FROM results WHERE file_id=?`. */
  function Delete(t: Table, fileId: string): (t': Table)
    ensures fileId !in t'
    ensures t'.Keys == t.Keys - {fileId}
    ensures forall id :: id in t' ==> t'[id] == t[id]
  {
    t - {fileId}
  }

  // ----- the properties the source relies on -----

  /** Loading after saving gives the saved record back, wholly replacing any
      earlier one, and no other id is affected. */
  lemma LoadAfterSave(t: Table, fileId: string, data: Record, other: string)
    ensures Load(Save(t, fileId, data), fileId) == Some(data)
    ensures other != fileId ==> Load(Save(t, fileId, data), other) == Load(t, other)
  {
  }

  /** An id that was deleted, or never saved, loads as None; deleting touches
      no other id. */
  lemma LoadAfterDelete(t: Table, fileId: string, other: string)
    ensures Load(Delete(t, fileId), fileId) == None
    ensures other != fileId ==> Load(Delete(t, fileId), other) == Load(t, other)
    ensures fileId !in t ==> Load(t, fileId) == None
  {
  }

  /** On an existing id, updating a field changes that field alone; all
      other fields and all other ids keep their values. */
  lemma UpdateChangesOneField(t: Table, fileId: string, field: string, value: Value)
    requires fileId in t
    ensures Load(UpdateField(t, fileId, field, value), fileId) == Some(t[fileId][field := value])
    ensures var t' := UpdateField(t, fileId, field, value);
      && t'[fileId].Keys == t[fileId].Keys + {field}
      && (forall f :: f in t[fileId] && f != field ==> t'[fileId][f] == t[fileId][f])
      && (forall id :: id in t && id != fileId ==> t'[id] == t[id])
  {
  }

  /** On an absent id, updating a field is a no-op: no row is created. */
  lemma UpdateAbsentIsNoop(t: Table, fileId: string, field: string, value: Value)
    requires fileId !in t
    ensures UpdateField(t, fileId, field, value) == t
    ensures Load(UpdateField(t, fileId, field, value), fileId) == None
  {
  }

  /** Saving the same record twice leaves the state that saving it once does. */
  lemma SaveIdempotent(t: Table, fileId: string, data: Record)
    ensures Save(Save(t, fileId, data), fileId, data) == Save(t, fileId, data)
  {
  }

  /** A second save under the same id wholly overwrites the first. */
  lemma SaveOverwrites(t: Table, fileId: string, first: Record, second: Record)
    ensures Save(Save(t, fileId, first), fileId, second) == Save(t, fileId, second)
  {
  }

  /** Saving a record and then deleting its id restores a table that never
      had that id. */
  lemma DeleteUndoesSave(t: Table, fileId: string, data: Record)
    requires fileId !in t
    ensures Delete(Save(t, fileId, data), fileId) == t
  {
  }

  /** The persistent `results` table. */
  class ResultStore {
    var results: Table

    /** `init_db` on a fresh database: the table exists and is empty. */
    constructor ()
      ensures results == map[]
    {
      results := map[];
    }

    /** `save_result(file_id, data)`. */
    method SaveResult(fileId: string, data: Record)
      modifies this
      ensures results == Save(old(results), fileId, data)
    {
      results := results[fileId := data];
    }

    /** `load_result(file_id)`. */
    method LoadResult(fileId: string) returns (r: Option<Record>)
      ensures r.Some? <==> fileId in results
      ensures r.Some? ==> r.value == results[fileId]
    {
      if fileId in results {
        r := Some(results[fileId]);
      } else {
        r := None;
      }
    }

    /** `update_result_field(file_id, field, value)`: one read, then one
        write when a row was found. */
    method UpdateResultField(fileId: string, field: string, value: Value)
      modifies this
      ensures results == UpdateField(old(results), fileId, field, value)
    {
      var row := LoadResult(fileId);
      if row.Some? {
        var data := row.value[field := value];
        SaveResult(fileId, data);
      }
    }

    /** `load_all_results()`: every stored id with its record. */
    method LoadAllResults() returns (all: Table)
      ensures all.Keys == results.Keys
      ensures forall id :: id in all ==> Load(results, id) == Some(all[id])
    {
      all := results;
    }

    /** `delete_result(file_id)`. */
    method DeleteResult(fileId: string)
      modifies this
      ensures results == Delete(old(results), fileId)
    {
      results := results - {fileId};
    }
  }
}
