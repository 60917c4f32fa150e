/**
  The freshness-gated reconciliation shared by the `/update/builds` and
  `/update/feed` handlers of src/app.py: look the incoming key up, insert when
  there is no row, overwrite the non-key columns when the stored freshness
  value differs from the incoming one, and do nothing when they are equal.
  The persisted table is a map from key value to row; a row maps every column
  of the table to an optional value.
*/
module Reconciler {
  import opened Wrappers

  type Column = string

  /** A row of a table, or the record built from a request: column name to value. */
  type Row<V> = map<Column, Option<V>>

  /** A parsed JSON request body: member name to value, JSON null as `None`. */
  type Payload<V> = map<string, Option<V>>

  /** The persisted table: key value to the whole row (key column included). */
  type Rows<V(==)> = map<Option<V>, Row<V>>

  /** Which table a handler reconciles against: its key column, its freshness column, all its columns. */
  datatype Schema = Schema(key: Column, freshness: Column, columns: seq<Column>)
  {
    predicate WellFormed() {
      key in columns && freshness in columns && key != freshness
    }

    function ColumnSet(): set<Column> {
      set c | c in columns
    }
  }

  /**
    Where the storage layer raises, if it does: opening the connection, the
    SELECT, the INSERT/UPDATE, the commit, or closing the connection at the
    end of the `with` block while the SELECT's transaction is still open (only
    on the no-op branch, which never commits, so the close rolls it back).
  */
  datatype Fault = NoFault | ConnectFails | SelectFails | WriteFails | CommitFails | CloseFails
  {
    /** The fault stops the call before it can commit anything. */
    predicate BlocksCommit() {
      this != NoFault && this != CloseFails
    }
  }

  /** What a handler did; `StatusCode` gives the HTTP status it answers with. */
  datatype Outcome = Created | Updated | Unchanged | Failed

  function StatusCode(o: Outcome): (code: int)
    ensures code == 201 <==> o == Created
    ensures code == 200 <==> (o == Updated || o == Unchanged)
    ensures code == 500 <==> o == Failed
  {
    match o
    case Created => 201
    case Updated => 200
    case Unchanged => 200
    case Failed => 500
  }

  /** `data.get(c)`: the member's value, `None` when it is absent. */
  function Field<V>(data: Payload<V>, c: Column): (v: Option<V>)
    ensures c in data ==> v == data[c]
    ensures c !in data ==> v == None
  {
    if c in data then data[c] else None
  }

  /** The record a handler binds as statement parameters: one entry per column of the table, nothing else. */
  function RecordOf<V>(s: Schema, data: Payload<V>): (r: Row<V>)
    ensures r.Keys == s.ColumnSet()
  {
    map c | c in s.ColumnSet() :: Field(data, c)
  }

  /** Every stored row has exactly the table's columns and holds its own key in the key column. */
  ghost predicate RowsValid<V>(s: Schema, rows: Rows<V>) {
    && s.WellFormed()
    && forall k :: k in rows ==> rows[k].Keys == s.ColumnSet() && s.key in rows[k] && rows[k][s.key] == k
  }

  /** `UPDATE ... SET <every non-key column> = :value WHERE <key> = :key` applied to one stored row. */
  function Overwrite<V>(s: Schema, stored: Row<V>, incoming: Row<V>): (r: Row<V>)
    requires stored.Keys <= incoming.Keys
    ensures r.Keys == stored.Keys
    ensures s.key in stored ==> r[s.key] == stored[s.key]
  {
    map c | c in stored :: if c == s.key then stored[c] else incoming[c]
  }

  /** The table once the `INSERT` of a record is committed. */
  function Inserted<V>(s: Schema, rows: Rows<V>, record: Row<V>): (r: Rows<V>)
    requires RowsValid(s, rows) && record.Keys == s.ColumnSet()
    ensures RowsValid(s, r)
  {
    rows[record[s.key] := record]
  }

  /** The table once the `UPDATE` of the row under the record's key is committed. */
  function Overwritten<V>(s: Schema, rows: Rows<V>, record: Row<V>): (r: Rows<V>)
    requires RowsValid(s, rows) && record.Keys == s.ColumnSet() && record[s.key] in rows
    ensures RowsValid(s, r) && r.Keys == rows.Keys
  {
    var key := record[s.key];
    rows[key := Overwrite(s, rows[key], record)]
  }

  /** The effect of one request: the handler's outcome and the committed table afterwards. */
  datatype Response<V> = Response(outcome: Outcome, rows: Rows<V>)

  /**
    One call of a handler, as a function of the committed table, the request
    body and the point (if any) at which storage fails. Nothing is committed
    unless the call succeeds, and only the row under the incoming key can change.
  */
  function Step<V(==)>(s: Schema, rows: Rows<V>, data: Payload<V>, fault: Fault): (r: Response<V>)
    requires RowsValid(s, rows)
    ensures RowsValid(s, r.rows)
    ensures r.outcome == Failed ==> r.rows == rows
    ensures r.outcome == Created ==> Field(data, s.key) !in rows
    ensures r.rows.Keys == if r.outcome == Created then rows.Keys + {Field(data, s.key)} else rows.Keys
    ensures forall k :: k in rows && k != Field(data, s.key) ==> r.rows[k] == rows[k]
  {
    var key, record := Field(data, s.key), RecordOf(s, data);
    if fault == ConnectFails || fault == SelectFails then
      Response(Failed, rows)
    else if key !in rows then
      if fault == WriteFails || fault == CommitFails then Response(Failed, rows)
      else Response(Created, Inserted(s, rows, record))
    else if rows[key][s.freshness] != Field(data, s.freshness) then
      if fault == WriteFails || fault == CommitFails then Response(Failed, rows)
      else Response(Updated, Overwritten(s, rows, record))
    else if fault == CloseFails then
      Response(Failed, rows)
    else
      Response(Unchanged, rows)
  }

  /** A table whose committed contents the handlers update in place. */
  class Table<V(==)> {
    const schema: Schema
    var rows: Rows<V>

    ghost predicate Valid()
      reads this
    {
      RowsValid(schema, rows)
    }

    constructor (schema: Schema)
      requires schema.WellFormed()
      ensures Valid()
      ensures this.schema == schema && rows == map[]
    {
      this.schema := schema;
      rows := map[];
    }

    /** `SELECT <freshness> FROM <table> WHERE <key> = :key`, then `fetchone()`. */
    method SelectFreshness(key: Option<V>) returns (stored: Option<Option<V>>)
      requires Valid()
      ensures stored.Some? <==> key in rows
      ensures stored.Some? ==> stored.value == rows[key][schema.freshness]
    {
      if key in rows {
        stored := Some(rows[key][schema.freshness]);
      } else {
        stored := None;
      }
    }

    /**
      The body of a handler: bind the record, select the stored freshness,
      then insert, update or do nothing. A write is staged and becomes
      visible in `rows` only when the commit succeeds.
    */
    method Reconcile(data: Payload<V>, fault: Fault) returns (outcome: Outcome)
      requires Valid()
      modifies this
      ensures Valid()
      ensures outcome == Step(schema, old(rows), data, fault).outcome
      ensures rows == Step(schema, old(rows), data, fault).rows
    {
      ghost var expected := Step(schema, rows, data, fault);
      var key, record := Field(data, schema.key), RecordOf(schema, data);
      if fault == ConnectFails {
        return Failed;
      }
      var stored := SelectFreshness(key);
      if fault == SelectFails {
        return Failed;
      }
      match stored {
        case None =>
          if fault == WriteFails {
            return Failed;
          }
          var staged := Inserted(schema, rows, record);
          if fault == CommitFails {
            return Failed;
          }
          rows := staged;
          outcome := Created;
        case Some(freshness) =>
          if freshness != Field(data, schema.freshness) {
            if fault == WriteFails {
              return Failed;
            }
            var staged := Overwritten(schema, rows, record);
            if fault == CommitFails {
              return Failed;
            }
            rows := staged;
            outcome := Updated;
          } else {
            if fault == CloseFails {
              return Failed;
            }
            outcome := Unchanged;
          }
      }
    }
  }
}
