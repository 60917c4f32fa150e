/**
  What one or two calls of a handler do to the table, stated about `Step`
  (which `Table.Reconcile` is proved to follow).
*/
module Properties {
  import opened Wrappers
  import opened Reconciler

  /** No row under the incoming key: a row holding exactly the supplied values is added, answer 201. */
  lemma InsertWhenAbsent<V>(s: Schema, rows: Rows<V>, data: Payload<V>)
    requires RowsValid(s, rows)
    requires Field(data, s.key) !in rows
    ensures var r := Step(s, rows, data, NoFault);
      && r.outcome == Created && StatusCode(r.outcome) == 201
      && r.rows.Keys == rows.Keys + {Field(data, s.key)}
      && r.rows[Field(data, s.key)].Keys == s.ColumnSet()
      && forall c :: c in s.columns ==> r.rows[Field(data, s.key)][c] == Field(data, c)
  {
  }

  /**
    A row exists and its stored freshness differs from the incoming one: every
    non-key column takes the incoming value, the key column keeps the key, answer 200.
  */
  lemma UpdateWhenFreshnessDiffers<V>(s: Schema, rows: Rows<V>, data: Payload<V>)
    requires RowsValid(s, rows)
    requires Field(data, s.key) in rows
    requires rows[Field(data, s.key)][s.freshness] != Field(data, s.freshness)
    ensures var r := Step(s, rows, data, NoFault);
      && r.outcome == Updated && StatusCode(r.outcome) == 200
      && r.rows.Keys == rows.Keys
      && r.rows[Field(data, s.key)][s.key] == Field(data, s.key)
      && (forall c :: c in s.columns && c != s.key ==> r.rows[Field(data, s.key)][c] == Field(data, c))
      && r.rows[Field(data, s.key)] == RecordOf(s, data)
  {
    var key := Field(data, s.key);
    var r := Step(s, rows, data, NoFault);
    assert r.rows[key] == Overwrite(s, rows[key], RecordOf(s, data));
    assert r.rows[key] == RecordOf(s, data);
  }

  /** The update branch, for one non-key column: the stored value becomes the incoming one. */
  lemma UpdateOverwritesColumn<V>(s: Schema, rows: Rows<V>, data: Payload<V>, c: Column)
    requires RowsValid(s, rows)
    requires Field(data, s.key) in rows
    requires rows[Field(data, s.key)][s.freshness] != Field(data, s.freshness)
    requires c in s.columns && c != s.key
    ensures var r := Step(s, rows, data, NoFault);
      && r.outcome == Updated
      && Field(data, s.key) in r.rows && c in r.rows[Field(data, s.key)]
      && r.rows[Field(data, s.key)][c] == Field(data, c)
  {
    UpdateWhenFreshnessDiffers(s, rows, data);
  }

  /**
    A row exists and its stored freshness equals the incoming one: nothing is
    written. The answer is 200 unless opening the connection, the SELECT, or
    the rollback when the connection closes fails; then it is 500.
  */
  lemma UnchangedWhenSameFreshness<V>(s: Schema, rows: Rows<V>, data: Payload<V>, fault: Fault)
    requires RowsValid(s, rows)
    requires Field(data, s.key) in rows
    requires rows[Field(data, s.key)][s.freshness] == Field(data, s.freshness)
    ensures var r := Step(s, rows, data, fault);
      && r.rows == rows
      && (r.outcome == Unchanged <==> fault in {NoFault, WriteFails, CommitFails})
      && (StatusCode(r.outcome) == 200 <==> r.outcome == Unchanged)
      && (r.outcome != Unchanged ==> r.outcome == Failed)
  {
  }

  /**
    A call answers 500 exactly when storage fails before the lookup completes,
    fails on a branch that writes, or fails closing the connection on the
    branch that does not write; then nothing is committed.
  */
  lemma FailureCommitsNothing<V>(s: Schema, rows: Rows<V>, data: Payload<V>, fault: Fault)
    requires RowsValid(s, rows)
    ensures var r := Step(s, rows, data, fault);
      && (StatusCode(r.outcome) == 500 <==>
            (fault == ConnectFails || fault == SelectFails ||
             ((fault == WriteFails || fault == CommitFails) &&
              (Field(data, s.key) !in rows || rows[Field(data, s.key)][s.freshness] != Field(data, s.freshness))) ||
             (fault == CloseFails &&
              Field(data, s.key) in rows && rows[Field(data, s.key)][s.freshness] == Field(data, s.freshness))))
      && (StatusCode(r.outcome) == 500 ==> r.rows == rows)
  {
  }

  /**
    A call on which storage fails before anything could be committed never
    changes the table: it either answers 500, or takes the no-op branch,
    which writes and commits nothing.
  */
  lemma BlockingFaultWritesNothing<V>(s: Schema, rows: Rows<V>, data: Payload<V>, fault: Fault)
    requires RowsValid(s, rows)
    requires fault.BlocksCommit()
    ensures Step(s, rows, data, fault).rows == rows
    ensures Step(s, rows, data, fault).outcome in {Failed, Unchanged}
  {
  }

  /** On a branch that writes, the close comes after the commit, so failing there changes nothing. */
  lemma CloseFailureAfterWrite<V>(s: Schema, rows: Rows<V>, data: Payload<V>)
    requires RowsValid(s, rows)
    requires Field(data, s.key) !in rows || rows[Field(data, s.key)][s.freshness] != Field(data, s.freshness)
    ensures Step(s, rows, data, CloseFails) == Step(s, rows, data, NoFault)
  {
    var key, record := Field(data, s.key), RecordOf(s, data);
    if key !in rows {
      var written := Inserted(s, rows, record);
      assert Step(s, rows, data, CloseFails) == Response(Created, written);
      assert Step(s, rows, data, NoFault) == Response(Created, written);
    } else {
      var written := Overwritten(s, rows, record);
      assert Step(s, rows, data, CloseFails) == Response(Updated, written);
      assert Step(s, rows, data, NoFault) == Response(Updated, written);
    }
  }

  /**
    A failure closing the connection commits what a fault-free call commits:
    after an insert or update the write is already committed and the call
    answers as usual; on the no-op branch the rollback fails and it answers 500.
  */
  lemma CloseFailureCommitsAsFaultFree<V>(s: Schema, rows: Rows<V>, data: Payload<V>)
    requires RowsValid(s, rows)
    ensures var closing, clean := Step(s, rows, data, CloseFails), Step(s, rows, data, NoFault);
      && closing.rows == clean.rows
      && closing.outcome == (if clean.outcome == Unchanged then Failed else clean.outcome)
  {
    var key := Field(data, s.key);
    if key in rows && rows[key][s.freshness] == Field(data, s.freshness) {
      UnchangedWhenSameFreshness(s, rows, data, CloseFails);
      UnchangedWhenSameFreshness(s, rows, data, NoFault);
    } else {
      CloseFailureAfterWrite(s, rows, data);
    }
  }

  /**
    After any call that did not fail, the row for the incoming key exists and
    its freshness column holds the incoming freshness value.
  */
  lemma AcceptedFreshnessIsStored<V>(s: Schema, rows: Rows<V>, data: Payload<V>, fault: Fault)
    requires RowsValid(s, rows)
    ensures var r := Step(s, rows, data, fault);
      r.outcome != Failed ==>
        && Field(data, s.key) in r.rows
        && r.rows[Field(data, s.key)][s.freshness] == Field(data, s.freshness)
  {
    var key, record := Field(data, s.key), RecordOf(s, data);
    RecordHoldsField(s, data, s.key);
    RecordHoldsField(s, data, s.freshness);
    var r := Step(s, rows, data, fault);
    if r.outcome == Created {
      assert r.rows[key] == record;
    } else if r.outcome == Updated {
      assert r.rows[key] == Overwrite(s, rows[key], record);
    }
  }

  /** Only the row under the incoming key is touched: every other key's row is identical before and after. */
  lemma OtherRowsUntouched<V>(s: Schema, rows: Rows<V>, data: Payload<V>, fault: Fault, k: Option<V>)
    requires RowsValid(s, rows)
    requires k != Field(data, s.key)
    ensures var r := Step(s, rows, data, fault);
      && (k in r.rows <==> k in rows)
      && (k in rows ==> r.rows[k] == rows[k])
  {
  }

  /** The set of keys grows by at most one per call, and only when the call inserts. */
  lemma KeysGrowOnlyOnInsert<V>(s: Schema, rows: Rows<V>, data: Payload<V>, fault: Fault)
    requires RowsValid(s, rows)
    ensures var r := Step(s, rows, data, fault);
      && rows.Keys <= r.rows.Keys
      && |r.rows.Keys| <= |rows.Keys| + 1
      && (|r.rows.Keys| == |rows.Keys| + 1 <==> r.outcome == Created)
  {
    var key := Field(data, s.key);
    var r := Step(s, rows, data, fault);
    if r.outcome == Created {
      assert |rows.Keys + {key}| == |rows.Keys| + 1;
    }
  }

  /**
    Applying the same request twice: the first call creates, updates or
    leaves the row, the second is a no-op answering 200, and the table after
    the second call equals the table after the first.
  */
  lemma Idempotent<V>(s: Schema, rows: Rows<V>, data: Payload<V>)
    requires RowsValid(s, rows)
    ensures var first := Step(s, rows, data, NoFault);
      var second := Step(s, first.rows, data, NoFault);
      && first.outcome != Failed
      && second.outcome == Unchanged && StatusCode(second.outcome) == 200
      && second.rows == first.rows
  {
    AcceptedFreshnessIsStored(s, rows, data, NoFault);
  }

  /**
    Two requests for the same key whose freshness values differ: the second
    performs exactly one update and leaves the second freshness value stored.
  */
  lemma ChangeIsWrittenOnce<V>(s: Schema, rows: Rows<V>, data1: Payload<V>, data2: Payload<V>)
    requires RowsValid(s, rows)
    requires Field(data1, s.key) == Field(data2, s.key)
    requires Field(data1, s.freshness) != Field(data2, s.freshness)
    ensures var first := Step(s, rows, data1, NoFault);
      var second := Step(s, first.rows, data2, NoFault);
      && second.outcome == Updated
      && second.rows == first.rows[Field(data2, s.key) := RecordOf(s, data2)]
      && second.rows[Field(data2, s.key)][s.freshness] == Field(data2, s.freshness)
  {
    var first := Step(s, rows, data1, NoFault);
    AcceptedFreshnessIsStored(s, rows, data1, NoFault);
    UpdateWhenFreshnessDiffers(s, first.rows, data2);
  }

  /** The record bound for a column holds the request's value for it. */
  lemma RecordHoldsField<V>(s: Schema, data: Payload<V>, c: Column)
    requires c in s.columns
    ensures c in RecordOf(s, data) && RecordOf(s, data)[c] == Field(data, c)
  {
  }

  /** Members of the request body outside the table's columns are ignored. */
  lemma ExtraMembersIgnored<V>(s: Schema, data: Payload<V>, extra: Payload<V>)
    requires extra.Keys !! s.ColumnSet()
    ensures RecordOf(s, data + extra) == RecordOf(s, data)
  {
    var r, r' := RecordOf(s, data + extra), RecordOf(s, data);
    forall c | c in s.ColumnSet() ensures r[c] == r'[c] {
      assert Field(data + extra, c) == Field(data, c);
    }
  }
}
