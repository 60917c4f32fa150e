/**
  Sequences of requests against one table, each call applied to the table the
  previous one committed: calls whose storage fault stops them before a commit
  leave no trace, the stored freshness of a key is the one of the latest
  request for it that no such fault stopped, and the table gains at most one
  key per such request.
*/
module History {
  import opened Wrappers
  import opened Reconciler
  import Properties

  /** One request to a handler, with the point at which storage fails, if any. */
  datatype Call<V> = Call(data: Payload<V>, fault: Fault)

  /** The committed table after the calls, in order, starting from `rows`. */
  function Replay<V(==)>(s: Schema, rows: Rows<V>, calls: seq<Call<V>>): (r: Rows<V>)
    requires RowsValid(s, rows)
    ensures RowsValid(s, r)
    decreases |calls|
  {
    if calls == [] then rows
    else
      var last := calls[|calls| - 1];
      Step(s, Replay(s, rows, calls[..|calls| - 1]), last.data, last.fault).rows
  }

  /** The calls that no storage fault stops before a commit, in their original order. */
  function Unblocked<V>(calls: seq<Call<V>>): (r: seq<Call<V>>)
    ensures |r| <= |calls|
    ensures forall i :: 0 <= i < |r| ==> !r[i].fault.BlocksCommit() && r[i] in calls
    ensures forall i :: 0 <= i < |calls| && !calls[i].fault.BlocksCommit() ==> calls[i] in r
    decreases |calls|
  {
    if calls == [] then []
    else
      var last := calls[|calls| - 1];
      var kept := Unblocked(calls[..|calls| - 1]);
      if !last.fault.BlocksCommit() then kept + [last] else kept
  }

  /**
    Filtering keeps the order of the calls: the unblocked calls of `a + b`
    are those of `a` followed by those of `b`.
  */
  lemma {:induction false} UnblockedAppend<V>(a: seq<Call<V>>, b: seq<Call<V>>)
    ensures Unblocked(a + b) == Unblocked(a) + Unblocked(b)
    decreases |b|
  {
    if b == [] {
      assert a + b == a;
    } else {
      var init, last := b[..|b| - 1], b[|b| - 1];
      var ab := a + b;
      assert ab[..|ab| - 1] == a + init;
      assert ab[|ab| - 1] == last;
      UnblockedAppend(a, init);
      if !last.fault.BlocksCommit() {
        calc {
          Unblocked(ab);
          Unblocked(a + init) + [last];
          Unblocked(a) + Unblocked(init) + [last];
          Unblocked(a) + (Unblocked(init) + [last]);
          Unblocked(a) + Unblocked(b);
        }
      } else {
        calc {
          Unblocked(ab);
          Unblocked(a + init);
          Unblocked(a) + Unblocked(init);
          Unblocked(a) + Unblocked(b);
        }
      }
    }
  }

  /** The freshness value of the latest call whose key is `key`; `None` when no call has that key. */
  function LatestFreshness<V(==)>(s: Schema, calls: seq<Call<V>>, key: Option<V>): Option<Option<V>>
    decreases |calls|
  {
    if calls == [] then None
    else
      var last := calls[|calls| - 1];
      if Field(last.data, s.key) == key then Some(Field(last.data, s.freshness))
      else LatestFreshness(s, calls[..|calls| - 1], key)
  }

  /** Replaying one more call applies it to the table the earlier calls left. */
  lemma ReplayAppend<V>(s: Schema, rows: Rows<V>, calls: seq<Call<V>>, c: Call<V>)
    requires RowsValid(s, rows)
    ensures Replay(s, rows, calls + [c]) == Step(s, Replay(s, rows, calls), c.data, c.fault).rows
  {
    assert (calls + [c])[..|calls|] == calls;
  }

  /** Dropping every call that a storage fault stops before a commit does not change the final table. */
  lemma {:induction false} FaultyCallsInvisible<V>(s: Schema, rows: Rows<V>, calls: seq<Call<V>>)
    requires RowsValid(s, rows)
    ensures Replay(s, rows, calls) == Replay(s, rows, Unblocked(calls))
    decreases |calls|
  {
    if calls != [] {
      var init, last := calls[..|calls| - 1], calls[|calls| - 1];
      FaultyCallsInvisible(s, rows, init);
      if !last.fault.BlocksCommit() {
        ReplayAppend(s, rows, Unblocked(init), last);
      } else {
        Properties.BlockingFaultWritesNothing(s, Replay(s, rows, init), last.data, last.fault);
      }
    }
  }

  /**
    Relative to the table `initial`, `final` stores the freshness `latest`
    for `key`: the row exists and holds it, or (no latest value) the key's
    row is the one `initial` had, or it is absent from both.
  */
  ghost predicate StoresLatest<V>(s: Schema, initial: Rows<V>, final: Rows<V>, key: Option<V>, latest: Option<Option<V>>) {
    match latest
    case Some(f) => key in final && s.freshness in final[key] && final[key][s.freshness] == f
    case None => (key in final <==> key in initial) && (key in initial ==> final[key] == initial[key])
  }

  /** One more unblocked call keeps `StoresLatest`, with the call's freshness if it carries `key`. */
  lemma StepStoresLatest<V>(s: Schema, initial: Rows<V>, before: Rows<V>, data: Payload<V>, fault: Fault, key: Option<V>, latest: Option<Option<V>>)
    requires RowsValid(s, before)
    requires !fault.BlocksCommit()
    requires StoresLatest(s, initial, before, key, latest)
    ensures StoresLatest(s, initial, Step(s, before, data, fault).rows, key,
      if Field(data, s.key) == key then Some(Field(data, s.freshness)) else latest)
  {
    if fault == CloseFails {
      Properties.CloseFailureCommitsAsFaultFree(s, before, data);
    }
    if Field(data, s.key) == key {
      Properties.AcceptedFreshnessIsStored(s, before, data, NoFault);
    } else {
      Properties.OtherRowsUntouched(s, before, data, NoFault, key);
    }
  }

  /** For unblocked calls, the stored freshness of a key is that of the latest call for it. */
  lemma {:induction false} UnblockedStoresLatest<V>(s: Schema, rows: Rows<V>, calls: seq<Call<V>>, key: Option<V>)
    requires RowsValid(s, rows)
    requires forall i :: 0 <= i < |calls| ==> !calls[i].fault.BlocksCommit()
    ensures StoresLatest(s, rows, Replay(s, rows, calls), key, LatestFreshness(s, calls, key))
    decreases |calls|
  {
    if calls != [] {
      var init, last := calls[..|calls| - 1], calls[|calls| - 1];
      UnblockedStoresLatest(s, rows, init, key);
      StepStoresLatest(s, rows, Replay(s, rows, init), last.data, last.fault, key, LatestFreshness(s, init, key));
    }
  }

  /**
    Stored freshness equals the last accepted value: after any sequence of
    calls, a key's stored freshness is the freshness carried by the latest
    call for that key that no storage fault stopped before a commit; a key
    no such call carries keeps its original row, or stays absent.
  */
  lemma StoredFreshnessIsLatestAccepted<V>(s: Schema, rows: Rows<V>, calls: seq<Call<V>>, key: Option<V>)
    requires RowsValid(s, rows)
    ensures StoresLatest(s, rows, Replay(s, rows, calls), key, LatestFreshness(s, Unblocked(calls), key))
  {
    FaultyCallsInvisible(s, rows, calls);
    UnblockedStoresLatest(s, rows, Unblocked(calls), key);
  }

  /** No row is ever removed, and the table gains at most one key per unblocked call. */
  lemma {:induction false} KeysGrowByAtMostOnePerCall<V>(s: Schema, rows: Rows<V>, calls: seq<Call<V>>)
    requires RowsValid(s, rows)
    ensures rows.Keys <= Replay(s, rows, calls).Keys
    ensures |Replay(s, rows, calls).Keys| <= |rows.Keys| + |Unblocked(calls)|
    decreases |calls|
  {
    if calls != [] {
      var init, last := calls[..|calls| - 1], calls[|calls| - 1];
      KeysGrowByAtMostOnePerCall(s, rows, init);
      var before := Replay(s, rows, init);
      Properties.KeysGrowOnlyOnInsert(s, before, last.data, last.fault);
      if last.fault.BlocksCommit() {
        Properties.BlockingFaultWritesNothing(s, before, last.data, last.fault);
      }
    }
  }
}
