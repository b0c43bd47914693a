/** `saveAddresses`: one `addresses` insert per element of `mesaj`, and the
    completion counter that settles the batch's promise from the insert
    callbacks, which the database delivers one at a time in queue order. */
module Addresses {

  import opened Wrappers
  import opened JsonValues

  /** The values one insert binds; `None` is SQL `NULL`. `kind` is the `type`
      column. Column values stay JSON values: how the database stores a
      non-string one is not modelled. */
  datatype AddressRow = AddressRow(
    requestId: nat,
    address: Option<Json>,
    kind: Option<Json>,
    name: Option<Json>,
    value: Option<Json>)

  /** The message of the `TypeError` that reading a property of a `null`
      element throws. */
  const NullElementError := "Cannot read properties of null (reading 'address')"

  /** The message of the error SQLite reports for a `NULL` in the `NOT NULL`
      `address` column. */
  const NotNullError := "SQLITE_CONSTRAINT: NOT NULL constraint failed: addresses.address"

  /** `item[key] || null`: the property when it is truthy, otherwise `NULL`. */
  function FieldOrNull(item: Json, key: string): Option<Json> {
    match Get(item, key)
    case Some(v) => if Truthy(v) then Some(v) else None
    case None => None
  }

  /** The arguments of the insert for one non-`null` element. */
  function RowOf(requestId: nat, item: Json): AddressRow {
    AddressRow(requestId, FieldOrNull(item, "address"), FieldOrNull(item, "type"),
               FieldOrNull(item, "name"), FieldOrNull(item, "value"))
  }

  /** `col` is what `item[key] || null` binds: the element's property when
      it is truthy, and `NULL` when it is missing or falsy. */
  predicate BindsProperty(col: Option<Json>, item: Json, key: string) {
    && (col.Some? <==> Get(item, key).Some? && Truthy(Get(item, key).value))
    && (col.Some? ==> col == Get(item, key))
  }

  /** Each column holds the element's property when that property is truthy,
      and `NULL` when it is missing or falsy (`null`, `false`, `0`, `""`);
      `type` goes to the `kind` column. */
  lemma RowOfColumns(requestId: nat, item: Json)
    ensures var r := RowOf(requestId, item);
            && r.requestId == requestId
            && BindsProperty(r.address, item, "address") && BindsProperty(r.kind, item, "type")
            && BindsProperty(r.name, item, "name") && BindsProperty(r.value, item, "value")
  {
  }

  /** How many leading elements get their insert queued before `forEach`
      reaches a `null` element, whose `item.address` throws. */
  function QueuedCount(items: seq<Json>): (k: nat)
    ensures k <= |items|
    ensures forall i :: 0 <= i < k ==> items[i] != JNull
    ensures k < |items| ==> items[k] == JNull
  {
    if items == [] || items[0] == JNull then 0
    else
      var k := 1 + QueuedCount(items[1..]);
      assert forall i :: 1 <= i < k ==> items[i] == items[1..][i - 1];
      k
  }

  /** The error an insert's callback receives: a storage failure supplied from
      outside, else the `NOT NULL` violation of a missing address, else none. */
  function InsertError(row: AddressRow, fault: Option<string>): (e: Option<string>)
    ensures e.None? <==> fault.None? && row.address.Some?
    ensures fault.None? && row.address.None? ==> e == Some(NotNullError)
  {
    if fault.Some? then fault
    else if row.address.None? then Some(NotNullError)
    else None
  }

  /** The storage fault for the insert at `i`; inserts past the list do not fail. */
  function FaultAt(faults: seq<Option<string>>, i: nat): Option<string> {
    if i < |faults| then faults[i] else None
  }

  /** A promise's state; settling an already settled promise changes nothing. */
  datatype Settlement = Pending | Resolved | Rejected(error: string)

  function Settle(p: Settlement, q: Settlement): Settlement {
    if p.Pending? then q else p
  }

  /** The closure state of `saveAddresses`: `completed` and `hasError`, the
      promise, and how often the callbacks called `resolve` and `reject`. */
  datatype Counter = Counter(
    total: nat,
    completed: nat,
    hasError: bool,
    promise: Settlement,
    resolveCalls: nat,
    rejectCalls: nat)

  /** One insert callback: the first error rejects and returns without counting;
      any other callback counts, and the one that brings `completed` to the
      array length resolves. */
  function OnInsertDone(c: Counter, err: Option<string>): Counter {
    if err.Some? && !c.hasError then
      c.(hasError := true, rejectCalls := c.rejectCalls + 1, promise := Settle(c.promise, Rejected(err.value)))
    else if c.completed + 1 == c.total then
      c.(completed := c.total, resolveCalls := c.resolveCalls + 1, promise := Settle(c.promise, Resolved))
    else
      c.(completed := c.completed + 1)
  }

  /** The callbacks of the queued inserts, delivered in order. */
  function Drain(c: Counter, errs: seq<Option<string>>): Counter
    decreases |errs|
  {
    if errs == [] then c
    else OnInsertDone(Drain(c, errs[..|errs| - 1]), errs[|errs| - 1])
  }

  /** The first error in delivery order, if any. */
  function FirstError(errs: seq<Option<string>>): (r: Option<string>)
    ensures r.None? <==> forall i :: 0 <= i < |errs| ==> errs[i].None?
    ensures r.Some? ==> exists i :: 0 <= i < |errs| && errs[i] == r
                          && forall j :: 0 <= j < i ==> errs[j].None?
    decreases |errs|
  {
    if errs == [] then None
    else
      var f := FirstError(errs[..|errs| - 1]);
      assert forall i :: 0 <= i < |errs| - 1 ==> errs[..|errs| - 1][i] == errs[i];
      if f.Some? then f else errs[|errs| - 1]
  }

  /** The counter after the callbacks of the first `|errs|` inserts of a batch
      of `total`: `completed` counts every callback except the first error's;
      `reject` is called once if any error arrived, carrying the first one;
      `resolve` is called once, by the last callback, only if none did. */
  lemma {:induction false} DrainState(total: nat, start: Settlement, errs: seq<Option<string>>)
    requires |errs| <= total
    ensures var c := Drain(Counter(total, 0, false, start, 0, 0), errs);
            && c.total == total
            && c.hasError == FirstError(errs).Some?
            && c.completed == (if FirstError(errs).Some? then |errs| - 1 else |errs|)
            && c.rejectCalls == (if FirstError(errs).Some? then 1 else 0)
            && c.resolveCalls == (if FirstError(errs).None? && |errs| == total && total > 0 then 1 else 0)
            && c.promise == (if FirstError(errs).Some? then Settle(start, Rejected(FirstError(errs).value))
                             else if |errs| == total && total > 0 then Settle(start, Resolved)
                             else start)
    decreases |errs|
  {
    if errs != [] {
      var prefix := errs[..|errs| - 1];
      DrainState(total, start, prefix);
    }
  }

  /** `resolve` and `reject` are each called at most once and never both: the
      batch never resolves once an insert has failed. */
  lemma SettlesAtMostOnce(total: nat, errs: seq<Option<string>>)
    requires |errs| <= total
    ensures var c := Drain(Counter(total, 0, false, Pending, 0, 0), errs);
            && c.resolveCalls <= 1 && c.rejectCalls <= 1
            && !(c.resolveCalls == 1 && c.rejectCalls == 1)
            && (FirstError(errs).Some? ==> c.resolveCalls == 0 && c.promise == Rejected(FirstError(errs).value))
  {
    DrainState(total, Pending, errs);
  }

  /** The outcome of `saveAddresses`: the promise once every callback has run,
      the rows the database holds afterwards in insertion order, and how many
      inserts were queued. */
  datatype BatchRun = BatchRun(outcome: Settlement, written: seq<AddressRow>, queued: nat)

  /** `w` holds exactly the rows whose insert succeeded, and is all of
      `rows` when every insert succeeded. */
  predicate KeepsSuccesses(rows: seq<AddressRow>, errs: seq<Option<string>>, w: seq<AddressRow>)
    requires |rows| == |errs|
  {
    && |w| <= |rows|
    && (forall r :: r in w ==> exists i :: 0 <= i < |rows| && rows[i] == r && errs[i].None?)
    && (forall i :: 0 <= i < |rows| && errs[i].None? ==> rows[i] in w)
    && ((forall i :: 0 <= i < |errs| ==> errs[i].None?) ==> w == rows)
  }

  /** The rows whose insert succeeded, in order. */
  function Written(rows: seq<AddressRow>, errs: seq<Option<string>>): (w: seq<AddressRow>)
    requires |rows| == |errs|
    ensures |w| <= |rows|
    ensures forall r :: r in w ==> exists i :: 0 <= i < |rows| && rows[i] == r && errs[i].None?
    ensures forall i :: 0 <= i < |rows| && errs[i].None? ==> rows[i] in w
    ensures (forall i :: 0 <= i < |errs| ==> errs[i].None?) ==> w == rows
    decreases |rows|
  {
    if rows == [] then []
    else
      var n := |rows| - 1;
      var w0 := Written(rows[..n], errs[..n]);
      KeepsSuccessesStep(rows, errs, w0);
      w0 + (if errs[n].None? then [rows[n]] else [])
  }

  /** Extending the successes of all but the last insert by the last row,
      when its insert succeeded, gives the successes of all of them. */
  lemma KeepsSuccessesStep(rows: seq<AddressRow>, errs: seq<Option<string>>, w0: seq<AddressRow>)
    requires |rows| == |errs| >= 1
    requires KeepsSuccesses(rows[..|rows| - 1], errs[..|rows| - 1], w0)
    ensures KeepsSuccesses(rows, errs, w0 + (if errs[|rows| - 1].None? then [rows[|rows| - 1]] else []))
  {
    var n := |rows| - 1;
    var w := w0 + (if errs[n].None? then [rows[n]] else []);
    forall r | r in w ensures exists i :: 0 <= i < |rows| && rows[i] == r && errs[i].None? {
      if r in w0 {
        var i :| 0 <= i < n && rows[..n][i] == r && errs[..n][i].None?;
        assert rows[i] == r && errs[i].None?;
      } else {
        assert rows[n] == r && errs[n].None?;
      }
    }
    forall i | 0 <= i < |rows| && errs[i].None? ensures rows[i] in w {
      if i < n {
        assert rows[..n][i] == rows[i] && errs[..n][i] == errs[i];
      }
    }
    if forall i :: 0 <= i < |errs| ==> errs[i].None? {
      assert forall i :: 0 <= i < n ==> errs[..n][i] == errs[i];
      assert rows == rows[..n] + [rows[n]];
    }
  }

  /** The positions of the callbacks that received no error, in increasing order. */
  function SuccessIndices(errs: seq<Option<string>>): (ix: seq<nat>)
    ensures forall k :: 0 <= k < |ix| ==> ix[k] < |errs| && errs[ix[k]].None?
    ensures forall k, l :: 0 <= k < l < |ix| ==> ix[k] < ix[l]
    ensures forall i :: 0 <= i < |errs| && errs[i].None? ==> i in ix
    decreases |errs|
  {
    if errs == [] then []
    else
      var n := |errs| - 1;
      assert forall i :: 0 <= i < n ==> errs[..n][i] == errs[i];
      SuccessIndices(errs[..n]) + (if errs[n].None? then [n] else [])
  }

  /** `w` lists the elements of `rows` at the positions `ix`. */
  predicate AlignedWith(w: seq<AddressRow>, rows: seq<AddressRow>, ix: seq<nat>) {
    |w| == |ix| && forall k :: 0 <= k < |ix| ==> ix[k] < |rows| && w[k] == rows[ix[k]]
  }

  /** Alignment is preserved by appending aligned pieces. */
  lemma AlignedAppend(rows: seq<AddressRow>, w0: seq<AddressRow>, ix0: seq<nat>, t: seq<AddressRow>, ti: seq<nat>)
    requires AlignedWith(w0, rows, ix0) && AlignedWith(t, rows, ti)
    ensures AlignedWith(w0 + t, rows, ix0 + ti)
  {
    forall k | 0 <= k < |ix0| + |ti| ensures (ix0 + ti)[k] < |rows| && (w0 + t)[k] == rows[(ix0 + ti)[k]] {
      if k >= |ix0| {
        assert (w0 + t)[k] == t[k - |ix0|] && (ix0 + ti)[k] == ti[k - |ix0|];
      }
    }
  }

  /** Alignment with a prefix of `rows` is alignment with `rows`. */
  lemma AlignedPrefix(w: seq<AddressRow>, rows: seq<AddressRow>, n: nat, ix: seq<nat>)
    requires n <= |rows| && AlignedWith(w, rows[..n], ix)
    ensures AlignedWith(w, rows, ix)
  {
    assert forall k :: 0 <= k < |ix| ==> rows[..n][ix[k]] == rows[ix[k]];
  }

  /** The rows left in the table are the rows at the successful positions,
      each once and in queue order: a failed insert drops its own row and
      changes neither the order nor the number of the others. */
  lemma {:induction false} WrittenAtSuccessIndices(rows: seq<AddressRow>, errs: seq<Option<string>>)
    requires |rows| == |errs|
    ensures AlignedWith(Written(rows, errs), rows, SuccessIndices(errs))
    decreases |rows|
  {
    if rows != [] {
      var n := |rows| - 1;
      WrittenAtSuccessIndices(rows[..n], errs[..n]);
      var w0, ix0 := Written(rows[..n], errs[..n]), SuccessIndices(errs[..n]);
      AlignedPrefix(w0, rows, n, ix0);
      var t: seq<AddressRow> := if errs[n].None? then [rows[n]] else [];
      var ti: seq<nat> := if errs[n].None? then [n] else [];
      assert Written(rows, errs) == w0 + t;
      assert SuccessIndices(errs) == ix0 + ti;
      AlignedAppend(rows, w0, ix0, t, ti);
    }
  }

  /** The insert arguments of the queued elements, in order. */
  function QueuedRows(requestId: nat, items: seq<Json>): (rows: seq<AddressRow>)
    ensures |rows| == QueuedCount(items)
    ensures forall i :: 0 <= i < |rows| ==> rows[i] == RowOf(requestId, items[i])
    decreases |items|
  {
    if items == [] || items[0] == JNull then []
    else
      var rows := [RowOf(requestId, items[0])] + QueuedRows(requestId, items[1..]);
      assert forall i :: 1 <= i < |rows| ==> items[i] == items[1..][i - 1];
      rows
  }

  /** The errors the queued inserts' callbacks receive, in order. */
  function QueuedErrors(rows: seq<AddressRow>, faults: seq<Option<string>>): (errs: seq<Option<string>>)
    ensures |errs| == |rows|
    ensures forall i :: 0 <= i < |rows| ==> errs[i] == InsertError(rows[i], FaultAt(faults, i))
    decreases |rows|
  {
    if rows == [] then []
    else
      var n := |rows| - 1;
      var errs := QueuedErrors(rows[..n], faults) + [InsertError(rows[n], FaultAt(faults, n))];
      assert forall i :: 0 <= i < n ==> rows[..n][i] == rows[i];
      errs
  }

  /** The promise when `forEach` returns: already rejected if a `null` element threw. */
  function StartOf(items: seq<Json>): Settlement {
    if QueuedCount(items) < |items| then Rejected(NullElementError) else Pending
  }

  /** Once the callbacks of every queued insert have run, the promise is
      settled: by an error, by the last callback, or by a `null` element. */
  lemma SettledAfterQueue(items: seq<Json>, errs: seq<Option<string>>)
    requires |items| > 0 && |errs| == QueuedCount(items)
    ensures Drain(Counter(|items|, 0, false, StartOf(items), 0, 0), errs).promise != Pending
  {
    DrainState(|items|, StartOf(items), errs);
  }

  /** A row whose insert succeeded names its parent and has an address. */
  lemma WrittenRowsValid(requestId: nat, items: seq<Json>, faults: seq<Option<string>>)
    ensures var rows := QueuedRows(requestId, items);
            forall r :: r in Written(rows, QueuedErrors(rows, faults)) ==> r.requestId == requestId && r.address.Some?
  {
    var rows := QueuedRows(requestId, items);
    var errs := QueuedErrors(rows, faults);
    forall r | r in Written(rows, errs) ensures r.requestId == requestId && r.address.Some? {
      var i :| 0 <= i < |rows| && rows[i] == r && errs[i].None?;
      assert errs[i] == InsertError(rows[i], FaultAt(faults, i));
    }
  }

  /** `saveAddresses(requestId, items)` with the given storage faults per element. */
  function SaveAddresses(requestId: nat, items: seq<Json>, faults: seq<Option<string>>): (b: BatchRun)
    ensures b.outcome != Pending
    ensures items == [] ==> b.outcome == Resolved && b.written == [] && b.queued == 0
    ensures b.queued == QueuedCount(items) && |b.written| <= b.queued
    ensures forall r :: r in b.written ==> r.requestId == requestId && r.address.Some?
  {
    if |items| == 0 then BatchRun(Resolved, [], 0)
    else
      var rows := QueuedRows(requestId, items);
      var errs := QueuedErrors(rows, faults);
      SettledAfterQueue(items, errs);
      WrittenRowsValid(requestId, items, faults);
      BatchRun(Drain(Counter(|items|, 0, false, StartOf(items), 0, 0), errs).promise, Written(rows, errs), |rows|)
  }

  /** An address property that the `NOT NULL` column accepts: present and truthy. */
  predicate HasAddress(item: Json) {
    Get(item, "address").Some? && Truthy(Get(item, "address").value)
  }

  /** The insert for element `i` succeeds. */
  predicate InsertSucceeds(items: seq<Json>, faults: seq<Option<string>>, i: nat)
    requires i < |items|
  {
    items[i] != JNull && HasAddress(items[i]) && FaultAt(faults, i).None?
  }

  /** The promise of a non-empty batch in terms of its callbacks. */
  lemma BatchPromise(requestId: nat, items: seq<Json>, faults: seq<Option<string>>)
    requires |items| > 0
    ensures var errs := QueuedErrors(QueuedRows(requestId, items), faults);
            SaveAddresses(requestId, items, faults).outcome
            == if FirstError(errs).Some? then Settle(StartOf(items), Rejected(FirstError(errs).value))
               else if |errs| == |items| then Resolved
               else StartOf(items)
  {
    var errs := QueuedErrors(QueuedRows(requestId, items), faults);
    DrainState(|items|, StartOf(items), errs);
  }

  /** A queued insert's callback receives no error exactly when it succeeds. */
  lemma QueuedErrorIffFailure(requestId: nat, items: seq<Json>, faults: seq<Option<string>>, i: nat)
    requires i < QueuedCount(items)
    ensures QueuedErrors(QueuedRows(requestId, items), faults)[i].None? <==> InsertSucceeds(items, faults, i)
  {
  }

  /** The batch resolves exactly when every element's insert succeeds
      (trivially for an empty array). */
  lemma ResolvedIffAllInsertsSucceed(requestId: nat, items: seq<Json>, faults: seq<Option<string>>)
    ensures SaveAddresses(requestId, items, faults).outcome == Resolved
            <==> forall i :: 0 <= i < |items| ==> InsertSucceeds(items, faults, i)
  {
    if |items| > 0 {
      BatchPromise(requestId, items, faults);
      var rows := QueuedRows(requestId, items);
      var errs := QueuedErrors(rows, faults);
      var k := |rows|;
      if SaveAddresses(requestId, items, faults).outcome == Resolved {
        assert FirstError(errs).None? && k == |items|;
        forall i | 0 <= i < |items| ensures InsertSucceeds(items, faults, i) {
          QueuedErrorIffFailure(requestId, items, faults, i);
        }
      }
      if forall i :: 0 <= i < |items| ==> InsertSucceeds(items, faults, i) {
        if k < |items| {
          assert items[k] == JNull;
          assert !InsertSucceeds(items, faults, k);
        }
        forall i | 0 <= i < k ensures errs[i].None? {
          QueuedErrorIffFailure(requestId, items, faults, i);
        }
      }
    }
  }

  /** When every element's insert succeeds the batch resolves and holds one
      row per element, in array order. */
  lemma ResolvedWritesEveryElement(requestId: nat, items: seq<Json>, faults: seq<Option<string>>)
    requires forall i :: 0 <= i < |items| ==> InsertSucceeds(items, faults, i)
    ensures SaveAddresses(requestId, items, faults).outcome == Resolved
    ensures var w := SaveAddresses(requestId, items, faults).written;
            |w| == |items| && forall i :: 0 <= i < |items| ==> w[i] == RowOf(requestId, items[i])
  {
    ResolvedIffAllInsertsSucceed(requestId, items, faults);
    if |items| > 0 {
      ResolvedBatchWritesQueue(requestId, items, faults);
    }
  }

  /** When every element's insert succeeds, every element is queued and
      every queued row is written. */
  lemma AllSucceedWritesQueue(requestId: nat, items: seq<Json>, faults: seq<Option<string>>)
    requires forall i :: 0 <= i < |items| ==> InsertSucceeds(items, faults, i)
    ensures var rows := QueuedRows(requestId, items);
            |rows| == |items| && Written(rows, QueuedErrors(rows, faults)) == rows
  {
    var rows := QueuedRows(requestId, items);
    var errs := QueuedErrors(rows, faults);
    assert |rows| < |items| ==> !InsertSucceeds(items, faults, |rows|);
    forall i | 0 <= i < |errs| ensures errs[i].None? {
      assert InsertSucceeds(items, faults, i);
    }
  }

  /** A non-empty batch whose inserts all succeed queued every element and
      wrote every queued row. */
  lemma ResolvedBatchWritesQueue(requestId: nat, items: seq<Json>, faults: seq<Option<string>>)
    requires |items| > 0 && forall i :: 0 <= i < |items| ==> InsertSucceeds(items, faults, i)
    ensures var rows := QueuedRows(requestId, items);
            |rows| == |items| && SaveAddresses(requestId, items, faults).written == rows
  {
    AllSucceedWritesQueue(requestId, items, faults);
  }

  /** A `null` anywhere in the array rejects the batch with the `TypeError`,
      whatever the inserts queued before it do. */
  lemma NullElementRejects(requestId: nat, items: seq<Json>, faults: seq<Option<string>>)
    requires JNull in items
    ensures SaveAddresses(requestId, items, faults).outcome == Rejected(NullElementError)
  {
    var j :| 0 <= j < |items| && items[j] == JNull;
    assert QueuedCount(items) <= j;
    BatchPromise(requestId, items, faults);
  }

  /** Failure does not stop or undo the batch: every queued insert that
      succeeds leaves its row, even when the batch rejects. */
  lemma QueuedSuccessesAreWritten(requestId: nat, items: seq<Json>, faults: seq<Option<string>>, i: nat)
    requires i < QueuedCount(items)
    requires InsertSucceeds(items, faults, i)
    ensures RowOf(requestId, items[i]) in SaveAddresses(requestId, items, faults).written
  {
    var rows := QueuedRows(requestId, items);
    var errs := QueuedErrors(rows, faults);
    assert errs[i].None?;
  }
}
