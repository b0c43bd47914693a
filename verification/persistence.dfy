/** The write path of one request: the file snapshot (`saveRequestToFile`),
    the parent row and its address rows (`saveRequestToDatabase`), and the
    response the handler sends, over an abstract store whose failures are
    supplied as inputs. */
module Persistence {

  import opened Wrappers
  import opened JsonValues
  import opened Naming
  import opened Capture
  import opened Addresses

  /** A row of `requests`; `None` is SQL `NULL`. `created_at` is left to the database. */
  datatype RequestRecord = RequestRecord(
    id: nat,
    timestamp: string,
    httpMethod: string,
    url: string,
    headers: string,
    body: string,
    bodyParsed: Option<string>,
    query: Option<string>,
    ip: Option<string>)

  /** A row of `addresses`. The `address` column is `NOT NULL`, so a stored row always has one. */
  datatype AddressRecord = AddressRecord(
    id: nat,
    requestId: nat,
    address: Json,
    kind: Option<Json>,
    name: Option<Json>,
    value: Option<Json>)

  /** The day folders and snapshot files under the log directory. */
  datatype FileSystem = FileSystem(dayFolders: set<string>, files: map<Names, CapturedRequest>)

  /** Both tables in insertion order, and each table's `AUTOINCREMENT`
      counter (the largest id it has handed out). */
  datatype Database = Database(
    requests: seq<RequestRecord>,
    addresses: seq<AddressRecord>,
    requestSeq: nat,
    addressSeq: nat)

  /** The durable state one request can change. */
  datatype Store = Store(fs: FileSystem, db: Database)

  /** One durable write, in the order the request performs them. */
  datatype Effect =
    | FolderCreated(folder: string)
    | FileWritten(path: Names)
    | RequestInserted(rowId: nat)
    | AddressInserted(addressId: nat, parentId: nat)

  /** The failures the environment imposes on one request: the message of the
      exception `mkdirSync` or `writeFileSync` throws, of the error the parent
      insert reports, and of the storage error of each address insert. */
  datatype Faults = Faults(
    mkdir: Option<string>,
    writeFile: Option<string>,
    requestInsert: Option<string>,
    addressInserts: seq<Option<string>>)

  /** The status line and the JSON body the handler writes. */
  datatype Response = Response(status: nat, body: Json)

  /** A part of the store after one step, the writes it made, and the error it raised. */
  datatype Step<S> = Step(state: S, effects: seq<Effect>, error: Option<string>)

  /** What handling one request leaves behind. */
  datatype Handled = Handled(store: Store, effects: seq<Effect>, response: Response)

  const SavedMessage := "\U{130}stek ba\U{15F}ar\U{131}yla kaydedildi"
  const FailedMessage := "Kay\U{131}t s\U{131}ras\U{131}nda hata olu\U{15F}tu"

  /** Every file lies in a day folder that exists. */
  predicate FilesWellFormed(fs: FileSystem) {
    forall p :: p in fs.files ==> p.dateFolder in fs.dayFolders
  }

  /** Ids are positive, within the counter and strictly increasing, and every
      address row names an existing request. */
  predicate TablesWellFormed(db: Database) {
    && (forall i :: 0 <= i < |db.requests| ==> 1 <= db.requests[i].id <= db.requestSeq)
    && (forall i, j :: 0 <= i < j < |db.requests| ==> db.requests[i].id < db.requests[j].id)
    && (forall i :: 0 <= i < |db.addresses| ==> 1 <= db.addresses[i].id <= db.addressSeq)
    && (forall i, j :: 0 <= i < j < |db.addresses| ==> db.addresses[i].id < db.addresses[j].id)
    && (forall i :: 0 <= i < |db.addresses| ==> HasRequest(db, db.addresses[i].requestId))
  }

  predicate HasRequest(db: Database, id: nat) {
    exists j :: 0 <= j < |db.requests| && db.requests[j].id == id
  }

  predicate WellFormed(s: Store) {
    FilesWellFormed(s.fs) && TablesWellFormed(s.db)
  }

  /** The file step writes the snapshot: the day folder exists or can be
      created, and the write itself succeeds. */
  predicate FileStepSucceeds(fs: FileSystem, names: Names, f: Faults) {
    (names.dateFolder in fs.dayFolders || f.mkdir.None?) && f.writeFile.None?
  }

  /** `saveRequestToFile`: create the day folder if it is missing, then write
      the snapshot under `names`, the day folder and file name
      `getFormattedDateTime` returned, replacing any file of the same name. */
  function SaveRequestToFile(fs: FileSystem, c: CapturedRequest, names: Names, f: Faults): (r: Step<FileSystem>)
    ensures r.error.None? <==> FileStepSucceeds(fs, names, f)
    ensures r.error.None? ==> r.state.files == fs.files[names := c]
    ensures r.error.Some? ==> r.state.files == fs.files
    ensures fs.dayFolders <= r.state.dayFolders
    ensures r.error.None? ==> r.state.dayFolders == fs.dayFolders + {names.dateFolder}
    ensures r.state.dayFolders <= fs.dayFolders + {names.dateFolder}
    ensures forall i :: 0 <= i < |r.effects| ==> r.effects[i].FolderCreated? || r.effects[i].FileWritten?
    ensures r.error.None? ==> |r.effects| >= 1 && r.effects[|r.effects| - 1] == FileWritten(names)
  {
    var missing := names.dateFolder !in fs.dayFolders;
    if missing && f.mkdir.Some? then Step(fs, [], f.mkdir)
    else
      var created := if missing then [FolderCreated(names.dateFolder)] else [];
      var fs1 := fs.(dayFolders := fs.dayFolders + {names.dateFolder});
      if f.writeFile.Some? then Step(fs1, created, f.writeFile)
      else Step(fs1.(files := fs.files[names := c]), created + [FileWritten(names)], None)
  }

  /** `requestData.bodyParsed ? JSON.stringify(requestData.bodyParsed) : null`. */
  function BodyParsedColumn(bodyParsed: Option<Json>, stringify: Json -> string): Option<string> {
    if bodyParsed.Some? && Truthy(bodyParsed.value) then Some(stringify(bodyParsed.value)) else None
  }

  /** The values the parent insert binds, with the id the database assigns. */
  function RequestRecordOf(c: CapturedRequest, id: nat, stringify: Json -> string): RequestRecord {
    RequestRecord(id, c.timestamp, c.httpMethod, c.url, stringify(HeadersObject(c.headers)), c.body,
                  BodyParsedColumn(c.bodyParsed, stringify), c.query, c.ip)
  }

  /** `bodyParsed && bodyParsed.mesaj && Array.isArray(bodyParsed.mesaj)`: the
      elements of `mesaj` when the guard holds. */
  function MesajItems(bodyParsed: Option<Json>): Option<seq<Json>> {
    if bodyParsed.Some? && Truthy(bodyParsed.value) then
      match Get(bodyParsed.value, "mesaj")
      case Some(JArray(items)) => Some(items)
      case _ => None
    else None
  }

  /** Address rows are attempted exactly when the parsed body is an object
      whose last `mesaj` member is an array, and then for its elements. */
  lemma MesajItemsIffArray(bodyParsed: Option<Json>)
    ensures MesajItems(bodyParsed).Some?
            <==> bodyParsed.Some? && bodyParsed.value.JObject?
                 && Get(bodyParsed.value, "mesaj").Some? && Get(bodyParsed.value, "mesaj").value.JArray?
    ensures MesajItems(bodyParsed).Some? ==> Get(bodyParsed.value, "mesaj") == Some(JArray(MesajItems(bodyParsed).value))
  {
  }

  /** The stored form of one written address row. */
  function StoredAddress(id: nat, row: AddressRow): AddressRecord
    requires row.address.Some?
  {
    AddressRecord(id, row.requestId, row.address.value, row.kind, row.name, row.value)
  }

  /** The stored form of the address rows the batch wrote, with the ids the
      database assigns after `after`. */
  function AddressRecords(after: nat, rows: seq<AddressRow>): (r: seq<AddressRecord>)
    requires forall i :: 0 <= i < |rows| ==> rows[i].address.Some?
    ensures |r| == |rows|
    ensures forall i :: 0 <= i < |rows| ==> r[i] == StoredAddress(after + 1 + i, rows[i])
    decreases |rows|
  {
    if rows == [] then []
    else
      var n := |rows| - 1;
      assert forall i :: 0 <= i < n ==> rows[..n][i] == rows[i];
      AddressRecords(after, rows[..n]) + [StoredAddress(after + 1 + n, rows[n])]
  }

  function AddressEffects(records: seq<AddressRecord>): (e: seq<Effect>)
    ensures |e| == |records|
    ensures forall i :: 0 <= i < |records| ==> e[i] == AddressInserted(records[i].id, records[i].requestId)
    decreases |records|
  {
    if records == [] then []
    else
      var n := |records| - 1;
      assert forall i :: 0 <= i < n ==> records[..n][i] == records[i];
      AddressEffects(records[..n]) + [AddressInserted(records[n].id, records[n].requestId)]
  }

  /** Every insert of the `mesaj` batch succeeds (vacuously without a batch). */
  predicate BatchSucceeds(c: CapturedRequest, f: Faults) {
    match MesajItems(c.bodyParsed)
    case None => true
    case Some(items) => forall i :: 0 <= i < |items| ==> InsertSucceeds(items, f.addressInserts, i)
  }

  /** Every row is accepted by the `NOT NULL` column and names the parent `id`. */
  predicate LinkedTo(rows: seq<AddressRow>, id: nat) {
    forall i :: 0 <= i < |rows| ==> rows[i].address.Some? && rows[i].requestId == id
  }

  /** The rows a settled batch wrote, appended to the `addresses` table under
      the ids the database assigns, with the batch's error. */
  function ApplyBatch(db: Database, id: nat, b: BatchRun): (r: Step<Database>)
    requires LinkedTo(b.written, id)
    ensures r.state.requests == db.requests && r.state.requestSeq == db.requestSeq
    ensures |r.state.addresses| == |db.addresses| + |b.written|
    ensures r.state.addressSeq == db.addressSeq + |b.written|
    ensures r.error == if b.outcome.Rejected? then Some(b.outcome.error) else None
  {
    var records := AddressRecords(db.addressSeq, b.written);
    Step(db.(addresses := db.addresses + records, addressSeq := db.addressSeq + |records|),
         AddressEffects(records),
         if b.outcome.Rejected? then Some(b.outcome.error) else None)
  }

  /** Every row `saveAddresses` writes is accepted by the `NOT NULL` column
      and names the parent it was given. */
  lemma WrittenRowsLinked(id: nat, items: seq<Json>, faults: seq<Option<string>>)
    ensures LinkedTo(SaveAddresses(id, items, faults).written, id)
  {
    var w := SaveAddresses(id, items, faults).written;
    forall i | 0 <= i < |w| ensures w[i].address.Some? && w[i].requestId == id {
      assert w[i] in w;
    }
  }

  /** `saveAddresses` for the parent `id`, with the rows it writes appended
      to the `addresses` table. */
  function InsertAddresses(db: Database, id: nat, items: seq<Json>, faults: seq<Option<string>>): (r: Step<Database>)
    ensures r.state.requests == db.requests && r.state.requestSeq == db.requestSeq
    ensures |db.addresses| <= |r.state.addresses|
    ensures r.state.addressSeq == db.addressSeq + (|r.state.addresses| - |db.addresses|)
  {
    WrittenRowsLinked(id, items, faults);
    ApplyBatch(db, id, SaveAddresses(id, items, faults))
  }

  /** The batch step fails exactly when some element's insert fails. */
  lemma InsertAddressesErrorIff(db: Database, id: nat, items: seq<Json>, faults: seq<Option<string>>)
    ensures InsertAddresses(db, id, items, faults).error.None?
            <==> forall i :: 0 <= i < |items| ==> InsertSucceeds(items, faults, i)
  {
    ResolvedIffAllInsertsSucceed(id, items, faults);
  }

  /** Appending the stored form of rows that all name `id` keeps `prefix`,
      and the new rows link to `id` under consecutive ids after `after`. */
  lemma AppendedRecordsLink(prefix: seq<AddressRecord>, after: nat, id: nat, rows: seq<AddressRow>)
    requires LinkedTo(rows, id)
    ensures var all := prefix + AddressRecords(after, rows);
            && all[..|prefix|] == prefix
            && (forall i :: |prefix| <= i < |all| ==>
                  all[i].requestId == id && all[i].id == after + 1 + (i - |prefix|))
  {
    var all := prefix + AddressRecords(after, rows);
    forall i | |prefix| <= i < |all| ensures all[i] == AddressRecords(after, rows)[i - |prefix|] {
    }
  }

  /** The rows a batch adds come after the existing ones, carry fresh
      increasing ids above the counter, and all link to the parent `id`. */
  lemma BatchAppends(db: Database, id: nat, b: BatchRun)
    requires LinkedTo(b.written, id)
    ensures var r := ApplyBatch(db, id, b).state;
            && r.addresses[..|db.addresses|] == db.addresses
            && (forall i :: |db.addresses| <= i < |r.addresses| ==>
                  r.addresses[i].requestId == id && r.addresses[i].id == db.addressSeq + 1 + (i - |db.addresses|))
  {
    AppendedRecordsLink(db.addresses, db.addressSeq, id, b.written);
  }

  /** A batch records one write per added row, each naming the parent `id`. */
  lemma BatchEffects(db: Database, id: nat, b: BatchRun)
    requires LinkedTo(b.written, id)
    ensures var e := ApplyBatch(db, id, b).effects;
            forall i :: 0 <= i < |e| ==> e[i].AddressInserted? && e[i].parentId == id
  {
  }

  /** The address rows `saveAddresses` adds come after the existing ones,
      carry fresh increasing ids above the counter, and all link to the
      parent `id`; their writes are recorded for that parent. */
  lemma InsertAddressesAppends(db: Database, id: nat, items: seq<Json>, faults: seq<Option<string>>)
    ensures var r := InsertAddresses(db, id, items, faults).state;
            && r.addresses[..|db.addresses|] == db.addresses
            && (forall i :: |db.addresses| <= i < |r.addresses| ==>
                  r.addresses[i].requestId == id && r.addresses[i].id == db.addressSeq + 1 + (i - |db.addresses|))
    ensures var e := InsertAddresses(db, id, items, faults).effects;
            forall i :: 0 <= i < |e| ==> e[i].AddressInserted? && e[i].parentId == id
  {
    WrittenRowsLinked(id, items, faults);
    BatchAppends(db, id, SaveAddresses(id, items, faults));
    BatchEffects(db, id, SaveAddresses(id, items, faults));
  }

  /** From position `from` on, `addrs` holds exactly one stored row per
      element of `items`, in array order, linked to `id`, with the ids the
      database assigns after `after`. */
  predicate HoldsElementRows(addrs: seq<AddressRecord>, from: nat, after: nat, id: nat, items: seq<Json>) {
    && |addrs| == from + |items|
    && forall i :: 0 <= i < |items| ==>
         && RowOf(id, items[i]).address.Some?
         && addrs[from + i] == StoredAddress(after + 1 + i, RowOf(id, items[i]))
  }

  /** Appending the stored form of one row per element, in order, puts the
      element rows after `prefix`. */
  lemma AppendedRecordsHoldRows(prefix: seq<AddressRecord>, after: nat, id: nat, items: seq<Json>, rows: seq<AddressRow>)
    requires |rows| == |items| && LinkedTo(rows, id)
    requires forall i :: 0 <= i < |items| ==> rows[i] == RowOf(id, items[i])
    ensures HoldsElementRows(prefix + AddressRecords(after, rows), |prefix|, after, id, items)
  {
    var all := prefix + AddressRecords(after, rows);
    forall i | 0 <= i < |items|
      ensures all[|prefix| + i] == StoredAddress(after + 1 + i, RowOf(id, items[i]))
    {
      assert all[|prefix| + i] == AddressRecords(after, rows)[i];
    }
  }

  /** `rec` stores `item` for the parent `id`: each column holds the element's
      property of the same name (`type` in `kind`) when it is truthy, and
      `NULL` otherwise. */
  predicate StoresElement(rec: AddressRecord, id: nat, item: Json) {
    && rec.requestId == id
    && BindsProperty(Some(rec.address), item, "address") && BindsProperty(rec.kind, item, "type")
    && BindsProperty(rec.name, item, "name") && BindsProperty(rec.value, item, "value")
  }

  /** From position `from` on, `addrs` holds one row per element of `items`,
      each storing that element for the parent `id`. */
  predicate StoresElements(addrs: seq<AddressRecord>, from: nat, id: nat, items: seq<Json>) {
    && |addrs| == from + |items|
    && forall k :: 0 <= k < |items| ==> StoresElement(addrs[from + k], id, items[k])
  }

  /** Rows held for the elements store each element's own properties. */
  lemma HeldRowsStoreElements(addrs: seq<AddressRecord>, from: nat, after: nat, id: nat, items: seq<Json>)
    requires HoldsElementRows(addrs, from, after, id, items)
    ensures StoresElements(addrs, from, id, items)
  {
    forall k | 0 <= k < |items| ensures StoresElement(addrs[from + k], id, items[k]) {
      RowOfColumns(id, items[k]);
    }
  }

  /** A batch whose inserts all succeed reports no error and adds exactly one
      row per element, in array order. */
  lemma InsertAddressesSuccessRows(db: Database, id: nat, items: seq<Json>, faults: seq<Option<string>>)
    requires forall i :: 0 <= i < |items| ==> InsertSucceeds(items, faults, i)
    ensures InsertAddresses(db, id, items, faults).error.None?
    ensures HoldsElementRows(InsertAddresses(db, id, items, faults).state.addresses, |db.addresses|, db.addressSeq, id, items)
  {
    var b := SaveAddresses(id, items, faults);
    WrittenRowsLinked(id, items, faults);
    ResolvedWritesEveryElement(id, items, faults);
    AppendedRecordsHoldRows(db.addresses, db.addressSeq, id, items, b.written);
  }

  /** The tables right after the parent insert, which takes the next id. */
  function WithParent(db: Database, c: CapturedRequest, stringify: Json -> string): Database {
    db.(requests := db.requests + [RequestRecordOf(c, db.requestSeq + 1, stringify)], requestSeq := db.requestSeq + 1)
  }

  /** `saveRequestToDatabase`: insert the parent row; if that succeeds and the
      parsed body carries a `mesaj` array, run `saveAddresses` with the new id.
      Rows written before a failure stay. */
  function SaveRequestToDatabase(db: Database, c: CapturedRequest, stringify: Json -> string, f: Faults): (r: Step<Database>)
    ensures f.requestInsert.Some? ==> r == Step(db, [], f.requestInsert)
    ensures f.requestInsert.None? ==>
              && r.state.requests == db.requests + [RequestRecordOf(c, db.requestSeq + 1, stringify)]
              && r.state.requestSeq == db.requestSeq + 1
    ensures MesajItems(c.bodyParsed).None? ==> r.state.addresses == db.addresses && r.state.addressSeq == db.addressSeq
    ensures |db.addresses| <= |r.state.addresses|
    ensures r.state.addressSeq == db.addressSeq + (|r.state.addresses| - |db.addresses|)
  {
    if f.requestInsert.Some? then Step(db, [], f.requestInsert)
    else
      var id := db.requestSeq + 1;
      var db1 := WithParent(db, c, stringify);
      match MesajItems(c.bodyParsed)
      case None => Step(db1, [RequestInserted(id)], None)
      case Some(items) =>
        var batch := InsertAddresses(db1, id, items, f.addressInserts);
        Step(batch.state, [RequestInserted(id)] + batch.effects, batch.error)
  }

  /** With a parent inserted and a `mesaj` array, the database step is the
      batch run on the tables holding the parent. */
  lemma DatabaseRunsBatch(db: Database, c: CapturedRequest, stringify: Json -> string, f: Faults)
    requires f.requestInsert.None? && MesajItems(c.bodyParsed).Some?
    ensures var batch := InsertAddresses(WithParent(db, c, stringify), db.requestSeq + 1, MesajItems(c.bodyParsed).value, f.addressInserts);
            SaveRequestToDatabase(db, c, stringify, f)
              == Step(batch.state, [RequestInserted(db.requestSeq + 1)] + batch.effects, batch.error)
  {
  }

  /** The database step fails exactly when the parent insert fails or, with a
      `mesaj` array, some address insert fails. */
  lemma DatabaseErrorIffInsertFails(db: Database, c: CapturedRequest, stringify: Json -> string, f: Faults)
    ensures SaveRequestToDatabase(db, c, stringify, f).error.None? <==> f.requestInsert.None? && BatchSucceeds(c, f)
  {
    if f.requestInsert.None? && MesajItems(c.bodyParsed).Some? {
      DatabaseRunsBatch(db, c, stringify, f);
      InsertAddressesErrorIff(WithParent(db, c, stringify), db.requestSeq + 1, MesajItems(c.bodyParsed).value, f.addressInserts);
    }
  }

  /** Address rows the database step adds come after the existing ones, carry
      fresh increasing ids above the counter, and all link to the new parent. */
  lemma DatabaseAppends(db: Database, c: CapturedRequest, stringify: Json -> string, f: Faults)
    ensures var r := SaveRequestToDatabase(db, c, stringify, f).state;
            && r.addresses[..|db.addresses|] == db.addresses
            && (forall i :: |db.addresses| <= i < |r.addresses| ==>
                  r.addresses[i].requestId == db.requestSeq + 1
                  && r.addresses[i].id == db.addressSeq + 1 + (i - |db.addresses|))
  {
    if f.requestInsert.None? && MesajItems(c.bodyParsed).Some? {
      DatabaseRunsBatch(db, c, stringify, f);
      InsertAddressesAppends(WithParent(db, c, stringify), db.requestSeq + 1, MesajItems(c.bodyParsed).value, f.addressInserts);
    }
  }

  /** The writes of a database step for the parent `id`: the parent's first,
      then address writes that all name it. */
  predicate ParentFirst(e: seq<Effect>, id: nat) {
    && (e != [] ==> e[0] == RequestInserted(id))
    && forall i :: 1 <= i < |e| ==> e[i].AddressInserted? && e[i].parentId == id
  }

  /** The parent's write followed by address writes naming it is parent-first. */
  lemma ParentThenChildren(id: nat, children: seq<Effect>)
    requires forall i :: 0 <= i < |children| ==> children[i].AddressInserted? && children[i].parentId == id
    ensures ParentFirst([RequestInserted(id)] + children, id)
  {
    var e := [RequestInserted(id)] + children;
    forall i | 1 <= i < |e| ensures e[i] == children[i - 1] {
    }
  }

  /** A parent's write followed by the writes of a batch for it is parent-first. */
  lemma ParentThenBatch(db: Database, id: nat, b: BatchRun)
    requires LinkedTo(b.written, id)
    ensures ParentFirst([RequestInserted(id)] + ApplyBatch(db, id, b).effects, id)
  {
    BatchEffects(db, id, b);
    ParentThenChildren(id, ApplyBatch(db, id, b).effects);
  }

  /** The parent's write followed by the writes of the batch run for it is
      parent-first. */
  lemma BatchAfterParent(db: Database, id: nat, items: seq<Json>, faults: seq<Option<string>>)
    ensures ParentFirst([RequestInserted(id)] + InsertAddresses(db, id, items, faults).effects, id)
  {
    WrittenRowsLinked(id, items, faults);
    ParentThenBatch(db, id, SaveAddresses(id, items, faults));
  }

  /** With a parent inserted and a `mesaj` array, the database step records
      the parent's write and then the batch's writes for it. */
  lemma DatabaseBatchParentFirst(db: Database, c: CapturedRequest, stringify: Json -> string, f: Faults)
    requires f.requestInsert.None? && MesajItems(c.bodyParsed).Some?
    ensures ParentFirst(SaveRequestToDatabase(db, c, stringify, f).effects, db.requestSeq + 1)
  {
    var id := db.requestSeq + 1;
    var db1 := WithParent(db, c, stringify);
    var batch := InsertAddresses(db1, id, MesajItems(c.bodyParsed).value, f.addressInserts);
    assert SaveRequestToDatabase(db, c, stringify, f).effects == [RequestInserted(id)] + batch.effects by {
      DatabaseRunsBatch(db, c, stringify, f);
    }
    BatchAfterParent(db1, id, MesajItems(c.bodyParsed).value, f.addressInserts);
  }

  /** The database step records the parent's write first and every address
      write after it, each naming the new parent; it records nothing when the
      parent insert fails. */
  lemma DatabaseEffects(db: Database, c: CapturedRequest, stringify: Json -> string, f: Faults)
    ensures var e := SaveRequestToDatabase(db, c, stringify, f).effects;
            && (e == [] <==> f.requestInsert.Some?)
            && ParentFirst(e, db.requestSeq + 1)
  {
    if f.requestInsert.None? && MesajItems(c.bodyParsed).Some? {
      DatabaseBatchParentFirst(db, c, stringify, f);
    }
  }

  /** When the parent insert and every address insert succeed, the database
      step reports no error and there is one address row per `mesaj` element,
      in array order (none without a `mesaj` array). */
  lemma DatabaseSuccessRows(db: Database, c: CapturedRequest, stringify: Json -> string, f: Faults)
    requires f.requestInsert.None? && BatchSucceeds(c, f)
    ensures SaveRequestToDatabase(db, c, stringify, f).error.None?
    ensures var items := if MesajItems(c.bodyParsed).Some? then MesajItems(c.bodyParsed).value else [];
            HoldsElementRows(SaveRequestToDatabase(db, c, stringify, f).state.addresses,
                             |db.addresses|, db.addressSeq, db.requestSeq + 1, items)
  {
    DatabaseErrorIffInsertFails(db, c, stringify, f);
    if MesajItems(c.bodyParsed).Some? {
      DatabaseRunsBatch(db, c, stringify, f);
      InsertAddressesSuccessRows(WithParent(db, c, stringify), db.requestSeq + 1, MesajItems(c.bodyParsed).value, f.addressInserts);
    }
  }

  /** When the parent insert and every address insert succeed, the new
      address rows store the `mesaj` elements in order. */
  lemma DatabaseStoresElements(db: Database, c: CapturedRequest, stringify: Json -> string, f: Faults)
    requires f.requestInsert.None? && BatchSucceeds(c, f) && MesajItems(c.bodyParsed).Some?
    ensures StoresElements(SaveRequestToDatabase(db, c, stringify, f).state.addresses, |db.addresses|,
                           db.requestSeq + 1, MesajItems(c.bodyParsed).value)
  {
    DatabaseSuccessRows(db, c, stringify, f);
    HeldRowsStoreElements(SaveRequestToDatabase(db, c, stringify, f).state.addresses, |db.addresses|, db.addressSeq,
                          db.requestSeq + 1, MesajItems(c.bodyParsed).value);
  }

  /** The member names of the response bodies are pairwise distinct. */
  lemma DistinctKeys()
    ensures "success" != "message" && "success" != "timestamp" && "success" != "error"
    ensures "message" != "timestamp" && "message" != "error" && "timestamp" != "error"
  {
    assert "success"[0] != "message"[0];
    assert "timestamp"[0] != "error"[0];
    assert "message"[0] != "error"[0];
  }

  /** The body of the 200 response. */
  function SavedBody(timestamp: string): (b: Json)
    ensures b.JObject? && |b.members| == 3
  {
    JObject([("success", JBool(true)), ("message", JString(SavedMessage)), ("timestamp", JString(timestamp))])
  }

  /** The body of the 500 response, carrying `error.message`. */
  function FailedBody(error: string): (b: Json)
    ensures b.JObject? && |b.members| == 3
  {
    JObject([("success", JBool(false)), ("message", JString(FailedMessage)), ("error", JString(error))])
  }

  /** Reading the 200 body back gives `success: true`, the success message
      and the timestamp, and no `error`. */
  lemma SavedBodyFields(timestamp: string)
    ensures var b := SavedBody(timestamp);
            && Get(b, "success") == Some(JBool(true)) && Get(b, "message") == Some(JString(SavedMessage))
            && Get(b, "timestamp") == Some(JString(timestamp)) && Get(b, "error").None?
  {
    var m := SavedBody(timestamp).members;
    DistinctKeys();
    assert m[..2] == [m[0], m[1]] && m[..2][..1] == [m[0]];
  }

  /** Reading the 500 body back gives `success: false`, the failure message
      and the error's message, and no `timestamp`. */
  lemma FailedBodyFields(error: string)
    ensures var b := FailedBody(error);
            && Get(b, "success") == Some(JBool(false)) && Get(b, "message") == Some(JString(FailedMessage))
            && Get(b, "error") == Some(JString(error)) && Get(b, "timestamp").None?
  {
    var m := FailedBody(error).members;
    DistinctKeys();
    assert m[..2] == [m[0], m[1]] && m[..2][..1] == [m[0]];
  }

  /** The `try` block of the handler: write the file under `names`, await the
      database, and answer 200 with the capture's timestamp, or 500 with the
      message of the first error. */
  function Persist(s: Store, c: CapturedRequest, names: Names, stringify: Json -> string, f: Faults): (h: Handled)
    ensures h.response.status == 200 || h.response.status == 500
    ensures h.response.status == 200 ==> h.response.body == SavedBody(c.timestamp)
    ensures h.response.status == 500 ==> exists e :: h.response.body == FailedBody(e)
  {
    var file := SaveRequestToFile(s.fs, c, names, f);
    if file.error.Some? then
      Handled(Store(file.state, s.db), file.effects, Response(500, FailedBody(file.error.value)))
    else
      var data := SaveRequestToDatabase(s.db, c, stringify, f);
      var response := if data.error.Some? then Response(500, FailedBody(data.error.value))
                      else Response(200, SavedBody(c.timestamp));
      Handled(Store(file.state, data.state), file.effects + data.effects, response)
  }

  /** The request handler once the body is buffered: build the snapshot
      (`timestamp` is its ISO time, `parse` stands for `JSON.parse`), then
      persist it under the names of the later local-time reading `clock`, and
      answer. */
  function Handle(s: Store, req: IncomingRequest, timestamp: string, clock: Clock,
                  parse: string -> Option<Json>, stringify: Json -> string, f: Faults): (h: Handled)
    ensures h.response.status == 200 || h.response.status == 500
    ensures h.response.status == 200 ==>
              && FormattedDateTime(clock) in h.store.fs.files
              && h.store.fs.files[FormattedDateTime(clock)] == CaptureRequest(req, timestamp, parse)
  {
    Persist(s, CaptureRequest(req, timestamp, parse), FormattedDateTime(clock), stringify, f)
  }

  /** The answer's `success` is true exactly for a 200; a 200 carries the
      snapshot's timestamp and no error, a 500 an error message and no timestamp. */
  lemma ResponseReportsOutcome(s: Store, c: CapturedRequest, names: Names, stringify: Json -> string, f: Faults)
    ensures var r := Persist(s, c, names, stringify, f).response;
            && Get(r.body, "success") == Some(JBool(r.status == 200))
            && (r.status == 200 ==> Get(r.body, "timestamp") == Some(JString(c.timestamp)) && Get(r.body, "error").None?)
            && (r.status == 500 ==> Get(r.body, "error").Some? && Get(r.body, "timestamp").None?)
  {
    var r := Persist(s, c, names, stringify, f).response;
    if r.status == 200 {
      SavedBodyFields(c.timestamp);
    } else {
      var e :| r.body == FailedBody(e);
      FailedBodyFields(e);
    }
  }

  /** The request is answered 200 exactly when the file is written, the parent
      row is inserted and, if there is a `mesaj` array, every address insert
      succeeds; any failure gives 500. */
  lemma SuccessIffEveryWriteSucceeds(s: Store, c: CapturedRequest, names: Names, stringify: Json -> string, f: Faults)
    ensures Persist(s, c, names, stringify, f).response.status == 200
            <==> FileStepSucceeds(s.fs, names, f) && f.requestInsert.None? && BatchSucceeds(c, f)
  {
    DatabaseErrorIffInsertFails(s.db, c, stringify, f);
  }

  /** A failed file step answers 500 with the file-system error and touches
      no file and no table; at most the day folder was created. */
  lemma FileFailureWritesNoRecord(s: Store, c: CapturedRequest, names: Names, stringify: Json -> string, f: Faults)
    requires !FileStepSucceeds(s.fs, names, f)
    ensures var h := Persist(s, c, names, stringify, f);
            var error := if names.dateFolder !in s.fs.dayFolders && f.mkdir.Some? then f.mkdir.value
                         else f.writeFile.value;
            && h.response == Response(500, FailedBody(error))
            && h.store.fs.files == s.fs.files && h.store.db == s.db
            && forall i :: 0 <= i < |h.effects| ==> h.effects[i].FolderCreated?
  {
  }

  /** Once the file step succeeds, the snapshot is on disk whatever happens in
      the database afterwards: a database failure does not remove it. */
  lemma SnapshotSurvivesDatabaseFailure(s: Store, c: CapturedRequest, names: Names, stringify: Json -> string, f: Faults)
    requires FileStepSucceeds(s.fs, names, f)
    ensures Persist(s, c, names, stringify, f).store.fs.files == s.fs.files[names := c]
  {
  }

  /** A failed parent insert answers 500 with the database error and leaves
      both tables as they were, while the snapshot file stays. */
  lemma ParentFailureKeepsFileOnly(s: Store, c: CapturedRequest, names: Names, stringify: Json -> string, f: Faults)
    requires FileStepSucceeds(s.fs, names, f) && f.requestInsert.Some?
    ensures var h := Persist(s, c, names, stringify, f);
            && h.response == Response(500, FailedBody(f.requestInsert.value))
            && h.store.db == s.db
            && names in h.store.fs.files
  {
  }

  /** Once the file is written, the tables and the database's writes are
      those of the database step on the original tables. */
  lemma PersistAfterFile(s: Store, c: CapturedRequest, names: Names, stringify: Json -> string, f: Faults)
    requires FileStepSucceeds(s.fs, names, f)
    ensures var file := SaveRequestToFile(s.fs, c, names, f);
            var data := SaveRequestToDatabase(s.db, c, stringify, f);
            var h := Persist(s, c, names, stringify, f);
            && h.store == Store(file.state, data.state)
            && h.effects == file.effects + data.effects
            && (h.response.status == 200 <==> data.error.None?)
  {
  }

  /** A failed address batch fails the database step with the error the batch
      promise rejected with, but keeps the parent row. */
  lemma DatabaseBatchFailure(db: Database, c: CapturedRequest, stringify: Json -> string, f: Faults)
    requires f.requestInsert.None? && !BatchSucceeds(c, f)
    ensures MesajItems(c.bodyParsed).Some?
    ensures var r := SaveRequestToDatabase(db, c, stringify, f);
            var b := SaveAddresses(db.requestSeq + 1, MesajItems(c.bodyParsed).value, f.addressInserts);
            && b.outcome.Rejected? && r.error == Some(b.outcome.error)
            && r.state.requests == db.requests + [RequestRecordOf(c, db.requestSeq + 1, stringify)]
  {
    DatabaseErrorIffInsertFails(db, c, stringify, f);
    DatabaseRunsBatch(db, c, stringify, f);
  }

  /** A failed address batch answers 500 with the batch's rejection error and
      does not roll back: the parent row stays, and so does the snapshot file. */
  lemma BatchFailureKeepsParent(s: Store, c: CapturedRequest, names: Names, stringify: Json -> string, f: Faults)
    requires FileStepSucceeds(s.fs, names, f) && f.requestInsert.None? && !BatchSucceeds(c, f)
    ensures MesajItems(c.bodyParsed).Some?
    ensures var h := Persist(s, c, names, stringify, f);
            var b := SaveAddresses(s.db.requestSeq + 1, MesajItems(c.bodyParsed).value, f.addressInserts);
            && b.outcome.Rejected? && h.response == Response(500, FailedBody(b.outcome.error))
            && h.store.db.requests == s.db.requests + [RequestRecordOf(c, s.db.requestSeq + 1, stringify)]
            && names in h.store.fs.files
  {
    DatabaseBatchFailure(s.db, c, stringify, f);
  }

  /** A `null` element of the `mesaj` array makes the request answer 500 with
      the `TypeError` of the property read, once the file and the parent row
      are written. */
  lemma NullElementAnswersTypeError(s: Store, c: CapturedRequest, names: Names, stringify: Json -> string, f: Faults)
    requires FileStepSucceeds(s.fs, names, f) && f.requestInsert.None?
    requires MesajItems(c.bodyParsed).Some? && JNull in MesajItems(c.bodyParsed).value
    ensures Persist(s, c, names, stringify, f).response == Response(500, FailedBody(NullElementError))
  {
    var items := MesajItems(c.bodyParsed).value;
    var j :| 0 <= j < |items| && items[j] == JNull;
    assert !InsertSucceeds(items, f.addressInserts, j);
    BatchFailureKeepsParent(s, c, names, stringify, f);
    NullElementRejects(s.db.requestSeq + 1, items, f.addressInserts);
  }

  /** When every write succeeds the answer is 200, the snapshot file holds
      the captured request, the parent row carries its fields under the next
      id, and there is one address row per `mesaj` element, in order, linked
      to that id (none without a `mesaj` array). */
  lemma SuccessLeavesAllArtifacts(s: Store, c: CapturedRequest, names: Names, stringify: Json -> string, f: Faults)
    requires FileStepSucceeds(s.fs, names, f) && f.requestInsert.None? && BatchSucceeds(c, f)
    ensures Persist(s, c, names, stringify, f).response.status == 200
    ensures var h := Persist(s, c, names, stringify, f);
            var id := s.db.requestSeq + 1;
            var items := if MesajItems(c.bodyParsed).Some? then MesajItems(c.bodyParsed).value else [];
            && names in h.store.fs.files && h.store.fs.files[names] == c
            && h.store.db.requests == s.db.requests + [RequestRecordOf(c, id, stringify)]
            && h.store.db.addresses[..|s.db.addresses|] == s.db.addresses
            && HoldsElementRows(h.store.db.addresses, |s.db.addresses|, s.db.addressSeq, id, items)
  {
    var id := s.db.requestSeq + 1;
    var items := if MesajItems(c.bodyParsed).Some? then MesajItems(c.bodyParsed).value else [];
    var data := SaveRequestToDatabase(s.db, c, stringify, f);
    assert data.error.None? && HoldsElementRows(data.state.addresses, |s.db.addresses|, s.db.addressSeq, id, items) by {
      DatabaseSuccessRows(s.db, c, stringify, f);
    }
    assert data.state.addresses[..|s.db.addresses|] == s.db.addresses by {
      DatabaseAppends(s.db, c, stringify, f);
    }
    assert data.state.requests == s.db.requests + [RequestRecordOf(c, id, stringify)];
    var h := Persist(s, c, names, stringify, f);
    assert h.store.fs.files == s.fs.files[names := c] && h.store.db == data.state && h.response.status == 200 by {
      PersistAfterFile(s, c, names, stringify, f);
    }
  }

  /** When every write succeeds, the `k`-th new address row stores the `k`-th
      `mesaj` element: its `address`, `type`, `name` and `value` properties
      when truthy, `NULL` otherwise, under the new parent's id. */
  lemma StoredRowsFollowElements(s: Store, c: CapturedRequest, names: Names, stringify: Json -> string, f: Faults)
    requires FileStepSucceeds(s.fs, names, f) && f.requestInsert.None? && BatchSucceeds(c, f)
    requires MesajItems(c.bodyParsed).Some?
    ensures StoresElements(Persist(s, c, names, stringify, f).store.db.addresses, |s.db.addresses|,
                           s.db.requestSeq + 1, MesajItems(c.bodyParsed).value)
  {
    PersistAfterFile(s, c, names, stringify, f);
    DatabaseStoresElements(s.db, c, stringify, f);
  }

  /** Without a `mesaj` array in the parsed body (no body, not JSON, invalid
      JSON, a falsy value, or no such array member) no address row is written. */
  lemma NoMesajNoAddressRows(s: Store, c: CapturedRequest, names: Names, stringify: Json -> string, f: Faults)
    requires MesajItems(c.bodyParsed).None?
    ensures Persist(s, c, names, stringify, f).store.db.addresses == s.db.addresses
  {
  }

  /** A malformed JSON body does not fail the request: with no storage
      failure the answer is 200, the raw body is stored verbatim, the
      `body_parsed` column is `NULL`, and the snapshot carries the marker. */
  lemma MalformedJsonStillSaved(s: Store, req: IncomingRequest, timestamp: string, clock: Clock,
                                parse: string -> Option<Json>, stringify: Json -> string)
    requires ParseAttempted(req) && parse(req.body).None?
    ensures var h := Handle(s, req, timestamp, clock, parse, stringify, Faults(None, None, None, []));
            && h.response.status == 200
            && h.store.db.requests[|s.db.requests|].body == req.body
            && h.store.db.requests[|s.db.requests|].bodyParsed.None?
            && h.store.fs.files[FormattedDateTime(clock)].bodyParseError == Some(InvalidJson)
  {
    var c := CaptureRequest(req, timestamp, parse);
    var names := FormattedDateTime(clock);
    var f := Faults(None, None, None, []);
    SuccessLeavesAllArtifacts(s, c, names, stringify, f);
  }

  /** A body that parses to a falsy value (`null`, `false`, `0`, `""`) is
      stored with a `NULL` `body_parsed` column although the parse succeeded:
      with no storage failure the answer is 200 and the snapshot file still
      carries the parse result. */
  lemma FalsyBodyStoredAsNull(s: Store, req: IncomingRequest, timestamp: string, clock: Clock,
                              parse: string -> Option<Json>, stringify: Json -> string)
    requires ParseAttempted(req) && parse(req.body).Some? && !Truthy(parse(req.body).value)
    ensures var h := Handle(s, req, timestamp, clock, parse, stringify, Faults(None, None, None, []));
            && h.response.status == 200
            && h.store.db.requests[|s.db.requests|].bodyParsed.None?
            && h.store.fs.files[FormattedDateTime(clock)].bodyParsed == parse(req.body)
  {
    var c := CaptureRequest(req, timestamp, parse);
    SuccessLeavesAllArtifacts(s, c, FormattedDateTime(clock), stringify, Faults(None, None, None, []));
  }

  /** In `t`, the snapshot file `names` is written before any parent row,
      and each parent row before any address row that refers to it. */
  predicate InOrder(t: seq<Effect>, names: Names) {
    && (forall i :: 0 <= i < |t| && t[i].RequestInserted? ==>
          exists j :: 0 <= j < i && t[j] == FileWritten(names))
    && (forall i :: 0 <= i < |t| && t[i].AddressInserted? ==>
          exists j :: 0 <= j < i && t[j] == RequestInserted(t[i].parentId))
  }

  /** File-system writes, ending with the snapshot when anything follows,
      then a parent-first run of database writes, are in order. */
  lemma FileThenDatabaseInOrder(fe: seq<Effect>, de: seq<Effect>, names: Names, id: nat)
    requires forall i :: 0 <= i < |fe| ==> fe[i].FolderCreated? || fe[i].FileWritten?
    requires de != [] ==> |fe| >= 1 && fe[|fe| - 1] == FileWritten(names)
    requires ParentFirst(de, id)
    ensures InOrder(fe + de, names)
  {
    var t := fe + de;
    var k := |fe|;
    forall i | 0 <= i < |t| && t[i].RequestInserted?
      ensures exists j :: 0 <= j < i && t[j] == FileWritten(names)
    {
      assert i >= k && t[k - 1] == FileWritten(names);
    }
    forall i | 0 <= i < |t| && t[i].AddressInserted?
      ensures exists j :: 0 <= j < i && t[j] == RequestInserted(t[i].parentId)
    {
      assert i > k && t[i] == de[i - k] && t[k] == de[0];
    }
  }

  /** A successful file step's writes followed by the database step's are in order. */
  lemma StepsInOrder(fs: FileSystem, db: Database, c: CapturedRequest, names: Names, stringify: Json -> string, f: Faults)
    requires FileStepSucceeds(fs, names, f)
    ensures InOrder(SaveRequestToFile(fs, c, names, f).effects + SaveRequestToDatabase(db, c, stringify, f).effects, names)
  {
    var fe := SaveRequestToFile(fs, c, names, f).effects;
    var de := SaveRequestToDatabase(db, c, stringify, f).effects;
    assert |fe| >= 1 && fe[|fe| - 1] == FileWritten(names);
    assert ParentFirst(de, db.requestSeq + 1) by {
      DatabaseEffects(db, c, stringify, f);
    }
    FileThenDatabaseInOrder(fe, de, names, db.requestSeq + 1);
  }

  /** The writes happen in order: the snapshot file before the parent row,
      and the parent row before any address row that refers to it. */
  lemma WritesInOrder(s: Store, c: CapturedRequest, names: Names, stringify: Json -> string, f: Faults)
    ensures InOrder(Persist(s, c, names, stringify, f).effects, names)
  {
    if FileStepSucceeds(s.fs, names, f) {
      WritesInOrderAfterFile(s, c, names, stringify, f);
    } else {
      WritesInOrderFileFailed(s, c, names, stringify, f);
    }
  }

  /** `WritesInOrder` when the file is written: the file's writes, then the
      database step's parent-first writes. */
  lemma WritesInOrderAfterFile(s: Store, c: CapturedRequest, names: Names, stringify: Json -> string, f: Faults)
    requires FileStepSucceeds(s.fs, names, f)
    ensures InOrder(Persist(s, c, names, stringify, f).effects, names)
  {
    var e := SaveRequestToFile(s.fs, c, names, f).effects + SaveRequestToDatabase(s.db, c, stringify, f).effects;
    StepsInOrder(s.fs, s.db, c, names, stringify, f);
    assert Persist(s, c, names, stringify, f).effects == e by {
      PersistAfterFile(s, c, names, stringify, f);
    }
  }

  /** `WritesInOrder` when the file step fails: at most a folder was created. */
  lemma WritesInOrderFileFailed(s: Store, c: CapturedRequest, names: Names, stringify: Json -> string, f: Faults)
    requires !FileStepSucceeds(s.fs, names, f)
    ensures InOrder(Persist(s, c, names, stringify, f).effects, names)
  {
    var file := SaveRequestToFile(s.fs, c, names, f);
    FileThenDatabaseInOrder(file.effects, [], names, 0);
    assert file.effects + [] == file.effects;
  }

  /** The file step never removes a folder or a file, and can only change
      the file stored under the snapshot's own names. */
  lemma FileOnlyAdds(fs: FileSystem, c: CapturedRequest, names: Names, f: Faults)
    ensures var r := SaveRequestToFile(fs, c, names, f).state;
            && fs.dayFolders <= r.dayFolders
            && fs.files.Keys <= r.files.Keys
            && (forall p :: p in fs.files && p != names ==> r.files[p] == fs.files[p])
  {
  }

  /** The database step only appends: at most one request row, address rows
      after the existing ones, and counters that never go down. */
  lemma DatabaseOnlyAppends(db: Database, c: CapturedRequest, stringify: Json -> string, f: Faults)
    ensures var r := SaveRequestToDatabase(db, c, stringify, f).state;
            && db.requests <= r.requests
            && |r.requests| <= |db.requests| + 1
            && r.addresses[..|db.addresses|] == db.addresses
            && db.requestSeq <= r.requestSeq && db.addressSeq <= r.addressSeq
  {
    DatabaseAppends(db, c, stringify, f);
  }

  /** Nothing is ever removed or rewritten in the tables: both only grow at
      the end, folders are never removed, and only the snapshot's own path
      can change among the files. */
  lemma PersistOnlyAppends(s: Store, c: CapturedRequest, names: Names, stringify: Json -> string, f: Faults)
    ensures var h := Persist(s, c, names, stringify, f);
            && s.db.requests <= h.store.db.requests
            && |h.store.db.requests| <= |s.db.requests| + 1
            && h.store.db.addresses[..|s.db.addresses|] == s.db.addresses
            && s.fs.dayFolders <= h.store.fs.dayFolders
            && s.fs.files.Keys <= h.store.fs.files.Keys
            && (forall p :: p in s.fs.files && p != names ==> h.store.fs.files[p] == s.fs.files[p])
            && s.db.requestSeq <= h.store.db.requestSeq && s.db.addressSeq <= h.store.db.addressSeq
  {
    FileOnlyAdds(s.fs, c, names, f);
    DatabaseOnlyAppends(s.db, c, stringify, f);
  }

  /** The file step keeps every file inside an existing day folder. */
  lemma FilePreservesWellFormed(fs: FileSystem, c: CapturedRequest, names: Names, f: Faults)
    requires FilesWellFormed(fs)
    ensures FilesWellFormed(SaveRequestToFile(fs, c, names, f).state)
  {
  }

  /** `r` is `db` with `parent` appended under the next id and address rows
      appended under consecutive fresh ids, all linked to `parent`. */
  predicate AppendsParentAndChildren(db: Database, r: Database, parent: RequestRecord) {
    && parent.id == db.requestSeq + 1 && r.requestSeq == parent.id
    && r.requests == db.requests + [parent]
    && |db.addresses| <= |r.addresses| && r.addresses[..|db.addresses|] == db.addresses
    && r.addressSeq == db.addressSeq + (|r.addresses| - |db.addresses|)
    && forall i :: |db.addresses| <= i < |r.addresses| ==>
         r.addresses[i].requestId == parent.id && r.addresses[i].id == db.addressSeq + 1 + (i - |db.addresses|)
  }

  /** Appending the parent under the next id keeps request ids in range and
      increasing. */
  lemma AppendKeepsRequestIds(db: Database, r: Database, parent: RequestRecord)
    requires TablesWellFormed(db) && AppendsParentAndChildren(db, r, parent)
    ensures forall i :: 0 <= i < |r.requests| ==> 1 <= r.requests[i].id <= r.requestSeq
    ensures forall i, j :: 0 <= i < j < |r.requests| ==> r.requests[i].id < r.requests[j].id
  {
    assert r.requests[|db.requests|] == parent;
  }

  /** Address rows appended under consecutive fresh ids keep address ids in
      range and increasing. */
  lemma AppendKeepsAddressIds(db: Database, r: Database, parent: RequestRecord)
    requires TablesWellFormed(db) && AppendsParentAndChildren(db, r, parent)
    ensures forall i :: 0 <= i < |r.addresses| ==> 1 <= r.addresses[i].id <= r.addressSeq
    ensures forall i, j :: 0 <= i < j < |r.addresses| ==> r.addresses[i].id < r.addresses[j].id
  {
    forall i | 0 <= i < |db.addresses| ensures r.addresses[i] == db.addresses[i] {
      assert r.addresses[..|db.addresses|][i] == r.addresses[i];
    }
  }

  /** After the append every address row, old or new, links to a stored request. */
  lemma AppendKeepsLinks(db: Database, r: Database, parent: RequestRecord)
    requires TablesWellFormed(db) && AppendsParentAndChildren(db, r, parent)
    ensures forall i :: 0 <= i < |r.addresses| ==> HasRequest(r, r.addresses[i].requestId)
  {
    assert r.requests[|db.requests|] == parent;
    assert HasRequest(r, parent.id);
    forall i | 0 <= i < |r.addresses| ensures HasRequest(r, r.addresses[i].requestId) {
      if i < |db.addresses| {
        assert r.addresses[..|db.addresses|][i] == r.addresses[i];
        assert HasRequest(db, db.addresses[i].requestId);
        var j :| 0 <= j < |db.requests| && db.requests[j].id == db.addresses[i].requestId;
        assert r.requests[j] == db.requests[j];
      }
    }
  }

  /** Appending one request row under the next id, and address rows under
      consecutive fresh ids that all link to it, keeps the tables well formed. */
  lemma AppendPreservesWellFormed(db: Database, r: Database, parent: RequestRecord)
    requires TablesWellFormed(db)
    requires AppendsParentAndChildren(db, r, parent)
    ensures TablesWellFormed(r)
  {
    AppendKeepsRequestIds(db, r, parent);
    AppendKeepsAddressIds(db, r, parent);
    AppendKeepsLinks(db, r, parent);
  }

  /** A database step whose parent insert succeeds appends the parent under
      the next id and its address rows under fresh ids. */
  lemma DatabaseAppendsParentAndChildren(db: Database, c: CapturedRequest, stringify: Json -> string, f: Faults)
    requires f.requestInsert.None?
    ensures AppendsParentAndChildren(db, SaveRequestToDatabase(db, c, stringify, f).state, RequestRecordOf(c, db.requestSeq + 1, stringify))
  {
    DatabaseAppends(db, c, stringify, f);
  }

  /** The database step keeps the tables well formed: the parent row takes the
      next id, address rows take fresh increasing ids, and every new address
      row links to the parent just inserted. */
  lemma DatabasePreservesWellFormed(db: Database, c: CapturedRequest, stringify: Json -> string, f: Faults)
    requires TablesWellFormed(db)
    ensures TablesWellFormed(SaveRequestToDatabase(db, c, stringify, f).state)
  {
    if f.requestInsert.None? {
      var r := SaveRequestToDatabase(db, c, stringify, f).state;
      DatabaseAppendsParentAndChildren(db, c, stringify, f);
      AppendPreservesWellFormed(db, r, RequestRecordOf(c, db.requestSeq + 1, stringify));
    }
  }

  /** Handling a request keeps the store well formed: fresh ids above every
      earlier one, every address row linked to an existing request, and every
      file inside an existing day folder. */
  lemma PersistPreservesWellFormed(s: Store, c: CapturedRequest, names: Names, stringify: Json -> string, f: Faults)
    requires WellFormed(s)
    ensures WellFormed(Persist(s, c, names, stringify, f).store)
  {
    FilePreservesWellFormed(s.fs, c, names, f);
    DatabasePreservesWellFormed(s.db, c, stringify, f);
  }
}
