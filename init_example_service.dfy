/**
 * The InitExample service: list, create, get, update and delete over the shared store. Each entry
 * point validates its input first and throws a ServiceError when it is refused; a record that is
 * not stored is NOT_FOUND. The time stamp a call takes from the clock is its `now` parameter.
 */
module InitExampleService {
  import opened Wrappers
  import opened ServiceErrors
  import opened InitExampleDefaults
  import opened InitExampleValidation
  import opened InitExampleStore

  /** InitExampleListResponse: the summary of a record that `list` returns. */
  datatype Summary = Summary(id: int, name: string, active: bool, dateCreated: string)

  /** What a create call throws: a ServiceError, or the plain Error of a full store. */
  datatype Thrown = Service(error: ServiceError) | Plain(message: string)

  /** `createDefaultMetadata`. */
  function DefaultMetadata(): (m: Metadata)
    ensures m.category == "general" && m.priority == DefaultPriority && m.priority.Name() == "medium"
    ensures CategoryMinLength <= |m.category| <= CategoryMaxLength
  {
    Metadata("general", DefaultPriority)
  }

  /** The error of an id the params schema refuses. */
  function InvalidId(): ServiceError {
    ValidationError("Invalid ID")
  }

  /** The error of an id that is not stored. */
  function NotFound(): ServiceError {
    ServiceError("NOT_FOUND", "Not found", 404)
  }

  /** The message `delete` answers with. */
  const DeletedMessage := "Deleted successfully"

  /** The summary of one record. */
  function SummaryOf(r: Record): Summary {
    Summary(r.id, r.name, r.active, r.dateCreated)
  }

  /** `records.map(...)` of `list`. */
  function Summaries(rs: seq<Record>): (ss: seq<Summary>)
    ensures |ss| == |rs|
    ensures forall i :: 0 <= i < |rs| ==> ss[i] == SummaryOf(rs[i])
  {
    if rs == [] then [] else [SummaryOf(rs[0])] + Summaries(rs[1..])
  }

  /** The record `create` builds from an accepted request under a fresh id. */
  function NewEntity(id: int, request: CreateRequest, now: string): Record {
    Record(
      id,
      request.name,
      request.description,
      DefaultActive,
      Some(if request.metadata.Some? then request.metadata.value else DefaultMetadata()),
      now,
      now)
  }

  /** The patch `update` hands the store: the request's fields, the metadata to keep, and the time. */
  function UpdatePatch(existing: Record, request: UpdateRequest, now: string): Patch {
    Patch(
      None,
      Some(request.name),
      Some(request.description),
      Some(request.active),
      Some(if request.metadata.Some? then request.metadata else existing.metadata),
      None,
      Some(now))
  }

  /**
   * The record after an update: its id and creation time are those it had, the other fields
   * come from the request, and metadata the request leaves out is kept.
   */
  function UpdatedEntity(existing: Record, request: UpdateRequest, now: string): (u: Record)
    ensures u.id == existing.id && u.dateCreated == existing.dateCreated
    ensures u.name == request.name && u.description == request.description && u.active == request.active
    ensures u.metadata == if request.metadata.Some? then request.metadata else existing.metadata
    ensures u.dateModified == now
  {
    Merge(existing, UpdatePatch(existing, request, now))
  }

  /**
   * What the service keeps true of the store: each record is stored under its own id, every id
   * is one the counter has handed out, and every record has metadata.
   */
  ghost predicate Consistent(store: Store)
    reads store
  {
    store.Valid()
    && forall k :: k in store.records ==>
      1 <= k <= store.currentId && store.records[k].id == k && store.records[k].metadata.Some?
  }

  /** A fresh store is consistent. */
  method NewService() returns (store: Store)
    ensures fresh(store) && Consistent(store)
    ensures store.records == map[] && store.currentId == 0
  {
    store := new Store();
  }

  /** `initExampleList`: one summary per stored record, in insertion order, with distinct ids. */
  method List(store: Store) returns (ss: seq<Summary>)
    requires Consistent(store)
    ensures ss == Summaries(Values(store.order, store.records))
    ensures |ss| == |store.records|
    ensures forall i :: 0 <= i < |ss| ==> ss[i].id in store.records && ss[i] == SummaryOf(store.records[ss[i].id])
    ensures forall i, j :: 0 <= i < j < |ss| ==> ss[i].id != ss[j].id
  {
    var rs := store.GetAll();
    ss := Summaries(rs);
    forall i | 0 <= i < |ss|
      ensures ss[i].id == store.order[i]
    {
      assert store.order[i] in store.records;
    }
  }

  /**
   * `initExampleCreate`: a refused body throws VALIDATION_ERROR and changes nothing. An accepted
   * one takes the next id even when the store then throws because it is full; otherwise the new
   * record, active and with the default metadata when none was given, is appended under that id.
   */
  method Create(store: Store, body: CreateInput, now: string) returns (r: Result<Record, Thrown>)
    requires Consistent(store)
    modifies store
    ensures Consistent(store)
    ensures ParseCreate(body).None? ==>
      r == Failure(Service(ValidationFailed()))
      && store.records == old(store.records) && store.order == old(store.order) && store.currentId == old(store.currentId)
    ensures ParseCreate(body).Some? ==> store.currentId == old(store.currentId) + 1
    ensures ParseCreate(body).Some? && old(|store.records|) >= MaxRecords ==>
      r == Failure(Plain(LimitMessage)) && store.records == old(store.records) && store.order == old(store.order)
    ensures ParseCreate(body).Some? && old(|store.records|) < MaxRecords ==>
      r == Success(NewEntity(store.currentId, ParseCreate(body).value, now))
      && store.currentId !in old(store.records)
      && store.records == old(store.records)[store.currentId := r.value]
      && store.order == old(store.order) + [store.currentId]
  {
    var request := ParseCreate(body);
    if request.None? {
      return Failure(Service(ValidationFailed()));
    }
    var id := store.GetNextId();
    var entity := NewEntity(id, request.value, now);
    var added := store.Add(entity);
    if added.Failure? {
      return Failure(Plain(added.error));
    }
    r := Success(entity);
  }

  /** `initExampleGet`: a refused id is VALIDATION_ERROR, an unknown one NOT_FOUND. */
  method Get(store: Store, id: Option<real>) returns (r: Result<Record, ServiceError>)
    ensures ParseId(id).None? ==> r == Failure(InvalidId())
    ensures ParseId(id).Some? && ParseId(id).value !in store.records ==> r == Failure(NotFound())
    ensures ParseId(id).Some? && ParseId(id).value in store.records ==> r == Success(store.records[ParseId(id).value])
  {
    var key := ParseId(id);
    if key.None? {
      return Failure(InvalidId());
    }
    var record := store.GetById(key.value);
    if record.None? {
      return Failure(NotFound());
    }
    r := Success(record.value);
  }

  /**
   * `initExampleUpdate`: the id is checked before the body, and both before the store is read.
   * A refused or unknown request changes nothing; otherwise the record is replaced in place.
   */
  method Update(store: Store, id: Option<real>, body: UpdateInput, now: string) returns (r: Result<Record, ServiceError>)
    requires Consistent(store)
    modifies store
    ensures Consistent(store)
    ensures store.order == old(store.order) && store.currentId == old(store.currentId)
    ensures ParseId(id).None? ==> r == Failure(InvalidId()) && store.records == old(store.records)
    ensures ParseId(id).Some? && ParseUpdate(body).None? ==>
      r == Failure(ValidationFailed()) && store.records == old(store.records)
    ensures ParseId(id).Some? && ParseUpdate(body).Some? && ParseId(id).value !in old(store.records) ==>
      r == Failure(NotFound()) && store.records == old(store.records)
    ensures ParseId(id).Some? && ParseUpdate(body).Some? && ParseId(id).value in old(store.records) ==>
      var k := ParseId(id).value;
      r == Success(UpdatedEntity(old(store.records)[k], ParseUpdate(body).value, now))
      && store.records == old(store.records)[k := r.value]
  {
    var key := ParseId(id);
    if key.None? {
      return Failure(InvalidId());
    }
    var request := ParseUpdate(body);
    if request.None? {
      return Failure(ValidationFailed());
    }
    var existing := store.GetById(key.value);
    if existing.None? {
      return Failure(NotFound());
    }
    var updated := store.Update(key.value, UpdatePatch(existing.value, request.value, now));
    r := Success(updated.value);
  }

  /** `initExampleDelete`: a refused id is VALIDATION_ERROR, an unknown one NOT_FOUND; otherwise it is gone. */
  method Delete(store: Store, id: Option<real>) returns (r: Result<string, ServiceError>)
    requires Consistent(store)
    modifies store
    ensures Consistent(store)
    ensures store.currentId == old(store.currentId)
    ensures ParseId(id).None? ==> r == Failure(InvalidId()) && store.records == old(store.records) && store.order == old(store.order)
    ensures ParseId(id).Some? && ParseId(id).value !in old(store.records) ==>
      r == Failure(NotFound()) && store.records == old(store.records) && store.order == old(store.order)
    ensures ParseId(id).Some? && ParseId(id).value in old(store.records) ==>
      r == Success(DeletedMessage) && store.records == old(store.records) - {ParseId(id).value}
      && store.order == Without(old(store.order), ParseId(id).value)
  {
    var key := ParseId(id);
    if key.None? {
      return Failure(InvalidId());
    }
    var present := store.Exists(key.value);
    if !present {
      return Failure(NotFound());
    }
    var _ := store.Delete(key.value);
    r := Success(DeletedMessage);
  }

  /** A record that was created can be read back under its id. */
  method CreateThenGet(store: Store, body: CreateInput, now: string) returns (created: Result<Record, Thrown>, read: Result<Record, ServiceError>)
    requires Consistent(store) && ParseCreate(body).Some? && |store.records| < MaxRecords
    modifies store
    ensures created.Success? && read == Success(created.value)
    ensures created.value.active && created.value.metadata.Some?
    ensures created.value.dateCreated == now && created.value.dateModified == now
  {
    created := Create(store, body, now);
    read := Get(store, Some(created.value.id as real));
  }

  /** After a successful delete the id is NOT_FOUND, for reads and for a second delete alike. */
  method DeleteThenGet(store: Store, id: nat) returns (deleted: Result<string, ServiceError>, read: Result<Record, ServiceError>, again: Result<string, ServiceError>)
    requires Consistent(store) && id in store.records
    modifies store
    ensures deleted == Success(DeletedMessage)
    ensures read == Failure(NotFound()) && again == Failure(NotFound())
  {
    deleted := Delete(store, Some(id as real));
    read := Get(store, Some(id as real));
    again := Delete(store, Some(id as real));
  }

  /** An update without metadata keeps the metadata, the id and the creation time of the record. */
  method UpdateKeepsMetadata(store: Store, id: nat, name: string, active: bool, now: string) returns (before: Result<Record, ServiceError>, after: Result<Record, ServiceError>)
    requires Consistent(store) && id in store.records && NameMinLength <= |name| <= NameMaxLength
    modifies store
    ensures before.Success? && after.Success?
    ensures after.value.metadata == before.value.metadata && after.value.metadata.Some?
    ensures after.value.id == before.value.id && after.value.dateCreated == before.value.dateCreated
    ensures after.value.name == name && after.value.active == active && after.value.description.None?
    ensures after.value.dateModified == now
  {
    before := Get(store, Some(id as real));
    after := Update(store, Some(id as real), UpdateInput(Some(name), Some(None), Some(active), None), now);
  }
}
