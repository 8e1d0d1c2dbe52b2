/**
 * The in-memory store of InitExample records: a map from id to record, kept in insertion order
 * like a JavaScript `Map`, and an id counter. The store holds at most MAX_RECORDS records.
 */
module InitExampleStore {
  import opened Wrappers
  import opened InitExampleDefaults
  import opened InitExampleValidation

  /** InitExampleRecord. A null description is None; so is a missing metadata object. */
  datatype Record = Record(
    id: int,
    name: string,
    description: Option<string>,
    active: bool,
    metadata: Option<Metadata>,
    dateCreated: string,
    dateModified: string)

  /**
   * A `Partial<InitExampleRecord>`: None when the key is absent. A key that is present replaces
   * the record's value, even when that value is `undefined`, so `metadata` carries an Option.
   */
  datatype Patch = Patch(
    id: Option<int>,
    name: Option<string>,
    description: Option<Option<string>>,
    active: Option<bool>,
    metadata: Option<Option<Metadata>>,
    dateCreated: Option<string>,
    dateModified: Option<string>)

  /** The patch with no keys. */
  const EmptyPatch := Patch(None, None, None, None, None, None, None)

  /** The message of the error `add` throws on a full store. */
  const LimitMessage := "Maximum records limit reached"

  /** The value of a key in a spread: the patch's when present, the record's otherwise. */
  function Pick<T>(patch: Option<T>, current: T): T {
    if patch.Some? then patch.value else current
  }

  /** `{ ...existing, ...data }`. */
  function Merge(r: Record, p: Patch): Record {
    Record(
      Pick(p.id, r.id),
      Pick(p.name, r.name),
      Pick(p.description, r.description),
      Pick(p.active, r.active),
      Pick(p.metadata, r.metadata),
      Pick(p.dateCreated, r.dateCreated),
      Pick(p.dateModified, r.dateModified))
  }

  /** An empty patch changes nothing, and applying a patch twice is applying it once. */
  lemma MergeLaws(r: Record, p: Patch)
    ensures Merge(r, EmptyPatch) == r
    ensures Merge(Merge(r, p), p) == Merge(r, p)
    ensures p.id.None? && p.dateCreated.None? ==> Merge(r, p).id == r.id && Merge(r, p).dateCreated == r.dateCreated
  {
  }

  predicate Distinct(s: seq<int>) {
    forall i, j :: 0 <= i < j < |s| ==> s[i] != s[j]
  }

  /** The records of `order`, one per id, in that order: `Array.from(records.values())`. */
  function Values(order: seq<int>, records: map<int, Record>): (rs: seq<Record>)
    requires forall i :: 0 <= i < |order| ==> order[i] in records
    ensures |rs| == |order|
    ensures forall i :: 0 <= i < |order| ==> rs[i] == records[order[i]]
  {
    if order == [] then [] else [records[order[0]]] + Values(order[1..], records)
  }

  /** `order` with `id` removed, which is where a JavaScript `Map` forgets a deleted key. */
  function Without(order: seq<int>, id: int): (r: seq<int>)
    ensures forall k :: k in r <==> k in order && k != id
    ensures id !in order ==> r == order
  {
    if order == [] then []
    else (if order[0] == id then [] else [order[0]]) + Without(order[1..], id)
  }

  lemma {:induction false} WithoutDistinct(order: seq<int>, id: int)
    requires Distinct(order)
    ensures Distinct(Without(order, id))
  {
    if order != [] {
      assert Distinct(order[1..]) by {
        assert forall i :: 0 <= i < |order[1..]| ==> order[1..][i] == order[i + 1];
      }
      WithoutDistinct(order[1..], id);
      assert order[0] !in order[1..];
    }
  }

  /** A list of distinct ids is as long as the set of its ids. */
  lemma {:induction false} DistinctCount(order: seq<int>, keys: set<int>)
    requires Distinct(order)
    requires (forall i :: 0 <= i < |order| ==> order[i] in keys) && forall k :: k in keys ==> k in order
    ensures |keys| == |order|
  {
    if order != [] {
      var rest := keys - {order[0]};
      assert Distinct(order[1..]) by {
        assert forall i :: 0 <= i < |order[1..]| ==> order[1..][i] == order[i + 1];
      }
      assert forall i :: 0 <= i < |order[1..]| ==> order[1..][i] in rest by {
        forall i | 0 <= i < |order[1..]|
          ensures order[1..][i] in rest
        {
          assert order[1..][i] == order[i + 1] && order[i + 1] != order[0];
        }
      }
      assert forall k :: k in rest ==> k in order[1..] by {
        forall k | k in rest
          ensures k in order[1..]
        {
          assert k in order && k != order[0];
        }
      }
      DistinctCount(order[1..], rest);
      assert |keys| == |rest| + 1;
    } else {
      assert forall k :: k !in keys;
      assert keys == {};
    }
  }

  /** `order` lists each key of `records` once, and nothing else. */
  predicate Lists(order: seq<int>, records: map<int, Record>) {
    Distinct(order) && (forall i :: 0 <= i < |order| ==> order[i] in records)
    && forall k :: k in records ==> k in order
  }

  /** Forgetting an id in both the order and the map keeps them in step. */
  lemma ListsWithout(order: seq<int>, records: map<int, Record>, id: int)
    requires Lists(order, records)
    ensures Lists(Without(order, id), records - {id})
  {
    WithoutDistinct(order, id);
    var w := Without(order, id);
    forall i | 0 <= i < |w|
      ensures w[i] in records - {id}
    {
      assert w[i] in w;
    }
  }

  /** Appending a new id to the order and the map keeps them in step. */
  lemma ListsAppend(order: seq<int>, records: map<int, Record>, r: Record)
    requires Lists(order, records) && r.id !in records
    ensures Lists(order + [r.id], records[r.id := r])
  {
  }

  class Store {
    /** The records by id. */
    var records: map<int, Record>
    /** The ids of `records` in the order they were first inserted. */
    var order: seq<int>
    var currentId: int

    /** The insertion order lists each stored id once, and the store is within its capacity. */
    ghost predicate Valid()
      reads this
    {
      Lists(order, records) && |records| <= MaxRecords && currentId >= 0
    }

    constructor()
      ensures Valid()
      ensures records == map[] && order == [] && currentId == 0
    {
      records := map[];
      order := [];
      currentId := 0;
    }

    /** `getNextId`: the counter moves on by one and its new value is the id. */
    method GetNextId() returns (id: int)
      requires Valid()
      modifies this
      ensures Valid()
      ensures id == old(currentId) + 1 && currentId == id
      ensures records == old(records) && order == old(order)
    {
      currentId := currentId + 1;
      id := currentId;
    }

    /** `getAll`: the records in insertion order. */
    method GetAll() returns (rs: seq<Record>)
      requires Valid()
      ensures rs == Values(order, records)
      ensures |rs| == |records|
    {
      rs := Values(order, records);
      DistinctCount(order, records.Keys);
    }

    /** `getById`. */
    method GetById(id: int) returns (r: Option<Record>)
      ensures r == if id in records then Some(records[id]) else None
    {
      r := if id in records then Some(records[id]) else None;
    }

    /**
     * `add`: a full store throws and keeps its records; otherwise the record is stored under its
     * id, replacing any record with that id, which keeps its place in the order.
     */
    method Add(record: Record) returns (r: Result<Record, string>)
      requires Valid()
      modifies this
      ensures Valid()
      ensures currentId == old(currentId)
      ensures old(|records|) >= MaxRecords ==> r == Failure(LimitMessage) && records == old(records) && order == old(order)
      ensures old(|records|) < MaxRecords ==>
        r == Success(record) && records == old(records)[record.id := record]
        && order == if record.id in old(records) then old(order) else old(order) + [record.id]
    {
      if |records| >= MaxRecords {
        return Failure(LimitMessage);
      }
      if record.id !in records {
        ListsAppend(order, records, record);
        order := order + [record.id];
      }
      records := records[record.id := record];
      r := Success(record);
    }

    /** `update`: a missing id changes nothing; otherwise the record becomes its merge with `data`. */
    method Update(id: int, data: Patch) returns (r: Option<Record>)
      requires Valid()
      modifies this
      ensures Valid()
      ensures id !in old(records) ==> r.None? && records == old(records)
      ensures id in old(records) ==> r == Some(Merge(old(records)[id], data)) && records == old(records)[id := r.value]
      ensures order == old(order) && currentId == old(currentId)
    {
      if id !in records {
        return None;
      }
      var updated := Merge(records[id], data);
      records := records[id := updated];
      r := Some(updated);
    }

    /** `delete`: true exactly when the id was stored; afterwards it is not. */
    method Delete(id: int) returns (deleted: bool)
      requires Valid()
      modifies this
      ensures Valid()
      ensures deleted == (id in old(records))
      ensures records == old(records) - {id} && id !in records
      ensures order == Without(old(order), id) && currentId == old(currentId)
    {
      deleted := id in records;
      ListsWithout(order, records, id);
      order := Without(order, id);
      records := records - {id};
    }

    /** `exists`. */
    method Exists(id: int) returns (b: bool)
      ensures b == (id in records)
    {
      b := id in records;
    }

    /** `count`: the number of stored records, which is the length of what `getAll` returns. */
    method Count() returns (n: nat)
      requires Valid()
      ensures n == |records| && n == |order| && n <= MaxRecords
    {
      n := |records|;
      DistinctCount(order, records.Keys);
    }

    /** `clear`: no records, and the counter back at zero. */
    method Clear()
      modifies this
      ensures Valid()
      ensures records == map[] && order == [] && currentId == 0
    {
      records := map[];
      order := [];
      currentId := 0;
    }
  }

  /** After `clear` the next id is 1 and the store is empty. */
  method FirstIdAfterClear(store: Store) returns (id: int, n: nat)
    modifies store
    ensures id == 1 && n == 0
  {
    store.Clear();
    id := store.GetNextId();
    n := store.Count();
  }

  /** Adding under an id that is stored already replaces that record and keeps the count. */
  method ReplaceKeepsCount(store: Store, record: Record) returns (before: nat, after: nat)
    requires store.Valid() && record.id in store.records
    modifies store
    ensures before == after
  {
    before := store.Count();
    var _ := store.Add(record);
    after := store.Count();
  }
}
