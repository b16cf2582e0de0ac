/**
 * `PineconeManager` of src/database.py over an in-memory model of the
 * Pinecone service.
 *
 * The service (`Client`) holds named indexes, each a map from vector id to
 * (values, metadata), and keeps the log of the write calls it received, so
 * that the order of deletes and inserts and the batches sent can be stated.
 * An index's `upsert` overwrites by id; its `delete` with the filter
 * `{"hash": {"$eq": h}}` removes exactly the records whose metadata `hash`
 * equals `h`.
 */
module Database {
  import opened Wrappers
  import opened Documents
  import Seqs

  /** One element of `items`: `{"id", "embedding", "metadata"}`; a missing `metadata` reads as `{}`. */
  datatype Item = Item(id: string, embedding: seq<real>, metadata: Metadata)

  /** What `upsert` sends for one item: `{"id", "values", "metadata"}`. */
  datatype Vector = Vector(id: string, values: seq<real>, metadata: Metadata)

  /** What an index stores under one id. */
  datatype Record = Record(values: seq<real>, metadata: Metadata)

  /** A write call received by the service. */
  datatype Call =
    | Insert(name: string, vectors: seq<Vector>)
    | DeleteWhereHash(name: string, hash: Value)

  /** One element of a query's `matches`: an id and the stored metadata. */
  datatype Match = Match(id: string, metadata: Metadata)

  /** The exceptions the manager raises (all `ValueError`, except `NoIndex`: an `AttributeError` on `None`). */
  datatype ManagerError = NoClient | NoIndexName | NoDimension | ZeroBatchSize | NoIndex

  // ---------------------------------------------------------------------------
  // What the service does with the calls it receives

  predicate HasHash(md: Metadata, h: Value) {
    "hash" in md && md["hash"] == h
  }

  predicate HashIn(md: Metadata, hs: set<Value>) {
    "hash" in md && md["hash"] in hs
  }

  /** `index.delete(filter={"hash": {"$eq": h}})`. */
  function RemoveHash(r: map<string, Record>, h: Value): map<string, Record>
  {
    map id | id in r && !HasHash(r[id].metadata, h) :: r[id]
  }

  /** Removing every record whose hash is one of `hs`. */
  function RemoveHashes(r: map<string, Record>, hs: set<Value>): map<string, Record>
  {
    map id | id in r && !HashIn(r[id].metadata, hs) :: r[id]
  }

  function RecordOf(v: Vector): Record {
    Record(v.values, v.metadata)
  }

  /** `index.upsert(vectors)`: each vector overwrites the record under its id, in order. */
  function Overwrite(r: map<string, Record>, vs: seq<Vector>): map<string, Record>
    decreases |vs|
  {
    if vs == [] then r else Overwrite(r[vs[0].id := RecordOf(vs[0])], vs[1..])
  }

  function Apply(r: map<string, Record>, c: Call): map<string, Record>
  {
    match c
    case Insert(_, vs) => Overwrite(r, vs)
    case DeleteWhereHash(_, h) => RemoveHash(r, h)
  }

  /** The records of one index after it received `cs`, starting from `r`. */
  function Replay(r: map<string, Record>, cs: seq<Call>): map<string, Record>
  {
    if cs == [] then r else Apply(Replay(r, cs[..|cs| - 1]), cs[|cs| - 1])
  }

  function Lookup(r: map<string, Record>, id: string): Option<Record> {
    if id in r then Some(r[id]) else None
  }

  /** The record the last vector with this id in `vs` carries, if any. */
  function LastWrite(vs: seq<Vector>, id: string): Option<Record>
    decreases |vs|
  {
    if vs == [] then None
    else match LastWrite(vs[1..], id)
      case Some(x) => Some(x)
      case None => if vs[0].id == id then Some(RecordOf(vs[0])) else None
  }

  // ---------------------------------------------------------------------------
  // The calls `upsert` issues

  /** `item.get('metadata', {})['hash']` when present. */
  function HashOf(it: Item): Option<Value> {
    if "hash" in it.metadata then Some(it.metadata["hash"]) else None
  }

  /** The keys of the `defaultdict` built by `upsert`, in insertion (first-appearance) order. */
  function Hashes(items: seq<Item>): seq<Value>
  {
    if items == [] then []
    else
      var hs := Hashes(items[..|items| - 1]);
      match HashOf(items[|items| - 1])
      case None => hs
      case Some(h) => if h in hs then hs else hs + [h]
  }

  /** The list the `defaultdict` holds under `h`: the items with that hash, in input order. */
  function Group(items: seq<Item>, h: Value): seq<Item>
  {
    if items == [] then []
    else Group(items[..|items| - 1], h) + (if HashOf(items[|items| - 1]) == Some(h) then [items[|items| - 1]] else [])
  }

  function ToVector(it: Item): Vector {
    Vector(it.id, it.embedding, it.metadata)
  }

  /** The list comprehension that builds `to_upsert` from a batch. */
  function Vectors(items: seq<Item>): seq<Vector> {
    seq(|items|, i requires 0 <= i < |items| => ToVector(items[i]))
  }

  /** `[xs[i:i + n] for i in range(0, len(xs), n)]` for `n != 0`; a negative step gives no batch at all. */
  function Batches(xs: seq<Vector>, n: int): seq<seq<Vector>>
    decreases |xs|
  {
    if n <= 0 || xs == [] then []
    else if |xs| <= n then [xs]
    else [xs[..n]] + Batches(xs[n..], n)
  }

  function Flatten(bs: seq<seq<Vector>>): seq<Vector>
  {
    if bs == [] then [] else bs[0] + Flatten(bs[1..])
  }

  function InsertCalls(name: string, bs: seq<seq<Vector>>): seq<Call>
  {
    if bs == [] then [] else [Insert(name, bs[0])] + InsertCalls(name, bs[1..])
  }

  /** The calls for one hash group: the delete (when not skipped), then one insert per batch. */
  function GroupCalls(name: string, h: Value, g: seq<Item>, deleteFirst: bool, batchSize: int): seq<Call>
  {
    (if deleteFirst then [DeleteWhereHash(name, h)] else [])
    + InsertCalls(name, Batches(Vectors(g), batchSize))
  }

  /** The calls for the groups `hs`, one group after the other. */
  function ProtocolFor(name: string, items: seq<Item>, hs: seq<Value>, deleteFirst: bool, batchSize: int): seq<Call>
  {
    if hs == [] then []
    else ProtocolFor(name, items, hs[..|hs| - 1], deleteFirst, batchSize)
         + GroupCalls(name, hs[|hs| - 1], Group(items, hs[|hs| - 1]), deleteFirst, batchSize)
  }

  /** The calls for the groups `hs`, taking each group's items from `groups`. */
  function ProtocolOver(name: string, hs: seq<Value>, groups: map<Value, seq<Item>>, deleteFirst: bool, batchSize: int): seq<Call>
    requires forall h | h in hs :: h in groups
  {
    if hs == [] then []
    else ProtocolOver(name, hs[..|hs| - 1], groups, deleteFirst, batchSize)
         + GroupCalls(name, hs[|hs| - 1], groups[hs[|hs| - 1]], deleteFirst, batchSize)
  }

  /**
   * All calls one `upsert` issues once the index is known. With a zero batch
   * size Python's `range` raises right after the first group's delete.
   */
  function UpsertCalls(name: string, items: seq<Item>, deleteFirst: bool, batchSize: int): seq<Call>
  {
    var hs := Hashes(items);
    if batchSize != 0 then ProtocolFor(name, items, hs, deleteFirst, batchSize)
    else if hs != [] && deleteFirst then [DeleteWhereHash(name, hs[0])]
    else []
  }

  /** One more group of the loop in `upsert`: its calls follow those of the groups before it. */
  lemma ProtocolOverStep(r0: map<string, Record>, log0: seq<Call>, name: string, hs: seq<Value>,
                         groups: map<Value, seq<Item>>, k: int, deleteFirst: bool, batchSize: int)
    requires 0 <= k < |hs| && forall h | h in hs :: h in groups
    ensures ProtocolOver(name, hs[..k + 1], groups, deleteFirst, batchSize)
            == ProtocolOver(name, hs[..k], groups, deleteFirst, batchSize) + GroupCalls(name, hs[k], groups[hs[k]], deleteFirst, batchSize)
    ensures Replay(r0, ProtocolOver(name, hs[..k + 1], groups, deleteFirst, batchSize))
            == Replay(Replay(r0, ProtocolOver(name, hs[..k], groups, deleteFirst, batchSize)),
                      GroupCalls(name, hs[k], groups[hs[k]], deleteFirst, batchSize))
    ensures log0 + ProtocolOver(name, hs[..k + 1], groups, deleteFirst, batchSize)
            == (log0 + ProtocolOver(name, hs[..k], groups, deleteFirst, batchSize))
               + GroupCalls(name, hs[k], groups[hs[k]], deleteFirst, batchSize)
  {
    assert hs[..k + 1][..k] == hs[..k];
    ReplayAppend(r0, ProtocolOver(name, hs[..k], groups, deleteFirst, batchSize), GroupCalls(name, hs[k], groups[hs[k]], deleteFirst, batchSize));
    Seqs.ConcatAssociative(log0, ProtocolOver(name, hs[..k], groups, deleteFirst, batchSize), GroupCalls(name, hs[k], groups[hs[k]], deleteFirst, batchSize));
  }

  lemma {:induction false} ProtocolOverGroups(name: string, items: seq<Item>, hs: seq<Value>, groups: map<Value, seq<Item>>,
                                              deleteFirst: bool, batchSize: int)
    requires forall h | h in hs :: h in groups && groups[h] == Group(items, h)
    ensures ProtocolOver(name, hs, groups, deleteFirst, batchSize) == ProtocolFor(name, items, hs, deleteFirst, batchSize)
    decreases |hs|
  {
    if hs != [] {
      ProtocolOverGroups(name, items, hs[..|hs| - 1], groups, deleteFirst, batchSize);
    }
  }

  /** The vectors `upsert` writes, group after group. */
  function Regrouped(items: seq<Item>, hs: seq<Value>): seq<Vector>
  {
    if hs == [] then [] else Regrouped(items, hs[..|hs| - 1]) + Vectors(Group(items, hs[|hs| - 1]))
  }

  /** `upsert` goes past its early exits: some items, and an index or a dimension to create one with. */
  predicate Proceeds(items: seq<Item>, hasIndex: bool) {
    items != [] && (hasIndex || |items[0].embedding| > 0)
  }

  // ---------------------------------------------------------------------------
  // The service

  /**
   * One index of the service, as reached through the handle `pc.Index(...)`:
   * its dimension, its records, and the write calls it received, in order.
   */
  class IndexHandle {
    const name: string
    const dimension: nat
    var records: map<string, Record>
    var log: seq<Call>

    constructor (name: string, dimension: nat, records: map<string, Record>)
      ensures this.name == name && this.dimension == dimension && this.records == records && log == []
    {
      this.name := name;
      this.dimension := dimension;
      this.records := records;
      log := [];
    }

    /** `index.upsert(vectors=...)`. */
    method Upsert(vectors: seq<Vector>)
      modifies this
      ensures records == Apply(old(records), Insert(name, vectors))
      ensures log == old(log) + [Insert(name, vectors)]
    {
      records := Overwrite(records, vectors);
      log := log + [Insert(name, vectors)];
    }

    /** `index.delete(filter={"hash": {"$eq": h}})`. */
    method DeleteWhereHash(h: Value)
      modifies this
      ensures records == Apply(old(records), Call.DeleteWhereHash(name, h))
      ensures log == old(log) + [Call.DeleteWhereHash(name, h)]
    {
      records := RemoveHash(records, h);
      log := log + [Call.DeleteWhereHash(name, h)];
    }

    /**
     * `index.query(...)["matches"]`: at most `topK` distinct stored records
     * with their metadata. Which ones, and in which order, is the service's
     * similarity ranking, which the model leaves open.
     */
    method Query(vector: seq<real>, topK: int) returns (matches: seq<Match>)
      ensures |matches| <= (if topK < 0 then 0 else topK)
      ensures forall m | m in matches :: m.id in records && records[m.id].metadata == m.metadata
      ensures forall i, j | 0 <= i < j < |matches| :: matches[i].id != matches[j].id
    {
      matches :| && |matches| <= (if topK < 0 then 0 else topK)
                 && (forall m | m in matches :: m.id in records && records[m.id].metadata == m.metadata)
                 && (forall i, j | 0 <= i < j < |matches| :: matches[i].id != matches[j].id);
    }
  }

  /** The Pinecone client: the indexes of the service, by name. */
  class Client {
    var indexes: map<string, IndexHandle>

    /** Each index is filed under its own name. */
    ghost predicate Valid()
      reads this
    {
      forall n | n in indexes :: indexes[n].name == n
    }

    constructor (indexes: map<string, IndexHandle>)
      requires forall n | n in indexes :: indexes[n].name == n
      ensures Valid() && this.indexes == indexes
    {
      this.indexes := indexes;
    }

    /** `pc.has_index(name)`. */
    method HasIndex(name: string) returns (b: bool)
      ensures b <==> name in indexes
    {
      b := name in indexes;
    }

    /** `pc.Index(host=pc.describe_index(name).host)`. */
    method Index(name: string) returns (handle: IndexHandle)
      requires name in indexes
      ensures handle == indexes[name]
    {
      handle := indexes[name];
    }

    /** `pc.create_index(name, dimension, ...)` followed by `pc.Index(...)`: a new, empty index. */
    method Create(name: string, dimension: nat) returns (handle: IndexHandle)
      requires Valid() && name !in indexes
      modifies this
      ensures Valid()
      ensures fresh(handle) && handle.name == name && handle.dimension == dimension
      ensures handle.records == map[] && handle.log == []
      ensures indexes == old(indexes)[name := handle]
    {
      handle := new IndexHandle(name, dimension, map[]);
      indexes := indexes[name := handle];
    }
  }

  // ---------------------------------------------------------------------------
  // The manager

  class PineconeManager {
    const client: Client
    const indexName: string
    /** `self.index`: the handle, or `null` for `None`. */
    var index: IndexHandle?
    var indexWasCreated: bool

    /**
     * A manager has a name; a handle it holds is the client's index of that
     * name; and it only says it created the index once it holds one.
     */
    ghost predicate Valid()
      reads this, client
    {
      && indexName != "" && client.Valid()
      && (index != null ==> indexName in client.indexes && client.indexes[indexName] == index)
      && (indexWasCreated ==> index != null)
    }

    /** `PineconeManager.__init__` once its two checks passed (see `NewManager`). */
    constructor (client: Client, indexName: string)
      requires client.Valid() && indexName != ""
      ensures Valid()
      ensures this.client == client && this.indexName == indexName && !indexWasCreated
      ensures index == (if indexName in client.indexes then client.indexes[indexName] else null)
    {
      // `_get_or_create_index()` without a dimension: connect, or no index yet
      var found := client.HasIndex(indexName);
      var handle: IndexHandle? := null;
      if found {
        handle := client.Index(indexName);
      }
      this.client := client;
      this.indexName := indexName;
      indexWasCreated := false;
      index := handle;
    }

    /**
     * `_get_or_create_index(dimension)`; a dimension of 0 stands for `None`
     * (both are falsy).
     */
    method GetOrCreateIndex(dimension: nat) returns (handle: IndexHandle?)
      requires client.Valid()
      modifies this`indexWasCreated, client
      ensures client.Valid()
      ensures old(indexName in client.indexes) ==>
        indexName in client.indexes && handle == client.indexes[indexName] && unchanged(this, client)
      ensures old(indexName !in client.indexes) && dimension > 0 ==>
        && handle != null && fresh(handle) && indexWasCreated
        && handle.name == indexName && handle.dimension == dimension && handle.records == map[] && handle.log == []
        && client.indexes == old(client.indexes)[indexName := handle]
      ensures old(indexName !in client.indexes) && dimension == 0 ==>
        handle == null && unchanged(this, client)
    {
      var found := client.HasIndex(indexName);
      if found {
        handle := client.Index(indexName);
        return;
      }
      if dimension > 0 {
        indexWasCreated := true;
        handle := client.Create(indexName, dimension);
        return;
      }
      return null;
    }

    /** `delete_by_hash(h)`; without an index, `self.index.delete` fails on `None`. */
    method DeleteByHash(h: Value) returns (err: Option<ManagerError>)
      requires Valid()
      modifies index
      ensures index == null ==> err == Some(NoIndex)
      ensures index != null ==>
        && err == None
        && index.records == RemoveHash(old(index.records), h)
        && index.log == old(index.log) + [Call.DeleteWhereHash(indexName, h)]
    {
      if index == null {
        return Some(NoIndex);
      }
      index.DeleteWhereHash(h);
      return None;
    }

    /** `query(query_vector, top_k)`. */
    method Query(queryVector: seq<real>, topK: int) returns (matches: seq<Match>)
      requires Valid()
      ensures index == null ==> matches == []
      ensures |matches| <= (if topK < 0 then 0 else topK)
      ensures index != null ==> forall m | m in matches ::
        m.id in index.records && index.records[m.id].metadata == m.metadata
      ensures forall i, j | 0 <= i < j < |matches| :: matches[i].id != matches[j].id
    {
      if index == null {
        return [];
      }
      matches := index.Query(queryVector, topK);
    }

    /** The inner loop of `upsert`: `for i in range(0, len(g), batch_size)`, one `index.upsert` per batch. */
    method InsertBatches(g: seq<Item>, batchSize: int)
      requires Valid() && index != null && batchSize > 0
      modifies index
      ensures index.records == Replay(old(index.records), InsertCalls(indexName, Batches(Vectors(g), batchSize)))
      ensures index.log == old(index.log) + InsertCalls(indexName, Batches(Vectors(g), batchSize))
    {
      ghost var all := InsertCalls(indexName, Batches(Vectors(g), batchSize));
      ghost var log0 := index.log;
      ghost var records0 := index.records;
      var j := 0;
      while j < |g|
        invariant 0 <= j <= |g|
        invariant index.log + InsertCalls(indexName, Batches(Vectors(g[j..]), batchSize)) == log0 + all
        invariant Replay(index.records, InsertCalls(indexName, Batches(Vectors(g[j..]), batchSize)))
                  == Replay(records0, all)
      {
        var end := if j + batchSize < |g| then j + batchSize else |g|;
        var batch := g[j..end];
        BatchesStep(g, j, end, batchSize);
        ReplayCons(index.records, Insert(indexName, Vectors(batch)),
                   InsertCalls(indexName, Batches(Vectors(g[end..]), batchSize)));
        Seqs.ConcatAssociative(index.log, [Insert(indexName, Vectors(batch))],
                               InsertCalls(indexName, Batches(Vectors(g[end..]), batchSize)));
        index.Upsert(Vectors(batch));
        j := end;
      }
      assert g[j..] == [];
      assert Batches(Vectors(g[j..]), batchSize) == [];
    }

    /**
     * `upsert(items, batch_size)`. Once past the early exits, the handle used
     * is the one of the client's index `indexName`, created (empty, with the
     * first item's dimension) when the service has none; its records are the
     * old ones replayed with `UpsertCalls`, which deletes each group's hash
     * first unless this manager created the index.
     */
    method Upsert(items: seq<Item>, batchSize: int) returns (err: Option<ManagerError>)
      requires Valid()
      modifies this, client, client.indexes.Values
      ensures Valid()
      ensures items == [] ==> err == None
      ensures items != [] && old(index) == null && |items[0].embedding| == 0 ==> err == Some(NoDimension)
      ensures !Proceeds(items, old(index) != null) ==> unchanged(this, client) && unchanged(old(client.indexes.Values))
      ensures old(indexWasCreated) ==> indexWasCreated
      ensures forall n | n in old(client.indexes) && n != indexName :: unchanged(old(client.indexes)[n])
      ensures Proceeds(items, old(index) != null) ==>
        && index != null
        && (err == Some(ZeroBatchSize) <==> batchSize == 0 && Hashes(items) != [])
        && (err.None? || err == Some(ZeroBatchSize))
      ensures Proceeds(items, old(index) != null) && old(indexName in client.indexes) ==>
        && index == old(client.indexes[indexName])
        && indexWasCreated == old(indexWasCreated)
        && unchanged(client)
        && index.records == Replay(old(client.indexes[indexName].records), UpsertCalls(indexName, items, !indexWasCreated, batchSize))
        && index.log == old(client.indexes[indexName].log) + UpsertCalls(indexName, items, !indexWasCreated, batchSize)
      ensures Proceeds(items, old(index) != null) && old(indexName !in client.indexes) ==>
        && fresh(index) && indexWasCreated
        && client.indexes == old(client.indexes)[indexName := index]
        && index.dimension == |items[0].embedding|
        && index.records == Replay(map[], UpsertCalls(indexName, items, false, batchSize))
        && index.log == UpsertCalls(indexName, items, false, batchSize)
    {
      if |items| == 0 {
        return None;
      }
      if index == null {
        var dim := |items[0].embedding|;
        if dim == 0 {
          return Some(NoDimension);
        }
        index := GetOrCreateIndex(dim);
      }
      var order, groups := GroupByHash(items);
      err := ReplaceGroups(items, order, groups, batchSize);
    }

    /**
     * The second half of `upsert`: for each hash group in order, the delete
     * by hash (skipped once this manager has created the index) and then the
     * batched inserts.
     */
    method ReplaceGroups(items: seq<Item>, order: seq<Value>, groups: map<Value, seq<Item>>, batchSize: int)
      returns (err: Option<ManagerError>)
      requires Valid() && index != null
      requires order == Hashes(items)
      requires forall h | h in order :: h in groups && groups[h] == Group(items, h)
      modifies index
      ensures err == (if batchSize == 0 && order != [] then Some(ZeroBatchSize) else None)
      ensures index.records == Replay(old(index.records), UpsertCalls(indexName, items, !indexWasCreated, batchSize))
      ensures index.log == old(index.log) + UpsertCalls(indexName, items, !indexWasCreated, batchSize)
    {
      if batchSize == 0 && order != [] {
        // `range(0, n, 0)` raises once the first group's delete has been issued
        if !indexWasCreated {
          var _ := DeleteByHash(order[0]);
        }
        return Some(ZeroBatchSize);
      }
      if batchSize == 0 {
        return None;
      }
      ReplaceEachGroup(order, groups, batchSize);
      ProtocolOverGroups(indexName, items, order, groups, !indexWasCreated, batchSize);
      return None;
    }

    /** The group loop of `upsert` for a non-zero batch size. */
    method ReplaceEachGroup(order: seq<Value>, groups: map<Value, seq<Item>>, batchSize: int)
      requires Valid() && index != null && batchSize != 0
      requires forall h | h in order :: h in groups
      modifies index
      ensures index.records == Replay(old(index.records), ProtocolOver(indexName, order, groups, !indexWasCreated, batchSize))
      ensures index.log == old(index.log) + ProtocolOver(indexName, order, groups, !indexWasCreated, batchSize)
    {
      var deleteFirst := !indexWasCreated;
      ghost var log0 := index.log;
      ghost var records0 := index.records;
      var k := 0;
      ghost var done: seq<Call> := [];
      while k < |order|
        invariant 0 <= k <= |order|
        invariant done == ProtocolOver(indexName, order[..k], groups, deleteFirst, batchSize)
        invariant index.records == Replay(records0, done)
        invariant index.log == log0 + done
      {
        ProtocolOverStep(records0, log0, indexName, order, groups, k, deleteFirst, batchSize);
        ReplaceGroup(order[k], groups[order[k]], batchSize);
        done := ProtocolOver(indexName, order[..k + 1], groups, deleteFirst, batchSize);
        k := k + 1;
      }
      assert order[..k] == order;
    }

    /** One iteration of the group loop of `upsert`, for a non-zero batch size. */
    method ReplaceGroup(h: Value, g: seq<Item>, batchSize: int)
      requires Valid() && index != null && batchSize != 0
      modifies index
      ensures index.records == Replay(old(index.records), GroupCalls(indexName, h, g, !indexWasCreated, batchSize))
      ensures index.log == old(index.log) + GroupCalls(indexName, h, g, !indexWasCreated, batchSize)
    {
      ghost var records0, log0 := index.records, index.log;
      ghost var deletes := if !indexWasCreated then [Call.DeleteWhereHash(indexName, h)] else [];
      ghost var inserts := InsertCalls(indexName, Batches(Vectors(g), batchSize));
      if !indexWasCreated {
        var _ := DeleteByHash(h);
        assert [Call.DeleteWhereHash(indexName, h)][..0] == [];
      }
      assert Replay(records0, deletes) == index.records;
      if batchSize > 0 {
        InsertBatches(g, batchSize);
      } else {
        assert inserts == [];
      }
      ReplayAppend(records0, deletes, inserts);
      Seqs.ConcatAssociative(log0, deletes, inserts);
    }
  }

  /** The `defaultdict(list)` that `upsert` fills: its keys in insertion order, and the list under each key. */
  method GroupByHash(items: seq<Item>) returns (order: seq<Value>, groups: map<Value, seq<Item>>)
    ensures order == Hashes(items)
    ensures forall h :: h in groups <==> h in order
    ensures forall h | h in groups :: groups[h] == Group(items, h)
  {
    order := [];
    groups := map[];
    var i := 0;
    while i < |items|
      invariant 0 <= i <= |items|
      invariant order == Hashes(items[..i])
      invariant forall h :: h in groups <==> h in order
      invariant forall h | h in groups :: groups[h] == Group(items[..i], h)
    {
      var it := items[i];
      assert items[..i + 1][..i] == items[..i];
      if "hash" in it.metadata {
        var h := it.metadata["hash"];
        if h !in groups {
          GroupEmpty(items[..i], h);
          order := order + [h];
          groups := groups[h := []];
        }
        groups := groups[h := groups[h] + [it]];
      }
      i := i + 1;
    }
    assert items[..i] == items;
  }

  /** `PineconeManager(pinecone_client, index_name)`: the checks run before any state is set. */
  method NewManager(client: Client?, indexName: string) returns (r: Result<PineconeManager, ManagerError>)
    requires client != null ==> client.Valid()
    ensures client == null ==> r == Failure(NoClient)
    ensures client != null && indexName == "" ==> r == Failure(NoIndexName)
    ensures client != null && indexName != "" ==>
      && r.Success? && fresh(r.value) && r.value.Valid()
      && r.value.client == client && r.value.indexName == indexName && !r.value.indexWasCreated
      && r.value.index == (if indexName in client.indexes then client.indexes[indexName] else null)
  {
    if client == null {
      return Failure(NoClient);
    }
    if indexName == "" {
      return Failure(NoIndexName);
    }
    var m := new PineconeManager(client, indexName);
    return Success(m);
  }

  // ---------------------------------------------------------------------------
  // Lemmas: the store

  lemma ReplayCons(r: map<string, Record>, c: Call, cs: seq<Call>)
    ensures Replay(r, [c] + cs) == Replay(Apply(r, c), cs)
  {
    ReplayAppend(r, [c], cs);
    assert [c][..0] == [];
  }

  lemma {:induction false} ReplayAppend(r: map<string, Record>, a: seq<Call>, b: seq<Call>)
    ensures Replay(r, a + b) == Replay(Replay(r, a), b)
    decreases |b|
  {
    if b == [] {
      assert a + b == a;
    } else {
      assert (a + b)[..|a + b| - 1] == a + b[..|b| - 1];
      ReplayAppend(r, a, b[..|b| - 1]);
    }
  }

  lemma {:induction false} OverwriteAppend(r: map<string, Record>, a: seq<Vector>, b: seq<Vector>)
    ensures Overwrite(r, a + b) == Overwrite(Overwrite(r, a), b)
    decreases |a|
  {
    if a == [] {
      assert a + b == b;
    } else {
      assert (a + b)[0] == a[0] && (a + b)[1..] == a[1..] + b;
      OverwriteAppend(r[a[0].id := RecordOf(a[0])], a[1..], b);
    }
  }

  /** After `index.upsert(vs)` an id holds the last vector written to it, or else what it held before. */
  lemma {:induction false} OverwriteLookup(r: map<string, Record>, vs: seq<Vector>, id: string)
    ensures Lookup(Overwrite(r, vs), id) == (if LastWrite(vs, id).Some? then LastWrite(vs, id) else Lookup(r, id))
    decreases |vs|
  {
    if vs != [] {
      OverwriteLookup(r[vs[0].id := RecordOf(vs[0])], vs[1..], id);
    }
  }

  /** A record is written by `vs` exactly when some vector in `vs` carries its id. */
  lemma {:induction false} LastWriteSome(vs: seq<Vector>, id: string)
    ensures LastWrite(vs, id).Some? <==> exists v :: v in vs && v.id == id
    ensures LastWrite(vs, id).Some? ==> exists v :: v in vs && v.id == id && RecordOf(v) == LastWrite(vs, id).value
    decreases |vs|
  {
    if vs != [] {
      LastWriteSome(vs[1..], id);
      if LastWrite(vs[1..], id).Some? {
        var v :| v in vs[1..] && v.id == id && RecordOf(v) == LastWrite(vs[1..], id).value;
        assert v in vs;
      }
      assert forall v :: v in vs ==> v == vs[0] || v in vs[1..];
    }
  }

  /** `delete(filter hash == h)` removes exactly the records with that hash and leaves the others as they were. */
  lemma DeleteByHashExact(r: map<string, Record>, h: Value, id: string)
    ensures id in RemoveHash(r, h) <==> id in r && !HasHash(r[id].metadata, h)
    ensures id in RemoveHash(r, h) ==> RemoveHash(r, h)[id] == r[id]
    ensures RemoveHash(RemoveHash(r, h), h) == RemoveHash(r, h)
  {
  }

  lemma {:induction false} RemoveHashOverwrite(r: map<string, Record>, vs: seq<Vector>, h: Value)
    requires forall v | v in vs :: !HasHash(v.metadata, h)
    ensures RemoveHash(Overwrite(r, vs), h) == Overwrite(RemoveHash(r, h), vs)
    decreases |vs|
  {
    if vs != [] {
      var r1 := r[vs[0].id := RecordOf(vs[0])];
      assert RemoveHash(r1, h) == RemoveHash(r, h)[vs[0].id := RecordOf(vs[0])];
      RemoveHashOverwrite(r1, vs[1..], h);
    }
  }

  lemma RemoveHashesAdd(r: map<string, Record>, hs: set<Value>, h: Value)
    ensures RemoveHash(RemoveHashes(r, hs), h) == RemoveHashes(r, hs + {h})
  {
  }

  // ---------------------------------------------------------------------------
  // Lemmas: grouping and batching

  lemma {:induction false} GroupMember(items: seq<Item>, h: Value, it: Item)
    ensures it in Group(items, h) <==> it in items && HashOf(it) == Some(h)
    decreases |items|
  {
    if items != [] {
      var init := items[..|items| - 1];
      GroupMember(init, h, it);
      assert items == init + [items[|items| - 1]];
    }
  }

  lemma GroupEmpty(items: seq<Item>, h: Value)
    requires h !in Hashes(items)
    ensures Group(items, h) == []
  {
    HashesMember(items, h);
  }

  /** The `defaultdict` gets a key exactly for the hashes that some item carries. */
  lemma {:induction false} HashesMember(items: seq<Item>, h: Value)
    ensures h in Hashes(items) <==> Group(items, h) != []
    decreases |items|
  {
    if items != [] {
      HashesMember(items[..|items| - 1], h);
    }
  }

  lemma {:induction false} HashesDistinct(items: seq<Item>)
    ensures forall i, j | 0 <= i < j < |Hashes(items)| :: Hashes(items)[i] != Hashes(items)[j]
    decreases |items|
  {
    if items != [] {
      HashesDistinct(items[..|items| - 1]);
    }
  }

  /**
   * Groups come in the order in which their hash first appears: the hash of
   * an earlier group occurs in `items` before any item of a later group.
   */
  lemma {:induction false} HashesFirstAppearance(items: seq<Item>, a: nat, b: nat)
    requires a < b < |Hashes(items)|
    ensures exists i :: 0 <= i < |items| && HashOf(items[i]) == Some(Hashes(items)[a])
                        && forall j | 0 <= j <= i :: HashOf(items[j]) != Some(Hashes(items)[b])
    decreases |items|
  {
    var init := items[..|items| - 1];
    var last := items[|items| - 1];
    var hs0 := Hashes(init);
    var hs := Hashes(items);
    if b < |hs0| {
      assert hs[a] == hs0[a] && hs[b] == hs0[b];
      HashesFirstAppearance(init, a, b);
      var i :| 0 <= i < |init| && HashOf(init[i]) == Some(hs0[a])
               && forall j | 0 <= j <= i :: HashOf(init[j]) != Some(hs0[b]);
      assert HashOf(items[i]) == Some(hs[a]);
      assert forall j | 0 <= j <= i :: items[j] == init[j];
    } else {
      // the last item opened the group of hs[b]
      assert hs == hs0 + [hs[b]] && b == |hs0|;
      assert hs[a] == hs0[a];
      HashesMember(init, hs[a]);
      var it := Group(init, hs[a])[0];
      GroupMember(init, hs[a], it);
      var i :| 0 <= i < |init| && init[i] == it;
      HashesMember(init, hs[b]);
      forall j | 0 <= j <= i
        ensures HashOf(items[j]) != Some(hs[b])
      {
        if HashOf(items[j]) == Some(hs[b]) {
          assert items[j] == init[j];
          GroupMember(init, hs[b], init[j]);
          assert false;
        }
      }
      assert items[i] == it;
    }
  }

  lemma VectorsSlice(g: seq<Item>, a: nat, b: nat)
    requires a <= b <= |g|
    ensures Vectors(g)[a..b] == Vectors(g[a..b])
  {
  }

  lemma BatchesStep(g: seq<Item>, j: nat, end: nat, n: int)
    requires 0 < n && j < |g| && end == (if j + n < |g| then j + n else |g|)
    ensures InsertCalls("", []) == []
    ensures Batches(Vectors(g[j..]), n) == [Vectors(g[j..end])] + Batches(Vectors(g[end..]), n)
  {
    var v := Vectors(g[j..]);
    assert v != [];
    if |v| <= n {
      assert end == |g|;
      assert g[end..] == [];
      assert g[j..end] == g[j..];
    } else {
      assert v[..n] == Vectors(g[j..end]);
      assert v[n..] == Vectors(g[end..]);
    }
  }

  /** The batches sent for a group are non-empty, hold at most `batch_size` vectors and together are the group. */
  lemma {:induction false} BatchesPartition(xs: seq<Vector>, n: int)
    requires n > 0
    ensures Flatten(Batches(xs, n)) == xs
    ensures forall b | b in Batches(xs, n) :: 0 < |b| <= n
    decreases |xs|
  {
    if xs != [] && |xs| > n {
      BatchesPartition(xs[n..], n);
      assert xs == xs[..n] + xs[n..];
    } else if xs != [] {
      assert Flatten([xs]) == xs + Flatten([]);
    }
  }

  lemma {:induction false} ReplayInserts(r: map<string, Record>, name: string, bs: seq<seq<Vector>>)
    ensures Replay(r, InsertCalls(name, bs)) == Overwrite(r, Flatten(bs))
    decreases |bs|
  {
    if bs != [] {
      ReplayCons(r, Insert(name, bs[0]), InsertCalls(name, bs[1..]));
      ReplayInserts(Overwrite(r, bs[0]), name, bs[1..]);
      OverwriteAppend(r, bs[0], Flatten(bs[1..]));
    }
  }

  lemma {:induction false} BatchMember(xs: seq<Vector>, n: int, b: seq<Vector>, v: Vector)
    requires b in Batches(xs, n) && v in b
    ensures v in xs
    decreases |xs|
  {
    if n > 0 && xs != [] && |xs| > n {
      if b != xs[..n] {
        BatchMember(xs[n..], n, b, v);
      }
    }
  }

  lemma {:induction false} InsertCallsShape(name: string, bs: seq<seq<Vector>>, p: nat)
    requires p < |InsertCalls(name, bs)|
    ensures |InsertCalls(name, bs)| == |bs| && InsertCalls(name, bs)[p] == Insert(name, bs[p])
    decreases |bs|
  {
    if p > 0 {
      InsertCallsShape(name, bs[1..], p - 1);
    } else if |bs| > 1 {
      InsertCallsShape(name, bs[1..], 0);
    }
  }

  lemma {:induction false} InsertCallsLength(name: string, bs: seq<seq<Vector>>)
    ensures |InsertCalls(name, bs)| == |bs|
    decreases |bs|
  {
    if bs != [] {
      InsertCallsLength(name, bs[1..]);
    }
  }

  // ---------------------------------------------------------------------------
  // Lemmas: what one upsert does to the store

  lemma {:induction false} RegroupedHashes(items: seq<Item>, hs: seq<Value>, v: Vector)
    requires v in Regrouped(items, hs)
    ensures "hash" in v.metadata && v.metadata["hash"] in hs
    ensures exists it :: it in items && HashOf(it).Some? && v == ToVector(it)
    decreases |hs|
  {
    var init := hs[..|hs| - 1];
    var h := hs[|hs| - 1];
    if v in Regrouped(items, init) {
      RegroupedHashes(items, init, v);
      assert forall x | x in init :: x in hs;
    } else {
      var g := Group(items, h);
      var k :| 0 <= k < |g| && Vectors(g)[k] == v;
      GroupMember(items, h, g[k]);
    }
  }

  /** No vector written for the groups `hs` carries a hash outside `hs`. */
  lemma RegroupedAvoids(items: seq<Item>, hs: seq<Value>, h: Value)
    requires h !in hs
    ensures forall v | v in Regrouped(items, hs) :: !HasHash(v.metadata, h)
  {
    forall v | v in Regrouped(items, hs)
      ensures !HasHash(v.metadata, h)
    {
      RegroupedHashes(items, hs, v);
    }
  }

  /** Every item with a hash is written, whatever its group. */
  lemma RegroupedComplete(items: seq<Item>, it: Item)
    requires it in items && HashOf(it).Some?
    ensures ToVector(it) in Regrouped(items, Hashes(items))
  {
    var h := HashOf(it).value;
    GroupMember(items, h, it);
    HashesMember(items, h);
    var hs := Hashes(items);
    var k :| 0 <= k < |hs| && hs[k] == h;
    RegroupedHas(items, hs, k, it);
  }

  lemma {:induction false} RegroupedHas(items: seq<Item>, hs: seq<Value>, k: nat, it: Item)
    requires k < |hs| && it in Group(items, hs[k])
    ensures ToVector(it) in Regrouped(items, hs)
    decreases |hs|
  {
    var g := Group(items, hs[k]);
    var i :| 0 <= i < |g| && g[i] == it;
    assert Vectors(g)[i] == ToVector(it);
    if k < |hs| - 1 {
      RegroupedHas(items, hs[..|hs| - 1], k, it);
    }
  }

  /**
   * The delete path: for distinct hashes, deleting each group's hash and then
   * inserting its batches leaves the old records minus every record carrying
   * one of these hashes, overwritten by the groups' vectors in group order.
   */
  lemma {:induction false} ReplaceByHash(r: map<string, Record>, name: string, items: seq<Item>, hs: seq<Value>, n: int)
    requires n > 0
    requires forall i, j | 0 <= i < j < |hs| :: hs[i] != hs[j]
    ensures Replay(r, ProtocolFor(name, items, hs, true, n)) == Overwrite(RemoveHashes(r, set h | h in hs), Regrouped(items, hs))
    decreases |hs|
  {
    if hs == [] {
      assert RemoveHashes(r, {}) == r;
    } else {
      var init := hs[..|hs| - 1];
      var h := hs[|hs| - 1];
      var W := Regrouped(items, init);
      ReplaceByHash(r, name, items, init, n);
      assert h !in init by {
        forall i | 0 <= i < |init| ensures init[i] != h { assert init[i] == hs[i]; }
      }
      RegroupedAvoids(items, init, h);
      var H := set x | x in init;
      ReplaceOneHash(r, name, h, H, W, Vectors(Group(items, h)), n, ProtocolFor(name, items, init, true, n));
      assert (set y | y in hs) == H + {h};
    }
  }

  /** One step of `ReplaceByHash`: the delete of hash `h` and the inserts of its group `V`. */
  lemma ReplaceOneHash(r: map<string, Record>, name: string, h: Value, H: set<Value>, W: seq<Vector>, V: seq<Vector>,
                       n: int, before: seq<Call>)
    requires n > 0
    requires Replay(r, before) == Overwrite(RemoveHashes(r, H), W)
    requires forall v | v in W :: !HasHash(v.metadata, h)
    ensures Replay(r, before + ([DeleteWhereHash(name, h)] + InsertCalls(name, Batches(V, n))))
            == Overwrite(RemoveHashes(r, H + {h}), W + V)
  {
    var x := RemoveHashes(r, H);
    var inserts := InsertCalls(name, Batches(V, n));
    ReplayAppend(r, before, [DeleteWhereHash(name, h)] + inserts);
    ReplayCons(Overwrite(x, W), DeleteWhereHash(name, h), inserts);
    ReplayInserts(RemoveHash(Overwrite(x, W), h), name, Batches(V, n));
    BatchesPartition(V, n);
    RemoveHashOverwrite(x, W, h);
    RemoveHashesAdd(r, H, h);
    OverwriteAppend(RemoveHashes(r, H + {h}), W, V);
  }

  /** The path without deletes: the groups' vectors overwrite the old records and nothing is removed. */
  lemma {:induction false} InsertOnly(r: map<string, Record>, name: string, items: seq<Item>, hs: seq<Value>, n: int)
    requires n > 0
    ensures Replay(r, ProtocolFor(name, items, hs, false, n)) == Overwrite(r, Regrouped(items, hs))
    decreases |hs|
  {
    if hs != [] {
      var init := hs[..|hs| - 1];
      var V := Vectors(Group(items, hs[|hs| - 1]));
      InsertOnly(r, name, items, init, n);
      ReplayAppend(r, ProtocolFor(name, items, init, false, n), InsertCalls(name, Batches(V, n)));
      assert [] + InsertCalls(name, Batches(V, n)) == InsertCalls(name, Batches(V, n));
      ReplayInserts(Overwrite(r, Regrouped(items, init)), name, Batches(V, n));
      BatchesPartition(V, n);
      OverwriteAppend(r, Regrouped(items, init), V);
    }
  }

  /**
   * What survives an upsert that takes the delete path. For each id: if a
   * vector of this call carries it, the store holds the last such vector;
   * otherwise it holds the old record, unless that record's hash is one of
   * the call's hashes. So a record carrying one of the call's hashes was
   * written by this call: no stale record of a re-indexed file survives.
   */
  lemma UpsertReplacesByHash(r: map<string, Record>, name: string, items: seq<Item>, n: int, id: string)
    requires n > 0
    ensures var r' := Replay(r, UpsertCalls(name, items, true, n));
            var W := Regrouped(items, Hashes(items));
            var H := set h | h in Hashes(items);
            && (LastWrite(W, id).Some? ==> id in r' && r'[id] == LastWrite(W, id).value)
            && (LastWrite(W, id).None? ==>
                  Lookup(r', id) == if id in r && !HashIn(r[id].metadata, H) then Some(r[id]) else None)
            && (id in r' && HashIn(r'[id].metadata, H) ==> LastWrite(W, id) == Some(r'[id]))
  {
    var hs := Hashes(items);
    var W := Regrouped(items, hs);
    var H := set h | h in hs;
    HashesDistinct(items);
    ReplaceByHash(r, name, items, hs, n);
    OverwriteLookup(RemoveHashes(r, H), W, id);
  }

  /**
   * What survives an upsert that skips deletes (every upsert after the one
   * that created the index, on the same manager): old records whose id is
   * not written stay, whatever their hash.
   */
  lemma UpsertWithoutDeleteKeepsOld(r: map<string, Record>, name: string, items: seq<Item>, n: int, id: string)
    requires n > 0
    requires id in r && LastWrite(Regrouped(items, Hashes(items)), id).None?
    ensures var r' := Replay(r, UpsertCalls(name, items, false, n));
            id in r' && r'[id] == r[id]
  {
    InsertOnly(r, name, items, Hashes(items), n);
    OverwriteLookup(r, Regrouped(items, Hashes(items)), id);
  }

  /** Items without a `hash` key are not written; every item with one is. */
  lemma UpsertWritesHashedItems(items: seq<Item>, v: Vector)
    ensures v in Regrouped(items, Hashes(items)) <==> exists it :: it in items && HashOf(it).Some? && v == ToVector(it)
  {
    if v in Regrouped(items, Hashes(items)) {
      RegroupedHashes(items, Hashes(items), v);
    }
    if exists it :: it in items && HashOf(it).Some? && v == ToVector(it) {
      var it :| it in items && HashOf(it).Some? && v == ToVector(it);
      RegroupedComplete(items, it);
    }
  }

  /**
   * On the delete path, every insert of a vector is preceded by the delete of
   * that vector's hash; on the other path no delete is issued at all.
   */
  lemma {:induction false} DeleteBeforeInsert(name: string, items: seq<Item>, hs: seq<Value>, n: int, p: nat, v: Vector)
    requires p < |ProtocolFor(name, items, hs, true, n)|
    requires ProtocolFor(name, items, hs, true, n)[p].Insert?
    requires v in ProtocolFor(name, items, hs, true, n)[p].vectors
    ensures "hash" in v.metadata
    ensures exists q :: 0 <= q < p && ProtocolFor(name, items, hs, true, n)[q] == DeleteWhereHash(name, v.metadata["hash"])
    decreases |hs|
  {
    var init := hs[..|hs| - 1];
    var h := hs[|hs| - 1];
    var before := ProtocolFor(name, items, init, true, n);
    var P := ProtocolFor(name, items, hs, true, n);
    var bs := Batches(Vectors(Group(items, h)), n);
    assert P == before + [DeleteWhereHash(name, h)] + InsertCalls(name, bs);
    if p < |before| {
      DeleteBeforeInsert(name, items, init, n, p, v);
      var q :| 0 <= q < p && before[q] == DeleteWhereHash(name, v.metadata["hash"]);
      assert P[q] == before[q];
    } else {
      assert p != |before|;
      var off := p - |before| - 1;
      InsertCallsShape(name, bs, off);
      BatchMember(Vectors(Group(items, h)), n, bs[off], v);
      var g := Group(items, h);
      var k :| 0 <= k < |g| && Vectors(g)[k] == v;
      GroupMember(items, h, g[k]);
      assert P[|before|] == DeleteWhereHash(name, h);
    }
  }

  lemma {:induction false} NoDeleteWhenSkipped(name: string, items: seq<Item>, hs: seq<Value>, n: int, c: Call)
    requires c in ProtocolFor(name, items, hs, false, n)
    ensures c.Insert? && c.name == name
    decreases |hs|
  {
    var init := hs[..|hs| - 1];
    var h := hs[|hs| - 1];
    var bs := Batches(Vectors(Group(items, h)), n);
    assert GroupCalls(name, h, Group(items, h), false, n) == InsertCalls(name, bs);
    assert ProtocolFor(name, items, hs, false, n) == ProtocolFor(name, items, init, false, n) + InsertCalls(name, bs);
    if c in ProtocolFor(name, items, init, false, n) {
      NoDeleteWhenSkipped(name, items, init, n, c);
    } else {
      InsertCallsAreInserts(name, bs, c);
    }
  }

  lemma {:induction false} InsertCallsAreInserts(name: string, bs: seq<seq<Vector>>, c: Call)
    requires c in InsertCalls(name, bs)
    ensures c.Insert? && c.name == name
    decreases |bs|
  {
    if c != Insert(name, bs[0]) {
      InsertCallsAreInserts(name, bs[1..], c);
    }
  }

  /** The stale-record case made concrete: after the flag is set, re-upserting a hash keeps the old record. */
  lemma StaleRecordExample()
    ensures var old_ := map["old-id" := Record([0.5], map["hash" := Str("h")])];
            var items := [Item("new-id", [0.25], map["hash" := Str("h")])];
            var r' := Replay(old_, UpsertCalls("ix", items, false, 100));
            "old-id" in r' && "new-id" in r'
  {
    var old_ := map["old-id" := Record([0.5], map["hash" := Str("h")])];
    var items := [Item("new-id", [0.25], map["hash" := Str("h")])];
    assert Hashes(items) == [Str("h")] by {
      assert items[..0] == [];
    }
    UpsertWithoutDeleteKeepsOld(old_, "ix", items, 100, "old-id");
    InsertOnly(old_, "ix", items, Hashes(items), 100);
    OverwriteLookup(old_, Regrouped(items, Hashes(items)), "new-id");
    assert Group(items, Str("h")) == items by {
      assert items[..0] == [];
    }
    assert Regrouped(items, [Str("h")]) == Vectors(items) by {
      assert [Str("h")][..0] == [];
    }
    assert LastWrite(Vectors(items), "old-id").None?;
  }
}
