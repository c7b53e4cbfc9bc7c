/** The record manager: variable-length records in one growing stream, a
    pool of recycled slots that is drawn on before the stream grows, and a
    directory of named addresses in which 0 means "not registered". The
    stream is an abstract length; a record's bytes are kept by address. */
module Records {
  import opened Wrappers

  newtype byte = x: int | 0 <= x < 256

  /** `RecordHeader`: where a record lives, how many data bytes it holds and
      how many bytes are allocated for it. */
  datatype RecordHeader = RecordHeader(address: int, dataSize: nat, allocatedDataSize: nat)

  datatype Record = Record(header: RecordHeader, data: seq<byte>)

  /** A live record's bytes and its allocated size. */
  datatype Slot = Slot(data: seq<byte>, allocatedSize: nat)

  /** A recycled slot waiting in the reuse pool. */
  datatype FreeSlot = FreeSlot(address: int, allocatedSize: nat)

  /** The record manager's state. `firstAddress` (past the store's own
      metadata) and `headerSize` (the bytes a record header takes, never
      none) fix the layout; `savedPool`/`savedNames` are what `SaveState` last wrote. */
  datatype Store = Store(
    firstAddress: nat, headerSize: nat, streamLength: nat,
    records: map<int, Slot>, pool: seq<FreeSlot>, names: map<string, int>,
    savedPool: seq<FreeSlot>, savedNames: map<string, int>)

  /** Live records lie in the stream past the metadata and hold no more data
      than is allocated for them; every pooled slot lies in the stream, is not
      live, and is pooled once. */
  ghost predicate Valid(s: Store)
  {
    && 0 < s.firstAddress <= s.streamLength && 0 < s.headerSize
    && (forall a :: a in s.records ==>
          s.firstAddress <= a < s.streamLength && |s.records[a].data| <= s.records[a].allocatedSize)
    && (forall i :: 0 <= i < |s.pool| ==>
          s.firstAddress <= s.pool[i].address < s.streamLength && s.pool[i].address !in s.records)
    && (forall i, j :: 0 <= i < j < |s.pool| ==> s.pool[i].address != s.pool[j].address)
  }

  /** A fresh store: nothing allocated, nothing pooled, no names. */
  function Empty(firstAddress: nat, headerSize: nat): Store
  {
    Store(firstAddress, headerSize, firstAddress, map[], [], map[], [], map[])
  }

  /** `TestAllocationStrategy` with its `Size` property set to `size`:
      `CalculateSize` ignores the data size. */
  function TestAllocationStrategy(size: nat): nat -> nat
  {
    (dataSize: nat) => size
  }

  /** The first pooled slot with room for `size` bytes, if any. */
  function FirstFit(pool: seq<FreeSlot>, size: nat): (r: Option<nat>)
    ensures r.Some? ==> r.value < |pool| && pool[r.value].allocatedSize >= size
    ensures forall j :: 0 <= j < |pool| && (r.None? || j < r.value) ==> pool[j].allocatedSize < size
  {
    if pool == [] then None
    else if pool[0].allocatedSize >= size then Some(0)
    else match FirstFit(pool[1..], size)
      case None => None
      case Some(i) => Some(i + 1)
  }

  /** `AppendRecord(data, strategy)` with `alloc` the strategy's size for
      `data`: the first fitting pooled slot is taken out of the pool and keeps
      its allocated size; without one, a slot of exactly `alloc` bytes is
      added at the end of the stream. */
  function Append(s: Store, data: seq<byte>, alloc: nat): (Store, Record)
  {
    match FirstFit(s.pool, alloc)
    case Some(i) =>
      var slot := s.pool[i];
      (s.(records := s.records[slot.address := Slot(data, slot.allocatedSize)],
          pool := s.pool[..i] + s.pool[i + 1..]),
       Record(RecordHeader(slot.address, |data|, slot.allocatedSize), data))
    case None =>
      var a := s.streamLength;
      (s.(streamLength := a + s.headerSize + alloc, records := s.records[a := Slot(data, alloc)]),
       Record(RecordHeader(a, |data|, alloc), data))
  }

  /** `GetRecord(address)`: the live record there, or `None`. */
  function Get(s: Store, address: int): Option<Record>
  {
    if address in s.records then
      Some(Record(RecordHeader(address, |s.records[address].data|, s.records[address].allocatedSize), s.records[address].data))
    else None
  }

  /** `Recycle(address)`: a live record becomes a pooled slot; recycling an
      address that is not live changes nothing. */
  function Recycled(s: Store, address: int): Store
  {
    if address in s.records then
      s.(records := s.records - {address},
         pool := s.pool + [FreeSlot(address, s.records[address].allocatedSize)])
    else s
  }

  /** `UpdateRecord(record, data, strategy)`: rewritten in place when the
      record's allocated size holds `alloc` bytes; otherwise the old slot is
      recycled and the data appended as `AppendRecord` does. `None` when the
      record is not live. */
  function Update(s: Store, address: int, data: seq<byte>, alloc: nat): (Store, Option<Record>)
  {
    if address !in s.records then (s, None)
    else if alloc <= s.records[address].allocatedSize then
      var allocatedSize := s.records[address].allocatedSize;
      (s.(records := s.records[address := Slot(data, allocatedSize)]),
       Some(Record(RecordHeader(address, |data|, allocatedSize), data)))
    else
      var p := Append(Recycled(s, address), data, alloc);
      (p.0, Some(p.1))
  }

  /** `RegisterNamedRecordAddress(name, address)`. */
  function Register(s: Store, name: string, address: int): Store
  {
    s.(names := s.names[name := address])
  }

  /** `GetNamedRecordAddress(name)`: the registered address, 0 if none. */
  function NamedAddress(s: Store, name: string): int
  {
    if name in s.names then s.names[name] else 0
  }

  /** `SaveState()`: the pool and the directory as they are now become what
      a reopened store would find. */
  function Saved(s: Store): Store
  {
    s.(savedPool := s.pool, savedNames := s.names)
  }

  // ---------------------------------------------------------------------
  // Properties

  lemma EmptyValid(firstAddress: nat, headerSize: nat)
    requires firstAddress > 0 && headerSize > 0
    ensures Valid(Empty(firstAddress, headerSize))
    ensures Get(Empty(firstAddress, headerSize), firstAddress) == None
  {
  }

  /** Appending keeps the store valid and yields a record at a positive
      address that was not live, holding `data` in at least `alloc` bytes,
      which `Get` then returns; no other record changes. The stream grows only
      when no pooled slot fits, and then by exactly one header and `alloc`
      bytes, which is the record's allocated size. */
  lemma AppendSpec(s: Store, data: seq<byte>, alloc: nat)
    requires Valid(s) && |data| <= alloc
    ensures var (s', r) := Append(s, data, alloc);
      && Valid(s')
      && r.header.address > 0 && r.header.address !in s.records
      && r.data == data && r.header.dataSize == |data| && r.header.allocatedDataSize >= alloc
      && Get(s', r.header.address) == Some(r)
      && (forall b :: b != r.header.address ==> Get(s', b) == Get(s, b))
      && s'.names == s.names
      && (FirstFit(s.pool, alloc).Some? ==> s'.streamLength == s.streamLength)
      && (FirstFit(s.pool, alloc).None? ==>
            s'.streamLength == s.streamLength + s.headerSize + alloc && r.header.allocatedDataSize == alloc)
  {
    var (s', r) := Append(s, data, alloc);
    match FirstFit(s.pool, alloc)
    case Some(i) =>
      PoolWithout(s.pool, i);
    case None =>
      forall j | 0 <= j < |s'.pool|
        ensures s'.pool[j].address !in s'.records && s'.pool[j].address < s'.streamLength
      {
        assert s'.pool[j] == s.pool[j];
      }
  }

  /** Removing one slot keeps the others, each still pooled once. */
  lemma PoolWithout(pool: seq<FreeSlot>, i: nat)
    requires i < |pool|
    requires forall x, y :: 0 <= x < y < |pool| ==> pool[x].address != pool[y].address
    ensures var rest := pool[..i] + pool[i + 1..];
      && (forall x :: 0 <= x < |rest| ==> rest[x] in pool && rest[x].address != pool[i].address)
      && (forall x, y :: 0 <= x < y < |rest| ==> rest[x].address != rest[y].address)
  {
    var rest := pool[..i] + pool[i + 1..];
    assert forall x :: 0 <= x < |rest| ==> rest[x] == if x < i then pool[x] else pool[x + 1];
  }

  /** Recycling keeps the store valid: a live record leaves the live set and
      joins the end of the pool with its allocated size; the stream does not
      change. Recycling twice is recycling once. */
  lemma RecycleSpec(s: Store, address: int)
    requires Valid(s)
    ensures var s' := Recycled(s, address);
      && Valid(s')
      && Get(s', address) == None
      && (forall b :: b != address ==> Get(s', b) == Get(s, b))
      && s'.streamLength == s.streamLength
      && s'.pool == (if address in s.records then s.pool + [FreeSlot(address, s.records[address].allocatedSize)] else s.pool)
      && Recycled(s', address) == s'
  {
  }

  /** Updating keeps the store valid and yields a record holding `data` that
      `Get` returns at its address. When the slot holds `alloc` bytes the
      record stays where it was with its allocated size and the stream does
      not grow; otherwise the old address is freed and the record goes where
      `Append` puts it after the old slot is recycled. */
  lemma UpdateSpec(s: Store, address: int, data: seq<byte>, alloc: nat)
    requires Valid(s) && |data| <= alloc
    ensures var (s', r) := Update(s, address, data, alloc);
      && Valid(s')
      && (r.None? <==> address !in s.records)
      && (r.None? ==> s' == s)
      && (r.Some? ==> r.value.data == data && Get(s', r.value.header.address) == Some(r.value))
      && (r.Some? && alloc <= s.records[address].allocatedSize ==>
            && r.value.header.address == address
            && r.value.header.allocatedDataSize == s.records[address].allocatedSize
            && s'.streamLength == s.streamLength && s'.pool == s.pool)
      && (r.Some? && alloc > s.records[address].allocatedSize ==>
            && Get(s', address) == None
            && (s', r.value) == Append(Recycled(s, address), data, alloc))
  {
    if address in s.records && alloc > s.records[address].allocatedSize {
      RecycleSpec(s, address);
      var s1 := Recycled(s, address);
      AppendSpec(s1, data, alloc);
      var (s', r) := Append(s1, data, alloc);
      assert r.header.address != address by {
        assert address !in s1.records;
        FreedInPool(s, address);
        AppendTakesPooled(s1, data, alloc);
      }
    }
  }

  /** A freed address waits at the end of the pool. */
  lemma FreedInPool(s: Store, address: int)
    requires Valid(s) && address in s.records
    ensures Recycled(s, address).pool[|s.pool|].address == address
  {
  }

  /** `Append` hands out either a pooled address or the end of the stream. */
  lemma AppendTakesPooled(s: Store, data: seq<byte>, alloc: nat)
    requires Valid(s)
    ensures var r := Append(s, data, alloc).1;
      (exists i :: 0 <= i < |s.pool| && s.pool[i].address == r.header.address) || r.header.address == s.streamLength
  {
    match FirstFit(s.pool, alloc)
    case Some(i) =>
      assert s.pool[i].address == Append(s, data, alloc).1.header.address;
    case None =>
  }

  /** The directory: a registered name yields its address, other names are
      untouched, and a name never registered yields 0. Registering touches no
      record, the pool or the stream. */
  lemma NamedSpec(s: Store, name: string, address: int, other: string)
    ensures NamedAddress(Register(s, name, address), name) == address
    ensures other != name ==> NamedAddress(Register(s, name, address), other) == NamedAddress(s, other)
    ensures other !in s.names ==> NamedAddress(s, other) == 0
    ensures var s' := Register(s, name, address);
      s'.records == s.records && s'.pool == s.pool && s'.streamLength == s.streamLength
  {
  }

  /** `SaveState` records the pool and directory and changes nothing any
      later operation reads. */
  lemma SaveStateSpec(s: Store)
    requires Valid(s)
    ensures var s' := Saved(s);
      && Valid(s') && s'.savedPool == s.pool && s'.savedNames == s.names
      && s'.records == s.records && s'.pool == s.pool && s'.names == s.names
      && s'.streamLength == s.streamLength
  {
  }

  /** A recycled slot is handed out once: of two appends after a recycle, the
      second gets an address other than the first's. */
  lemma NotRecycledTwice(s: Store, address: int, d1: seq<byte>, d2: seq<byte>, alloc1: nat, alloc2: nat)
    requires Valid(s) && |d1| <= alloc1 && |d2| <= alloc2
    ensures var s1 := Recycled(s, address);
      var (s2, r1) := Append(s1, d1, alloc1);
      var (s3, r2) := Append(s2, d2, alloc2);
      r1.header.address != r2.header.address
  {
    RecycleSpec(s, address);
    var s1 := Recycled(s, address);
    AppendSpec(s1, d1, alloc1);
    var (s2, r1) := Append(s1, d1, alloc1);
    AppendSpec(s2, d2, alloc2);
  }

  /** After recycling a live record, an append that fits the freed slot does
      not grow the stream. */
  lemma RecycledSlotReused(s: Store, address: int, data: seq<byte>, alloc: nat)
    requires Valid(s) && address in s.records && |data| <= alloc <= s.records[address].allocatedSize
    ensures var s1 := Recycled(s, address);
      Append(s1, data, alloc).0.streamLength == s.streamLength
  {
    var s1 := Recycled(s, address);
    assert s1.pool[|s.pool|].allocatedSize >= alloc;
    AppendSpec(s1, data, alloc);
  }

  // ---------------------------------------------------------------------
  // The record manager object

  /** `RecordManager`: the store's state held in fields that its methods
      update in place. */
  class RecordManager {
    const firstAddress: nat
    const headerSize: nat
    var streamLength: nat
    var records: map<int, Slot>
    var pool: seq<FreeSlot>
    var names: map<string, int>
    var savedPool: seq<FreeSlot>
    var savedNames: map<string, int>

    function Model(): Store
      reads this
    {
      Store(firstAddress, headerSize, streamLength, records, pool, names, savedPool, savedNames)
    }

    constructor(firstAddress: nat, headerSize: nat)
      requires firstAddress > 0 && headerSize > 0
      ensures Model() == Empty(firstAddress, headerSize) && Valid(Model())
    {
      this.firstAddress := firstAddress;
      this.headerSize := headerSize;
      streamLength := firstAddress;
      records := map[];
      pool := [];
      names := map[];
      savedPool := [];
      savedNames := map[];
    }

    /** Scan the pool for the first slot with room for `size` bytes. */
    method FindFreeSlot(size: nat) returns (r: Option<nat>)
      ensures r == FirstFit(pool, size)
    {
      var i := 0;
      while i < |pool|
        invariant 0 <= i <= |pool|
        invariant forall j :: 0 <= j < i ==> pool[j].allocatedSize < size
      {
        if pool[i].allocatedSize >= size {
          return Some(i);
        }
        i := i + 1;
      }
      return None;
    }

    method AppendRecord(data: seq<byte>, strategy: nat -> nat) returns (r: Record)
      requires Valid(Model()) && |data| <= strategy(|data|)
      modifies this
      ensures (Model(), r) == Append(old(Model()), data, strategy(|data|))
      ensures Valid(Model())
    {
      AppendSpec(Model(), data, strategy(|data|));
      var alloc := strategy(|data|);
      var found := FindFreeSlot(alloc);
      if found.Some? {
        var i := found.value;
        var slot := pool[i];
        records := records[slot.address := Slot(data, slot.allocatedSize)];
        pool := pool[..i] + pool[i + 1..];
        r := Record(RecordHeader(slot.address, |data|, slot.allocatedSize), data);
      } else {
        var a := streamLength;
        streamLength := a + headerSize + alloc;
        records := records[a := Slot(data, alloc)];
        r := Record(RecordHeader(a, |data|, alloc), data);
      }
    }

    method GetRecord(address: int) returns (r: Option<Record>)
      ensures r == Get(Model(), address)
      ensures r.Some? ==> r.value.header.address == address && r.value.data == records[address].data
    {
      if address in records {
        var slot := records[address];
        r := Some(Record(RecordHeader(address, |slot.data|, slot.allocatedSize), slot.data));
      } else {
        r := None;
      }
    }

    method Recycle(address: int)
      requires Valid(Model())
      modifies this
      ensures Model() == Recycled(old(Model()), address)
      ensures Valid(Model())
    {
      RecycleSpec(Model(), address);
      if address in records {
        pool := pool + [FreeSlot(address, records[address].allocatedSize)];
        records := records - {address};
      }
    }

    method UpdateRecord(record: Record, data: seq<byte>, strategy: nat -> nat) returns (r: Option<Record>)
      requires Valid(Model()) && |data| <= strategy(|data|)
      modifies this
      ensures (Model(), r) == Update(old(Model()), record.header.address, data, strategy(|data|))
      ensures Valid(Model())
    {
      UpdateSpec(Model(), record.header.address, data, strategy(|data|));
      var address := record.header.address;
      var alloc := strategy(|data|);
      if address !in records {
        r := None;
      } else if alloc <= records[address].allocatedSize {
        var allocatedSize := records[address].allocatedSize;
        records := records[address := Slot(data, allocatedSize)];
        r := Some(Record(RecordHeader(address, |data|, allocatedSize), data));
      } else {
        Recycle(address);
        var appended := AppendRecord(data, strategy);
        r := Some(appended);
      }
    }

    method RegisterNamedRecordAddress(name: string, address: int)
      modifies this
      ensures Model() == Register(old(Model()), name, address)
    {
      names := names[name := address];
    }

    method GetNamedRecordAddress(name: string) returns (address: int)
      ensures address == NamedAddress(Model(), name)
      ensures name !in names ==> address == 0
    {
      if name in names {
        address := names[name];
      } else {
        address := 0;
      }
    }

    method SaveState()
      modifies this
      ensures Model() == Saved(old(Model()))
    {
      savedPool := pool;
      savedNames := names;
    }
  }
}
