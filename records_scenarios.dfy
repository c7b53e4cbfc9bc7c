/** The record manager test fixture (`RecordManagerTest`) replayed on the
    model. Each test starts from a fresh manager; the session's default
    allocation strategy is a parameter that allocates at least the data size,
    as every allocation strategy must. */
module RecordScenarios {
  import opened Wrappers
  import opened Records

  /** An allocation strategy never allocates less than the data it is asked for. */
  ghost predicate Sound(strategy: nat -> nat)
  {
    forall n: nat :: n <= strategy(n)
  }

  method Fresh(firstAddress: nat, headerSize: nat) returns (m: RecordManager)
    requires firstAddress > 0 && headerSize > 0
    ensures fresh(m) && Valid(m.Model()) && m.Model() == Empty(firstAddress, headerSize)
  {
    m := new RecordManager(firstAddress, headerSize);
    EmptyValid(firstAddress, headerSize);
  }

  /** `Append_Record_Returns_Record` and `Append_Record_Assigns_Address`. */
  method AppendRecordAssignsAddress(firstAddress: nat, headerSize: nat, strategy: nat -> nat) returns (address: int)
    requires firstAddress > 0 && headerSize > 0 && Sound(strategy)
    ensures address > 0
  {
    var m := Fresh(firstAddress, headerSize);
    AppendSpec(m.Model(), [], strategy(0));
    var r := m.AppendRecord([], strategy);
    address := r.header.address;
  }

  /** `Get_Record_Returns_Appended_Record`. */
  method GetRecordReturnsAppendedRecord(firstAddress: nat, headerSize: nat, strategy: nat -> nat) returns (read: Option<Record>)
    requires firstAddress > 0 && headerSize > 0 && Sound(strategy)
    ensures read.Some? && read.value.data == [1, 2, 3]
  {
    var m := Fresh(firstAddress, headerSize);
    AppendSpec(m.Model(), [1, 2, 3], strategy(3));
    var r := m.AppendRecord([1, 2, 3], strategy);
    read := m.GetRecord(r.header.address);
  }

  /** `Update_Record_Returns_Updated_Record` and `Update_Record_Updates_Record`:
      the updated record carries the new bytes, and so does the original
      address. */
  method UpdateRecordUpdatesRecord(firstAddress: nat, headerSize: nat, strategy: nat -> nat)
    returns (updated: Option<Record>, read: Option<Record>)
    requires firstAddress > 0 && headerSize > 0 && Sound(strategy)
    ensures updated.Some? && updated.value.data == [4, 5, 6]
    ensures read.Some? && read.value.data == [4, 5, 6]
  {
    var m := Fresh(firstAddress, headerSize);
    AppendSpec(m.Model(), [1, 2, 3], strategy(3));
    var r := m.AppendRecord([1, 2, 3], strategy);
    UpdateSpec(m.Model(), r.header.address, [4, 5, 6], strategy(3));
    updated := m.UpdateRecord(r, [4, 5, 6], strategy);
    read := m.GetRecord(r.header.address);
  }

  /** `Uses_Overridden_AllocationStrategy`: a strategy of size 200 gives a
      fresh record 200 allocated bytes. */
  method UsesOverriddenAllocationStrategy(firstAddress: nat, headerSize: nat) returns (allocatedSize: nat)
    requires firstAddress > 0 && headerSize > 0
    ensures allocatedSize == 200
  {
    var m := Fresh(firstAddress, headerSize);
    var data: seq<byte> := seq(10, _ => 0);
    AppendSpec(m.Model(), data, 200);
    var r := m.AppendRecord(data, TestAllocationStrategy(200));
    allocatedSize := r.header.allocatedDataSize;
  }

  /** `Update_Record_Uses_Overridden_Allocation_Strategy`: appended with size
      10, updated after the strategy's size became 200. */
  method UpdateRecordUsesOverriddenAllocationStrategy(firstAddress: nat, headerSize: nat) returns (allocatedSize: nat)
    requires firstAddress > 0 && headerSize > 0
    ensures allocatedSize == 200
  {
    var m := Fresh(firstAddress, headerSize);
    var data: seq<byte> := seq(10, _ => 0);
    AppendSpec(m.Model(), data, 10);
    var r := m.AppendRecord(data, TestAllocationStrategy(10));
    var data': seq<byte> := seq(40, _ => 0);
    UpdateSpec(m.Model(), r.header.address, data', 200);
    RecycleSpec(m.Model(), r.header.address);
    var updated := m.UpdateRecord(r, data', TestAllocationStrategy(200));
    allocatedSize := updated.value.header.allocatedDataSize;
  }

  /** `Update_Record_Doesnt_Increase_StorageSize`. */
  method UpdateRecordDoesntIncreaseStorageSize(firstAddress: nat, headerSize: nat, strategy: nat -> nat)
    returns (before: nat, after: nat)
    requires firstAddress > 0 && headerSize > 0 && Sound(strategy)
    ensures before == after
  {
    var m := Fresh(firstAddress, headerSize);
    AppendSpec(m.Model(), [1, 2, 3], strategy(3));
    var r := m.AppendRecord([1, 2, 3], strategy);
    before := m.streamLength;
    UpdateSpec(m.Model(), r.header.address, [4, 5, 6], strategy(3));
    var updated := m.UpdateRecord(r, [4, 5, 6], strategy);
    after := m.streamLength;
  }

  /** `Get_Named_Record_Address_Returns_Null_When_Not_Registered`,
      `Stores_Named_Record_Address` and `Store_Multiple_Named_Record_Addresses`. */
  method NamedRecordAddresses(firstAddress: nat, headerSize: nat) returns (unregistered: int, first: int, second: int)
    requires firstAddress > 0 && headerSize > 0
    ensures unregistered == 0 && first == 123 && second == 456
  {
    var m := Fresh(firstAddress, headerSize);
    unregistered := m.GetNamedRecordAddress("Test");
    m.RegisterNamedRecordAddress("Test1", 123);
    m.RegisterNamedRecordAddress("Test2", 456);
    first := m.GetNamedRecordAddress("Test1");
    second := m.GetNamedRecordAddress("Test2");
  }

  /** `Append_Record_Reuses_Empty_Record`. */
  method AppendRecordReusesEmptyRecord(firstAddress: nat, headerSize: nat, strategy: nat -> nat)
    returns (expectedLength: nat, newLength: nat)
    requires firstAddress > 0 && headerSize > 0 && Sound(strategy)
    ensures expectedLength == newLength
  {
    var m := Fresh(firstAddress, headerSize);
    AppendSpec(m.Model(), [1, 2, 3], strategy(3));
    var r := m.AppendRecord([1, 2, 3], strategy);
    RecycledSlotReused(m.Model(), r.header.address, [1, 2, 3], strategy(3));
    m.Recycle(r.header.address);
    expectedLength := m.streamLength;
    var again := m.AppendRecord([1, 2, 3], strategy);
    newLength := m.streamLength;
  }

  /** `Record_Does_Not_Get_Recycled_Twice`. */
  method RecordDoesNotGetRecycledTwice(firstAddress: nat, headerSize: nat, strategy: nat -> nat)
    returns (firstAddress': int, secondAddress: int)
    requires firstAddress > 0 && headerSize > 0 && Sound(strategy)
    ensures firstAddress' != secondAddress
  {
    var m := Fresh(firstAddress, headerSize);
    AppendSpec(m.Model(), [1, 2, 3], strategy(3));
    var r := m.AppendRecord([1, 2, 3], strategy);
    NotRecycledTwice(m.Model(), r.header.address, [4, 5, 6], [7, 8, 9], strategy(3), strategy(3));
    m.Recycle(r.header.address);
    var first := m.AppendRecord([4, 5, 6], strategy);
    var second := m.AppendRecord([7, 8, 9], strategy);
    firstAddress' := first.header.address;
    secondAddress := second.header.address;
  }

  /** A one-byte record and a recycled 100-byte record, the pool saved. */
  method SmallAndFreedGiant(firstAddress: nat, headerSize: nat, strategy: nat -> nat)
    returns (m: RecordManager, small: Record)
    requires firstAddress > 0 && headerSize > 0 && Sound(strategy)
    ensures fresh(m) && Valid(m.Model())
    ensures small.header.address in m.Model().records
    ensures |m.Model().pool| > 0 && m.Model().pool[0].allocatedSize >= strategy(100)
  {
    m := Fresh(firstAddress, headerSize);
    AppendSpec(m.Model(), [1], strategy(1));
    small := m.AppendRecord([1], strategy);
    var giantData: seq<byte> := seq(100, _ => 0);
    AppendSpec(m.Model(), giantData, strategy(100));
    var giant := m.AppendRecord(giantData, strategy);
    RecycleSpec(m.Model(), giant.header.address);
    m.Recycle(giant.header.address);
    SaveStateSpec(m.Model());
    m.SaveState();
  }

  /** `Update_Record_Reuses_Empty_Record`: a one-byte record grown to 20 bytes
      moves into the recycled slot of a 100-byte record, provided the strategy
      gives 20 bytes no more room than 100. */
  method UpdateRecordReusesEmptyRecord(firstAddress: nat, headerSize: nat, strategy: nat -> nat)
    returns (expectedLength: nat, newLength: nat)
    requires firstAddress > 0 && headerSize > 0 && Sound(strategy) && strategy(20) <= strategy(100)
    ensures expectedLength == newLength
  {
    var m, small := SmallAndFreedGiant(firstAddress, headerSize, strategy);
    expectedLength := m.streamLength;
    var data: seq<byte> := seq(20, _ => 0);
    UpdateReusesFreed(m.Model(), small.header.address, m.pool[0].address, data, strategy(20));
    var updated := m.UpdateRecord(small, data, strategy);
    newLength := m.streamLength;
  }

  lemma UpdateReusesFreed(s: Store, address: int, freed: int, data: seq<byte>, alloc: nat)
    requires Valid(s) && |data| <= alloc && address in s.records
    requires |s.pool| > 0 && s.pool[0].address == freed && s.pool[0].allocatedSize >= alloc
    ensures Update(s, address, data, alloc).0.streamLength == s.streamLength
  {
    UpdateSpec(s, address, data, alloc);
    if alloc > s.records[address].allocatedSize {
      RecycleSpec(s, address);
      var s1 := Recycled(s, address);
      assert s1.pool[0] == s.pool[0];
      AppendSpec(s1, data, alloc);
    }
  }
}
