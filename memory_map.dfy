/** Reading the firmware's memory map (include/uefi/memory_map.h): the
    two-call size negotiation with `GetMemoryMap` of section 7.2 of the UEFI
    Specification, and indexing the returned buffer by the firmware's
    descriptor stride. */
module MemoryMaps {
  import opened StatusCodes
  import opened Firmware

  /** `MemoryMap`: the map's size in bytes, the stride between descriptors,
      the map key and the buffer holding the descriptors. */
  datatype MemoryMap = MemoryMap(size: nat, entrySize: nat, currentKey: nat, descriptors: array?<bv8>)

  /** The `{}` that `getMemoryMap` returns when the allocation fails. */
  const FAILED_MAP: MemoryMap := MemoryMap(0, 0, 0, null)

  /** `getNumberOfEntries()`: `size / entry_size`, the number of whole strides
      in the map; defined only for a non-zero stride. */
  function NumberOfEntries(m: MemoryMap): (n: nat)
    requires m.entrySize != 0
    ensures n * m.entrySize <= m.size < (n + 1) * m.entrySize
  {
    m.size / m.entrySize
  }

  /** The entry count with the failed map's zero stride handled: no entries. */
  function EntryCount(m: MemoryMap): (n: nat)
    ensures m.entrySize == 0 ==> n == 0
    ensures m.entrySize != 0 ==> n == NumberOfEntries(m)
  {
    if m.entrySize == 0 then 0 else m.size / m.entrySize
  }

  /** The byte offset `operator[](i)` reads from: `i * entry_size`. */
  function EntryOffset(m: MemoryMap, i: nat): (off: nat)
    ensures m.entrySize != 0 ==> off / m.entrySize == i && off % m.entrySize == 0
  {
    if m.entrySize != 0 then WholeStrides(i, m.entrySize); i * m.entrySize else 0
  }

  /** `i` strides are exactly `i` strides long, with nothing left over. */
  lemma WholeStrides(i: nat, stride: nat)
    requires stride > 0
    ensures (i * stride) / stride == i && (i * stride) % stride == 0
  {
    var q, r := (i * stride) / stride, (i * stride) % stride;
    assert q * stride + r == i * stride && 0 <= r < stride;
    StrideQuotient(q, i, stride);
  }

  /** `operator[](i)`: the descriptor at byte `i * entry_size` of the buffer. */
  function EntryAt(m: MemoryMap, i: nat): (d: MemoryDescriptor)
    reads m.descriptors
    requires m.descriptors != null
    requires EntryOffset(m, i) + DESCRIPTOR_SIZE <= m.descriptors.Length
    ensures var off := EntryOffset(m, i); var b := m.descriptors[off..off + DESCRIPTOR_SIZE];
      Encode(d) == b[..4] + [0, 0, 0, 0] + b[8..]
  {
    var off := EntryOffset(m, i);
    EncodeDecode(m.descriptors[off..off + DESCRIPTOR_SIZE]);
    Decode(m.descriptors[..], off)
  }

  /** Every counted entry, stride and all, lies inside the map's `size` bytes. */
  lemma EntryWithinMap(m: MemoryMap, i: nat)
    requires m.entrySize != 0 && i < NumberOfEntries(m)
    ensures EntryOffset(m, i) + m.entrySize <= m.size
  {
    var n := NumberOfEntries(m);
    MulMonotone(i + 1, n, m.entrySize);
  }

  /** The failed map has a zero stride, so `getNumberOfEntries()` divides by
      zero on it. */
  lemma FailedMapHasNoStride()
    ensures FAILED_MAP.entrySize == 0
    ensures EntryCount(FAILED_MAP) == 0
  {
  }

  /** `getMemoryMap(boot_services)`. */
  method GetMemoryMap(bs: BootServices) returns (m: MemoryMap)
    requires bs.Valid()
    modifies bs
    ensures bs.Valid()
    ensures var k := |old(bs.calls)|;
      && |bs.calls| >= k + 2 && bs.calls[..k] == old(bs.calls)
      && bs.calls[k] == GetMemoryMapCall(0, true)
      && bs.calls[k + 1] == AllocatePoolCall(LOADER_DATA, old(bs.MapBytes()) + 4 * bs.descriptorSize)
    ensures bs.descriptorSize == old(bs.descriptorSize)
    ensures bs.allocationGrowth == old(bs.allocationGrowth) && bs.allocationFailure == old(bs.allocationFailure)
    ensures m.descriptors == null ==> bs.poolAvailable == old(bs.poolAvailable)
    ensures m.descriptors != null ==>
      bs.poolAvailable == old(bs.poolAvailable) - (old(bs.MapBytes()) + 4 * bs.descriptorSize)
    ensures m.descriptors != null <==> old(bs.MapBytes()) + 4 * bs.descriptorSize <= old(bs.poolAvailable)
    ensures m.descriptors == null ==>
      m == FAILED_MAP && |bs.calls| == |old(bs.calls)| + 2
      && bs.memoryMap == old(bs.memoryMap) && bs.mapKey == old(bs.mapKey)
    ensures m.descriptors != null ==>
      && |bs.calls| == |old(bs.calls)| + 3
      && bs.calls[|old(bs.calls)| + 2] == GetMemoryMapCall(m.descriptors.Length, false)
      && fresh(m.descriptors) && m.descriptors.Length == old(bs.MapBytes()) + 4 * bs.descriptorSize
      && m.entrySize == bs.descriptorSize
      && bs.memoryMap == old(bs.memoryMap) + bs.allocationGrowth && bs.mapKey == old(bs.mapKey) + 1
    ensures m.descriptors != null && |bs.allocationGrowth| <= 4 ==>
      && m.size == bs.MapBytes() && m.currentKey == bs.mapKey && m.size <= m.descriptors.Length
      && m.descriptors[..m.size] == Layout(bs.memoryMap)
    ensures m.descriptors != null && |bs.allocationGrowth| > 4 ==>
      m.size == bs.MapBytes() && m.currentKey == 0 && m.size > m.descriptors.Length
  {
    var memoryMap: array?<bv8> := null;
    var mapSize: nat := 0;
    var key: nat := 0;
    var descriptorSize: nat := 0;
    var descriptorVersion: bv32 := 0;
    var status: bv64;
    ghost var needed := bs.MapBytes();
    ErrorIsNotSuccess(bs.allocationFailure);
    status, mapSize, key, descriptorSize, descriptorVersion := bs.GetMemoryMap(mapSize, memoryMap, key);
    assert mapSize == needed && key == 0;
    mapSize := mapSize + 4 * descriptorSize;
    status, memoryMap := bs.AllocatePool(LOADER_DATA, mapSize);
    if status != SUCCESS {
      assert mapSize > old(bs.poolAvailable);
      return FAILED_MAP;
    }
    MapAfterGrowth(old(bs.memoryMap), bs.allocationGrowth, descriptorSize);
    status, mapSize, key, descriptorSize, descriptorVersion := bs.GetMemoryMap(mapSize, memoryMap, key);
    return MemoryMap(mapSize, descriptorSize, key, memoryMap);
  }

  /** Room for four more descriptors covers the growth exactly when at most
      four were added. */
  lemma GrowthFits(growth: nat, stride: nat)
    requires stride > 0
    ensures growth * stride <= 4 * stride <==> growth <= 4
  {
    if growth <= 4 {
      MulMonotone(growth, 4, stride);
    } else {
      MulMonotone(5, growth, stride);
    }
  }

  /** The same on the firmware's map: the grown map's bytes fit in the probed
      size plus four strides exactly when at most four descriptors were added. */
  lemma MapAfterGrowth(probed: seq<MapEntry>, growth: seq<MapEntry>, stride: nat)
    requires Strided(probed, stride) && Strided(growth, stride)
    ensures |Layout(probed + growth)| <= |Layout(probed)| + 4 * stride <==> |growth| <= 4
  {
    LayoutAppend(probed, growth);
    LayoutLength(growth, stride);
    GrowthFits(|growth|, stride);
  }

  lemma MulMonotone(a: nat, b: nat, c: nat)
    requires a <= b
    ensures a * c <= b * c
  {
  }

  /** When the allocation added at most four descriptors, every entry that
      `operator[]` reaches in the returned map is the firmware's descriptor of
      that index. */
  lemma ReturnedEntries(m: MemoryMap, es: seq<MapEntry>, i: nat)
    requires m.descriptors != null && Strided(es, m.entrySize)
    requires m.size == |es| * m.entrySize && m.size <= m.descriptors.Length
    requires m.descriptors[..m.size] == Layout(es)
    requires i < NumberOfEntries(m)
    ensures NumberOfEntries(m) == |es|
    ensures EntryOffset(m, i) + DESCRIPTOR_SIZE <= m.descriptors.Length
    ensures EntryAt(m, i) == es[i].descriptor
  {
    StrideQuotient(NumberOfEntries(m), |es|, m.entrySize);
    EntryWithinMap(m, i);
    LayoutDecode(es, m.entrySize, i);
    ReadFromPrefix(m.descriptors[..], Layout(es), m.size, EntryOffset(m, i));
  }

  /** A descriptor that lies within a prefix reads the same from the whole. */
  lemma ReadFromPrefix(s: seq<bv8>, prefix: seq<bv8>, n: nat, off: nat)
    requires n <= |s| && s[..n] == prefix && off + DESCRIPTOR_SIZE <= n
    ensures Decode(s, off) == Decode(prefix, off)
  {
    assert s[off..off + DESCRIPTOR_SIZE] == prefix[off..off + DESCRIPTOR_SIZE];
  }

  /** The quotient bracketed by a whole number of strides is that number. */
  lemma StrideQuotient(q: nat, n: nat, stride: nat)
    requires stride > 0 && q * stride <= n * stride < (q + 1) * stride
    ensures q == n
  {
    if q < n {
      MulMonotone(q + 1, n, stride);
    } else if q > n {
      MulMonotone(n + 1, q, stride);
    }
  }
}
