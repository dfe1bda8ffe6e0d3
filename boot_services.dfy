/** The part of the Boot Services Table (include/uefi/boot_services.h) that
    the memory-map code calls: `getMemoryMap` and `allocatePool`, modelled as
    firmware with state, following the contract their comments give and
    section 7.2 of the UEFI Specification. */
module Firmware {
  import opened Bytes
  import opened StatusCodes

  /** `sizeof(MemoryDescriptor)`. */
  const DESCRIPTOR_SIZE: nat := 40
  /** `MemoryType::LoaderData`, numbered as in the UEFI Specification
      (EfiLoaderData); memory_type.h is not part of this model. */
  const LOADER_DATA: bv32 := 2
  /** The descriptor version this firmware reports. */
  const DESCRIPTOR_VERSION: bv32 := 1

  /** `BootServices::MemoryDescriptor`. */
  datatype MemoryDescriptor = MemoryDescriptor(
    memoryType: bv32,
    physicalStart: bv64,
    virtualStart: bv64,
    pagesCount: bv64,
    attribute: bv64)

  /** The 40 bytes of a descriptor: the type, four bytes of padding, then the
      four 64-bit fields. */
  function Encode(d: MemoryDescriptor): (r: seq<bv8>)
    ensures |r| == DESCRIPTOR_SIZE
  {
    StoreU32(d.memoryType) + [0, 0, 0, 0] + StoreU64(d.physicalStart) + StoreU64(d.virtualStart)
    + StoreU64(d.pagesCount) + StoreU64(d.attribute)
  }

  /** The descriptor read from 40 bytes. */
  function DecodeBytes(b: seq<bv8>): MemoryDescriptor
    requires |b| == DESCRIPTOR_SIZE
  {
    MemoryDescriptor(LoadU32(b, 0), LoadU64(b, 8), LoadU64(b, 16), LoadU64(b, 24), LoadU64(b, 32))
  }

  /** The descriptor that starts at byte `off` of `s`. */
  function Decode(s: seq<bv8>, off: nat): MemoryDescriptor
    requires off + DESCRIPTOR_SIZE <= |s|
  {
    DecodeBytes(s[off..off + DESCRIPTOR_SIZE])
  }

  /** A descriptor as the firmware keeps it: the fields of `MemoryDescriptor`,
      then whatever bytes the firmware stores after them within its stride
      (a later revision of the descriptor may add fields there). */
  datatype MapEntry = MapEntry(descriptor: MemoryDescriptor, extension: seq<bv8>)

  /** Every entry fills exactly one stride of at least 40 bytes. */
  predicate Strided(es: seq<MapEntry>, stride: nat) {
    stride >= DESCRIPTOR_SIZE
    && (es != [] ==> |es[0].extension| == stride - DESCRIPTOR_SIZE && Strided(es[1..], stride))
  }

  /** The bytes of a memory map: each descriptor followed by its extension. */
  function Layout(es: seq<MapEntry>): seq<bv8> {
    if es == [] then [] else Encode(es[0].descriptor) + es[0].extension + Layout(es[1..])
  }

  /** A call the firmware received, in the order received. */
  datatype Call =
    | GetMemoryMapCall(mapSize: nat, bufferIsNull: bool)
    | AllocatePoolCall(poolType: bv32, size: nat)

  /** The firmware behind `BootServices`: its current memory map, the stride
      it reports, the key of the current map, the pool bytes it can still
      give, the descriptors an allocation adds to the map, the status a failed
      allocation returns, and the calls received so far. */
  class BootServices {
    var memoryMap: seq<MapEntry>
    var descriptorSize: nat
    var mapKey: nat
    var poolAvailable: nat
    var allocationGrowth: seq<MapEntry>
    var allocationFailure: bv64
    var calls: seq<Call>

    ghost predicate Valid()
      reads this
    {
      Strided(memoryMap, descriptorSize) && Strided(allocationGrowth, descriptorSize)
      && IsErrorCode(allocationFailure)
    }

    constructor (memoryMap: seq<MapEntry>, descriptorSize: nat, mapKey: nat, poolAvailable: nat,
                 allocationGrowth: seq<MapEntry>, allocationFailure: bv64)
      requires Strided(memoryMap, descriptorSize) && Strided(allocationGrowth, descriptorSize)
      requires IsErrorCode(allocationFailure)
      ensures Valid()
      ensures this.memoryMap == memoryMap && this.descriptorSize == descriptorSize
      ensures this.mapKey == mapKey && this.poolAvailable == poolAvailable
      ensures this.allocationGrowth == allocationGrowth && this.allocationFailure == allocationFailure
      ensures calls == []
    {
      this.memoryMap := memoryMap;
      this.descriptorSize := descriptorSize;
      this.mapKey := mapKey;
      this.poolAvailable := poolAvailable;
      this.allocationGrowth := allocationGrowth;
      this.allocationFailure := allocationFailure;
      calls := [];
    }

    /** The bytes the current map needs: the length of its layout. */
    function MapBytes(): nat
      reads this
    {
      |Layout(memoryMap)|
    }

    /** `getMemoryMap(map_size, memory_map, map_key, descriptor_size,
        descriptor_version)`: the in/out arguments are passed in and their new
        values returned. The descriptor size and version are always written;
        a buffer too small for the map gives `BufferTooSmall` and the size
        needed; a null buffer gives `InvalidParameter`; otherwise the map is
        written into the buffer with its size and key. */
    method GetMemoryMap(mapSize: nat, buffer: array?<bv8>, key: nat)
      returns (status: bv64, newMapSize: nat, newKey: nat, newDescriptorSize: nat, version: bv32)
      requires Valid()
      requires buffer != null ==> mapSize <= buffer.Length
      modifies this, buffer
      ensures Valid()
      ensures calls == old(calls) + [GetMemoryMapCall(mapSize, buffer == null)]
      ensures memoryMap == old(memoryMap) && descriptorSize == old(descriptorSize) && mapKey == old(mapKey)
      ensures poolAvailable == old(poolAvailable) && allocationGrowth == old(allocationGrowth)
      ensures allocationFailure == old(allocationFailure)
      ensures newDescriptorSize == descriptorSize && version == DESCRIPTOR_VERSION
      ensures MapBytes() > mapSize ==>
        status == BUFFER_TOO_SMALL && newMapSize == MapBytes() && newKey == key
      ensures MapBytes() <= mapSize && buffer == null ==>
        status == INVALID_PARAMETER && newMapSize == mapSize && newKey == key
      ensures MapBytes() <= mapSize && buffer != null ==>
        status == SUCCESS && newMapSize == MapBytes() && newKey == mapKey
        && buffer[..newMapSize] == Layout(memoryMap)
        && buffer[newMapSize..] == old(buffer[newMapSize..])
      ensures !(MapBytes() <= mapSize && buffer != null) ==> buffer == null || buffer[..] == old(buffer[..])
    {
      calls := calls + [GetMemoryMapCall(mapSize, buffer == null)];
      newDescriptorSize, version := descriptorSize, DESCRIPTOR_VERSION;
      var image := Layout(memoryMap);
      if |image| > mapSize {
        status, newMapSize, newKey := BUFFER_TOO_SMALL, |image|, key;
      } else if buffer == null {
        status, newMapSize, newKey := INVALID_PARAMETER, mapSize, key;
      } else {
        for i := 0 to |image|
          modifies buffer
          invariant buffer[..i] == image[..i]
          invariant buffer[|image|..] == old(buffer[|image|..])
        {
          buffer[i] := image[i];
        }
        status, newMapSize, newKey := SUCCESS, |image|, mapKey;
      }
    }

    /** `allocatePool(pool_type, size, buffer)`: a request the pool can meet
        returns a fresh buffer of `size` bytes, and the allocation adds its
        descriptors to the map, which gets a new key; any other request
        returns the firmware's failure status and no buffer. */
    method AllocatePool(poolType: bv32, size: nat) returns (status: bv64, buffer: array?<bv8>)
      requires Valid()
      modifies this
      ensures Valid()
      ensures calls == old(calls) + [AllocatePoolCall(poolType, size)]
      ensures descriptorSize == old(descriptorSize) && allocationGrowth == old(allocationGrowth)
      ensures allocationFailure == old(allocationFailure)
      ensures size <= old(poolAvailable) ==>
        status == SUCCESS && buffer != null && fresh(buffer) && buffer.Length == size
        && memoryMap == old(memoryMap) + allocationGrowth && mapKey == old(mapKey) + 1
        && poolAvailable == old(poolAvailable) - size
      ensures size > old(poolAvailable) ==>
        status == allocationFailure && buffer == null
        && memoryMap == old(memoryMap) && mapKey == old(mapKey) && poolAvailable == old(poolAvailable)
    {
      calls := calls + [AllocatePoolCall(poolType, size)];
      if size <= poolAvailable {
        StridedAppend(memoryMap, allocationGrowth, descriptorSize);
        buffer := new bv8[size];
        poolAvailable := poolAvailable - size;
        memoryMap := memoryMap + allocationGrowth;
        mapKey := mapKey + 1;
        status := SUCCESS;
      } else {
        status, buffer := allocationFailure, null;
      }
    }
  }

  /** Reading a descriptor back from its bytes gives the descriptor. */
  lemma DecodeEncode(d: MemoryDescriptor)
    ensures DecodeBytes(Encode(d)) == d
  {
    var b := Encode(d);
    EncodedType(d);
    LoadStoreU32At([], d.memoryType, b[4..]);
    EncodedPhysicalStart(d);
    LoadStoreU64At(b[..8], d.physicalStart, b[16..]);
    EncodedVirtualStart(d);
    LoadStoreU64At(b[..16], d.virtualStart, b[24..]);
    EncodedPagesCount(d);
    LoadStoreU64At(b[..24], d.pagesCount, b[32..]);
    EncodedAttribute(d);
    LoadStoreU64At(b[..32], d.attribute, []);
  }

  /** Reading 40 bytes as a descriptor and encoding it again gives the same
      bytes, except the four padding bytes after the type, which read as zero. */
  lemma EncodeDecode(b: seq<bv8>)
    requires |b| == DESCRIPTOR_SIZE
    ensures Encode(DecodeBytes(b)) == b[..4] + [0, 0, 0, 0] + b[8..]
  {
    var d := DecodeBytes(b);
    StoreLoadU32(b, 0);
    StoreLoadU64(b, 8);
    StoreLoadU64(b, 16);
    StoreLoadU64(b, 24);
    StoreLoadU64(b, 32);
    FieldSlices(b, StoreU32(d.memoryType), StoreU64(d.physicalStart), StoreU64(d.virtualStart),
      StoreU64(d.pagesCount), StoreU64(d.attribute));
  }

  lemma FieldSlices(b: seq<bv8>, t: seq<bv8>, p: seq<bv8>, v: seq<bv8>, n: seq<bv8>, a: seq<bv8>)
    requires |b| == DESCRIPTOR_SIZE
    requires t == b[0..4] && p == b[8..16] && v == b[16..24] && n == b[24..32] && a == b[32..40]
    ensures t + [0, 0, 0, 0] + p + v + n + a == b[..4] + [0, 0, 0, 0] + b[8..]
  {
    assert b[8..] == b[8..16] + b[16..24] + b[24..32] + b[32..40];
  }

  /** Where each field's bytes lie in an encoded descriptor, one field at a
      time. */
  lemma EncodedType(d: MemoryDescriptor)
    ensures var b := Encode(d); b == [] + StoreU32(d.memoryType) + b[4..]
  {
  }

  lemma EncodedPhysicalStart(d: MemoryDescriptor)
    ensures var b := Encode(d); b == b[..8] + StoreU64(d.physicalStart) + b[16..]
  {
  }

  lemma EncodedVirtualStart(d: MemoryDescriptor)
    ensures var b := Encode(d); b == b[..16] + StoreU64(d.virtualStart) + b[24..]
  {
  }

  lemma EncodedPagesCount(d: MemoryDescriptor)
    ensures var b := Encode(d); b == b[..24] + StoreU64(d.pagesCount) + b[32..]
  {
  }

  lemma EncodedAttribute(d: MemoryDescriptor)
    ensures var b := Encode(d); b == b[..32] + StoreU64(d.attribute) + []
  {
  }

  /** Appending entries of the same stride keeps the map strided. */
  lemma {:induction false} StridedAppend(es: seq<MapEntry>, more: seq<MapEntry>, stride: nat)
    requires Strided(es, stride) && Strided(more, stride)
    ensures Strided(es + more, stride)
  {
    if es != [] {
      StridedAppend(es[1..], more, stride);
      assert (es + more)[0] == es[0];
      assert (es + more)[1..] == es[1..] + more;
    } else {
      assert es + more == more;
    }
  }

  /** The layout of two maps one after the other is their layouts one after
      the other. */
  lemma {:induction false} LayoutAppend(es: seq<MapEntry>, more: seq<MapEntry>)
    ensures Layout(es + more) == Layout(es) + Layout(more)
  {
    if es != [] {
      assert (es + more)[0] == es[0];
      assert (es + more)[1..] == es[1..] + more;
      LayoutAppend(es[1..], more);
    } else {
      assert es + more == more;
    }
  }

  /** A laid-out map takes `stride` bytes per entry. */
  lemma {:induction false} LayoutLength(es: seq<MapEntry>, stride: nat)
    requires Strided(es, stride)
    ensures |Layout(es)| == |es| * stride
  {
    if es != [] {
      LayoutLength(es[1..], stride);
      StrideStep(|es|, stride);
    }
  }

  /** Entry `i` of a laid-out map starts at byte `i * stride`, its 40
      descriptor bytes first. */
  lemma {:induction false} LayoutEntry(es: seq<MapEntry>, stride: nat, i: nat)
    requires Strided(es, stride) && i < |es|
    ensures i * stride + DESCRIPTOR_SIZE <= |Layout(es)|
    ensures Layout(es)[i * stride..i * stride + DESCRIPTOR_SIZE] == Encode(es[i].descriptor)
  {
    if i == 0 {
      LayoutFirst(es);
    } else {
      LayoutEntry(es[1..], stride, i - 1);
      assert es[1..][i - 1] == es[i];
      ShiftedSlice(Encode(es[0].descriptor) + es[0].extension, Layout(es[1..]), stride, i, Encode(es[i].descriptor));
    }
  }

  lemma ShiftedSlice(head: seq<bv8>, tail: seq<bv8>, stride: nat, i: nat, e: seq<bv8>)
    requires |head| == stride && i > 0 && |e| == DESCRIPTOR_SIZE
    requires (i - 1) * stride + DESCRIPTOR_SIZE <= |tail|
    requires tail[(i - 1) * stride..(i - 1) * stride + DESCRIPTOR_SIZE] == e
    ensures i * stride + DESCRIPTOR_SIZE <= |head + tail|
    ensures (head + tail)[i * stride..i * stride + DESCRIPTOR_SIZE] == e
  {
    StrideStep(i, stride);
    SliceOfAppend(head, tail, (i - 1) * stride, DESCRIPTOR_SIZE);
  }

  lemma LayoutFirst(es: seq<MapEntry>)
    requires es != []
    ensures DESCRIPTOR_SIZE <= |Layout(es)|
    ensures Layout(es)[0..DESCRIPTOR_SIZE] == Encode(es[0].descriptor)
  {
    var head := Encode(es[0].descriptor) + es[0].extension;
    SliceOfAppendHead(head, Layout(es[1..]), DESCRIPTOR_SIZE);
    SliceOfAppendHead(Encode(es[0].descriptor), es[0].extension, DESCRIPTOR_SIZE);
  }

  /** So the descriptor read at byte `i * stride` of a laid-out map is entry
      `i`'s descriptor, whatever its extension bytes hold. */
  lemma LayoutDecode(es: seq<MapEntry>, stride: nat, i: nat)
    requires Strided(es, stride) && i < |es|
    ensures i * stride + DESCRIPTOR_SIZE <= |Layout(es)|
    ensures Decode(Layout(es), i * stride) == es[i].descriptor
  {
    LayoutEntry(es, stride, i);
    DecodeEncode(es[i].descriptor);
  }

  lemma SliceOfAppend(a: seq<bv8>, b: seq<bv8>, off: nat, n: nat)
    requires off + n <= |b|
    ensures (a + b)[|a| + off..|a| + off + n] == b[off..off + n]
  {
  }

  lemma SliceOfAppendHead(a: seq<bv8>, b: seq<bv8>, n: nat)
    requires n <= |a|
    ensures (a + b)[0..n] == a[0..n]
    ensures n == |a| ==> (a + b)[0..n] == a
  {
  }

  lemma StrideStep(i: nat, stride: nat)
    requires i > 0
    ensures i * stride == stride + (i - 1) * stride
  {
  }
}
