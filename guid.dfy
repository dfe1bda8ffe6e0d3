/** Globally unique identifiers (include/uefi/guid.h): sixteen bytes that can
    be read either as the four fields the UEFI Specification writes them in
    (`SeparateParts`) or as two 64-bit words (`MergedGUID`). */
module Guids {
  import opened Bytes

  /** The sixteen bytes of a GUID, in memory order (little-endian fields). */
  datatype Guid = Guid(bytes: seq<bv8>) {

    ghost predicate Valid() {
      |bytes| == 16
    }

    /** `SeparateParts::data1`, `data2`, `data3` and `data4`. */
    function Data1(): (r: bv32)
      requires Valid()
      ensures StoreU32(r) == bytes[0..4]
    {
      StoreLoadU32(bytes, 0);
      LoadU32(bytes, 0)
    }

    function Data2(): (r: bv16)
      requires Valid()
      ensures StoreU16(r) == bytes[4..6]
    {
      StoreLoadU16(bytes, 4);
      LoadU16(bytes, 4)
    }

    function Data3(): (r: bv16)
      requires Valid()
      ensures StoreU16(r) == bytes[6..8]
    {
      StoreLoadU16(bytes, 6);
      LoadU16(bytes, 6)
    }

    function Data4(): (r: seq<bv8>)
      requires Valid()
      ensures |r| == 8 && bytes == bytes[..8] + r
    {
      bytes[8..]
    }

    /** `MergedGUID::data1` and `data2`: the first and the second eight bytes. */
    function Low(): (r: bv64)
      requires Valid()
      ensures StoreU64(r) == bytes[..8]
    {
      StoreLoadU64(bytes, 0);
      LoadU64(bytes, 0)
    }

    function High(): (r: bv64)
      requires Valid()
      ensures StoreU64(r) == bytes[8..]
    {
      StoreLoadU64(bytes, 8);
      LoadU64(bytes, 8)
    }
  }

  /** The GUID the constructor builds from the four parts. */
  function FromParts(d1: bv32, d2: bv16, d3: bv16, d4: seq<bv8>): (g: Guid)
    requires |d4| == 8
    ensures g.Valid()
  {
    Guid(StoreU32(d1) + StoreU16(d2) + StoreU16(d3) + d4)
  }

  /** `Guid(d1, d2, d3, d4)`: the first three fields are initialised, `data4`
      starts zeroed and the loop copies the eight bytes of `d4` into it. */
  method MakeGuid(d1: bv32, d2: bv16, d3: bv16, d4: seq<bv8>) returns (g: Guid)
    requires |d4| == 8
    ensures g == FromParts(d1, d2, d3, d4)
  {
    var head := StoreU32(d1) + StoreU16(d2) + StoreU16(d3);
    var a := new bv8[16](k => if k < 8 then head[k] else 0);
    for i := 0 to 8
      invariant forall k :: 0 <= k < 8 ==> a[k] == head[k]
      invariant forall k :: 8 <= k < 8 + i ==> a[k] == d4[k - 8]
    {
      a[8 + i] := d4[i];
    }
    g := Guid(a[..]);
    assert a[..] == head + d4;
  }

  /** Each field read back from a built GUID is the one it was built from. */
  lemma FromPartsFields(d1: bv32, d2: bv16, d3: bv16, d4: seq<bv8>)
    requires |d4| == 8
    ensures FromParts(d1, d2, d3, d4).Data1() == d1
    ensures FromParts(d1, d2, d3, d4).Data2() == d2
    ensures FromParts(d1, d2, d3, d4).Data3() == d3
    ensures FromParts(d1, d2, d3, d4).Data4() == d4
  {
    var g := FromParts(d1, d2, d3, d4);
    var rest := StoreU16(d2) + StoreU16(d3) + d4;
    assert g.bytes == [] + StoreU32(d1) + rest;
    LoadStoreU32At([], d1, rest);
    assert g.bytes == StoreU32(d1) + StoreU16(d2) + (StoreU16(d3) + d4);
    LoadStoreU16At(StoreU32(d1), d2, StoreU16(d3) + d4);
    assert g.bytes == (StoreU32(d1) + StoreU16(d2)) + StoreU16(d3) + d4;
    LoadStoreU16At(StoreU32(d1) + StoreU16(d2), d3, d4);
  }

  /** Every GUID is built from its own fields. */
  lemma FieldsFromParts(g: Guid)
    requires g.Valid()
    ensures FromParts(g.Data1(), g.Data2(), g.Data3(), g.Data4()) == g
  {
    StoreLoadU32(g.bytes, 0);
    StoreLoadU16(g.bytes, 4);
    StoreLoadU16(g.bytes, 6);
    assert g.bytes == g.bytes[0..4] + g.bytes[4..6] + g.bytes[6..8] + g.bytes[8..];
  }

  /** The two views share the same sixteen bytes: the merged words are the
      first and the last eight bytes, so both views read the same GUID. */
  lemma MergedViewAliasesParts(g: Guid)
    requires g.Valid()
    ensures StoreU64(g.Low()) + StoreU64(g.High()) == g.bytes
    ensures StoreU64(g.Low()) == StoreU32(g.Data1()) + StoreU16(g.Data2()) + StoreU16(g.Data3())
    ensures StoreU64(g.High()) == g.Data4()
  {
    var b := g.bytes;
    StoreLoadU64(b, 0);
    StoreLoadU64(b, 8);
    assert b == b[0..8] + b[8..16];
    FirstWordIsParts(b);
  }

  lemma FirstWordIsParts(b: seq<bv8>)
    requires |b| == 16
    ensures b[0..8] == StoreU32(LoadU32(b, 0)) + StoreU16(LoadU16(b, 4)) + StoreU16(LoadU16(b, 6))
  {
    StoreLoadU32(b, 0);
    StoreLoadU16(b, 4);
    StoreLoadU16(b, 6);
    assert b[0..8] == b[0..4] + b[4..6] + b[6..8];
  }

  /** `operator==` as written: the first word of `lhs` against the second
      word of `rhs`. */
  predicate EqualsAsWritten(lhs: Guid, rhs: Guid)
    requires lhs.Valid() && rhs.Valid()
    ensures EqualsAsWritten(lhs, rhs) <==> lhs.bytes[..8] == rhs.bytes[8..]
  {
    CrossedWords(lhs, rhs);
    lhs.Low() == rhs.High()
  }

  lemma CrossedWords(lhs: Guid, rhs: Guid)
    requires lhs.Valid() && rhs.Valid()
    ensures lhs.Low() == rhs.High() <==> lhs.bytes[..8] == rhs.bytes[8..]
  {
    if lhs.bytes[..8] == rhs.bytes[8..] {
      StoreU64Injective(lhs.Low(), rhs.High());
    }
  }

  /** The comparison that was meant: both words, so all sixteen bytes. */
  predicate Equals(lhs: Guid, rhs: Guid)
    requires lhs.Valid() && rhs.Valid()
  {
    lhs.Low() == rhs.Low() && lhs.High() == rhs.High()
  }

  /** `SimpleTextOutputProtocol::guid`. */
  const SIMPLE_TEXT_OUTPUT_PROTOCOL_GUID: Guid :=
    FromParts(0x3874_77C2, 0x69C7, 0x11D2, [0x8E, 0x39, 0x00, 0xA0, 0xC9, 0x69, 0x72, 0x3B])

  /** As written, a GUID equals itself only when its two halves hold the same
      eight bytes. */
  lemma AsWrittenReflexiveOnlyWhenHalvesMatch(g: Guid)
    requires g.Valid()
    ensures EqualsAsWritten(g, g) <==> g.bytes[..8] == g.bytes[8..]
  {
    LoadU64Equal(g.bytes, 0, g.bytes, 8);
  }

  /** So `SimpleTextOutputProtocol::guid == SimpleTextOutputProtocol::guid`
      is false. */
  lemma AsWrittenNotReflexive()
    ensures SIMPLE_TEXT_OUTPUT_PROTOCOL_GUID.Valid()
    ensures !EqualsAsWritten(SIMPLE_TEXT_OUTPUT_PROTOCOL_GUID, SIMPLE_TEXT_OUTPUT_PROTOCOL_GUID)
  {
    var g := SIMPLE_TEXT_OUTPUT_PROTOCOL_GUID;
    AsWrittenReflexiveOnlyWhenHalvesMatch(g);
    assert g.bytes[0] == 0xC2 && g.bytes[8] == 0x8E;
    assert g.bytes[..8][0] != g.bytes[8..][0];
  }

  /** The corrected comparison holds exactly when the two GUIDs are the same
      sixteen bytes; it is therefore reflexive, symmetric and transitive. */
  lemma EqualsIffSameGuid(lhs: Guid, rhs: Guid)
    requires lhs.Valid() && rhs.Valid()
    ensures Equals(lhs, rhs) <==> lhs == rhs
  {
    LoadU64Equal(lhs.bytes, 0, rhs.bytes, 0);
    LoadU64Equal(lhs.bytes, 8, rhs.bytes, 8);
    if Equals(lhs, rhs) {
      assert lhs.bytes == lhs.bytes[0..8] + lhs.bytes[8..16];
      assert rhs.bytes == rhs.bytes[0..8] + rhs.bytes[8..16];
    }
  }
}
