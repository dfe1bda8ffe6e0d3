/** The header that starts every UEFI table (include/uefi/table_header.h),
    read from the table's bytes. */
module TableHeaders {
  import opened Bytes
  import opened Signatures

  /** Byte offsets of the header's fields and its total size. */
  const SIGNATURE_OFFSET: nat := 0
  const REVISION_OFFSET: nat := 8
  const SIZE_OFFSET: nat := 12
  const CRC32_OFFSET: nat := 16
  const RESERVED_OFFSET: nat := 20
  const HEADER_SIZE: nat := 24

  datatype Revision = Revision(minor: bv16, major: bv16)

  datatype TableHeader = TableHeader(
    signature: Signature,
    revision: Revision,
    size: bv32,     // bytes in the whole table, header included
    crc32: bv32,    // CRC of the first `size` bytes with this field read as zero
    reserved: bv32)

  /** The header as it lies in the first 24 bytes of a table. */
  function HeaderOf(table: seq<bv8>): (h: TableHeader)
    requires |table| >= HEADER_SIZE
    ensures HeaderBytes(h) == table[..HEADER_SIZE]
  {
    HeaderFieldBytes(table);
    TableHeader(
      Signature(LoadU64(table, SIGNATURE_OFFSET)),
      Revision(LoadU16(table, REVISION_OFFSET), LoadU16(table, REVISION_OFFSET + 2)),
      LoadU32(table, SIZE_OFFSET),
      LoadU32(table, CRC32_OFFSET),
      LoadU32(table, RESERVED_OFFSET))
  }

  /** The 24 bytes of a header. */
  function HeaderBytes(h: TableHeader): (r: seq<bv8>)
    ensures |r| == HEADER_SIZE
  {
    StoreU64(h.signature.value) + StoreU16(h.revision.minor) + StoreU16(h.revision.major)
    + StoreU32(h.size) + StoreU32(h.crc32) + StoreU32(h.reserved)
  }

  /** The table with its `crc32` field overwritten by `crc`. */
  function WithCrc32(table: seq<bv8>, crc: bv32): (r: seq<bv8>)
    requires |table| >= HEADER_SIZE
    ensures |r| == |table|
  {
    table[..CRC32_OFFSET] + StoreU32(crc) + table[CRC32_OFFSET + 4..]
  }

  /** The fields read from a table, written back, give its first 24 bytes. */
  lemma HeaderFieldBytes(table: seq<bv8>)
    requires |table| >= HEADER_SIZE
    ensures StoreU64(LoadU64(table, SIGNATURE_OFFSET)) + StoreU16(LoadU16(table, REVISION_OFFSET))
      + StoreU16(LoadU16(table, REVISION_OFFSET + 2)) + StoreU32(LoadU32(table, SIZE_OFFSET))
      + StoreU32(LoadU32(table, CRC32_OFFSET)) + StoreU32(LoadU32(table, RESERVED_OFFSET))
      == table[..HEADER_SIZE]
  {
    StoreLoadU64(table, SIGNATURE_OFFSET);
    StoreLoadU16(table, REVISION_OFFSET);
    StoreLoadU16(table, REVISION_OFFSET + 2);
    StoreLoadU32(table, SIZE_OFFSET);
    StoreLoadU32(table, CRC32_OFFSET);
    StoreLoadU32(table, RESERVED_OFFSET);
    assert table[..HEADER_SIZE] == table[0..8] + table[8..10] + table[10..12] + table[12..16]
      + table[16..20] + table[20..24];
  }

  /** Writing the header's bytes and reading them back gives the header. */
  lemma HeaderRoundTrip(h: TableHeader, rest: seq<bv8>)
    ensures HeaderOf(HeaderBytes(h) + rest) == h
  {
    var s := HeaderBytes(h) + rest;
    HeaderLayout(h, rest);
    LoadStoreU64At([], h.signature.value, s[8..]);
    LoadStoreU16At(s[..8], h.revision.minor, s[10..]);
    LoadStoreU16At(s[..10], h.revision.major, s[12..]);
    LoadStoreU32At(s[..12], h.size, s[16..]);
    LoadStoreU32At(s[..16], h.crc32, s[20..]);
    LoadStoreU32At(s[..20], h.reserved, s[24..]);
  }

  /** Where each field's bytes lie in an encoded header. */
  lemma HeaderLayout(h: TableHeader, rest: seq<bv8>)
    ensures var s := HeaderBytes(h) + rest;
      && s == [] + StoreU64(h.signature.value) + s[8..]
      && s == s[..8] + StoreU16(h.revision.minor) + s[10..]
      && s == s[..10] + StoreU16(h.revision.major) + s[12..]
      && s == s[..12] + StoreU32(h.size) + s[16..]
      && s == s[..16] + StoreU32(h.crc32) + s[20..]
      && s == s[..20] + StoreU32(h.reserved) + s[24..]
  {
    var s := HeaderBytes(h) + rest;
    assert s == [] + StoreU64(h.signature.value) + s[8..];
    assert s == s[..8] + StoreU16(h.revision.minor) + s[10..];
    assert s == s[..10] + StoreU16(h.revision.major) + s[12..];
    assert s == s[..12] + StoreU32(h.size) + s[16..];
    assert s == s[..16] + StoreU32(h.crc32) + s[20..];
    assert s == s[..20] + StoreU32(h.reserved) + s[24..];
  }

  /** Overwriting the `crc32` field changes that field to `crc` and nothing
      else: every other byte, and so every other header field, is kept. */
  lemma WithCrc32Effect(table: seq<bv8>, crc: bv32)
    requires |table| >= HEADER_SIZE
    ensures forall k :: 0 <= k < |table| && !(CRC32_OFFSET <= k < CRC32_OFFSET + 4) ==>
      WithCrc32(table, crc)[k] == table[k]
    ensures var h := HeaderOf(table); HeaderOf(WithCrc32(table, crc)) == h.(crc32 := crc)
  {
    var t := WithCrc32(table, crc);
    LoadStoreU32At(table[..CRC32_OFFSET], crc, table[CRC32_OFFSET + 4..]);
    LoadsOutside(table, t);
  }

  /** Two tables that agree outside the `crc32` field have the same header
      apart from that field. */
  lemma LoadsOutside(s: seq<bv8>, t: seq<bv8>)
    requires |s| >= HEADER_SIZE && |t| == |s|
    requires forall k :: 0 <= k < HEADER_SIZE && !(CRC32_OFFSET <= k < CRC32_OFFSET + 4) ==> s[k] == t[k]
    ensures HeaderOf(t) == HeaderOf(s).(crc32 := HeaderOf(t).crc32)
  {
    SameLoadU64(s, t, SIGNATURE_OFFSET);
    SameLoadU16(s, t, REVISION_OFFSET);
    SameLoadU16(s, t, REVISION_OFFSET + 2);
    SameLoadU32(s, t, SIZE_OFFSET);
    SameLoadU32(s, t, RESERVED_OFFSET);
  }
}
