/** Tables whose type is fixed by a signature the UEFI Specification assigns
    (include/uefi/signed_table.h): the System Table (section 4.3), the Boot
    Services Table (section 4.4) and the Runtime Services Table (section 4.5). */
module SignedTables {
  import opened Bytes
  import opened Signatures
  import opened TableHeaders

  /** `SignedTable<sign>::signature` for the three signed tables. */
  const BOOT_SERVICES_SIGNATURE: bv64 := 0x5652_4553_544F_4F42
  const RUNTIME_SERVICES_SIGNATURE: bv64 := 0x5652_4553_544E_5552
  const SYSTEM_TABLE_SIGNATURE: bv64 := 0x5453_5953_2049_4249

  /** `checkSignature()` of a `SignedTable<sign>` whose header is `header`. */
  predicate CheckSignature(sign: bv64, header: TableHeader)
    ensures CheckSignature(sign, header) <==> HeaderBytes(header)[..8] == StoreU64(sign)
  {
    SignatureBytes(sign, header);
    Equal(header.signature, Signature(sign))
  }

  /** The first eight bytes of a header are its signature's. */
  lemma SignatureBytes(sign: bv64, header: TableHeader)
    ensures HeaderBytes(header)[..8] == StoreU64(sign) <==> header.signature.value == sign
  {
    assert HeaderBytes(header)[..8] == StoreU64(header.signature.value);
    if StoreU64(header.signature.value) == StoreU64(sign) {
      StoreU64Injective(header.signature.value, sign);
    }
  }

  /** The check passes exactly when the stored signature is `sign`. */
  lemma CheckSignatureIff(sign: bv64, header: TableHeader)
    ensures CheckSignature(sign, header) <==> header.signature.value == sign
  {
  }

  /** The check looks at the signature only: revision, size, checksum and
      reserved word do not affect it. */
  lemma CheckSignatureReadsOnlySignature(sign: bv64, h: TableHeader, g: TableHeader)
    requires h.signature == g.signature
    ensures CheckSignature(sign, h) == CheckSignature(sign, g)
  {
  }

  /** On a table's bytes, the check reads the first eight bytes alone. */
  lemma CheckSignatureOnBytes(sign: bv64, table: seq<bv8>, other: seq<bv8>)
    requires |table| >= HEADER_SIZE && |other| >= HEADER_SIZE
    requires table[..8] == other[..8]
    ensures CheckSignature(sign, HeaderOf(table)) == CheckSignature(sign, HeaderOf(other))
  {
    assert forall k :: 0 <= k < 8 ==> table[k] == table[..8][k];
    assert forall k :: 0 <= k < 8 ==> other[k] == other[..8][k];
    SameLoadU64(table, other, SIGNATURE_OFFSET);
  }

  /** Sealing a header with a signature makes the check for that signature pass. */
  lemma CheckSignatureOfEncoded(sign: bv64, h: TableHeader, rest: seq<bv8>)
    requires h.signature == Signature(sign)
    ensures CheckSignature(sign, HeaderOf(HeaderBytes(h) + rest))
  {
    HeaderRoundTrip(h, rest);
  }

  /** The three signatures spell "BOOTSERV", "RUNTSERV" and "IBI SYST" in
      ASCII, least significant byte first. */
  lemma SignaturesAreAscii()
    ensures StoreU64(BOOT_SERVICES_SIGNATURE) == [0x42, 0x4F, 0x4F, 0x54, 0x53, 0x45, 0x52, 0x56]
    ensures StoreU64(RUNTIME_SERVICES_SIGNATURE) == [0x52, 0x55, 0x4E, 0x54, 0x53, 0x45, 0x52, 0x56]
    ensures StoreU64(SYSTEM_TABLE_SIGNATURE) == [0x49, 0x42, 0x49, 0x20, 0x53, 0x59, 0x53, 0x54]
  {
  }

  /** The signatures are pairwise distinct, so a header passes at most one of
      the three checks. */
  lemma AtMostOneSignatureMatches(header: TableHeader)
    ensures !(CheckSignature(BOOT_SERVICES_SIGNATURE, header) && CheckSignature(RUNTIME_SERVICES_SIGNATURE, header))
    ensures !(CheckSignature(BOOT_SERVICES_SIGNATURE, header) && CheckSignature(SYSTEM_TABLE_SIGNATURE, header))
    ensures !(CheckSignature(RUNTIME_SERVICES_SIGNATURE, header) && CheckSignature(SYSTEM_TABLE_SIGNATURE, header))
  {
  }
}
