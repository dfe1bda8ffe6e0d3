# uefi-cpp core, modelled in Dafny

This project models the logic of the header-only C++ UEFI library uefi-cpp.
Boot applications use it to call the firmware's services. It is written to
need no C++ runtime support: it has no dynamically initialised statics (the
stream has an `initialize()` call instead of a constructor), it copies bytes
in loops instead of calling `memset`, and it uses only header-only standard
facilities (`std::swap` and the fixed-width integer types):

- **CRC-32 of tables** (`crc32.h`). The 256-entry table is built from the reflected
  polynomial 0xEDB88320. The byte-wise checksum runs from an all-ones register
  and is inverted at the end. The table checksum zeroes the header's `crc32`
  field, checksums `header.size` bytes and puts the field back.
  `doesCrc32Match` compares the stored field with that checksum. Tables are
  byte arrays in memory order.
- **Table headers and signatures** (`table_header.h`, `signature.h`,
  `signed_table.h`). A header is 24 little-endian bytes. `checkSignature`
  compares the header's 64-bit signature with the table type's constant.
- **Status codes** (`status.h`). `make_error_code` sets bit 63 and
  `is_error_code` reads it. The `Status` enumerators use the numbers from
  Appendix D of the UEFI Specification.
- **GUIDs** (`guid.h`). A GUID is sixteen bytes with two views: the four
  fields and the two 64-bit words. The constructor copies `data4` in a loop.
  `operator==` compares the wrong words.
- **Memory maps** (`memory_map.h`). `getMemoryMap` asks the firmware for the
  size it needs and adds room for four more descriptors. It allocates that
  much from the pool and fetches the map again. Entries are read at
  multiples of the stride the firmware reports.
- **The firmware side of that exchange** (`boot_services.h`). `getMemoryMap`
  and `allocatePool` are a class `Firmware.BootServices` with state: the
  current map, its key, the pool left, the descriptors an allocation adds,
  and a log of the calls received. Each descriptor the firmware keeps may
  carry extension bytes after its 40 bytes, so that every entry fills the
  stride the firmware reports. Its contracts follow the return values
  listed in the header and section 7.2 of the UEFI Specification.
- **Text output** (`text_output_stream.h`). This is `TextOutputStream` with
  its `alpha` and `base` fields. `printNumber` works on a 65-character
  buffer: a digit loop, an in-place reversal and a terminator. The stream
  also prints booleans and statuses and copies narrow strings into a
  512-character buffer. The console is a log of the strings passed to
  `outputString`.

Each header is one module: `Crc32`, `TableHeaders`, `Signatures`,
`SignedTables`, `StatusCodes`, `Guids`, `MemoryMaps`, `Firmware` and
`TextOutput`. `Bytes` holds the little-endian loads and stores with their
round trips. Code that changes state is written as methods. Some of them
loop: the CRC table's nested loops over an array, the CRC of a byte range
over a sequence, the GUID constructor's `data4` copy, the firmware's copy of
the map into the caller's buffer, and the stream's digit loop, in-place
reversal and narrow-string copy. Others write in place without a loop: the
table checksum, which zeroes and restores the `crc32` field of the table
array. The memory map exchange makes calls in sequence, and `allocatePool`
updates the firmware's fields. The loops are proved against functions that
state what they compute. The state changes are specified field by field:
each method's contract gives the new value of every field it may change.
The rest are functions and lemmas.

## Model

| member | source | states |
|---|---|---|
| Crc32.Crc32Table.constructor | include/uefi/crc32.h:23-38 | after the nested loops, every entry `i` is `i` put through eight shift-and-xor rounds with 0xEDB88320 |
| Crc32.Crc32Table.At | include/uefi/crc32.h:40-42 | the lookup returns the entry of that index |
| Crc32.EntryOf | include/uefi/crc32.h:27-36 | the constructor's cast helper: the loop's 32-bit index `i`, narrowed to the table's 8-bit index, gives the entry of eight rounds applied to `i` |
| Crc32.PolynomialIsReflected | include/uefi/crc32.h:24-25 | bit `i` of 0xEDB88320 is bit `31 - i` of 0x04C11DB7, so it is the bit-reversed (reflected) polynomial |
| Crc32.CalculateCrc32 | include/uefi/crc32.h:46-54 | the loop over `size` bytes returns the checksum of exactly the first `size` bytes: all-ones start, one table step per byte, inverted at the end |
| Crc32.EmptyChecksum | include/uefi/crc32.h:46-54 | zero bytes give checksum 0 |
| Crc32.CheckValue | include/uefi/crc32.h:8 | the checksum of "123456789" is 0xCBF43926, the check value of the standard CRC-32 with polynomial 0x04C11DB7 |
| Crc32.CalculateTableCrc32 | include/uefi/crc32.h:60-72 | returns the checksum of the table's `size` bytes with the `crc32` field read as zero, and leaves every byte of the table as it was |
| Crc32.StoreCrc32Field | include/uefi/crc32.h:64 | writing the field changes bytes 16..20 of the table to the new value and nothing else |
| Crc32.RestoreCrc32 | include/uefi/crc32.h:62-69 | writing any value into the field and then the saved one gives the original table back |
| Crc32.TableCrcIgnoresStoredCrc | include/uefi/table_header.h:19-21 | the table checksum does not depend on what the `crc32` field holds, and the size field is unaffected by it |
| Crc32.SealedTableMatches | include/uefi/table_header.h:19-21 | a table whose field is set to its computed checksum matches, and a table matches exactly when sealing it changes nothing |
| Crc32.DoesCrc32Match | include/uefi/crc32.h:77-79 | true exactly when the stored field equals the table checksum, and the table is left unchanged |
| Crc32.WrongCrcDoesNotMatch | include/uefi/crc32.h:74-79 | a table with any other value in its field does not match |
| Crc32.EntryTopByteInjective | include/uefi/crc32.h:27-36 | no two table entries share their most significant byte |
| Crc32.TopByteGivesIndex | include/uefi/crc32.h:27-36 | undoing the eight rounds from an entry's top byte alone gives back its index, so the top byte determines the index |
| Crc32.ChecksumDetectsOneByte | include/uefi/crc32.h:46-54 | changing any single byte of the data changes its checksum |
| Crc32.TamperedTableDoesNotMatch | include/uefi/table_header.h:19-21 | a table that matches stops matching when any byte among its first `size` is changed, except the `size` and `crc32` fields themselves |
| TableHeaders.HeaderOf | include/uefi/table_header.h:9-25 | the header read from a table, written back, is exactly the table's first 24 bytes |
| TableHeaders.HeaderRoundTrip | include/uefi/table_header.h:9-25 | reading the 24 header bytes back gives the header that was written, whatever follows it |
| TableHeaders.WithCrc32Effect | include/uefi/crc32.h:64 | setting the `crc32` field changes only bytes 16..20, and the header read back differs from the old one only in `crc32` |
| TableHeaders.LoadsOutside | include/uefi/table_header.h:9-25 | two tables that agree on the header outside the `crc32` bytes have headers that agree on every other field |
| Signatures.ToU64RoundTrip | include/uefi/signature.h:8-14 | converting a constructed signature back to 64 bits gives the value it was made from |
| Signatures.Signature.ToU64 | include/uefi/signature.h:12-14 | the 64-bit value converted out wraps back into the same signature |
| Signatures.Equal | include/uefi/signature.h:19-21 | `==` holds exactly when the two signatures are the same |
| Signatures.EqualReflexiveSymmetric | include/uefi/signature.h:19-21 | `==` is reflexive and symmetric |
| Signatures.ConstructionInjective | include/uefi/signature.h:8-21 | two signatures built from 64-bit values compare equal exactly when the values are equal |
| SignedTables.CheckSignature | include/uefi/signed_table.h:17-20 | the check holds exactly when the first eight bytes of the header spell the table type's signature |
| SignedTables.CheckSignatureIff | include/uefi/signed_table.h:17-20 | `checkSignature` holds exactly when the header's signature value is the table type's constant |
| SignedTables.CheckSignatureReadsOnlySignature | include/uefi/signed_table.h:17-20 | headers with the same signature get the same answer whatever their other fields |
| SignedTables.CheckSignatureOnBytes | include/uefi/signed_table.h:17-20 | on tables in memory the answer depends only on the first eight bytes |
| SignedTables.CheckSignatureOfEncoded | include/uefi/signed_table.h:13 | a header written with the type's signature passes the check after it is read back |
| SignedTables.SignaturesAreAscii | include/uefi/boot_services.h:14 | in memory the three signature constants, of boot services here, of runtime services (runtime_services.h:10) and of the system table (system_table.h:18), read "BOOTSERV", "RUNTSERV" and "IBI SYST" |
| SignedTables.AtMostOneSignatureMatches | include/uefi/system_table.h:18 | no header passes the check of two of the boot services, runtime services and system tables |
| StatusCodes.MakeErrorCode | include/uefi/status.h:8-11 | the result has bit 63 set and keeps the other 63 bits of the value |
| StatusCodes.MakeErrorCodeIsError | include/uefi/status.h:7-11 | every result is an error code, and the value is returned unchanged exactly when it already was one |
| StatusCodes.MakeErrorCodeIdempotent | include/uefi/status.h:8-11 | applying it twice is the same as once |
| StatusCodes.MakeErrorCodeInjectiveBelowBit63 | include/uefi/status.h:8-11 | two values give the same code exactly when they agree below bit 63 |
| StatusCodes.IsErrorCode | include/uefi/status.h:37-41 | a code is an error exactly when it is at least 2^63 as an unsigned number |
| StatusCodes.IsErrorCodeIffHighBit | include/uefi/status.h:37-41 | the shift-and-mask test holds exactly when bit 63 is set |
| StatusCodes.EnumeratorsClassified | include/uefi/status.h:16-35 | `Success` is not an error; every other enumerator is one and carries its Appendix D number below bit 63; no two are equal |
| Guids.Guid.Data1 | include/uefi/guid.h:21-26 | `data1` is the 32-bit value stored little-endian in bytes 0..4 |
| Guids.Guid.Data2 | include/uefi/guid.h:21-26 | `data2` is the 16-bit value stored in bytes 4..6 |
| Guids.Guid.Data3 | include/uefi/guid.h:21-26 | `data3` is the 16-bit value stored in bytes 6..8 |
| Guids.Guid.Data4 | include/uefi/guid.h:21-26 | `data4` is the eight bytes that follow the first eight |
| Guids.Guid.Low | include/uefi/guid.h:28-32 | `MergedGUID::data1` is the 64-bit value stored in bytes 0..8 |
| Guids.Guid.High | include/uefi/guid.h:28-32 | `MergedGUID::data2` is the 64-bit value stored in bytes 8..16 |
| Guids.FromParts | include/uefi/guid.h:12-18 | the GUID built from the four fields has sixteen bytes |
| Guids.MakeGuid | include/uefi/guid.h:12-18 | the constructor, with its `data4` copy loop, builds exactly the GUID of the four fields |
| Guids.FromPartsFields | include/uefi/guid.h:21-26 | reading the `SeparateParts` view of a constructed GUID gives back the four fields |
| Guids.FieldsFromParts | include/uefi/guid.h:21-26 | every sixteen-byte GUID is the construction of its own four fields |
| Guids.MergedViewAliasesParts | include/uefi/guid.h:9-33 | the two 64-bit words of `MergedGUID` occupy the same bytes as `data1..data3` and `data4` |
| Guids.EqualsAsWritten | include/uefi/guid.h:37-40 | `operator==` as written holds exactly when the first eight bytes of `lhs` equal the last eight bytes of `rhs` |
| Guids.AsWrittenReflexiveOnlyWhenHalvesMatch | include/uefi/guid.h:37-40 | as written, a GUID equals itself only when its first eight bytes equal its last eight |
| Guids.AsWrittenNotReflexive | include/uefi/simple_text_output_protocol.h:16 | as written, the Simple Text Output Protocol GUID is not equal to itself |
| Guids.EqualsIffSameGuid | include/uefi/guid.h:28-32 | the corrected comparison of both words holds exactly when the GUIDs are the same sixteen bytes |
| Firmware.DecodeEncode | include/uefi/boot_services.h:64-85 | a memory descriptor stored as 40 bytes, with four padding bytes after the type, reads back as itself |
| Firmware.EncodeDecode | include/uefi/boot_services.h:64-85 | 40 bytes read as a descriptor and written again are the same bytes, except the four padding bytes after the type |
| Firmware.LayoutLength | include/uefi/boot_services.h:61-63 | a map whose entries each fill a stride of `d` bytes takes `d` bytes per entry |
| Firmware.LayoutDecode | include/uefi/boot_services.h:61-63 | the descriptor read at byte `i * d` of such a map is entry `i`'s descriptor, whatever extension bytes the firmware keeps after each descriptor's 40 bytes |
| Firmware.BootServices.GetMemoryMap | include/uefi/boot_services.h:87-100 | reports the descriptor size and version; a buffer too small gives `BufferTooSmall` and the size needed; a null buffer gives `InvalidParameter`; otherwise the map goes into the buffer with its size and key, and the map itself is unchanged |
| Firmware.BootServices.AllocatePool | include/uefi/boot_services.h:102-113 | a request the pool can meet gives `Success` and a fresh buffer of that size, and the map gains descriptors under a new key; otherwise it gives an error status and no buffer |
| MemoryMaps.NumberOfEntries | include/uefi/memory_map.h:26-28 | for a non-zero stride, the count is the number of whole strides in `size` |
| MemoryMaps.EntryCount | include/uefi/memory_map.h:26-28 | the same count, and zero for a map with no stride |
| MemoryMaps.EntryOffset | include/uefi/memory_map.h:33-35 | `operator[](i)` reads at a whole number of strides, exactly `i` of them |
| MemoryMaps.EntryAt | include/uefi/memory_map.h:33-35 | the descriptor `operator[](i)` returns holds the 40 bytes at its offset, except the four padding bytes after the type |
| MemoryMaps.EntryWithinMap | include/uefi/memory_map.h:26-35 | every entry below the count, stride included, lies inside the map's `size` bytes |
| MemoryMaps.ReturnedEntries | include/uefi/memory_map.h:21-35 | in a map laid out by the firmware, the count is the firmware's number of entries and `operator[](i)` reads entry `i`'s descriptor, whatever extension bytes follow each descriptor |
| MemoryMaps.GrowthFits | include/uefi/memory_map.h:56-58 | room for four more strides covers the descriptors the allocation added exactly when it added at most four |
| MemoryMaps.MapAfterGrowth | include/uefi/memory_map.h:56-58 | the firmware's map after the allocation fits the probed size plus four strides exactly when the allocation added at most four descriptors |
| MemoryMaps.FailedMapHasNoStride | include/uefi/memory_map.h:64-65 | the map returned on failure has stride 0 and so no entries |
| MemoryMaps.GetMemoryMap | include/uefi/memory_map.h:43-71 | the probe call has size 0 and no buffer, then the pool is asked for the map's size plus four strides. If that fails, the empty map comes back after those two calls and the pool is as it was; otherwise the pool shrinks by the size requested. On success, a second call fills the fresh buffer. When the allocation added at most four descriptors, the map's size, stride and key are the firmware's and its bytes are the firmware's map. When it added more, the size reported exceeds the buffer and the key stays 0 |
| TextOutput.Console.OutputString | include/uefi/simple_text_output_protocol.h:42-44 | the string is appended to the console log |
| TextOutput.TextOutputStream.Initialize | include/uefi/text_output_stream.h:24-27 | booleans print as words and the base is 10 |
| TextOutput.TextOutputStream.SetOutput | include/uefi/text_output_stream.h:29-31 | the stream writes to the given console; the other fields are unchanged |
| TextOutput.TextOutputStream.SetNumberBase | include/uefi/text_output_stream.h:41-43 | only the base changes |
| TextOutput.TextOutputStream.PrintString | include/uefi/text_output_stream.h:45-48 | the string goes to the console unchanged |
| TextOutput.TextOutputStream.PrintNumber | include/uefi/text_output_stream.h:60-117 | a base outside 2..36 prints nothing. Otherwise the output is the prefix ("0b" for 2, "0" for 8, "0x" for 16, none for others), then the numeral of the number in that base |
| TextOutput.TextOutputStream.FillDigits | include/uefi/text_output_stream.h:88-107 | the digit loop leaves at most 64 characters in the buffer: the digits least significant first, or "0" for zero |
| TextOutput.TextOutputStream.ReverseDigits | include/uefi/text_output_stream.h:109-111 | the swaps reverse the first `k` characters in place and leave the rest alone |
| TextOutput.DigitChar | include/uefi/text_output_stream.h:96-103 | a digit value below 36 becomes '0'..'9' or 'A'..'Z', whose digit value is that value |
| TextOutput.ParseDigits | include/uefi/text_output_stream.h:95-111 | reading the printed numeral back in the same base gives the number |
| TextOutput.DigitsInBase | include/uefi/text_output_stream.h:96-103 | every printed character is a digit of the base |
| TextOutput.DigitsNoLeadingZero | include/uefi/text_output_stream.h:88-93 | zero prints as the single digit "0", and no other number prints with a leading zero |
| TextOutput.DigitsAreReversedLsd | include/uefi/text_output_stream.h:109-111 | reversing the loop's least-significant-first digits gives the numeral, most significant first |
| TextOutput.DigitsOfU64Fit | include/uefi/text_output_stream.h:66-68 | a 64-bit number has at most 64 digits in any base from 2 up, so the digits and the terminator fit the 65-character buffer |
| TextOutput.TextOutputStream.PrintBool | include/uefi/text_output_stream.h:124-128 | the output is "true"/"false" when `alpha` is set and "1"/"0" otherwise |
| TextOutput.BoolTextDistinguishes | include/uefi/text_output_stream.h:124-128 | in both styles true and false print differently |
| TextOutput.TextOutputStream.PrintU64 | include/uefi/text_output_stream.h:130-133 | prints as `printNumber` does |
| TextOutput.TextOutputStream.PrintU16 | include/uefi/text_output_stream.h:50-52 | prints the same value as the 64-bit overload |
| TextOutput.TextOutputStream.PrintStatus | include/uefi/text_output_stream.h:135-148 | prints the code with bit 63 cleared, in decimal with no prefix, and leaves the base, `alpha` and the console as they were |
| TextOutput.ErrorCodePrintsItsValue | include/uefi/text_output_stream.h:138-139 | clearing bit 63 of `make_error_code(v)` gives `v` back for any `v` below 2^63 |
| TextOutput.NotFoundPrintsFourteen | include/uefi/text_output_stream.h:135-148 | `Status::NotFound` prints as "14" |
| TextOutput.CString | include/uefi/text_output_stream.h:156-157 | the copied characters are the string's bytes before its first NUL; none of them is NUL, and the byte after them is NUL |
| TextOutput.TextOutputStream.PrintNarrow | include/uefi/text_output_stream.h:150-162 | the console receives the bytes before the first NUL, each widened to the UCS-2 character of the same value |
| TextOutput.NarrowWiden | include/uefi/text_output_stream.h:157 | widening keeps each byte's value, and narrowing gives the bytes back |

## Left out

- Sizes (`size_t`, `uint32_t` sizes) are unbounded naturals, so `map_size + 4 * descriptor_size` and `i * entry_size` do not wrap.
- Crc32.CalculateTableCrc32: requires `header.size` to lie within the table. The source reads past the table otherwise, which is undefined behaviour. Crc32.DoesCrc32Match has the same requirement.
- The CRC table is a `static constexpr` object in the source. Here it is built by a constructor and passed to the checksum methods.
- `calculateCrc32(Table&)` leaves the `crc32` field zeroed for a moment. Another reader could see that, but boot-time code is single-threaded, so the model is sequential.
- Tables and descriptors are little-endian byte sequences. Struct padding follows the layout the headers assert (a 24-byte header, a 40-byte descriptor).
- The static buffers of `printNumber` (65 characters) and of the narrow-string overload (512 characters) are fresh local arrays. What they keep between calls is not modelled.
- TextOutput.TextOutputStream.PrintNarrow: requires the string to fit the 512-character buffer with its terminator. The source writes past the buffer for longer strings, which is undefined behaviour.
- `reset`, `clear` and `operator<<(TextColor)` only pass calls through to the console device and are not modelled. The same goes for the `char16_t*`, `unsigned char*`, `const char*` and `char*` overloads, which only cast and forward to `PrintString` and `PrintNarrow`.
- `memory_type.h` is not part of this model. `LoaderData` takes its UEFI Specification number, 2.
- Firmware.BootServices.AllocatePool: the firmware can fail only for lack of pool. Pool types the specification rejects are not modelled. The status of a failed allocation is one of the firmware's parameters.
- Firmware.BootServices.GetMemoryMap: this is one deterministic firmware. How much the map grows on allocation and how many bytes the pool has are its parameters, not chosen freely by the firmware.
- MemoryMaps.GetMemoryMap: the source ignores the second call's status. So when an allocation adds more than four descriptors, the returned map has a size larger than its buffer. The contract states this outcome and adds no check.
- Crc32.CheckValue: `Checksum` is defined by the table-driven step the source uses. That it equals the CRC-32 polynomial division bit by bit is shown only on the standard check input, not for all inputs.
- Entries read past the buffer by `operator[]` (undefined behaviour in C++) have no model. `EntryAt` requires the entry to lie inside the buffer.

## Findings

| source | as written | input that shows it | evidently intended | confidence | as-written member | corrected member |
|---|---|---|---|---|---|---|
| include/uefi/guid.h:39 | `operator==` compares the first 64-bit word of `lhs` with the second word of `rhs` | `SimpleTextOutputProtocol::guid == SimpleTextOutputProtocol::guid` is false, because the GUID's two halves differ | compare both words of the two GUIDs, so that equal GUIDs compare equal | high; not executed | Guids.AsWrittenNotReflexive | Guids.EqualsIffSameGuid |
| include/uefi/memory_map.h:27 | `getNumberOfEntries` divides `size` by `entry_size` without a check | the map `getMemoryMap` returns when allocation fails (memory_map.h:65) has `entry_size` 0, so asking it for its entry count divides by zero | a failed map, documented as having size 0, has no entries | medium; not executed | MemoryMaps.FailedMapHasNoStride | MemoryMaps.EntryCount |
