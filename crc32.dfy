/** The CRC-32 engine of include/uefi/crc32.h: the reflected CRC-32 of
    ISO/IEC 13239 and ITU-T V.42 (the "CCITT32" CRC of the UEFI
    Specification), computed a byte at a time through a 256-entry table, and
    its use on tables that carry their own checksum (section 4.2 of the UEFI
    Specification, EFI Table Header). */
module Crc32 {
  import opened Bytes
  import opened TableHeaders

  /** 0x04C11DB7 with its bits reversed. */
  const POLYNOMIAL: bv32 := 0xEDB8_8320
  /** The generator polynomial as the standard writes it. */
  const NORMAL_POLYNOMIAL: bv32 := 0x04C1_1DB7
  /** The register starts with every bit set. */
  const INITIAL_REGISTER: bv32 := 0xFFFF_FFFF

  /** Bit `i` of `x`, counting from the least significant. */
  function Bit(x: bv32, i: nat): bool
    requires i < 32
  {
    (x >> i) & 1 != 0
  }

  /** One round of the bit-serial division by the reflected polynomial. */
  function Round(r: bv32): bv32 {
    if r & 1 != 0 then (r >> 1) ^ POLYNOMIAL else r >> 1
  }

  /** `n` rounds starting from `r`. */
  function Rounds(r: bv32, n: nat): bv32 {
    if n == 0 then r else Round(Rounds(r, n - 1))
  }

  /** The table entry for byte value `i`: eight rounds starting from `i`. */
  function Entry(i: bv8): bv32 {
    Rounds(i as bv32, 8)
  }

  /** The table index for byte `b`: the byte XOR the register's low byte. */
  function Index(crc: bv32, b: bv8): bv8 {
    ((b as bv32) ^ (crc & 0xFF)) as bv8
  }

  /** The register after one byte, given the table entry the byte selected. */
  function Update(entry: bv32, crc: bv32): bv32 {
    entry ^ (crc >> 8)
  }

  /** The table-driven update of the register by one byte. */
  function Step(crc: bv32, b: bv8): bv32 {
    Update(Entry(Index(crc, b)), crc)
  }

  /** The register after folding `Step` over `data` from left to right,
      starting from `crc`. */
  function Fold(crc: bv32, data: seq<bv8>): bv32
    decreases |data|
  {
    if data == [] then crc else Fold(Step(crc, data[0]), data[1..])
  }

  /** The CRC-32 of `data`: the complement of the register after the fold. */
  function Checksum(data: seq<bv8>): bv32 {
    !Fold(INITIAL_REGISTER, data)
  }

  /** The 256-entry lookup table, built once and only read afterwards. */
  class Crc32Table {
    const data: array<bv32>

    ghost predicate Valid()
      reads this, data
    {
      data.Length == 256 && forall k :: 0 <= k < 256 ==> data[k] == Entry(k as bv8)
    }

    /** Fills entry `i` with the remainder left after eight rounds from `i`. */
    constructor ()
      ensures Valid() && fresh(data)
    {
      var d := new bv32[256];
      for i := 0 to 256
        invariant forall k :: 0 <= k < i ==> d[k] == Entry(k as bv8)
      {
        var remainder := i as bv32;
        var bit := 8;
        while bit > 0
          invariant 0 <= bit <= 8
          invariant remainder == Rounds(i as bv32, 8 - bit)
          invariant forall k :: 0 <= k < i ==> d[k] == Entry(k as bv8)
        {
          RoundUnfold(remainder);
          if remainder & 1 != 0 {
            remainder := (remainder >> 1) ^ POLYNOMIAL;
          } else {
            remainder := remainder >> 1;
          }
          bit := bit - 1;
        }
        EntryOf(i);
        d[i] := remainder;
      }
      data := d;
    }

    /** `operator[](uint8_t)`. */
    function At(i: bv8): (r: bv32)
      reads this, data
      requires Valid()
      ensures r == Entry(i)
    {
      data[i]
    }
  }

  /** `Round` written out, for use where its body must match code literally. */
  lemma RoundUnfold(r: bv32)
    ensures Round(r) == if r & 1 != 0 then (r >> 1) ^ POLYNOMIAL else r >> 1
  {
  }

  lemma EntryOf(i: int)
    requires 0 <= i < 256
    ensures Entry(i as bv8) == Rounds(i as bv32, 8)
  {
    assert (i as bv8) as bv32 == i as bv32;
  }

  /** `calculateCrc32(const void*, size_t)`: the CRC of the first `size` bytes
      of `mem`, and of no other byte. */
  method CalculateCrc32(table: Crc32Table, mem: seq<bv8>, size: nat) returns (crc: bv32)
    requires table.Valid()
    requires size <= |mem|
    ensures crc == Checksum(mem[..size])
  {
    var reg := INITIAL_REGISTER;
    var i := 0;
    while i < size
      invariant i <= size
      invariant Fold(reg, mem[i..size]) == Fold(INITIAL_REGISTER, mem[..size])
    {
      assert mem[i..size][1..] == mem[i + 1..size];
      reg := Update(table.At(Index(reg, mem[i])), reg);
      i := i + 1;
    }
    crc := !reg;
  }

  /** `calculateCrc32(Table&)`: the CRC of the first `header.size` bytes of
      the table, the `crc32` field read as zero (section 4.2 of the UEFI
      Specification). */
  function TableCrc32(table: seq<bv8>): bv32
    requires |table| >= HEADER_SIZE
    requires HeaderOf(table).size as int <= |table|
  {
    Checksum(WithCrc32(table, 0)[..HeaderOf(table).size])
  }

  /** `doesCrc32Match`: the stored checksum is the one the table's bytes give. */
  predicate Crc32Matches(table: seq<bv8>)
    requires |table| >= HEADER_SIZE
    requires HeaderOf(table).size as int <= |table|
  {
    HeaderOf(table).crc32 == TableCrc32(table)
  }

  /** `calculateCrc32(Table&)`: zeroes the stored checksum in place, hashes
      `header.size` bytes and writes the saved checksum back, so the table
      ends as it began. */
  method CalculateTableCrc32(crcTable: Crc32Table, table: array<bv8>) returns (result: bv32)
    requires crcTable.Valid()
    requires table.Length >= HEADER_SIZE
    requires HeaderOf(table[..]).size as int <= table.Length
    modifies table
    ensures table[..] == old(table[..])
    ensures result == TableCrc32(old(table[..]))
  {
    ghost var original := table[..];
    var crc := LoadU32(table[..], CRC32_OFFSET);
    StoreCrc32Field(table, 0);
    WithCrc32Effect(original, 0);
    var size := LoadU32(table[..], SIZE_OFFSET);
    result := CalculateCrc32(crcTable, table[..], size as nat);
    StoreCrc32Field(table, crc);
    RestoreCrc32(original);
  }

  /** Overwrites the four bytes of the header's `crc32` field with `crc`. */
  method StoreCrc32Field(table: array<bv8>, crc: bv32)
    requires table.Length >= HEADER_SIZE
    modifies table
    ensures table[..] == WithCrc32(old(table[..]), crc)
  {
    var bytes := StoreU32(crc);
    table[CRC32_OFFSET] := bytes[0];
    table[CRC32_OFFSET + 1] := bytes[1];
    table[CRC32_OFFSET + 2] := bytes[2];
    table[CRC32_OFFSET + 3] := bytes[3];
  }

  /** `doesCrc32Match(Table&)`. */
  method DoesCrc32Match(crcTable: Crc32Table, table: array<bv8>) returns (matches: bool)
    requires crcTable.Valid()
    requires table.Length >= HEADER_SIZE
    requires HeaderOf(table[..]).size as int <= table.Length
    modifies table
    ensures table[..] == old(table[..])
    ensures matches <==> Crc32Matches(old(table[..]))
  {
    var stored := LoadU32(table[..], CRC32_OFFSET);
    var computed := CalculateTableCrc32(crcTable, table);
    matches := stored == computed;
  }

  /** Writing back the checksum that was read out undoes any overwrite of it. */
  lemma RestoreCrc32(table: seq<bv8>)
    requires |table| >= HEADER_SIZE
    ensures forall c :: WithCrc32(WithCrc32(table, c), HeaderOf(table).crc32) == table
  {
    StoreLoadU32(table, CRC32_OFFSET);
  }

  /** The CRC of no bytes is zero: the complement of the initial register. */
  lemma EmptyChecksum()
    ensures Checksum([]) == 0
  {
  }

  /** Eight rounds written out, so that they can be evaluated on a constant. */
  lemma EightRounds(r: bv32)
    ensures Rounds(r, 8) == Round(Round(Round(Round(Round(Round(Round(Round(r))))))))
  {
    assert Rounds(r, 1) == Round(r);
    assert Rounds(r, 2) == Round(Round(r));
    assert Rounds(r, 3) == Round(Round(Round(r)));
    assert Rounds(r, 4) == Round(Round(Round(Round(r))));
    assert Rounds(r, 5) == Round(Round(Round(Round(Round(r)))));
    assert Rounds(r, 6) == Round(Round(Round(Round(Round(Round(r))))));
    assert Rounds(r, 7) == Round(Round(Round(Round(Round(Round(Round(r)))))));
  }

  /** One table-driven step on constants, through the table index it selects. */
  lemma StepValue(crc: bv32, b: bv8, index: bv8, next: bv32)
    requires Index(crc, b) == index
    requires Round(Round(Round(Round(Round(Round(Round(Round(index as bv32)))))))) ^ (crc >> 8) == next
    ensures Step(crc, b) == next
  {
    EightRounds(index as bv32);
  }

  /** The nine ASCII bytes "123456789". */
  const CHECK_INPUT: seq<bv8> := [0x31, 0x32, 0x33, 0x34, 0x35, 0x36, 0x37, 0x38, 0x39]

  /** The check value of CRC-32 (ISO/IEC 13239, ITU-T V.42): the nine ASCII
      bytes "123456789" give 0xCBF43926. */
  lemma CheckValue()
    ensures Checksum(CHECK_INPUT) == 0xCBF4_3926
  {
    CheckValueFirstHalf();
    CheckValueSecondHalf();
  }

  /** The register after the first four bytes of the check input. */
  lemma CheckValueFirstHalf()
    ensures Fold(INITIAL_REGISTER, CHECK_INPUT) == Fold(0x641C_1F5C, CHECK_INPUT[4..])
  {
    var s := CHECK_INPUT;
    StepValue(0xFFFF_FFFF, 0x31, 0xCE, 0x7C23_1048);
    assert Fold(0xFFFF_FFFF, s[0..]) == Fold(0x7C23_1048, s[1..]);
    StepValue(0x7C23_1048, 0x32, 0x7A, 0xB0AC_BB32);
    assert Fold(0x7C23_1048, s[1..]) == Fold(0xB0AC_BB32, s[2..]);
    StepValue(0xB0AC_BB32, 0x33, 0x01, 0x77B7_9C2D);
    assert Fold(0xB0AC_BB32, s[2..]) == Fold(0x77B7_9C2D, s[3..]);
    StepValue(0x77B7_9C2D, 0x34, 0x19, 0x641C_1F5C);
    assert Fold(0x77B7_9C2D, s[3..]) == Fold(0x641C_1F5C, s[4..]);
  }

  /** The register after the remaining five. */
  lemma CheckValueSecondHalf()
    ensures Fold(0x641C_1F5C, CHECK_INPUT[4..]) == 0x340B_C6D9
  {
    var s := CHECK_INPUT;
    StepValue(0x641C_1F5C, 0x35, 0x69, 0x340A_C5E3);
    assert Fold(0x641C_1F5C, s[4..]) == Fold(0x340A_C5E3, s[5..]);
    StepValue(0x340A_C5E3, 0x36, 0xD5, 0xF68D_2C9E);
    assert Fold(0x340A_C5E3, s[5..]) == Fold(0xF68D_2C9E, s[6..]);
    StepValue(0xF68D_2C9E, 0x37, 0xA9, 0xAFFC_9660);
    assert Fold(0xF68D_2C9E, s[6..]) == Fold(0xAFFC_9660, s[7..]);
    StepValue(0xAFFC_9660, 0x38, 0x58, 0x651F_2550);
    assert Fold(0xAFFC_9660, s[7..]) == Fold(0x651F_2550, s[8..]);
    StepValue(0x651F_2550, 0x39, 0x69, 0x340B_C6D9);
    assert Fold(0x651F_2550, s[8..]) == Fold(0x340B_C6D9, s[9..]);
    assert s[9..] == [];
  }

  /** 0xEDB88320 is 0x04C11DB7 with its 32 bits in reverse order: the table
      runs the standard's generator polynomial least significant bit first. */
  lemma PolynomialIsReflected()
    ensures forall i: nat :: i < 32 ==> Bit(POLYNOMIAL, i) == Bit(NORMAL_POLYNOMIAL, 31 - i)
  {
    ReflectedByte0();
    ReflectedByte1();
    ReflectedByte2();
    ReflectedByte3();
  }

  // The reflection one byte of 0xEDB88320 at a time.

  lemma ReflectedByte0()
    ensures forall i: nat :: i < 8 ==> Bit(POLYNOMIAL, i) == Bit(NORMAL_POLYNOMIAL, 31 - i)
  {
  }

  lemma ReflectedByte1()
    ensures forall i: nat :: 8 <= i < 16 ==> Bit(POLYNOMIAL, i) == Bit(NORMAL_POLYNOMIAL, 31 - i)
  {
  }

  lemma ReflectedByte2()
    ensures forall i: nat :: 16 <= i < 24 ==> Bit(POLYNOMIAL, i) == Bit(NORMAL_POLYNOMIAL, 31 - i)
  {
  }

  lemma ReflectedByte3()
    ensures forall i: nat :: 24 <= i < 32 ==> Bit(POLYNOMIAL, i) == Bit(NORMAL_POLYNOMIAL, 31 - i)
  {
  }

  /** The top byte of a table entry determines the entry's index: no two
      entries share their most significant byte. */
  lemma EntryTopByteInjective(a: bv8, b: bv8)
    requires a != b
    ensures Entry(a) >> 24 != Entry(b) >> 24
  {
    TopByteGivesIndex(a);
    TopByteGivesIndex(b);
  }

  /** A round undone: bit 31 of its result tells whether the polynomial was
      added, and so what the shifted-out low bit was. */
  function Unround(r: bv32): bv32 {
    if r & 0x8000_0000 != 0 then ((r ^ POLYNOMIAL) << 1) | 1 else r << 1
  }

  /** The index recovered from an entry's top byte `t`: undoing eight rounds
      reads only the top byte, and leaves the index in the low byte. */
  function IndexOfTopByte(t: bv32): bv8 {
    var r := Unround(Unround(Unround(Unround(Unround(Unround(Unround(Unround(t << 24))))))));
    (r & 0xFF) as bv8
  }

  /** The top byte of entry `i` determines `i`. */
  lemma TopByteGivesIndex(i: bv8)
    ensures IndexOfTopByte(Entry(i) >> 24) == i
  {
    EightRounds(i as bv32);
  }

  /** For a fixed register, different bytes give different registers. */
  lemma StepInjectiveInByte(crc: bv32, b: bv8, v: bv8)
    requires b != v
    ensures Step(crc, b) != Step(crc, v)
  {
    assert Index(crc, b) != Index(crc, v);
    EntryTopByteInjective(Index(crc, b), Index(crc, v));
  }

  /** For a fixed byte, different registers give different registers: the
      entry's top byte fixes the index, and then the shifted register must
      differ. */
  lemma StepInjectiveInRegister(c: bv32, d: bv32, b: bv8)
    requires c != d
    ensures Step(c, b) != Step(d, b)
  {
    if Index(c, b) != Index(d, b) {
      EntryTopByteInjective(Index(c, b), Index(d, b));
      TopByteOfUpdate(Entry(Index(c, b)), c);
      TopByteOfUpdate(Entry(Index(d, b)), d);
    } else {
      LowByteFromIndex(c, d, b);
    }
  }

  lemma TopByteOfUpdate(entry: bv32, crc: bv32)
    ensures Update(entry, crc) >> 24 == entry >> 24
  {
  }

  lemma LowByteFromIndex(c: bv32, d: bv32, b: bv8)
    requires c != d && Index(c, b) == Index(d, b)
    ensures c >> 8 != d >> 8
  {
  }

  /** Folding the same bytes over different registers keeps them different. */
  lemma {:induction false} FoldInjective(c: bv32, d: bv32, data: seq<bv8>)
    requires c != d
    ensures Fold(c, data) != Fold(d, data)
    decreases |data|
  {
    if data != [] {
      StepInjectiveInRegister(c, d, data[0]);
      FoldInjective(Step(c, data[0]), Step(d, data[0]), data[1..]);
    }
  }

  /** Changing any one byte changes the register after the fold. */
  lemma {:induction false} FoldDetectsOneByte(crc: bv32, data: seq<bv8>, k: nat, v: bv8)
    requires k < |data| && v != data[k]
    ensures Fold(crc, data[k := v]) != Fold(crc, data)
    decreases k
  {
    var changed := data[k := v];
    if k == 0 {
      assert changed[1..] == data[1..];
      StepInjectiveInByte(crc, v, data[0]);
      FoldInjective(Step(crc, v), Step(crc, data[0]), data[1..]);
    } else {
      assert changed[0] == data[0];
      assert changed[1..] == data[1..][k - 1 := v];
      FoldDetectsOneByte(Step(crc, data[0]), data[1..], k - 1, v);
    }
  }

  /** So the checksum detects every change of a single byte. */
  lemma ChecksumDetectsOneByte(data: seq<bv8>, k: nat, v: bv8)
    requires k < |data| && v != data[k]
    ensures Checksum(data[k := v]) != Checksum(data)
  {
    FoldDetectsOneByte(INITIAL_REGISTER, data, k, v);
  }

  /** A table that matches stops matching once any byte among its first
      `size` is changed, other than the `size` and `crc32` fields
      themselves (changing `size` changes which bytes are covered). */
  lemma TamperedTableDoesNotMatch(table: seq<bv8>, k: nat, v: bv8)
    requires |table| >= HEADER_SIZE
    requires HeaderOf(table).size as int <= |table|
    requires Crc32Matches(table)
    requires k < HeaderOf(table).size as int && !(SIZE_OFFSET <= k < CRC32_OFFSET + 4)
    requires v != table[k]
    ensures HeaderOf(table[k := v]).size == HeaderOf(table).size
    ensures !Crc32Matches(table[k := v])
  {
    HeaderOutsideChange(table, k, v);
    TableCrcDetectsOneByte(table, k, v);
  }

  /** The table checksum changes with any byte it covers outside the two
      fields. */
  lemma TableCrcDetectsOneByte(table: seq<bv8>, k: nat, v: bv8)
    requires |table| >= HEADER_SIZE
    requires HeaderOf(table).size as int <= |table|
    requires k < HeaderOf(table).size as int && !(SIZE_OFFSET <= k < CRC32_OFFSET + 4)
    requires v != table[k]
    ensures HeaderOf(table[k := v]).size == HeaderOf(table).size
    ensures TableCrc32(table[k := v]) != TableCrc32(table)
  {
    var size := HeaderOf(table).size as int;
    var zeroed := WithCrc32(table, 0)[..size];
    HeaderOutsideChange(table, k, v);
    assert TableCrc32(table[k := v]) == Checksum(zeroed[k := v]) by {
      ZeroedOutsideChange(table, k, v, size);
    }
    assert Checksum(zeroed[k := v]) != Checksum(zeroed) by {
      ZeroedOutsideChange(table, k, v, size);
      ChecksumDetectsOneByte(zeroed, k, v);
    }
  }

  /** A byte outside the `size` and `crc32` fields leaves both fields as they
      were. */
  lemma HeaderOutsideChange(table: seq<bv8>, k: nat, v: bv8)
    requires |table| >= HEADER_SIZE && k < |table| && !(SIZE_OFFSET <= k < CRC32_OFFSET + 4)
    ensures HeaderOf(table[k := v]).size == HeaderOf(table).size
    ensures HeaderOf(table[k := v]).crc32 == HeaderOf(table).crc32
  {
    SameLoadU32(table, table[k := v], SIZE_OFFSET);
    SameLoadU32(table, table[k := v], CRC32_OFFSET);
  }

  /** Zeroing the `crc32` field commutes with changing a byte outside it. */
  lemma ZeroedOutsideChange(table: seq<bv8>, k: nat, v: bv8, size: nat)
    requires |table| >= HEADER_SIZE && k < size <= |table| && !(CRC32_OFFSET <= k < CRC32_OFFSET + 4)
    ensures WithCrc32(table, 0)[..size][k] == table[k]
    ensures WithCrc32(table[k := v], 0)[..size] == WithCrc32(table, 0)[..size][k := v]
  {
    WithCrc32Effect(table, 0);
    WithCrc32Effect(table[k := v], 0);
    assert WithCrc32(table[k := v], 0) == WithCrc32(table, 0)[k := v];
  }

  /** The table checksum does not depend on the checksum stored in the table. */
  lemma TableCrcIgnoresStoredCrc(table: seq<bv8>, crc: bv32)
    requires |table| >= HEADER_SIZE
    requires HeaderOf(table).size as int <= |table|
    ensures HeaderOf(WithCrc32(table, crc)).size == HeaderOf(table).size
    ensures TableCrc32(WithCrc32(table, crc)) == TableCrc32(table)
  {
    WithCrc32Effect(table, crc);
    assert WithCrc32(WithCrc32(table, crc), 0) == WithCrc32(table, 0);
  }

  /** Storing the computed checksum in the header seals the table: it then
      matches, and a table matches exactly when it is its own sealed form. */
  lemma SealedTableMatches(table: seq<bv8>)
    requires |table| >= HEADER_SIZE
    requires HeaderOf(table).size as int <= |table|
    ensures var sealed := WithCrc32(table, TableCrc32(table));
      HeaderOf(sealed).size == HeaderOf(table).size && Crc32Matches(sealed)
    ensures Crc32Matches(table) <==> WithCrc32(table, TableCrc32(table)) == table
  {
    var c := TableCrc32(table);
    TableCrcIgnoresStoredCrc(table, c);
    WithCrc32Effect(table, c);
    if Crc32Matches(table) {
      StoreLoadU32(table, CRC32_OFFSET);
      assert WithCrc32(table, c) == table;
    }
  }

  /** Changing the stored checksum to anything but the computed one breaks
      the match. */
  lemma WrongCrcDoesNotMatch(table: seq<bv8>, crc: bv32)
    requires |table| >= HEADER_SIZE
    requires HeaderOf(table).size as int <= |table|
    ensures Crc32Matches(WithCrc32(table, crc)) <==> crc == TableCrc32(table)
  {
    TableCrcIgnoresStoredCrc(table, crc);
    WithCrc32Effect(table, crc);
  }
}
