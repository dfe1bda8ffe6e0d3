/** Little-endian loads and stores of 16-, 32- and 64-bit words, the byte order
    every UEFI structure in this model is laid out in. */
module Bytes {

  /** Reads the 16-bit little-endian word at `off`. */
  function LoadU16(s: seq<bv8>, off: nat): bv16
    requires off + 2 <= |s|
  {
    (s[off] as bv16) | ((s[off + 1] as bv16) << 8)
  }

  /** Reads the 32-bit little-endian word at `off`. */
  function LoadU32(s: seq<bv8>, off: nat): bv32
    requires off + 4 <= |s|
  {
    (s[off] as bv32) | ((s[off + 1] as bv32) << 8)
    | ((s[off + 2] as bv32) << 16) | ((s[off + 3] as bv32) << 24)
  }

  /** Reads the 64-bit little-endian word at `off`. */
  function LoadU64(s: seq<bv8>, off: nat): bv64
    requires off + 8 <= |s|
  {
    (LoadU32(s, off) as bv64) | ((LoadU32(s, off + 4) as bv64) << 32)
  }

  /** The two bytes of `v`, least significant first. */
  function StoreU16(v: bv16): (r: seq<bv8>)
    ensures |r| == 2
  {
    [(v & 0xFF) as bv8, (v >> 8) as bv8]
  }

  /** The four bytes of `v`, least significant first. */
  function StoreU32(v: bv32): (r: seq<bv8>)
    ensures |r| == 4
  {
    [(v & 0xFF) as bv8, ((v >> 8) & 0xFF) as bv8, ((v >> 16) & 0xFF) as bv8, (v >> 24) as bv8]
  }

  /** The eight bytes of `v`, least significant first. */
  function StoreU64(v: bv64): (r: seq<bv8>)
    ensures |r| == 8
  {
    StoreU32((v & 0xFFFF_FFFF) as bv32) + StoreU32((v >> 32) as bv32)
  }

  lemma LoadStoreU16(v: bv16)
    ensures LoadU16(StoreU16(v), 0) == v
  {
  }

  lemma LoadStoreU32(v: bv32)
    ensures LoadU32(StoreU32(v), 0) == v
  {
  }

  lemma JoinSplitU64(v: bv64)
    ensures ((v & 0xFFFF_FFFF) as bv32 as bv64) | (((v >> 32) as bv32 as bv64) << 32) == v
  {
  }

  /** Storing a word and loading it back, at any offset, gives the word. */
  lemma LoadStoreU64At(prefix: seq<bv8>, v: bv64, suffix: seq<bv8>)
    ensures LoadU64(prefix + StoreU64(v) + suffix, |prefix|) == v
  {
    var lo, hi := (v & 0xFFFF_FFFF) as bv32, (v >> 32) as bv32;
    LoadStoreU32At(prefix, lo, StoreU32(hi) + suffix);
    assert prefix + StoreU64(v) + suffix == prefix + StoreU32(lo) + (StoreU32(hi) + suffix);
    LoadStoreU32At(prefix + StoreU32(lo), hi, suffix);
    assert prefix + StoreU64(v) + suffix == (prefix + StoreU32(lo)) + StoreU32(hi) + suffix;
    JoinSplitU64(v);
  }

  lemma LoadStoreU16At(prefix: seq<bv8>, v: bv16, suffix: seq<bv8>)
    ensures LoadU16(prefix + StoreU16(v) + suffix, |prefix|) == v
  {
    var s := prefix + StoreU16(v) + suffix;
    assert s[|prefix|..|prefix| + 2] == StoreU16(v);
    LoadStoreU16(v);
  }

  lemma LoadStoreU32At(prefix: seq<bv8>, v: bv32, suffix: seq<bv8>)
    ensures LoadU32(prefix + StoreU32(v) + suffix, |prefix|) == v
  {
    var s := prefix + StoreU32(v) + suffix;
    assert s[|prefix|..|prefix| + 4] == StoreU32(v);
    LoadStoreU32(v);
  }

  /** Loading a word and storing it back gives the bytes it was read from. */
  lemma StoreLoadU32(s: seq<bv8>, off: nat)
    requires off + 4 <= |s|
    ensures StoreU32(LoadU32(s, off)) == s[off..off + 4]
  {
  }

  /** A load reads only the bytes of its own word. */
  lemma SameLoadU16(s: seq<bv8>, t: seq<bv8>, off: nat)
    requires off + 2 <= |s| && off + 2 <= |t|
    requires forall k :: off <= k < off + 2 ==> s[k] == t[k]
    ensures LoadU16(s, off) == LoadU16(t, off)
  {
  }

  lemma SameLoadU32(s: seq<bv8>, t: seq<bv8>, off: nat)
    requires off + 4 <= |s| && off + 4 <= |t|
    requires forall k :: off <= k < off + 4 ==> s[k] == t[k]
    ensures LoadU32(s, off) == LoadU32(t, off)
  {
  }

  lemma SameLoadU64(s: seq<bv8>, t: seq<bv8>, off: nat)
    requires off + 8 <= |s| && off + 8 <= |t|
    requires forall k :: off <= k < off + 8 ==> s[k] == t[k]
    ensures LoadU64(s, off) == LoadU64(t, off)
  {
    SameLoadU32(s, t, off);
    SameLoadU32(s, t, off + 4);
    SameWordsLoadU64(s, t, off);
  }

  lemma SameWordsLoadU64(s: seq<bv8>, t: seq<bv8>, off: nat)
    requires off + 8 <= |s| && off + 8 <= |t|
    requires LoadU32(s, off) == LoadU32(t, off)
    requires LoadU32(s, off + 4) == LoadU32(t, off + 4)
    ensures LoadU64(s, off) == LoadU64(t, off)
  {
  }

  lemma SplitJoinU64(lo: bv32, hi: bv32)
    ensures ((lo as bv64) | ((hi as bv64) << 32)) & 0xFFFF_FFFF == lo as bv64
    ensures (((lo as bv64) | ((hi as bv64) << 32)) & 0xFFFF_FFFF) as bv32 == lo
    ensures (((lo as bv64) | ((hi as bv64) << 32)) >> 32) as bv32 == hi
  {
  }

  lemma StoreLoadU64(s: seq<bv8>, off: nat)
    requires off + 8 <= |s|
    ensures StoreU64(LoadU64(s, off)) == s[off..off + 8]
  {
    SplitJoinU64(LoadU32(s, off), LoadU32(s, off + 4));
    StoreLoadU32(s, off);
    StoreLoadU32(s, off + 4);
  }

  /** Two 64-bit loads agree exactly when the eight bytes they read agree. */
  lemma LoadU64Equal(s: seq<bv8>, i: nat, t: seq<bv8>, j: nat)
    requires i + 8 <= |s| && j + 8 <= |t|
    ensures LoadU64(s, i) == LoadU64(t, j) <==> s[i..i + 8] == t[j..j + 8]
  {
    StoreLoadU64(s, i);
    StoreLoadU64(t, j);
    if s[i..i + 8] == t[j..j + 8] {
      StoreU64Injective(LoadU64(s, i), LoadU64(t, j));
    }
  }

  lemma StoreU64Injective(u: bv64, v: bv64)
    requires StoreU64(u) == StoreU64(v)
    ensures u == v
  {
    LoadStoreU64At([], u, []);
    LoadStoreU64At([], v, []);
    assert [] + StoreU64(u) + [] == [] + StoreU64(v) + [];
  }

  lemma StoreLoadU16(s: seq<bv8>, off: nat)
    requires off + 2 <= |s|
    ensures StoreU16(LoadU16(s, off)) == s[off..off + 2]
  {
  }
}
