/** `TextOutputStream` (include/uefi/text_output_stream.h): formats numbers,
    booleans, statuses and narrow strings and hands the text, as UCS-2
    strings, to the console's `outputString`. The console is modelled as the
    log of strings it has been given. */
module TextOutput {
  import opened StatusCodes

  newtype uint8 = x: int | 0 <= x < 0x100
  newtype uint16 = x: int | 0 <= x < 0x1_0000
  newtype uint64 = x: int | 0 <= x < 0x1_0000_0000_0000_0000

  /** The console behind `SimpleTextOutputProtocol`: every string passed to
      `outputString`, in order. */
  class Console {
    var written: seq<string>

    constructor ()
      ensures written == []
    {
      written := [];
    }

    /** `outputString(msg)`. */
    method OutputString(msg: string)
      modifies this
      ensures written == old(written) + [msg]
    {
      written := written + [msg];
    }
  }

  // ---------------------------------------------------------------- digits

  /** The value of a digit character: '0'..'9' are 0..9 and 'A'..'Z' are
      10..35; any other character has no digit value (36). */
  function DigitValue(c: char): nat {
    if '0' <= c <= '9' then c as int - '0' as int
    else if 'A' <= c <= 'Z' then c as int - 'A' as int + 10
    else 36
  }

  /** The character `printNumber` writes for a digit value below 36:
      a decimal digit, or an upper-case letter from 10 on. */
  function DigitChar(v: nat): (c: char)
    requires v < 36
    ensures DigitValue(c) == v
    ensures '0' <= c <= '9' || 'A' <= c <= 'Z'
  {
    if v <= 9 then ('0' as int + v) as char else ('A' as int + (v - 10)) as char
  }

  /** The numeral of `n` in base `b`, most significant digit first. */
  function Digits(n: nat, b: nat): string
    requires 2 <= b <= 36
    decreases n
  {
    DivMod(n, b);
    if n < b then [DigitChar(n)] else Digits(n / b, b) + [DigitChar(n % b)]
  }

  /** The number a numeral in base `b` denotes. */
  function Parse(s: string, b: nat): nat {
    if s == [] then 0 else Parse(s[..|s| - 1], b) * b + DigitValue(s[|s| - 1])
  }

  /** The digits of a positive `n` in the order the digit loop produces them,
      least significant first. */
  function LsdDigits(n: nat, b: nat): string
    requires 2 <= b <= 36
    decreases n
  {
    DivMod(n, b);
    if n == 0 then [] else [DigitChar(n % b)] + LsdDigits(n / b, b)
  }

  function Reversed(s: string): (r: string)
    ensures |r| == |s|
  {
    seq(|s|, j requires 0 <= j < |s| => s[|s| - 1 - j])
  }

  function Pow2(e: nat): nat {
    if e == 0 then 1 else 2 * Pow2(e - 1)
  }

  /** Reading the numeral back gives the number. */
  lemma {:induction false} ParseDigits(n: nat, b: nat)
    requires 2 <= b <= 36
    ensures Parse(Digits(n, b), b) == n
    decreases n
  {
    if n >= b {
      DivMod(n, b);
      ParseSnoc(Digits(n / b, b), DigitChar(n % b), b);
      ParseDigits(n / b, b);
    }
  }

  lemma ParseSnoc(s: string, c: char, b: nat)
    ensures Parse(s + [c], b) == Parse(s, b) * b + DigitValue(c)
  {
    assert (s + [c])[..|s|] == s;
  }

  lemma DivMod(n: nat, b: nat)
    requires b >= 2
    ensures n == (n / b) * b + n % b
    ensures n > 0 ==> n / b < n
    ensures n < b ==> n / b == 0 && n % b == n
    ensures n % b < b && n / b <= n
  {
  }

  /** Every character of the numeral is a digit of the base. */
  lemma {:induction false} DigitsInBase(n: nat, b: nat)
    requires 2 <= b <= 36
    ensures forall j :: 0 <= j < |Digits(n, b)| ==> DigitValue(Digits(n, b)[j]) < b
    decreases n
  {
    if n >= b {
      DivMod(n, b);
      DigitsInBase(n / b, b);
    }
  }

  /** The numeral of a non-zero number has no leading zero, and zero is the
      single digit "0". */
  lemma {:induction false} DigitsNoLeadingZero(n: nat, b: nat)
    requires 2 <= b <= 36
    ensures n == 0 <==> Digits(n, b) == "0"
    ensures Digits(n, b)[0] == '0' ==> n == 0
    decreases n
  {
    if n >= b {
      DivMod(n, b);
      DigitsNoLeadingZero(n / b, b);
    }
  }

  /** The loop's digits, reversed, are the numeral. */
  lemma {:induction false} DigitsAreReversedLsd(n: nat, b: nat)
    requires 2 <= b <= 36 && n > 0
    ensures Digits(n, b) == Reversed(LsdDigits(n, b))
    decreases n
  {
    DivMod(n, b);
    var c := DigitChar(n % b);
    if n < b {
      assert LsdDigits(n, b) == [c] + LsdDigits(0, b);
    } else {
      DigitsAreReversedLsd(n / b, b);
      ReversedCons(c, LsdDigits(n / b, b));
    }
  }

  /** One turn of the digit loop: the lowest digit, then those of the
      quotient. */
  lemma LsdStep(n: nat, b: nat)
    requires 2 <= b <= 36 && n > 0
    ensures LsdDigits(n, b) == [DigitChar(n % b)] + LsdDigits(n / b, b)
    ensures |LsdDigits(n / b, b)| + 1 == |LsdDigits(n, b)|
  {
  }

  /** The digit loop's invariant survives one turn. */
  lemma DigitStep(done: string, c: char, n: nat, b: nat, lsd: string)
    requires 2 <= b <= 36 && n > 0 && done + LsdDigits(n, b) == lsd
    requires c == DigitChar(n % b)
    ensures (done + [c]) + LsdDigits(n / b, b) == lsd
    ensures |done + [c]| + |LsdDigits(n / b, b)| == |lsd|
  {
    LsdStep(n, b);
  }

  lemma ReversedCons(c: char, s: string)
    ensures Reversed([c] + s) == Reversed(s) + [c]
  {
    assert forall j :: 0 <= j < |s| ==> Reversed([c] + s)[j] == Reversed(s)[j];
  }

  /** A number below 2^e has at most e digits in any base from 2 up. */
  lemma {:induction false} LsdLength(n: nat, b: nat, e: nat)
    requires 2 <= b <= 36 && n < Pow2(e)
    ensures |LsdDigits(n, b)| <= e
    decreases n
  {
    if n > 0 {
      QuotientHalves(n, b, Pow2(e - 1));
      DivMod(n, b);
      LsdLength(n / b, b, e - 1);
    }
  }

  lemma QuotientHalves(n: nat, b: nat, p: nat)
    requires 2 <= b && n < 2 * p
    ensures n / b < p
  {
    var q := n / b;
    assert q * b <= n;
    assert q * 2 <= q * b;
  }

  /** A 64-bit number has at most 64 digits, so the digits and their
      terminator fit the 65-character buffer. */
  lemma DigitsOfU64Fit(n: nat, b: nat)
    requires 2 <= b <= 36 && n < 0x1_0000_0000_0000_0000
    ensures |Digits(n, b)| <= 64
    ensures n > 0 ==> |LsdDigits(n, b)| <= 64
  {
    Pow2Of64();
    LsdLength(n, b, 64);
    if n > 0 {
      DigitsAreReversedLsd(n, b);
    }
  }

  lemma {:induction false} Pow2Add(a: nat, c: nat)
    ensures Pow2(a + c) == Pow2(a) * Pow2(c)
    decreases a
  {
    if a > 0 {
      Pow2Add(a - 1, c);
    }
  }

  lemma Pow2Of64()
    ensures Pow2(64) == 0x1_0000_0000_0000_0000
  {
    assert Pow2(2) == 4;
    Pow2Add(2, 2);
    Pow2Add(4, 4);
    Pow2Add(8, 8);
    Pow2Add(16, 16);
    Pow2Add(32, 32);
  }

  /** The strings `printNumber` emits before the digits. */
  function Prefix(b: nat): seq<string> {
    if b == 2 then ["0b"] else if b == 8 then ["0"] else if b == 16 then ["0x"] else []
  }

  /** The text `operator<<(bool)` emits. */
  function BoolText(alpha: bool, value: bool): string {
    if alpha then (if value then "true" else "false") else (if value then "1" else "0")
  }

  /** In both styles, true and false print differently. */
  lemma BoolTextDistinguishes(alpha: bool)
    ensures BoolText(alpha, true) != BoolText(alpha, false)
  {
  }

  // ---------------------------------------------------------- narrow strings

  /** The characters of a NUL-terminated byte string, up to its first NUL. */
  function CString(s: seq<bv8>): (r: seq<bv8>)
    ensures |r| <= |s| && r == s[..|r|]
    ensures forall j :: 0 <= j < |r| ==> r[j] != 0
    ensures |r| < |s| ==> s[|r|] == 0
    ensures 0 in s ==> |r| < |s|
  {
    if s == [] || s[0] == 0 then [] else [s[0]] + CString(s[1..])
  }

  /** Each byte becomes the UCS-2 character of the same value. */
  function Widen(s: seq<bv8>): (w: string)
    ensures |w| == |s|
  {
    seq(|s|, j requires 0 <= j < |s| => (s[j] as int) as char)
  }

  function Narrow(w: string): seq<bv8>
    requires forall j :: 0 <= j < |w| ==> w[j] as int < 0x100
  {
    seq(|w|, j requires 0 <= j < |w| => (w[j] as int) as bv8)
  }

  /** Widening loses nothing: every character keeps its byte's value and
      narrowing gives the bytes back. */
  lemma NarrowWiden(s: seq<bv8>)
    ensures forall j :: 0 <= j < |s| ==> Widen(s)[j] as int == s[j] as int
    ensures Narrow(Widen(s)) == s
  {
  }

  // ------------------------------------------------------------ the stream

  /** `TextOutputStream`: the console it writes to, whether booleans print
      as words, and the number base. */
  class TextOutputStream {
    var output: Console?
    var alpha: bool
    var base: uint8

    /** `initialize()`. */
    method Initialize()
      modifies this
      ensures alpha && base == 10 && output == old(output)
    {
      alpha := true;
      base := 10;
    }

    /** `setOutput(output)`. */
    method SetOutput(console: Console)
      modifies this
      ensures output == console && alpha == old(alpha) && base == old(base)
    {
      output := console;
    }

    /** `setNumberBase(b)`: changes the base and nothing else. */
    method SetNumberBase(b: uint8)
      modifies this
      ensures base == b && alpha == old(alpha) && output == old(output)
    {
      base := b;
    }

    /** `operator<<(const char16_t*)`. */
    method PrintString(msg: string)
      requires output != null
      modifies output
      ensures output.written == old(output.written) + [msg]
    {
      output.OutputString(msg);
    }

    /** `printNumber(stream, number)`: nothing for a base outside 2..36;
        otherwise the base's prefix, then the numeral of `number`. */
    method PrintNumber(number: uint64)
      requires output != null
      modifies output
      ensures base < 2 || base > 36 ==> output.written == old(output.written)
      ensures 2 <= base <= 36 ==>
        output.written == old(output.written) + Prefix(base as nat) + [Digits(number as nat, base as nat)]
    {
      var b := base;
      if b < 2 || b > 36 {
        return;
      }
      if b == 2 {
        PrintString("0b");
      } else if b == 8 {
        PrintString("0");
      } else if b == 16 {
        PrintString("0x");
      }
      assert output.written == old(output.written) + Prefix(b as nat);
      var buf := new char[65];
      var k := FillDigits(buf, number, b);
      ReverseDigits(buf, k);
      buf[k] := 0 as char;
      if number != 0 {
        DigitsAreReversedLsd(number as nat, b as nat);
      } else {
        DigitsNoLeadingZero(0, b as nat);
      }
      assert buf[..k] == Digits(number as nat, b as nat);
      PrintString(buf[..k]);
    }

    /** The first half of `printNumber`'s digit work: `buf[0..k]` receives
        the digits of `number`, least significant first, or "0" for zero. */
    static method FillDigits(buf: array<char>, number: uint64, b: uint8) returns (k: nat)
      requires buf.Length == 65 && 2 <= b <= 36
      modifies buf
      ensures k <= 64
      ensures buf[..k] == if number == 0 then "0" else LsdDigits(number as nat, b as nat)
    {
      k := 0;
      if number == 0 {
        buf[0] := '0';
        k := 1;
      }
      ghost var lsd := if number == 0 then "0" else LsdDigits(number as nat, b as nat);
      DigitsOfU64Fit(number as nat, b as nat);
      var rest := number;
      while rest != 0
        invariant k + |LsdDigits(rest as nat, b as nat)| == |lsd| <= 64
        invariant buf[..k] + LsdDigits(rest as nat, b as nat) == lsd
        decreases rest
      {
        DivMod(rest as nat, b as nat);
        var value := (rest % b as uint64) as uint8;
        if value <= 9 {
          buf[k] := ('0' as int + value as int) as char;
        } else {
          buf[k] := ('A' as int + (value as int - 10)) as char;
        }
        DigitStep(buf[..k], buf[k], rest as nat, b as nat, lsd);
        assert buf[..k + 1] == buf[..k] + [buf[k]];
        k := k + 1;
        rest := rest / b as uint64;
      }
    }

    /** The second half: `buf[0..k]` reversed in place by swaps. */
    static method ReverseDigits(buf: array<char>, k: nat)
      requires k <= buf.Length
      modifies buf
      ensures buf[..k] == Reversed(old(buf[..k]))
      ensures buf[k..] == old(buf[k..])
    {
      ghost var forward := buf[..k];
      for i := 0 to k / 2
        invariant forall j :: 0 <= j < i ==> buf[j] == forward[k - 1 - j] && buf[k - 1 - j] == forward[j]
        invariant forall j :: i <= j < k - i ==> buf[j] == forward[j]
        invariant buf[k..] == old(buf[k..])
      {
        buf[i], buf[k - i - 1] := buf[k - i - 1], buf[i];
      }
    }

    /** `operator<<(bool)`. */
    method PrintBool(value: bool)
      requires output != null
      modifies output
      ensures output.written == old(output.written) + [BoolText(alpha, value)]
    {
      if alpha {
        PrintString(if value then "true" else "false");
      } else {
        PrintString(if value then "1" else "0");
      }
    }

    /** `operator<<(uint64_t)`. */
    method PrintU64(n: uint64)
      requires output != null
      modifies output
      ensures base < 2 || base > 36 ==> output.written == old(output.written)
      ensures 2 <= base <= 36 ==>
        output.written == old(output.written) + Prefix(base as nat) + [Digits(n as nat, base as nat)]
    {
      PrintNumber(n);
    }

    /** `operator<<(uint16_t)`: printed as the same 64-bit number. */
    method PrintU16(n: uint16)
      requires output != null
      modifies output
      ensures base < 2 || base > 36 ==> output.written == old(output.written)
      ensures 2 <= base <= 36 ==>
        output.written == old(output.written) + Prefix(base as nat) + [Digits(n as nat, base as nat)]
    {
      PrintU64(n as uint64);
    }

    /** `operator<<(Status)`: the code without its error bit, in decimal,
        whatever the current base, which is left as it was. */
    method PrintStatus(status: bv64)
      requires output != null
      modifies this, output
      ensures output == old(output) && base == old(base) && alpha == old(alpha)
      ensures output.written == old(output.written) + [Digits((status & !ERROR_BIT) as nat, 10)]
    {
      var code := status & !ERROR_BIT;
      var saved := base;
      SetNumberBase(10);
      PrintU64(code as int as uint64);
      SetNumberBase(saved);
    }

    /** `operator<<(const unsigned char*)`: copies the bytes up to the NUL
        into the 512-character buffer, widening each, and prints them. The
        copy is unchecked, so the string must fit with its terminator. */
    method PrintNarrow(msg: seq<bv8>)
      requires output != null
      requires 0 in msg && |CString(msg)| < 512
      modifies output
      ensures output.written == old(output.written) + [Widen(CString(msg))]
    {
      var buffer := new char[512];
      var i := 0;
      while msg[i] != 0
        modifies buffer
        invariant 0 <= i <= |CString(msg)|
        invariant buffer[..i] == Widen(msg[..i])
        decreases |CString(msg)| - i
      {
        buffer[i] := (msg[i] as int) as char;
        assert buffer[..i + 1] == buffer[..i] + [(msg[i] as int) as char];
        assert msg[..i + 1] == msg[..i] + [msg[i]];
        i := i + 1;
      }
      assert msg[..i] == CString(msg);
      buffer[i] := 0 as char;
      assert buffer[..i] == Widen(CString(msg));
      PrintString(buffer[..i]);
    }
  }

  /** An error code prints as its number: clearing bit 63 of
      `make_error_code(v)` gives `v` back for any `v` below 2^63. */
  lemma ErrorCodePrintsItsValue(v: bv64)
    requires !IsErrorCode(v)
    ensures (MakeErrorCode(v) & !ERROR_BIT) as nat == v as nat
  {
    IsErrorCodeIffHighBit(v);
  }

  /** `Status::NotFound` prints as "14". */
  lemma NotFoundPrintsFourteen()
    ensures Digits((NOT_FOUND & !ERROR_BIT) as nat, 10) == "14"
  {
    ErrorCodePrintsItsValue(14);
    assert Digits(14, 10) == Digits(1, 10) + [DigitChar(4)];
  }
}
