/**
 * The PHP built-ins that the AES facade leans on, over PHP's byte strings:
 * `empty` on a string, integer truthiness and the loose `bool == int`
 * comparison, `trim` with its default character list, `bin2hex`/`hex2bin`,
 * the decimal rendering of an integer in a string concatenation, and the
 * truncation of `$n / 2` when it reaches an `int` parameter.
 */
module Php {

  /** A PHP string is a sequence of bytes; a byte is a character below 256. */
  type Byte = c: char | c as int < 256
  type Bytes = seq<Byte>

  /** The `false` that several built-ins return on failure. */
  datatype Option<T> = None | Some(value: T)

  /** `false` where a string is expected: PHP reads it as "", and a string stays itself. */
  function FalseToEmpty(s: Option<Bytes>): (r: Bytes)
    ensures s.None? ==> r == []
    ensures s.Some? ==> r == s.value
  {
    match s
    case None => []
    case Some(v) => v
  }

  /** `false` in arithmetic: PHP reads it as 0, and an integer stays itself. */
  function FalseToZero(n: Option<int>): (r: int)
    ensures n.None? ==> r == 0
    ensures n.Some? ==> r == n.value
  {
    match n
    case None => 0
    case Some(v) => v
  }

  // ---------------------------------------------------------------------------
  // empty(), truthiness, loose comparison

  /** `empty($s)` for a string: exactly the empty string and the string "0". */
  function IsEmpty(s: Bytes): (empty: bool)
    ensures empty <==> |s| < 2 && forall i :: 0 <= i < |s| ==> s[i] == '0'
  {
    s == [] || s == "0"
  }

  /** The boolean value of an integer (`(bool)$n`): only 0 is false. */
  function IntToBool(n: int): (b: bool)
    ensures !b <==> n == 0
  {
    n != 0
  }

  /** `$b == $n` for a bool and an int: the int is converted to bool first. */
  function LooseEqualsBoolInt(b: bool, n: int): (equal: bool)
    ensures n != 0 ==> (equal <==> b)
    ensures n == 0 ==> (equal <==> !b)
  {
    b == IntToBool(n)
  }

  /**
   * `!$n == $m` parses as `(!$n) == $m`; for a non-zero `$m` it holds
   * exactly when `$n` is 0.
   */
  lemma NegatedIntLooseEquals(n: int, m: int)
    requires m != 0
    ensures LooseEqualsBoolInt(!IntToBool(n), m) <==> n == 0
  {
  }

  /** `(int)($n / 2)`: exact for even `n`, truncated toward zero otherwise. */
  function HalfTruncated(n: int): (h: int)
    ensures n % 2 == 0 ==> 2 * h == n
    ensures n >= 0 ==> 0 <= h && n - 1 <= 2 * h <= n
    ensures n < 0 ==> h <= 0 && n <= 2 * h <= n + 1
  {
    if n >= 0 then n / 2 else -((-n) / 2)
  }

  // ---------------------------------------------------------------------------
  // trim()

  /** The characters `trim` strips by default: " \t\n\r\0\x0B". */
  predicate IsTrimCharacter(c: Byte) {
    c == ' ' || c == '\t' || c == '\n' || c == '\r' || c == '\0' || c == '\U{B}'
  }

  /** `ltrim($s)`: the longest suffix whose dropped prefix is all trim characters. */
  function TrimLeft(s: Bytes): (r: Bytes)
    ensures |r| <= |s| && r == s[|s| - |r|..]
    ensures forall i :: 0 <= i < |s| - |r| ==> IsTrimCharacter(s[i])
    ensures r == [] || !IsTrimCharacter(r[0])
  {
    if s != [] && IsTrimCharacter(s[0]) then TrimLeft(s[1..]) else s
  }

  /** `rtrim($s)`: the longest prefix whose dropped suffix is all trim characters. */
  function TrimRight(s: Bytes): (r: Bytes)
    ensures |r| <= |s| && r == s[..|r|]
    ensures forall i :: |r| <= i < |s| ==> IsTrimCharacter(s[i])
    ensures r == [] || !IsTrimCharacter(r[|r| - 1])
  {
    if s != [] && IsTrimCharacter(s[|s| - 1]) then TrimRight(s[..|s| - 1]) else s
  }

  /** `trim($s)`: `rtrim(ltrim($s))`. */
  function Trim(s: Bytes): (r: Bytes)
    ensures |r| <= |s| && IsTrimmed(r)
  {
    TrimRight(TrimLeft(s))
  }

  /**
   * `trim($s)` is the slice of `$s` that starts after the bytes `ltrim`
   * drops, and every byte outside the slice is a trim character.
   */
  lemma TrimIsSlice(s: Bytes)
    ensures var i := |s| - |TrimLeft(s)|;
            var j := i + |Trim(s)|;
            && 0 <= i <= j <= |s|
            && Trim(s) == s[i..j]
            && (forall k :: 0 <= k < i ==> IsTrimCharacter(s[k]))
            && (forall k :: j <= k < |s| ==> IsTrimCharacter(s[k]))
  {
    var l := TrimLeft(s);
    var i := |s| - |l|;
    var j := i + |Trim(s)|;
    assert l == s[i..];
    forall k | j <= k < |s|
      ensures IsTrimCharacter(s[k])
    {
      assert s[k] == l[k - i];
    }
  }

  /** A string that does not start or end with a trim character. */
  predicate IsTrimmed(s: Bytes) {
    s == [] || (!IsTrimCharacter(s[0]) && !IsTrimCharacter(s[|s| - 1]))
  }

  lemma {:induction false} TrimLeftOfTrimmed(s: Bytes)
    requires s == [] || !IsTrimCharacter(s[0])
    ensures TrimLeft(s) == s
  {
  }

  lemma {:induction false} TrimRightOfTrimmed(s: Bytes)
    requires s == [] || !IsTrimCharacter(s[|s| - 1])
    ensures TrimRight(s) == s
  {
  }

  /** `trim` leaves a string that is already trimmed unchanged. */
  lemma TrimOfTrimmed(s: Bytes)
    requires IsTrimmed(s)
    ensures Trim(s) == s
  {
    TrimLeftOfTrimmed(s);
    TrimRightOfTrimmed(s);
  }

  /** `trim` is idempotent. */
  lemma TrimIdempotent(s: Bytes)
    ensures Trim(Trim(s)) == Trim(s)
  {
    TrimOfTrimmed(Trim(s));
  }

  /** Bytes that are trim characters at either end of `s` are lost by `trim`. */
  lemma TrimLosesEdgeBytes(s: Bytes)
    requires s != [] && (IsTrimCharacter(s[0]) || IsTrimCharacter(s[|s| - 1]))
    ensures |Trim(s)| < |s|
  {
    var l := TrimLeft(s);
    if !IsTrimCharacter(s[0]) {
      assert l == s;
      assert TrimRight(l) == TrimRight(s[..|s| - 1]);
    }
  }

  // ---------------------------------------------------------------------------
  // bin2hex() / hex2bin()

  predicate IsLowerHexDigit(c: Byte) {
    ('0' <= c <= '9') || ('a' <= c <= 'f')
  }

  predicate IsHexDigit(c: Byte) {
    ('0' <= c <= '9') || ('a' <= c <= 'f') || ('A' <= c <= 'F')
  }

  /** The value of one hexadecimal digit; `hex2bin` accepts both cases. */
  function HexDigitValue(c: Byte): (v: int)
    requires IsHexDigit(c)
    ensures 0 <= v < 16
  {
    if '0' <= c <= '9' then c as int - '0' as int
    else if 'a' <= c <= 'f' then c as int - 'a' as int + 10
    else c as int - 'A' as int + 10
  }

  /** The lower-case digit of a value below 16. */
  function HexDigitOf(v: int): (c: Byte)
    requires 0 <= v < 16
    ensures IsLowerHexDigit(c) && IsHexDigit(c) && HexDigitValue(c) == v
  {
    if v < 10 then ('0' as int + v) as char else ('a' as int + v - 10) as char
  }

  /** `bin2hex($s)`: two lower-case digits per byte, high nibble first. */
  function Bin2Hex(s: Bytes): (r: Bytes)
    ensures |r| == 2 * |s|
  {
    if s == [] then []
    else [HexDigitOf(s[0] as int / 16), HexDigitOf(s[0] as int % 16)] + Bin2Hex(s[1..])
  }

  /** Every character `bin2hex` produces is a lower-case hexadecimal digit. */
  lemma {:induction false} Bin2HexIsLowerHex(s: Bytes)
    ensures forall i :: 0 <= i < |Bin2Hex(s)| ==> IsLowerHexDigit(Bin2Hex(s)[i])
  {
    if s != [] {
      Bin2HexIsLowerHex(s[1..]);
      var h := Bin2Hex(s);
      assert forall i :: 2 <= i < |h| ==> h[i] == Bin2Hex(s[1..])[i - 2];
    }
  }

  /** Decodes digit pairs; fails on the first non-hexadecimal character. */
  function DecodeHexPairs(s: Bytes): (r: Option<Bytes>)
    requires |s| % 2 == 0
    ensures r.Some? ==> 2 * |r.value| == |s|
  {
    if s == [] then Some([])
    else if !IsHexDigit(s[0]) || !IsHexDigit(s[1]) then None
    else
      match DecodeHexPairs(s[2..])
      case None =>
        None
      case Some(rest) =>
        Some([(16 * HexDigitValue(s[0]) + HexDigitValue(s[1])) as char] + rest)
  }

  /**
   * `hex2bin($s)`: `false` for an odd length or a non-hexadecimal character,
   * otherwise one byte per digit pair.
   */
  function Hex2Bin(s: Bytes): (r: Option<Bytes>)
    ensures r.Some? ==> 2 * |r.value| == |s|
    ensures |s| % 2 == 1 ==> r.None?
  {
    if |s| % 2 == 1 then None else DecodeHexPairs(s)
  }

  /** Digit pairs decode exactly when every character is a hexadecimal digit. */
  lemma {:induction false} DecodeHexPairsSucceeds(s: Bytes)
    requires |s| % 2 == 0
    ensures DecodeHexPairs(s).Some? <==> forall i :: 0 <= i < |s| ==> IsHexDigit(s[i])
  {
    if s != [] {
      DecodeHexPairsSucceeds(s[2..]);
      assert forall i :: 2 <= i < |s| ==> s[i] == s[2..][i - 2];
    }
  }

  /** `hex2bin` fails exactly on an odd length or a non-hexadecimal character. */
  lemma Hex2BinFails(s: Bytes)
    ensures Hex2Bin(s).None? <==> |s| % 2 == 1 || exists i :: 0 <= i < |s| && !IsHexDigit(s[i])
  {
    if |s| % 2 == 0 {
      DecodeHexPairsSucceeds(s);
    }
  }

  /** Decoding the digit pairs of `bin2hex($s)` gives back `$s`. */
  lemma {:induction false} DecodeHexPairsOfBin2Hex(s: Bytes)
    ensures DecodeHexPairs(Bin2Hex(s)) == Some(s)
  {
    if s != [] {
      var h, t := Bin2Hex(s), Bin2Hex(s[1..]);
      var hi, lo := s[0] as int / 16, s[0] as int % 16;
      assert h[0] == HexDigitOf(hi) && h[1] == HexDigitOf(lo) && h[2..] == t;
      DecodeHexPairsOfBin2Hex(s[1..]);
      assert (16 * hi + lo) as char == s[0];
      assert DecodeHexPairs(h) == Some([s[0]] + s[1..]);
      assert [s[0]] + s[1..] == s;
    }
  }

  /** `hex2bin(bin2hex($s)) === $s`. */
  lemma Hex2BinOfBin2Hex(s: Bytes)
    ensures Hex2Bin(Bin2Hex(s)) == Some(s)
  {
    DecodeHexPairsOfBin2Hex(s);
  }

  /** Re-encoding the decoded digit pairs of a lower-case hexadecimal string gives it back. */
  lemma {:induction false} Bin2HexOfDecodeHexPairs(h: Bytes)
    requires |h| % 2 == 0
    requires forall i :: 0 <= i < |h| ==> IsLowerHexDigit(h[i])
    ensures DecodeHexPairs(h).Some? && Bin2Hex(DecodeHexPairs(h).value) == h
  {
    if h != [] {
      var t := h[2..];
      assert forall i :: 0 <= i < |t| ==> t[i] == h[i + 2];
      Bin2HexOfDecodeHexPairs(t);
      var rest := DecodeHexPairs(t).value;
      var v0, v1 := HexDigitValue(h[0]), HexDigitValue(h[1]);
      var b := (16 * v0 + v1) as char;
      assert DecodeHexPairs(h) == Some([b] + rest);
      assert b as int / 16 == v0 && b as int % 16 == v1;
      LowerHexDigitOfValue(h[0]);
      LowerHexDigitOfValue(h[1]);
      assert ([b] + rest)[1..] == rest;
      assert Bin2Hex([b] + rest) == [h[0], h[1]] + t;
      assert [h[0], h[1]] + t == h;
    }
  }

  /** `bin2hex(hex2bin($h)) === $h` for every lower-case hexadecimal `$h` of even length. */
  lemma Bin2HexOfHex2Bin(h: Bytes)
    requires |h| % 2 == 0
    requires forall i :: 0 <= i < |h| ==> IsLowerHexDigit(h[i])
    ensures Hex2Bin(h).Some? && Bin2Hex(Hex2Bin(h).value) == h
  {
    Bin2HexOfDecodeHexPairs(h);
  }

  /** A lower-case digit is the digit of its own value. */
  lemma LowerHexDigitOfValue(c: Byte)
    requires IsLowerHexDigit(c)
    ensures IsHexDigit(c) && HexDigitOf(HexDigitValue(c)) == c
  {
  }

  // ---------------------------------------------------------------------------
  // Integers rendered in a string concatenation ('AES-' . $blockSize)

  predicate IsDecimalDigit(c: Byte) {
    '0' <= c <= '9'
  }

  /** The decimal digits of a natural number, most significant first, no leading zero. */
  function Decimal(n: nat): (r: Bytes)
    ensures |r| >= 1 && (|r| > 1 ==> r[0] != '0')
    ensures forall i :: 0 <= i < |r| ==> IsDecimalDigit(r[i])
  {
    var d := ('0' as int + n % 10) as char;
    if n < 10 then [d] else Decimal(n / 10) + [d]
  }

  function DecimalDigitValue(c: Byte): (v: nat)
    requires IsDecimalDigit(c)
    ensures v < 10
  {
    c as int - '0' as int
  }

  /** The value of a string of decimal digits. */
  function DecimalValue(s: Bytes): nat
    requires forall i :: 0 <= i < |s| ==> IsDecimalDigit(s[i])
  {
    if s == [] then 0
    else 10 * DecimalValue(s[..|s| - 1]) + DecimalDigitValue(s[|s| - 1])
  }

  /** Reading back the rendered digits gives the number. */
  lemma {:induction false} DecimalValueOfDecimal(n: nat)
    ensures DecimalValue(Decimal(n)) == n
  {
    if n >= 10 {
      var r := Decimal(n);
      assert r[..|r| - 1] == Decimal(n / 10);
      DecimalValueOfDecimal(n / 10);
    }
  }
}
