/**
 * The `AES` facade: parameter validation, the cipher-method name, and the
 * validate-then-build-then-call structure of encryption and decryption.
 * The cipher itself, the IV-length query and the random source belong to the
 * OpenSSL extension; they enter as function parameters and are never
 * interpreted here.
 */
module AES {
  import opened Php

  const OPENSSL_RAW_DATA: int := 1
  const OPENSSL_ZERO_PADDING: int := 2

  /** A thrown `\Exception`, with its message. */
  datatype Exception = Exception(message: Bytes)

  /** A value, or the exception that escapes instead. */
  datatype Result<T> = Ok(value: T) | Throw(exception: Exception)

  const InvalidParamsMessage: Bytes := "Invlid params!"
  const InvalidBlockSizeMessage: Bytes := "Invalid block size"
  const InvalidModeMessage: Bytes := "Invalid mode"
  const InvalidCombinationMessage: Bytes := "Invlid block size and mode combination!"

  /** The block sizes both checks accept. */
  const BlockSizes: seq<int> := [128, 192, 256]

  /** The modes `validateParams` accepts. */
  const ValidatedModes: seq<Bytes> :=
    ["CBC", "CBC-HMAC-SHA1", "CBC-HMAC-SHA256", "CFB", "CFB1", "CFB8", "CTR", "OFB", "XTS"]

  /** The modes `returnMethodString` accepts: the same list plus ECB. */
  const MethodModes: seq<Bytes> :=
    ["CBC", "CBC-HMAC-SHA1", "CBC-HMAC-SHA256", "CFB", "CFB1", "CFB8", "CTR", "ECB", "OFB", "XTS"]

  /** The modes both combination guards single out for block size 192. */
  const CombinationModes: seq<Bytes> := ["CBC-HMAC-SHA1", "CBC-HMAC-SHA256", "XTS"]

  /** The option values `validateParams` accepts: 0, RAW_DATA and ZERO_PADDING, not their union. */
  const ValidatedOptions: seq<int> := [0, OPENSSL_RAW_DATA, OPENSSL_ZERO_PADDING]

  // ---------------------------------------------------------------------------
  // validateParams

  /** The guard of `validateParams` that throws, one per check. */
  datatype Guard = KeyGuard | IvEmptyGuard | IvLengthGuard | BlockSizeGuard
                 | ModeGuard | CombinationGuard | OptionsGuard

  /**
   * The body of the `try` in `validateParams`: the first guard that throws,
   * or None when every check passes. The combination guard is written as the
   * source parses it, `(!$blockSize) == 192`; its condition holds only for a
   * block size of 0, which the block-size guard has already refused, so it
   * never throws. The IV emptiness guard only refuses IVs ("" and "0") that
   * the length guard would refuse anyway.
   */
  function FirstFailingGuard(key: Bytes, iv: Bytes, blockSize: int, mode: Bytes, options: int): (g: Option<Guard>)
    ensures g == Some(KeyGuard) <==> IsEmpty(key)
    ensures g == Some(IvEmptyGuard) || g == Some(IvLengthGuard) <==> !IsEmpty(key) && |iv| != 16
    ensures g != Some(CombinationGuard)
    ensures g == Some(OptionsGuard) <==>
              !IsEmpty(key) && |iv| == 16 && blockSize in BlockSizes && mode in ValidatedModes
              && options !in ValidatedOptions
  {
    if IsEmpty(key) then Some(KeyGuard)
    else if IsEmpty(iv) then Some(IvEmptyGuard)
    else if |iv| != 16 then Some(IvLengthGuard)
    else if blockSize !in BlockSizes then Some(BlockSizeGuard)
    else if mode !in ValidatedModes then Some(ModeGuard)
    else if LooseEqualsBoolInt(!IntToBool(blockSize), 192) && mode in CombinationModes then Some(CombinationGuard)
    else if options !in ValidatedOptions then Some(OptionsGuard)
    else None
  }

  /**
   * `validateParams`: every exception of the guards is caught into `false`.
   * It accepts exactly a key other than "" and "0", a 16-byte IV, a listed
   * block size, one of the nine modes and one of the three option values;
   * no block size/mode combination is refused.
   */
  function ValidateParams(key: Bytes, iv: Bytes, blockSize: int, mode: Bytes, options: int): (valid: bool)
    ensures valid <==>
              && !IsEmpty(key)
              && |iv| == 16
              && blockSize in BlockSizes
              && mode in ValidatedModes
              && options in ValidatedOptions
  {
    FirstFailingGuard(key, iv, blockSize, mode, options).None?
  }

  // ---------------------------------------------------------------------------
  // returnMethodString

  /**
   * `returnMethodString`: "AES-" . $blockSize . "-" . $mode after two guards.
   * Its combination guard tests `in_array('', …)`, which is always false.
   * It succeeds exactly for a listed block size and one of the ten modes, and
   * the name it builds can be read back into that block size and mode.
   */
  function ReturnMethodString(blockSize: int, mode: Bytes): (r: Result<Bytes>)
    ensures r.Ok? <==> blockSize in BlockSizes && mode in MethodModes
    ensures r.Ok? ==> ParseMethodString(r.value) == Some((blockSize, mode))
    ensures r.Throw? ==>
              r.exception.message == if blockSize !in BlockSizes then InvalidBlockSizeMessage else InvalidModeMessage
  {
    if blockSize !in BlockSizes then Throw(Exception(InvalidBlockSizeMessage))
    else if mode !in MethodModes then Throw(Exception(InvalidModeMessage))
    else if blockSize == 192 && [] in CombinationModes then Result<Bytes>.Throw(Exception(InvalidCombinationMessage))
    else
      ParseMethodName(blockSize, mode);
      Ok("AES-" + Decimal(blockSize) + "-" + mode)
  }

  /** The position of the first '-' in `s`, or `|s|` when there is none. */
  function IndexOfDash(s: Bytes): (i: nat)
    ensures i <= |s|
    ensures forall k :: 0 <= k < i ==> s[k] != '-'
    ensures i < |s| ==> s[i] == '-'
  {
    if s == [] || s[0] == '-' then 0 else 1 + IndexOfDash(s[1..])
  }

  /**
   * Reads a method name "AES-<digits>-<mode>" back into its block size and
   * mode; the block size ends at the first '-' after the prefix and has no
   * leading zero, so at most one name reads back into a given pair.
   */
  function ParseMethodString(s: Bytes): Option<(int, Bytes)>
  {
    if |s| < 4 || s[..4] != "AES-" then None
    else
      var rest := s[4..];
      var i := IndexOfDash(rest);
      if i == 0 || i == |rest| || (i > 1 && rest[0] == '0')
         || exists k :: 0 <= k < i && !IsDecimalDigit(rest[k]) then None
      else Some((DecimalValue(rest[..i]), rest[i + 1..]))
  }

  /** The name built from a block size and a mode reads back into both. */
  lemma ParseMethodName(blockSize: nat, mode: Bytes)
    ensures ParseMethodString("AES-" + Decimal(blockSize) + "-" + mode) == Some((blockSize, mode))
  {
    var d := Decimal(blockSize);
    var s := "AES-" + d + "-" + mode;
    var rest := s[4..];
    assert rest == d + "-" + mode;
    var i := IndexOfDash(rest);
    assert rest[|d|] == '-';
    assert forall k :: 0 <= k < |d| ==> rest[k] == d[k];
    assert i == |d|;
    assert rest[..i] == d;
    assert rest[i + 1..] == mode;
    DecimalValueOfDecimal(blockSize);
  }

  // ---------------------------------------------------------------------------
  // encrypt / decrypt

  /**
   * `openssl_encrypt` or `openssl_decrypt` applied to ($data, $method, $key,
   * $options, $iv); None stands for the `false` it returns on failure.
   */
  type Cipher = (Bytes, Bytes, Bytes, int, Bytes) -> Option<Bytes>

  /** The name `encrypt` and `decrypt` hand the provider for valid parameters. */
  function MethodName(blockSize: int, mode: Bytes): (name: Bytes)
    requires ReturnMethodString(blockSize, mode).Ok?
    ensures ParseMethodString(name) == Some((blockSize, mode))
  {
    ReturnMethodString(blockSize, mode).value
  }

  /**
   * `encrypt`: validate, build the method name, call the provider, `trim` its
   * output (`false` trims to "") and hex-encode it. It throws "Invlid params!"
   * exactly when validation fails, never at the method-name step, and its
   * output is lower-case hexadecimal that decodes to the trimmed provider output.
   */
  function Encrypt(data: Bytes, key: Bytes, iv: Bytes, blockSize: int, mode: Bytes, options: int,
                   opensslEncrypt: Cipher): (r: Result<Bytes>)
    ensures r.Throw? <==> !ValidateParams(key, iv, blockSize, mode, options)
    ensures r.Throw? ==> r.exception == Exception(InvalidParamsMessage)
    ensures r.Ok? ==>
              && ReturnMethodString(blockSize, mode).Ok?
              && Hex2Bin(r.value)
                 == Some(Trim(FalseToEmpty(opensslEncrypt(data, MethodName(blockSize, mode), key, options, iv))))
    ensures r.Ok? ==> forall i :: 0 <= i < |r.value| ==> IsLowerHexDigit(r.value[i])
  {
    if !ValidateParams(key, iv, blockSize, mode, options) then Throw(Exception(InvalidParamsMessage))
    else
      match ReturnMethodString(blockSize, mode)
      case Throw(e) => Throw(e)
      case Ok(name) =>
        var raw := Trim(FalseToEmpty(opensslEncrypt(data, name, key, options, iv)));
        Hex2BinOfBin2Hex(raw);
        Bin2HexIsLowerHex(raw);
        Ok(Bin2Hex(raw))
  }

  /**
   * `decrypt`: validate, build the method name, hex-decode the data (`false`
   * for malformed hex reaches the provider as ""), call the provider and
   * `trim` its output. It throws "Invlid params!" exactly when validation
   * fails and otherwise returns a trimmed string.
   */
  function Decrypt(data: Bytes, key: Bytes, iv: Bytes, blockSize: int, mode: Bytes, options: int,
                   opensslDecrypt: Cipher): (r: Result<Bytes>)
    ensures r.Throw? <==> !ValidateParams(key, iv, blockSize, mode, options)
    ensures r.Throw? ==> r.exception == Exception(InvalidParamsMessage)
    ensures r.Ok? ==>
              && ReturnMethodString(blockSize, mode).Ok?
              && r.value
                 == Trim(FalseToEmpty(opensslDecrypt(FalseToEmpty(Hex2Bin(data)), MethodName(blockSize, mode),
                                                     key, options, iv)))
    ensures r.Ok? ==> IsTrimmed(r.value)
  {
    if !ValidateParams(key, iv, blockSize, mode, options) then Throw(Exception(InvalidParamsMessage))
    else
      match ReturnMethodString(blockSize, mode)
      case Throw(e) => Throw(e)
      case Ok(name) =>
        Ok(Trim(FalseToEmpty(opensslDecrypt(FalseToEmpty(Hex2Bin(data)), name, key, options, iv))))
  }

  // ---------------------------------------------------------------------------
  // generateEncryptionKey / generateIV

  /** `openssl_random_pseudo_bytes($n)`: some bytes, or the exception it raises. */
  type RandomSource = int -> Result<Bytes>

  /** `openssl_cipher_iv_length($method)`; None stands for its `false`. */
  type IvLengthQuery = Bytes -> Option<int>

  /** The random source delivers exactly as many bytes as it is asked for. */
  ghost predicate Honest(random: RandomSource) {
    forall n :: random(n).Ok? ==> |random(n).value| == n
  }

  /**
   * `generateEncryptionKey($length)`: hex of `(int)($length / 2)` random
   * bytes; the output is lower-case hexadecimal that decodes to those bytes.
   */
  function GenerateEncryptionKey(length: int, random: RandomSource): (r: Result<Bytes>)
    ensures r.Throw? <==> random(HalfTruncated(length)).Throw?
    ensures r.Throw? ==> r.exception == random(HalfTruncated(length)).exception
    ensures r.Ok? ==> Hex2Bin(r.value) == Some(random(HalfTruncated(length)).value)
    ensures r.Ok? ==> forall i :: 0 <= i < |r.value| ==> IsLowerHexDigit(r.value[i])
  {
    match random(HalfTruncated(length))
    case Throw(e) => Throw(e)
    case Ok(bytes) =>
      Hex2BinOfBin2Hex(bytes);
      Bin2HexIsLowerHex(bytes);
      Ok(Bin2Hex(bytes))
  }

  /**
   * `generateIV($blockSize, $mode)`: builds the method name (its exceptions
   * escape), asks the provider for that method's IV length, and returns the hex
   * of half that many random bytes (`false / 2` is 0).
   */
  function GenerateIV(blockSize: int, mode: Bytes, ivLength: IvLengthQuery, random: RandomSource): (r: Result<Bytes>)
    ensures ReturnMethodString(blockSize, mode).Throw? ==> r == Throw(ReturnMethodString(blockSize, mode).exception)
    ensures ReturnMethodString(blockSize, mode).Ok? ==>
              var n := HalfTruncated(FalseToZero(ivLength(MethodName(blockSize, mode))));
              && (r.Ok? <==> random(n).Ok?)
              && (r.Throw? ==> r == Throw(random(n).exception))
    ensures r.Ok? ==>
              && ReturnMethodString(blockSize, mode).Ok?
              && var n := HalfTruncated(FalseToZero(ivLength(MethodName(blockSize, mode))));
                 random(n).Ok? && Hex2Bin(r.value) == Some(random(n).value)
    ensures r.Ok? ==> forall i :: 0 <= i < |r.value| ==> IsLowerHexDigit(r.value[i])
  {
    match ReturnMethodString(blockSize, mode)
    case Throw(e) => Throw(e)
    case Ok(name) =>
      match random(HalfTruncated(FalseToZero(ivLength(name))))
      case Throw(e) => Throw(e)
      case Ok(bytes) =>
        Hex2BinOfBin2Hex(bytes);
        Bin2HexIsLowerHex(bytes);
        Ok(Bin2Hex(bytes))
  }
}
