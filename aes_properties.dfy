/**
 * Properties that relate the operations of the `AES` facade to each other:
 * validation implies a method name exists, the two mode lists differ by ECB,
 * the 192-bit combination guard rejects nothing, hex transport between
 * `encrypt` and `decrypt` is lossless while `trim` is not, and the generated
 * key and IV have the lengths their callers expect.
 */
module AESProperties {
  import opened Php
  import opened AES

  // ---------------------------------------------------------------------------
  // validateParams and returnMethodString

  /**
   * Every parameter set `validateParams` accepts has a method name, so
   * `encrypt` and `decrypt` never throw from `returnMethodString`.
   */
  lemma ValidParamsHaveMethodName(key: Bytes, iv: Bytes, blockSize: int, mode: Bytes, options: int)
    requires ValidateParams(key, iv, blockSize, mode, options)
    ensures ReturnMethodString(blockSize, mode).Ok?
    ensures ParseMethodString(MethodName(blockSize, mode)) == Some((blockSize, mode))
  {
  }

  /** ECB has a method name but never passes validation. */
  lemma EcbNamedButRejected(key: Bytes, iv: Bytes, blockSize: int, options: int)
    requires blockSize in BlockSizes
    ensures ReturnMethodString(blockSize, "ECB") == Ok("AES-" + Decimal(blockSize) + "-ECB")
    ensures !ValidateParams(key, iv, blockSize, "ECB", options)
  {
    assert "ECB" !in ValidatedModes;
    assert "AES-" + Decimal(blockSize) + "-" + "ECB" == "AES-" + Decimal(blockSize) + "-ECB";
  }

  /** Block size 192 is accepted with CBC-HMAC-SHA1, CBC-HMAC-SHA256 and XTS. */
  lemma Combination192Accepted(key: Bytes, iv: Bytes, mode: Bytes, options: int)
    requires !IsEmpty(key) && |iv| == 16
    requires mode in CombinationModes && options in ValidatedOptions
    ensures ValidateParams(key, iv, 192, mode, options)
    ensures ReturnMethodString(192, mode) == Ok("AES-192-" + mode)
  {
    DecimalExamples();
    assert "AES-" + Decimal(192) + "-" + mode == "AES-192-" + mode;
  }

  /** RAW_DATA | ZERO_PADDING (= 3) is rejected; each flag alone is accepted. */
  lemma CombinedOptionsRejected(key: Bytes, iv: Bytes, blockSize: int, mode: Bytes)
    requires !IsEmpty(key) && |iv| == 16 && blockSize in BlockSizes && mode in ValidatedModes
    ensures !ValidateParams(key, iv, blockSize, mode, 3)
    ensures ValidateParams(key, iv, blockSize, mode, OPENSSL_RAW_DATA)
    ensures ValidateParams(key, iv, blockSize, mode, OPENSSL_ZERO_PADDING)
  {
  }

  /** The method name of the default parameters. */
  lemma DefaultMethodName()
    ensures ReturnMethodString(256, "CBC") == Ok("AES-256-CBC")
  {
    DecimalExamples();
    assert "CBC" in MethodModes;
    assert "AES-" + Decimal(256) + "-" + "CBC" == "AES-256-CBC";
  }

  /** A mode name containing '-' is kept whole after the block size. */
  lemma HmacMethodName()
    ensures ReturnMethodString(128, "CBC-HMAC-SHA256") == Ok("AES-128-CBC-HMAC-SHA256")
  {
    DecimalExamples();
    assert "CBC-HMAC-SHA256" in MethodModes;
    assert "AES-" + Decimal(128) + "-" + "CBC-HMAC-SHA256" == "AES-128-CBC-HMAC-SHA256";
  }

  /** The decimal renderings of the three block sizes. */
  lemma DecimalExamples()
    ensures Decimal(128) == "128" && Decimal(192) == "192" && Decimal(256) == "256"
  {
    assert Decimal(12) == Decimal(1) + "2";
    assert Decimal(19) == Decimal(1) + "9";
    assert Decimal(25) == Decimal(2) + "5";
  }

  /** Distinct parameters select distinct provider ciphers. */
  lemma MethodNameInjective(b1: int, m1: Bytes, b2: int, m2: Bytes)
    requires ReturnMethodString(b1, m1).Ok? && ReturnMethodString(b2, m2).Ok?
    requires ReturnMethodString(b1, m1).value == ReturnMethodString(b2, m2).value
    ensures b1 == b2 && m1 == m2
  {
  }

  // ---------------------------------------------------------------------------
  // encrypt and decrypt

  /** `decrypt` of `bin2hex($c)` hands the provider exactly `$c`. */
  lemma DecryptOfHex(c: Bytes, key: Bytes, iv: Bytes, blockSize: int, mode: Bytes, options: int,
                     opensslDecrypt: Cipher)
    requires ValidateParams(key, iv, blockSize, mode, options)
    ensures Decrypt(Bin2Hex(c), key, iv, blockSize, mode, options, opensslDecrypt)
            == Ok(Trim(FalseToEmpty(opensslDecrypt(c, MethodName(blockSize, mode), key, options, iv))))
  {
    Hex2BinOfBin2Hex(c);
  }

  /** `decrypt` of malformed hex hands the provider the empty string. */
  lemma DecryptOfMalformedHex(data: Bytes, key: Bytes, iv: Bytes, blockSize: int, mode: Bytes, options: int,
                              opensslDecrypt: Cipher)
    requires ValidateParams(key, iv, blockSize, mode, options)
    requires |data| % 2 == 1 || exists i :: 0 <= i < |data| && !IsHexDigit(data[i])
    ensures Decrypt(data, key, iv, blockSize, mode, options, opensslDecrypt)
            == Ok(Trim(FalseToEmpty(opensslDecrypt([], MethodName(blockSize, mode), key, options, iv))))
  {
    Hex2BinFails(data);
  }

  /**
   * Feeding the output of `encrypt` to `decrypt` with the same parameters
   * hands the decryption primitive the trimmed ciphertext of the encryption
   * primitive, under the same method name.
   */
  lemma EncryptThenDecrypt(data: Bytes, key: Bytes, iv: Bytes, blockSize: int, mode: Bytes, options: int,
                           opensslEncrypt: Cipher, opensslDecrypt: Cipher)
    requires ValidateParams(key, iv, blockSize, mode, options)
    ensures Encrypt(data, key, iv, blockSize, mode, options, opensslEncrypt).Ok?
    ensures
      var name := MethodName(blockSize, mode);
      var sent := Trim(FalseToEmpty(opensslEncrypt(data, name, key, options, iv)));
      Decrypt(Encrypt(data, key, iv, blockSize, mode, options, opensslEncrypt).value,
              key, iv, blockSize, mode, options, opensslDecrypt)
      == Ok(Trim(FalseToEmpty(opensslDecrypt(sent, name, key, options, iv))))
  {
    var name := MethodName(blockSize, mode);
    var sent := Trim(FalseToEmpty(opensslEncrypt(data, name, key, options, iv)));
    assert Encrypt(data, key, iv, blockSize, mode, options, opensslEncrypt).value == Bin2Hex(sent);
    DecryptOfHex(sent, key, iv, blockSize, mode, options, opensslDecrypt);
  }

  /**
   * The facade round-trips `$data` when the provider round-trips it and
   * neither the ciphertext nor the plaintext begins or ends with a byte
   * that `trim` strips.
   */
  lemma RoundTripWhenNothingTrimmed(data: Bytes, key: Bytes, iv: Bytes, blockSize: int, mode: Bytes, options: int,
                                    opensslEncrypt: Cipher, opensslDecrypt: Cipher, c: Bytes)
    requires ValidateParams(key, iv, blockSize, mode, options)
    requires opensslEncrypt(data, MethodName(blockSize, mode), key, options, iv) == Some(c)
    requires opensslDecrypt(c, MethodName(blockSize, mode), key, options, iv) == Some(data)
    requires IsTrimmed(c) && IsTrimmed(data)
    ensures Encrypt(data, key, iv, blockSize, mode, options, opensslEncrypt).Ok?
    ensures Decrypt(Encrypt(data, key, iv, blockSize, mode, options, opensslEncrypt).value,
                    key, iv, blockSize, mode, options, opensslDecrypt) == Ok(data)
  {
    TrimOfTrimmed(c);
    TrimOfTrimmed(data);
    assert Encrypt(data, key, iv, blockSize, mode, options, opensslEncrypt) == Ok(Bin2Hex(c));
    DecryptOfHex(c, key, iv, blockSize, mode, options, opensslDecrypt);
  }

  /**
   * When the provider's ciphertext begins or ends with a byte that `trim`
   * strips, `encrypt` returns the hex of fewer bytes than the provider produced.
   */
  lemma EncryptLosesTrimmedCiphertext(data: Bytes, key: Bytes, iv: Bytes, blockSize: int, mode: Bytes, options: int,
                                      opensslEncrypt: Cipher, c: Bytes)
    requires ValidateParams(key, iv, blockSize, mode, options)
    requires opensslEncrypt(data, MethodName(blockSize, mode), key, options, iv) == Some(c)
    requires c != [] && (IsTrimCharacter(c[0]) || IsTrimCharacter(c[|c| - 1]))
    ensures |Encrypt(data, key, iv, blockSize, mode, options, opensslEncrypt).value| < 2 * |c|
  {
    TrimLosesEdgeBytes(c);
  }

  // ---------------------------------------------------------------------------
  // generateEncryptionKey and generateIV

  /**
   * With an honest random source, the key has `$length` hex digits when
   * `$length` is even (64 by default).
   */
  lemma GeneratedKeyLength(length: int, random: RandomSource)
    requires Honest(random) && length % 2 == 0
    requires random(length / 2).Ok?
    ensures GenerateEncryptionKey(length, random).Ok?
    ensures |GenerateEncryptionKey(length, random).value| == length
  {
    var n := HalfTruncated(length);
    assert |random(n).value| == n;
  }

  /**
   * With an honest random source and a provider that reports a 16-byte IV,
   * `generateIV` returns 16 hex digits, which `validateParams` takes as a
   * 16-byte IV: the IV checks pass and only key, mode and options decide.
   */
  lemma GeneratedIvPassesIvCheck(blockSize: int, mode: Bytes, ivLength: IvLengthQuery, random: RandomSource,
                                 key: Bytes, options: int)
    requires Honest(random)
    requires ReturnMethodString(blockSize, mode).Ok? && ivLength(MethodName(blockSize, mode)) == Some(16)
    requires random(8).Ok?
    ensures GenerateIV(blockSize, mode, ivLength, random).Ok?
    ensures |GenerateIV(blockSize, mode, ivLength, random).value| == 16
    ensures ValidateParams(key, GenerateIV(blockSize, mode, ivLength, random).value, blockSize, mode, options)
            <==> !IsEmpty(key) && mode in ValidatedModes && options in ValidatedOptions
  {
    assert |random(8).value| == 8;
  }
}
