# AES facade — parameter layer

A model of `GoofyBNU\Encryption\AES`, a PHP class that encrypts and decrypts
through the OpenSSL extension. The class does no cryptography itself. Its
logic is the parameter layer around the provider calls:

- `validateParams` runs a chain of guards (key, IV, block size, mode, a
  192-bit block size/mode combination, options) and catches any failure into
  `false`.
- `returnMethodString` re-checks block size and mode against its own
  ten-entry list (which includes ECB) and builds `"AES-<blockSize>-<mode>"`.
- `encrypt` and `decrypt` validate, build the method name, call the provider
  and `trim` its output. `encrypt` hex-encodes the result; `decrypt`
  hex-decodes its input first.
- `generateEncryptionKey` and `generateIV` hex-encode random bytes. Their
  count is `(int)($length / 2)`, or half of the IV length the provider
  reports for the method.

The model is pure Dafny, like the class, which has no fields and no loops:

- `php.dfy`, module `Php`: the PHP built-ins the class relies on, over byte
  strings (`Byte` is a character below 256). These are `empty`, integer
  truthiness, the loose `bool == int` comparison, `trim`, `bin2hex`,
  `hex2bin`, the decimal rendering of an integer in a concatenation, and the
  truncation of `$n / 2` when it reaches an `int` parameter.
- `aes.dfy`, module `AES`: the class. A thrown exception is
  `Throw(Exception(message))` in a `Result`. The provider's `false` is `None`.
  `openssl_encrypt`, `openssl_decrypt`, `openssl_cipher_iv_length` and
  `openssl_random_pseudo_bytes` are function parameters that are never
  interpreted.
- `aes_properties.dfy`, module `AESProperties`: lemmas that relate the
  operations to each other.

The main results:

- Both "reject 192 with HMAC/XTS" guards are dead. `validateParams` parses
  its guard as `(!$blockSize) == 192`, which holds only for block size 0, and
  the block-size guard has already refused 0. `returnMethodString` tests
  `in_array('', …)`, which is always false.
- Every parameter set `validateParams` accepts has a method name. So
  `encrypt`/`decrypt` throw `'Invlid params!'` exactly when validation fails,
  and never at the method-name step.
- Hex transport between `encrypt` and `decrypt` is lossless. `trim` is not:
  ciphertext that begins or ends with a byte `trim` strips loses those bytes.

Facts about the code that are easy to miss:

- Block size 192 is accepted with XTS and with both HMAC modes, because the
  combination guard at line 117 never fires (`AESProperties.Combination192Accepted`).
- A key must not be `""` or `"0"`: `validateParams` tests it with PHP's
  `empty`, which treats both as empty.
- `generateEncryptionKey($length)` draws `(int)($length / 2)` random bytes, so
  an even `$length` gives exactly `$length` hex digits (`AESProperties.GeneratedKeyLength`).
- `generateIV` draws half the IV length the provider reports. For a 16-byte IV
  that is 8 bytes, so 16 hex digits, which `validateParams` then counts as a
  16-byte IV (`AESProperties.GeneratedIvPassesIvCheck`).
- `decrypt` validates its parameters first and hex-decodes its input only
  afterwards.

## Model

| member | source | states |
|---|---|---|
| `AES.FirstFailingGuard` | src/AES.php:111-119 | The key guard fires exactly for the keys `""` and `"0"`. The two IV guards together fire exactly for an IV whose length is not 16. The options guard fires exactly when everything else passed and the options are not 0, 1 or 2. The combination guard never fires. |
| `AES.ValidateParams` | src/AES.php:109-123 | `validateParams` is true iff all of these hold: the key is neither `""` nor `"0"`, the IV has 16 bytes, the block size is 128, 192 or 256, the mode is one of the nine, and the options are 0, RAW_DATA or ZERO_PADDING. No block size/mode combination is refused. |
| `AES.ReturnMethodString` | src/AES.php:137-143 | Succeeds iff the block size is one of the three sizes and the mode is one of the ten, ECB included. The name it returns reads back into exactly that block size and mode, so the name fixes both. Otherwise it throws "Invalid block size" if the block size is bad, else "Invalid mode". The combination exception is never thrown. |
| `AES.ParseMethodName` | src/AES.php:142 | `"AES-" . $blockSize . "-" . $mode` is parsed back into the block size (digits up to the first '-', no leading zero) and the mode, even when the mode itself contains '-'. |
| `AES.MethodName` | src/AES.php:29 | The name `encrypt` and `decrypt` pass to the provider determines the block size and mode. |
| `AES.Encrypt` | src/AES.php:26-31 | Throws exactly when `validateParams` is false, and the exception is always 'Invlid params!'. On success the method name exists, and the output is lower-case hex that decodes to the trimmed provider output for that method name (`false` becomes ""). |
| `AES.Decrypt` | src/AES.php:51-56 | Throws exactly when `validateParams` is false, and the exception is always 'Invlid params!'. On success the method name exists, and the result is the trimmed output of the provider's decryption of the hex-decoded data under that method name (malformed hex and a provider `false` both become ""). The result neither starts nor ends with a byte `trim` strips. |
| `AES.GenerateEncryptionKey` | src/AES.php:66-69 | Fails exactly when the random source fails for `(int)($length / 2)` bytes, with the random source's exception. Otherwise it returns lower-case hex that decodes to those random bytes. |
| `AES.GenerateIV` | src/AES.php:83-90 | An exception from `returnMethodString` escapes unchanged. Otherwise it fails exactly when the random source fails for half the provider's IV length of that method (truncated, `false` counting as 0), with the random source's exception. On success it returns lower-case hex that decodes to the random bytes drawn for half the provider's IV length of that method (`false` counts as 0). |
| `AESProperties.ValidParamsHaveMethodName` | src/AES.php:28-29 | Parameters that `validateParams` accepts always have a method name, so line 29 (and line 54) never throws after line 28 (and line 53) passed. |
| `AESProperties.EcbNamedButRejected` | src/AES.php:116 | For every accepted block size, ECB gets the name `AES-<size>-ECB` but never passes validation. |
| `AESProperties.Combination192Accepted` | src/AES.php:117 | With block size 192, each of CBC-HMAC-SHA1, CBC-HMAC-SHA256 and XTS passes validation when the other checks pass, and gets the name `AES-192-<mode>`. |
| `AESProperties.CombinedOptionsRejected` | src/AES.php:118 | The combined flags RAW_DATA \| ZERO_PADDING (3) are rejected. Each flag alone is accepted. |
| `AESProperties.DefaultMethodName` | src/AES.php:137 | The default parameters (256, CBC) give `AES-256-CBC`. |
| `AESProperties.HmacMethodName` | src/AES.php:140-142 | `(128, CBC-HMAC-SHA256)` gives `AES-128-CBC-HMAC-SHA256`. |
| `AESProperties.DecimalExamples` | src/AES.php:142 | The three block sizes render as `128`, `192` and `256`. |
| `AESProperties.MethodNameInjective` | src/AES.php:142 | Two successful calls that return the same method name had the same block size and mode. |
| `AESProperties.DecryptOfHex` | src/AES.php:55 | For valid parameters, `decrypt(bin2hex($c))` hands the provider exactly `$c` under the method name, and returns the trimmed provider output. |
| `AESProperties.DecryptOfMalformedHex` | src/AES.php:55 | For valid parameters, hex of odd length or with a non-hex character reaches the provider as "". |
| `AESProperties.EncryptThenDecrypt` | src/AES.php:30 | For valid parameters `encrypt` succeeds, and decrypting its output with the same parameters hands the decryption primitive the trimmed encryption output, under the same method name. |
| `AESProperties.RoundTripWhenNothingTrimmed` | src/AES.php:30 | The facade round-trips the data when the provider does and neither ciphertext nor plaintext begins or ends with a byte `trim` strips. |
| `AESProperties.EncryptLosesTrimmedCiphertext` | src/AES.php:30 | If the provider's ciphertext begins or ends with such a byte, `encrypt` returns fewer than two hex digits per ciphertext byte. |
| `AESProperties.GeneratedKeyLength` | src/AES.php:68 | With an honest random source that succeeds, an even `$length` gives a key of exactly `$length` hex digits. |
| `AESProperties.GeneratedIvPassesIvCheck` | src/AES.php:86-89 | With an honest random source that can deliver 8 bytes and a reported IV length of 16, `generateIV` succeeds and returns 16 hex digits. Used as an IV, they pass both IV guards, so only key, mode and options decide validation. |
| `Php.HalfTruncated` | src/AES.php:68 | `(int)($n / 2)` is exactly half of an even `n`. For an odd `n` it is truncated toward zero. |
| `Php.TrimLeft` | src/AES.php:30 | Returns a suffix of the input. Every dropped byte is a trim character (" \t\n\r\0\x0B"), and the result does not start with one. |
| `Php.TrimRight` | src/AES.php:30 | Returns a prefix of the input. Every dropped byte is a trim character, and the result does not end with one. |
| `Php.Trim` | src/AES.php:55 | `trim` returns a string no longer than its input that neither starts nor ends with a trim character. |
| `Php.TrimIsSlice` | src/AES.php:30 | `trim` returns a contiguous slice of its input, and every byte outside the slice is a trim character. |
| `Php.TrimOfTrimmed` | src/AES.php:55 | `trim` leaves a string that neither starts nor ends with a trim character unchanged. |
| `Php.TrimIdempotent` | src/AES.php:55 | `trim(trim($s)) === trim($s)`. |
| `Php.TrimLosesEdgeBytes` | src/AES.php:30 | A string that starts or ends with a trim character gets shorter under `trim`. |
| `Php.Bin2Hex` | src/AES.php:30 | `bin2hex` produces two characters per byte. |
| `Php.Bin2HexIsLowerHex` | src/AES.php:88 | Every character `bin2hex` produces is a lower-case hex digit. |
| `Php.Hex2Bin` | src/AES.php:55 | `hex2bin` produces one byte per digit pair, and fails on an odd length. |
| `Php.Hex2BinFails` | src/AES.php:55 | `hex2bin` fails exactly on an odd length or on a non-hex character, upper-case digits included as hex. |
| `Php.Hex2BinOfBin2Hex` | src/AES.php:55 | `hex2bin(bin2hex($s)) === $s`. |
| `Php.Bin2HexOfHex2Bin` | src/AES.php:30 | `bin2hex(hex2bin($h)) === $h` for lower-case hex of even length. |
| `Php.Decimal` | src/AES.php:142 | A natural number renders as at least one decimal digit, without a leading zero. |
| `Php.DecimalValueOfDecimal` | src/AES.php:142 | Reading the rendered digits of a natural number back gives that number. |
| `Php.IsEmpty` | src/AES.php:112-113 | `empty($s)` on a string holds exactly for strings of at most one byte made only of '0', that is `""` and `"0"`. |
| `Php.IntToBool` | src/AES.php:117 | `(bool)$n` on an integer is false exactly for 0. |
| `Php.LooseEqualsBoolInt` | src/AES.php:117 | `$b == $n` between a bool and an integer compares `$b` with `(bool)$n`: for a non-zero `$n` it is `$b`, for 0 it is `!$b`. |
| `Php.NegatedIntLooseEquals` | src/AES.php:117 | `!$n == $m` parses as `(!$n) == $m`, which for a non-zero `$m` holds exactly when `$n` is 0. |
| `Php.FalseToEmpty` | src/AES.php:30 | A provider `false` used as a string (by `trim`) reads as `""`, and a string result is used unchanged. |
| `Php.FalseToZero` | src/AES.php:86 | A provider `false` used as a number (in `$ivLength / 2`) reads as 0, and an integer result is used unchanged. |

## Left out

- The OpenSSL extension is left abstract. `openssl_encrypt`, `openssl_decrypt`, `openssl_cipher_iv_length` and `openssl_random_pseudo_bytes` are uninterpreted function parameters: the cipher and the random source are not part of this model. Nothing is proved about ciphertexts.
- Unconditional round trip: `trim` on the provider output can destroy it (`AESProperties.EncryptLosesTrimmedCiphertext`). The model proves only the round trip that holds when nothing is trimmed and the provider itself round-trips.
- Randomness: a random source is an arbitrary function. `Honest` states that it delivers the requested count. A `ValueError` for counts below 1 is one of the random source's own `Throw` results.
- PHP's loose comparisons in `in_array` (for example `"256"` matching `256`) and untyped arguments are not modelled. Keys, IVs, data and modes are byte strings; block sizes and options are integers.
- The messages of the exceptions thrown inside `validateParams` are caught and discarded, so they are not modelled. `AES.Guard` names which guard fired instead.
- The warnings `hex2bin` emits on malformed input are not modelled; only its `false` result is.
- Floats are not modelled. `$length / 2` and the IV-length division are modelled by the truncation PHP applies when the quotient reaches the `int` parameter of `openssl_random_pseudo_bytes`.
- Default argument values (block size 256, mode CBC, options 0, key length 64) are not modelled. Every call takes all of its arguments, and `AESProperties.DefaultMethodName` covers the default name.
- `decrypt` is an instance method in the source but uses no instance state, so it is modelled as a function like the static ones.
