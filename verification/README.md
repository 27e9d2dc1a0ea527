# Hex encoding of Java byte arrays (KeyAttestationIdExtractor)

This project models `Utilities.convertBytesToHexString` from the
KeyAttestationIdExtractor Android app. It is the one piece of
self-contained logic in the app. The app uses it to log encoded public keys
and to return the ECDSA signature from `signData` as a string. The method
walks a Java `byte[]` in order. It formats each byte with
`String.format("%02x", b)` and appends the result to a `StringBuilder`.

The model has four modules:

- `JavaByte`: Java's signed `byte` as `JByte` (an `int` in -128..127).
  `Unsigned` is the value that the `x` conversion prints for a `Byte`, which
  adds 2^8 to a negative byte. `Signed` is the inverse of `Unsigned`; it is used only to state that the encoding is injective.
- `HexFormat`: the part of `java.util.Formatter` that `%02x` uses.
  `HexDigits` renders a number in lower-case base 16 with no leading zeros.
  `PadLeft` is the `0` flag with a width. `Format02x` composes them and is
  proved to produce exactly the high-nibble and low-nibble digits.
- `Utilities`: the encoder. `Hex` is a recursive reference definition that
  emits two nibble digits per byte. `ConvertBytesToHexString` is the source's
  loop. Its `StringBuilder` is a `string` that grows by `Format02x` of each
  byte, and the method is proved equal to `Hex`. Lemmas state the positional
  and concatenation properties.
- `HexInverse`: a left inverse `Unhex` of the encoder. It serves only to
  state what the output determines: injectivity, and the exact set of
  strings the encoder can produce. The repository itself has no hex decoder.

## Model

| member | source | states |
|---|---|---|
| JavaByte.Unsigned | KeyAttestationIdExtractor/app/src/main/java/com/test/keyattestationidextractor/Utilities.java:115-116 | the value printed for a byte lies in 0..255 and agrees with the byte modulo 256, so a negative byte is widened by 256 and a non-negative byte is printed as itself |
| JavaByte.Signed | KeyAttestationIdExtractor/app/src/main/java/com/test/keyattestationidextractor/Utilities.java:115-116 | every 8-bit pattern 0..255 is the printed value of some Java byte |
| JavaByte.UnsignedInjective | KeyAttestationIdExtractor/app/src/main/java/com/test/keyattestationidextractor/Utilities.java:115-116 | two bytes print the same unsigned value exactly when they are equal, and `Signed` undoes `Unsigned` |
| HexFormat.HexDigit | KeyAttestationIdExtractor/app/src/main/java/com/test/keyattestationidextractor/Utilities.java:116 | the lower-case `x` conversion turns every nibble into a character from `0-9a-f` whose digit value is that nibble |
| HexFormat.DigitRoundTrip | KeyAttestationIdExtractor/app/src/main/java/com/test/keyattestationidextractor/Utilities.java:116 | every lower-case hex digit is the digit of its own value, so the digit alphabet is exactly `0-9a-f` |
| HexFormat.HexDigits | KeyAttestationIdExtractor/app/src/main/java/com/test/keyattestationidextractor/Utilities.java:116 | the unpadded `x` rendering of n is a non-empty string of lower-case digits whose base-16 value is n, with no leading zero unless n is 0, and it is one digit long exactly when n < 16 |
| HexFormat.PadLeft | KeyAttestationIdExtractor/app/src/main/java/com/test/keyattestationidextractor/Utilities.java:116 | the `0` flag with a width makes the string at least that wide and never truncates it: the original string is kept as the suffix and only pad characters come before it |
| HexFormat.Format02x | KeyAttestationIdExtractor/app/src/main/java/com/test/keyattestationidextractor/Utilities.java:116 | `%02x` of any byte, negative ones included, is exactly two lower-case digits: the high nibble, then the low nibble, of the byte's unsigned value |
| Utilities.Format02xIsByteDigits | KeyAttestationIdExtractor/app/src/main/java/com/test/keyattestationidextractor/Utilities.java:116 | the formatter's rendering of a byte equals the two-digit nibble pair that the reference encoder emits for it |
| Utilities.Hex | KeyAttestationIdExtractor/app/src/main/java/com/test/keyattestationidextractor/Utilities.java:112-119 | the encoder never fails and never returns null on a present byte array (within the Java string-length bound admitted under Left out), its output is exactly twice as long as the input (so the empty array gives the empty string), and every output character is a lower-case hex digit with no separators |
| Utilities.HexAt | KeyAttestationIdExtractor/app/src/main/java/com/test/keyattestationidextractor/Utilities.java:115-116 | output characters 2i and 2i+1 are the high and low nibble digits of the unsigned value of byte i |
| Utilities.HexPositional | KeyAttestationIdExtractor/app/src/main/java/com/test/keyattestationidextractor/Utilities.java:115-116 | the positional property holds for every byte index at once |
| Utilities.HexAppend | KeyAttestationIdExtractor/app/src/main/java/com/test/keyattestationidextractor/Utilities.java:115-117 | encoding a concatenation is the concatenation of the encodings, because bytes are appended in input order with nothing between them |
| Utilities.HexPrefixStep | KeyAttestationIdExtractor/app/src/main/java/com/test/keyattestationidextractor/Utilities.java:115-117 | one pass of the loop body: appending the `%02x` rendering of byte k to the encoding of the first k bytes gives the encoding of the first k+1 bytes |
| Utilities.ConvertBytesToHexString | KeyAttestationIdExtractor/app/src/main/java/com/test/keyattestationidextractor/Utilities.java:112-119 | the `StringBuilder` loop returns the reference encoding of the whole array; after k bytes the builder holds the encoding of the first k bytes |
| HexInverse.Unhex | KeyAttestationIdExtractor/app/src/main/java/com/test/keyattestationidextractor/Utilities.java:115-116 | specification-only left inverse with no counterpart in the source: pairing characters back into nibbles succeeds exactly on even-length strings of lower-case digits and yields half as many bytes |
| HexInverse.UnhexHex | KeyAttestationIdExtractor/app/src/main/java/com/test/keyattestationidextractor/Utilities.java:115-116 | pairing the encoder's output back into nibbles recovers the original bytes, negative ones included |
| HexInverse.HexUnhex | KeyAttestationIdExtractor/app/src/main/java/com/test/keyattestationidextractor/Utilities.java:115-116 | every string the inverse accepts is the encoding of the bytes it reads |
| HexInverse.HexInjective | KeyAttestationIdExtractor/app/src/main/java/com/test/keyattestationidextractor/Utilities.java:115-116 | two byte arrays encode to the same string if and only if they are equal |
| HexInverse.HexImage | KeyAttestationIdExtractor/app/src/main/java/com/test/keyattestationidextractor/Utilities.java:115-116 | a string is an output of the encoder if and only if it has even length and consists of lower-case hex digits |

## Left out

- Null input: the source parameter is `@NonNull` (Utilities.java:113), and a Dafny `seq` cannot be null. So the model takes a present byte sequence. A null array in Java would throw `NullPointerException` from the for-each loop.
- The callers in `MainActivity` are not modelled. `signData` hashes, signs and hex-encodes through keystore and `Signature` calls. The key generation code only logs the encoded key. All of these are Android platform calls with no visible logic. One quirk is noted here but not modelled: `signData` passes the possibly-null digest to the encoder (MainActivity.java:190) before its null check (MainActivity.java:191).
- `computeSHA256DigestOfString` (Utilities.java:43-55) is a thin wrapper over `MessageDigest`, which is foreign code.
- `writeStringToFile`, `writeBytesToFile` and `getResultStorageDirectory` (Utilities.java:64-104) are filesystem I/O and path plumbing.
- Decoding, certificate parsing and chain validation do not exist in the repository. `Unhex` is not an operation of the app. It is the left inverse that states injectivity.
- Utilities.ConvertBytesToHexString: does not model Java's string-length bound. A Java `String` or `StringBuilder` holds at most 2^31-1 characters, so for an array of 2^30 bytes or more the append at Utilities.java:116 throws `OutOfMemoryError` and no string is returned. The model uses unbounded sequences and returns the 2n-character encoding for every length, as does `Utilities.Hex`. The app only encodes keys, digests and signatures, which are far below this bound.
- Utilities.Hex: for the same reason, it does not model the Java string-length bound and is defined for byte sequences of every length.
- Java's `String.format` also takes a `Locale`. The `x` conversion has no locale-dependent digits, so the locale is not modelled.
