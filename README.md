# TruncatingBCryptPasswordEncoder, modelled in Dafny

`TruncatingBCryptPasswordEncoder` is a Spring Security password encoder that
extends `BCryptPasswordEncoder`. bcrypt keys on at most 72 bytes, so the
encoder first cuts every password down to fit (`truncateIfNeeded`):

- it encodes the password in UTF-8;
- if it takes at most 72 bytes, the password goes through unchanged;
- otherwise the first 72 bytes are decoded again with malformed input ignored,
  which drops a character split by the 72-byte boundary;
- a warning is logged with the original byte length, 72 and the truncated
  byte length.

`encode` and `matches` both pass the password through this step before calling
the inherited bcrypt primitive.

The project has five modules:

- `Wrappers` — `Option`.
- `Utf8` — the UTF-8 encoding of section 3 of RFC 3629, as `String.getBytes(UTF_8)`
  produces it, and a lenient decoder that behaves like the JDK's UTF-8
  `CharsetDecoder` with `CodingErrorAction.IGNORE`. Its acceptance test is the
  well-formedness test of section 4 of RFC 3629: no overlong forms, no
  surrogates, nothing above U+10FFFF.
- `Truncation` — `MaxBytes = 72` and `Truncate`, the password `truncateIfNeeded`
  returns, as a function. The module proves:
  - the result is a whole-character prefix of the password;
  - it fits in 72 bytes;
  - it is the longest such prefix;
  - only the straddling character is lost;
  - truncation is idempotent;
  - decoding the cut bytes, as the source does, yields exactly this prefix.
- `PasswordEncoder` — the encoder class itself:
  - bcrypt is an abstract `hash`/`verify` pair; the random salt is a parameter;
  - the logger is a ghost list of warnings that the class appends to;
  - `TruncateIfNeeded` follows the source step by step: `GetBytes`, the
    early return, then `DecodeInto`, a loop that fills a character buffer and
    returns its position;
  - the method is proved to return `Truncate(raw)` and to log `Logged(raw)`.
- `Examples` — the concrete passwords of the project's own test class, worked
  through the model.

The source's own comment at `TruncatingBCryptPasswordEncoder.java:82-83`
says that ignoring malformed input "effectively truncates at the last valid
character". The code does not look for that character: it decodes all 72
bytes and lets the decoder drop whatever does not form a character. The model
decodes the same way, and `TruncateByDecoding` proves that the outcome is
indeed the longest whole-character prefix that fits.

## Model

All source paths are under `src/main/java/ltd/qubit/commons/spring/security/`
(the encoder) or `src/test/java/ltd/qubit/commons/spring/security/` (its tests).

| member | source | states |
|---|---|---|
| Utf8.Width | src/main/java/ltd/qubit/commons/spring/security/TruncatingBCryptPasswordEncoder.java:73 | every character takes 1 to 4 bytes in UTF-8 |
| Utf8.EncodeChar | src/main/java/ltd/qubit/commons/spring/security/TruncatingBCryptPasswordEncoder.java:73 | a character's encoding has its width in bytes, starts with a lead byte and continues with continuation bytes only |
| Utf8.Utf8Length | src/main/java/ltd/qubit/commons/spring/security/TruncatingBCryptPasswordEncoder.java:73-74 | `bytes.length`: the number of bytes of the password's UTF-8 form, the quantity compared with 72 |
| Utf8.Utf8LengthBounds | src/main/java/ltd/qubit/commons/spring/security/TruncatingBCryptPasswordEncoder.java:73 | a password takes at least one and at most four bytes per character |
| Utf8.Encode | src/main/java/ltd/qubit/commons/spring/security/TruncatingBCryptPasswordEncoder.java:73 | `getBytes(UTF_8).length` is the sum of the characters' widths |
| Utf8.EncodeAppend | src/main/java/ltd/qubit/commons/spring/security/TruncatingBCryptPasswordEncoder.java:73 | encoding distributes over concatenation |
| Utf8.Utf8LengthAppend | src/main/java/ltd/qubit/commons/spring/security/TruncatingBCryptPasswordEncoder.java:73 | byte lengths add up over concatenation |
| Utf8.Utf8LengthPrefix | src/main/java/ltd/qubit/commons/spring/security/TruncatingBCryptPasswordEncoder.java:73 | a prefix never takes more bytes than the whole password |
| Utf8.DecodeOne | src/main/java/ltd/qubit/commons/spring/security/TruncatingBCryptPasswordEncoder.java:81-85 | a decoded sequence never reaches past the bytes available |
| Utf8.DecodeOneSound | src/main/java/ltd/qubit/commons/spring/security/TruncatingBCryptPasswordEncoder.java:81-85 | every sequence the decoder accepts is the encoding of the character it yields; with `DecodeOneEncodeChar`, it accepts exactly the well-formed sequences |
| Utf8.EncodeTwoBytes | src/main/java/ltd/qubit/commons/spring/security/TruncatingBCryptPasswordEncoder.java:81-85 | a lead byte C0-DF and a continuation byte that spell a two-byte character are its encoding |
| Utf8.EncodeThreeBytes | src/main/java/ltd/qubit/commons/spring/security/TruncatingBCryptPasswordEncoder.java:81-85 | likewise for three-byte characters |
| Utf8.EncodeFourBytes | src/main/java/ltd/qubit/commons/spring/security/TruncatingBCryptPasswordEncoder.java:81-85 | likewise for four-byte characters |
| Utf8.DecodeOneWidth | src/main/java/ltd/qubit/commons/spring/security/TruncatingBCryptPasswordEncoder.java:81-85 | an accepted sequence is never overlong: its size is the width of the character it yields |
| Utf8.DecodeOneEncodeChar | src/main/java/ltd/qubit/commons/spring/security/TruncatingBCryptPasswordEncoder.java:81-86 | the decoder reads back any character's own encoding, whatever bytes follow it |
| Utf8.PayloadOfEncodeChar | src/main/java/ltd/qubit/commons/spring/security/TruncatingBCryptPasswordEncoder.java:81-86 | the payload bits of a character's encoding spell the character |
| Utf8.SequenceLengthOfEncodeChar | src/main/java/ltd/qubit/commons/spring/security/TruncatingBCryptPasswordEncoder.java:81-86 | the lead byte of a character's encoding announces its width |
| Utf8.DecodeFrom | src/main/java/ltd/qubit/commons/spring/security/TruncatingBCryptPasswordEncoder.java:84-87 | `decoder.decode(bb, cb, true)` with IGNORE: the decoder's loop from a byte offset, appending each decoded character and dropping each byte that does not start a well-formed sequence |
| Utf8.DecodeLenient | src/main/java/ltd/qubit/commons/spring/security/TruncatingBCryptPasswordEncoder.java:84-88 | the string the decoder leaves in the buffer for a byte sequence; it has no more characters than the input has bytes, and re-encodes to no more bytes |
| Utf8.DecodeFromFits | src/main/java/ltd/qubit/commons/spring/security/TruncatingBCryptPasswordEncoder.java:79-88 | decoding yields no more characters than it reads bytes, and those characters re-encode to no more bytes; so the 72-slot buffer never overflows and the result fits |
| Utf8.DecodeFromContinuations | src/main/java/ltd/qubit/commons/spring/security/TruncatingBCryptPasswordEncoder.java:82-87 | stray continuation bytes are ignored: they add nothing to the output |
| Utf8.DecodeFromWholeChar | src/main/java/ltd/qubit/commons/spring/security/TruncatingBCryptPasswordEncoder.java:86 | a complete encoded character is decoded and appended |
| Utf8.DecodeFromSplitChar | src/main/java/ltd/qubit/commons/spring/security/TruncatingBCryptPasswordEncoder.java:82-87 | a character cut short by the end of input is dropped without error, and decoding ends there |
| Utf8.DecodeCutWhole | src/main/java/ltd/qubit/commons/spring/security/TruncatingBCryptPasswordEncoder.java:79-86 | in the window of bytes that are kept, a character whose bytes all survive the cut is decoded |
| Utf8.DecodeCutSplit | src/main/java/ltd/qubit/commons/spring/security/TruncatingBCryptPasswordEncoder.java:79-87 | in that window, a character cut by the 72-byte boundary is dropped and nothing after it is produced |
| Truncation.MaxBytes | src/main/java/ltd/qubit/commons/spring/security/TruncatingBCryptPasswordEncoder.java:38 | `MAX_BYTES`: bcrypt's usable key length, 72 bytes |
| Truncation.TakeWithinBounds | src/main/java/ltd/qubit/commons/spring/security/TruncatingBCryptPasswordEncoder.java:77-88 | the longest prefix within a byte budget is a whole-character prefix that fits the budget |
| Truncation.TakeWithinLongest | src/main/java/ltd/qubit/commons/spring/security/TruncatingBCryptPasswordEncoder.java:77-88 | every prefix that fits the budget is no longer than the one kept |
| Truncation.TakeWithinStopsAtOverflow | src/main/java/ltd/qubit/commons/spring/security/TruncatingBCryptPasswordEncoder.java:77-88 | when characters are left over, the next one would overflow the budget |
| Truncation.TakeWithinAll | src/main/java/ltd/qubit/commons/spring/security/TruncatingBCryptPasswordEncoder.java:73-76 | a password that fits the budget is kept whole |
| Truncation.TakeWithinStep | src/main/java/ltd/qubit/commons/spring/security/TruncatingBCryptPasswordEncoder.java:86 | keeping a first character that fits and then what fits in the remaining budget is keeping what fits in the whole budget |
| Truncation.TakeWithinAppend | src/main/java/ltd/qubit/commons/spring/security/TruncatingBCryptPasswordEncoder.java:77-88 | a head that fits is kept whole and leaves the rest of the budget to the tail |
| Truncation.Truncate | src/main/java/ltd/qubit/commons/spring/security/TruncatingBCryptPasswordEncoder.java:71-92 | the password handed to bcrypt is a whole-character prefix of the input and fits in 72 bytes |
| Truncation.TruncateUnchangedIff | src/main/java/ltd/qubit/commons/spring/security/TruncatingBCryptPasswordEncoder.java:73-76 | the password comes back unchanged if and only if it takes at most 72 bytes |
| Truncation.TruncateIsLongest | src/main/java/ltd/qubit/commons/spring/security/TruncatingBCryptPasswordEncoder.java:77-88 | a prefix fits in 72 bytes if and only if it is no longer than the result: the result is the longest prefix that fits |
| Truncation.TruncateKeepsAllButLastChar | src/main/java/ltd/qubit/commons/spring/security/TruncatingBCryptPasswordEncoder.java:77-88 | an overlong password is strictly shortened, and only the character straddling the boundary is lost (69 to 72 bytes remain) |
| Truncation.TruncateIdempotent | src/main/java/ltd/qubit/commons/spring/security/TruncatingBCryptPasswordEncoder.java:73-76 | truncating a truncated password changes nothing |
| Truncation.DecodeEncodedFrom | src/main/java/ltd/qubit/commons/spring/security/TruncatingBCryptPasswordEncoder.java:79-88 | decoding a cut copy of an encoded string, from any character boundary on, appends the longest prefix that fits in the bytes kept |
| Truncation.DecodeEncodedSplit | src/main/java/ltd/qubit/commons/spring/security/TruncatingBCryptPasswordEncoder.java:82-87 | the step of that argument where the cut splits the next character |
| Truncation.DecodeEncodedPrefix | src/main/java/ltd/qubit/commons/spring/security/TruncatingBCryptPasswordEncoder.java:79-88 | decoding the first k bytes of a password's UTF-8 form, ignoring malformed input, gives the longest prefix that fits in k bytes |
| Truncation.DecodeEncode | src/main/java/ltd/qubit/commons/spring/security/TruncatingBCryptPasswordEncoder.java:73-88 | decoding undoes encoding |
| Truncation.TruncateByDecoding | src/main/java/ltd/qubit/commons/spring/security/TruncatingBCryptPasswordEncoder.java:79-88 | what the source computes for an overlong password, by decoding 72 bytes with IGNORE, is `Truncate` |
| Truncation.SharedPrefixSameTruncation | src/main/java/ltd/qubit/commons/spring/security/TruncatingBCryptPasswordEncoder.java:79-88 | overlong passwords that agree on their first 72 bytes truncate to the same password |
| PasswordEncoder.Logged | src/main/java/ltd/qubit/commons/spring/security/TruncatingBCryptPasswordEncoder.java:89-90 | the warnings one call of `truncateIfNeeded` logs: none when the password fits, else one carrying `bytes.length`, `MAX_BYTES` and the truncated password's byte length |
| PasswordEncoder.Encoded | src/main/java/ltd/qubit/commons/spring/security/TruncatingBCryptPasswordEncoder.java:54-57 | the hash `encode` returns for a given salt: bcrypt's hash of the truncated password |
| PasswordEncoder.Matched | src/main/java/ltd/qubit/commons/spring/security/TruncatingBCryptPasswordEncoder.java:63-66 | the verdict `matches` returns: bcrypt's check of the truncated password |
| PasswordEncoder.GetBytes | src/main/java/ltd/qubit/commons/spring/security/TruncatingBCryptPasswordEncoder.java:73 | returns a fresh array holding the UTF-8 form of the password |
| PasswordEncoder.DecodeInto | src/main/java/ltd/qubit/commons/spring/security/TruncatingBCryptPasswordEncoder.java:79-88 | fills the character buffer from index 0 with the lenient decoding of the first `limit` bytes and leaves the slots from the returned position on as they were; the position is at most `limit`; there is no failure case |
| PasswordEncoder.TruncatingBCryptPasswordEncoder.constructor | src/main/java/ltd/qubit/commons/spring/security/TruncatingBCryptPasswordEncoder.java:42-48 | a new encoder wraps the given bcrypt and has logged nothing |
| PasswordEncoder.TruncatingBCryptPasswordEncoder.TruncateIfNeeded | src/main/java/ltd/qubit/commons/spring/security/TruncatingBCryptPasswordEncoder.java:71-92 | returns `Truncate(raw)` for every input, and appends exactly `Logged(raw)` to the log |
| PasswordEncoder.TruncatingBCryptPasswordEncoder.Encode | src/main/java/ltd/qubit/commons/spring/security/TruncatingBCryptPasswordEncoder.java:54-57 | bcrypt's hash of the truncated password, with the truncation's warning logged |
| PasswordEncoder.TruncatingBCryptPasswordEncoder.Matches | src/main/java/ltd/qubit/commons/spring/security/TruncatingBCryptPasswordEncoder.java:63-66 | bcrypt's verdict on the truncated password; the warning is logged whatever the verdict |
| PasswordEncoder.LoggedIffTruncated | src/main/java/ltd/qubit/commons/spring/security/TruncatingBCryptPasswordEncoder.java:89-90 | at most one warning per call, and one exactly when the password is changed; it carries the original length (over 72), 72, and the new length (69 to 72) |
| PasswordEncoder.ShortPasswordPassesThrough | src/main/java/ltd/qubit/commons/spring/security/TruncatingBCryptPasswordEncoder.java:73-76 | a password within 72 bytes reaches bcrypt untouched in both `encode` and `matches`, and nothing is logged |
| PasswordEncoder.MatchesOwnEncoding | src/test/java/ltd/qubit/commons/spring/security/TruncatingBCryptPasswordEncoderTest.java:86-93 | with a sound bcrypt, a password matches its own hash; so does its truncation, which logs nothing |
| PasswordEncoder.SharedPrefixIndistinguishable | src/test/java/ltd/qubit/commons/spring/security/TruncatingBCryptPasswordEncoderTest.java:95-97 | overlong passwords sharing their first 72 bytes get the same verdict from `matches` against any hash |
| PasswordEncoder.MatchesIffSameTruncation | src/main/java/ltd/qubit/commons/spring/security/TruncatingBCryptPasswordEncoder.java:54-66 | with a sound, collision-free bcrypt, `p` matches the hash of `q` if and only if they truncate alike |
| Examples.Repeat | src/test/java/ltd/qubit/commons/spring/security/TruncatingBCryptPasswordEncoderTest.java:70 | `repeat` yields n copies of the character |
| Examples.Utf8LengthRepeat | src/test/java/ltd/qubit/commons/spring/security/TruncatingBCryptPasswordEncoderTest.java:70-71 | n ASCII characters take n bytes |
| Examples.Utf8LengthAscii | src/test/java/ltd/qubit/commons/spring/security/TruncatingBCryptPasswordEncoderTest.java:60 | ASCII text takes one byte per character |
| Examples.ShortPasswordLengths | src/test/java/ltd/qubit/commons/spring/security/TruncatingBCryptPasswordEncoderTest.java:60-64 | "password" takes 8 bytes and "wrongpassword" 13 |
| Examples.TakeWithinRepeat | src/test/java/ltd/qubit/commons/spring/security/TruncatingBCryptPasswordEncoderTest.java:79-80 | a run of an ASCII character is cut to exactly the budget |
| Examples.HundredLetters | src/test/java/ltd/qubit/commons/spring/security/TruncatingBCryptPasswordEncoderTest.java:78-83 | 100 a's truncate to 72 a's, logged as (100, 72, 72) |
| Examples.PasswordAtMaxLength | src/test/java/ltd/qubit/commons/spring/security/TruncatingBCryptPasswordEncoderTest.java:68-75 | 72 a's take 72 bytes, pass unchanged and log nothing |
| Examples.EuroAtTheLimit | src/test/java/ltd/qubit/commons/spring/security/TruncatingBCryptPasswordEncoderTest.java:113-120 | 71 a's and a euro sign take 74 bytes and truncate to the 71 a's, logged as (74, 72, 71) |
| Examples.SamePrefixSameTruncation | src/test/java/ltd/qubit/commons/spring/security/TruncatingBCryptPasswordEncoderTest.java:95-98 | 72 a's and 28 b's truncate like 100 a's and log (100, 72, 72) |
| Examples.DifferentPrefixDifferentTruncation | src/test/java/ltd/qubit/commons/spring/security/TruncatingBCryptPasswordEncoderTest.java:101-104 | 72 b's and 28 a's keep their b's, differ from 100 a's after truncation, and still log (100, 72, 72) |
| Examples.LongPasswordScenario | src/test/java/ltd/qubit/commons/spring/security/TruncatingBCryptPasswordEncoderTest.java:77-110 | on one encoder: the long password, its truncation and the same-prefix password match the long hash; the different-prefix password and "password" do not |
| Examples.ShortPassword | src/test/java/ltd/qubit/commons/spring/security/TruncatingBCryptPasswordEncoderTest.java:58-66 | "password" matches its own hash, "wrongpassword" does not, and neither logs |

## Left out

- The bcrypt primitive (`super.encode`, `super.matches`) is Blowfish-based code in Spring Security. It is the abstract pair `BCrypt(hash, verify)`.
- That pair's correctness is not known to the model. The lemmas that need it take it as a precondition: `Sound` (a password within 72 bytes verifies against its own hash) or `Exact` (no two distinct such passwords verify against each other's hash).
- The random salt bcrypt draws in `encode` is a parameter, and the strength (`TruncatingBCryptPasswordEncoder(int)`) is folded into the primitive. Spring's own guard against passwords over 72 bytes is not modelled: the primitive is total.
- Errors thrown by bcrypt itself, for example on a malformed hash, would propagate unchanged through `matches`. They are not modelled.
- The SLF4J logger and the message text are I/O. Each `logger.warn` call is one `Warning(original, limit, truncated)` appended to the ghost field `warnings`.
- The Java logger is static and shared by all instances; the model keeps one log per encoder.
- A null password is not modelled: `raw.toString()` at line 72 throws NullPointerException in both `encode` and `matches`, and a Dafny `string` cannot be null.
- Java strings are UTF-16, and `getBytes(UTF_8)` replaces a lone surrogate with `?`. Passwords here are sequences of Unicode scalar values, which cannot hold lone surrogates.
- The JDK `CharBuffer` counts UTF-16 units, so a character outside the BMP fills two slots. The model's buffer holds one scalar value per slot. Both fit: 72 bytes decode to at most 72 units either way.
- The JDK decoder may skip more than one byte when it meets a malformed sequence. The model skips one byte at a time. Every extra byte the JDK skips is a continuation byte, which the model then drops one by one, so both produce the same characters. The lengths the JDK reports for malformed input are not modelled.
- GetBytes: builds the encoding as a sequence and copies it into a fresh array at the end, instead of filling the array in place.
- DecodeInto: reads a copy `bb[..limit]` of the input buffer as a sequence rather than advancing a `ByteBuffer`'s position. The output side is an array written in place.
- `CustomizedConversionServiceFactoryBean`, the date and time parsers and the `CustomizedConverter` annotation in the same repository are not part of this model. They are Spring wiring and one-line delegations to a codec library that is not part of this model.
