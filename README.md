# Classical ciphers, modelled and proved in Dafny

This project models the core of the `cipher` library by Adrian Padin. The library is a set of
C++ headers with classical ciphers over the capital letters `A`..`Z`:

- the Vigenère cipher (`EncryptVigenereAlpha`) and its one-letter special case, the Caesar
  cipher (`EncryptCaesarAlpha`);
- a generalized Vigenère cipher over the symbols `0 .. size - 1`
  (`EncryptVigenereGeneralized`). `EncryptVigenereUpperAlpha` runs it on letters shifted down
  by `'A'` (`UpperAlphaToGeneralized`) and shifts the result back up;
- three transposition ciphers: Rail Fence (`EncryptRailFenceAlpha` /
  `DecryptRailFenceAlpha`), scytale (`EncryptScytaleAlpha` / `DecryptScytaleAlpha`) and
  columnar transposition (`EncryptColumnarAlpha`);
- the helpers in `cipher_utils.hpp`: letter tests, hex printing of a byte, key inversion for
  decryption, and whitespace trimming.

Each header becomes one Dafny module:

| module | file | models |
|---|---|---|
| `CipherErrors` | `cipher_errors.dfy` | the exceptions, as a `Result` value |
| `CipherUtils` | `cipher_utils.dfy` | `include/cipher_utils.hpp` |
| `UppercaseAlpha` | `uppercase_alpha.dfy` | `include/uppercase_alpha.hpp` |
| `VigenereCipher` | `vigenere_cipher.dfy` | `include/vigenere_cipher.hpp` |
| `VigenereGeneralized` | `vigenere_generalized.dfy` | `source/vigenere_generalized.cpp` |
| `CaesarCipher` | `caesar_cipher.dfy` | `include/caesar_cipher.hpp` |
| `RailFenceCipher` | `rail_fence_cipher.dfy` | `include/rail_fence_cipher.hpp` |
| `ScytaleCipher` | `scytale_cipher.dfy` | `include/scytale_cipher.hpp` |
| `ColumnarCipher` | `columnar_cipher.dfy` | `include/columnar_cipher.hpp` |
| `IndexWalks` | `index_walks.dfy` | the shared vocabulary of the transpositions |
| `Arith` | `arith.dfy` | division and remainder facts |

## Conventions

- **Characters.** A C++ `char` is a Dafny `char` below 256 (`CChar`), read as an unsigned byte.
  A string is a `seq<CChar>`. Arithmetic stored back into a `char` wraps modulo 256
  (`ToCChar`). C++'s truncating `%` is written out as `Arith.CRem`.
- **Errors.** A thrown `std::runtime_error` becomes `Err(e)` of
  `Result<T> = Ok(value) | Err(error)`. `e` says which check failed and on which input
  (key or text). For a bad character it also holds the two hex digits the message prints.
- **Output parameters.** A `std::string&` output parameter becomes the method's return value.
  Where the source reads the caller's old buffer (scytale with row width 0), that buffer is the
  `prior` parameter.
- **In-place loops.** The loops that work in place are methods over `array`:
  - `InvertCipherkey`;
  - the `for_each` shifts;
  - the copy loops of the transpositions;
  - the insertion into sorted order in `SortIndices`.

  Each method is proved against a specification function.
- **Walks.** The transpositions are stated with `IndexWalks`:
  - `Gather(x, idx)` reads `x` at the positions `idx` in turn;
  - `Scatter(idx, vals, buf)` writes `vals[j]` at position `idx[j]` in turn;
  - `IsPermutation(idx, n)` says `idx` lists every position below `n` exactly once.

  Encryption is a `Gather` along a walk. Decryption is a `Scatter` along the same walk.
  Round trips follow from `ScatterGather` and `GatherScatter`.

## Model

| member | source | states |
|---|---|---|
| CipherUtils.UpperAlphaIsAlphabet | include/cipher_utils.hpp:29-32 | the range test accepts exactly the 26 capital letters: no digit, no small letter |
| CipherUtils.LowerAlphaIsAlphabet | include/cipher_utils.hpp:35-38 | the range test accepts exactly the 26 small letters |
| CipherUtils.AllUpperAlphaAppend | include/cipher_utils.hpp:63-66 | a concatenation is all capital letters if and only if both parts are |
| CipherUtils.PrintCharHex | include/cipher_utils.hpp:41-46 | the result is two lower-case hex digits whose value, read back, is the byte (unsigned), zero-padded to width 2 |
| CipherUtils.PrintCharHexExamples | include/cipher_utils.hpp:41-46 | '0' prints as "30", a newline as "0a", 'z' as "7a" |
| CipherUtils.InvertLetter | include/cipher_utils.hpp:54-57 | a capital letter maps to the capital letter at offset (26 - x) % 26; 'A' stays 'A' |
| CipherUtils.InvertCipherkey | include/cipher_utils.hpp:49-60 | the returned key has the key's length, and each character is the inverse of the key's character at the same place |
| CipherUtils.InvertKeyUpper | include/cipher_utils.hpp:49-60 | an upper-case key inverts to an upper-case key of the same length, with its 'A's kept |
| CipherUtils.InvertLetterTwice | include/cipher_utils.hpp:54-57 | inverting a capital letter twice gives it back |
| CipherUtils.InvertKeyInvolution | include/cipher_utils.hpp:49-60 | inverting an upper-case key twice gives the key back |
| CipherUtils.LeadingSpaces | include/cipher_utils.hpp:75-76 | the count of leading characters that are whitespace; the character after them (if any) is not |
| CipherUtils.TrailingSpaces | include/cipher_utils.hpp:83-84 | the count of trailing characters that are whitespace; the character before them (if any) is not |
| CipherUtils.LTrim | include/cipher_utils.hpp:73-78 | the result is the string without its leading whitespace |
| CipherUtils.RTrim | include/cipher_utils.hpp:81-86 | the result is the string without its trailing whitespace |
| CipherUtils.Trim | include/cipher_utils.hpp:89-92 | the result is `ltrim` applied to the result of `rtrim` |
| CipherUtils.TrimIsCore | include/cipher_utils.hpp:89-92 | trimming leaves a slice `s[lo..hi]`. Everything outside it is whitespace. Its first and last characters are not |
| CipherUtils.TrimStartFixed | include/cipher_utils.hpp:73-78 | a string not starting with whitespace is left unchanged by `ltrim` |
| CipherUtils.TrimEndFixed | include/cipher_utils.hpp:81-86 | a string not ending with whitespace is left unchanged by `rtrim` |
| CipherUtils.TrimIdempotent | include/cipher_utils.hpp:89-92 | trimming twice is trimming once |
| UppercaseAlpha.Shifted | include/uppercase_alpha.hpp:14 | every byte moved by delta, modulo 256, length kept |
| UppercaseAlpha.ShiftEach | include/uppercase_alpha.hpp:11-15 | the array afterwards holds its old contents shifted by delta |
| UppercaseAlpha.UpperAlphaToGeneralized | include/uppercase_alpha.hpp:8-16 | the output has the text's length, and each character is the text's character minus 'A', modulo 256 |
| UppercaseAlpha.ShiftedRoundTrip | include/uppercase_alpha.hpp:14 | shifting by delta and then by -delta restores every byte |
| UppercaseAlpha.ShiftDownUp | include/uppercase_alpha.hpp:14 | `c -= 'A'` then `c += 'A'` gives the text back |
| UppercaseAlpha.ShiftDownRange | include/uppercase_alpha.hpp:8-16 | a shifted character is below 26 exactly when it was a capital letter, and then it is the letter's offset from 'A' |
| UppercaseAlpha.ShiftDownExamples | include/uppercase_alpha.hpp:14 | "AZ" becomes the symbols 0 and 25 |
| VigenereCipher.AddLetters | include/vigenere_cipher.hpp:56-58 | the sum of two capital letters is a capital letter at offset (k + p) mod 26; the key 'A' adds nothing |
| VigenereCipher.VigenereAlpha | include/vigenere_cipher.hpp:39-84 | success exactly when every position passes its checks. Then letter i is the sum of plaintext letter i and password letter (i mod the password's length). Otherwise the error is that of the first failing position, with earlier positions passing. An empty text yields an empty text |
| VigenereCipher.EncryptVigenereAlpha | include/vigenere_cipher.hpp:39-84 | the loop, with the password iterator restarting at the end, returns what VigenereAlpha specifies |
| VigenereCipher.FailsAt | include/vigenere_cipher.hpp:50-75 | if positions before f pass and f fails, the cipher raises f's error |
| VigenereCipher.AllAccepted | include/vigenere_cipher.hpp:50-83 | if every position passes, the cipher returns the letter-by-letter sums |
| VigenereCipher.LettersAccepted | include/vigenere_cipher.hpp:52-54 | a non-empty upper-case password and an upper-case text pass at every position |
| VigenereCipher.LettersFormula | include/vigenere_cipher.hpp:56-58 | on upper-case inputs the result is the sum of plaintext letter i and password letter (i mod the password's length), at every i |
| VigenereCipher.IdentityPassword | tests/vigenere_1_test.cpp:22-44 | a password of 'A's of any length leaves an upper-case text unchanged |
| VigenereCipher.UnusedPasswordIgnored | include/vigenere_cipher.hpp:76-82 | password characters past the plaintext's length are never checked or used |
| VigenereCipher.LazyExample | include/vigenere_cipher.hpp:76-82 | the password "AB1" encrypts "XY" to "XZ" without complaint |
| VigenereCipher.PasswordCheckedFirst | include/vigenere_cipher.hpp:52-75 | at a failing position a bad password character is blamed before a bad text character |
| VigenereCipher.SelfKeyed | tests/vigenere_1_test.cpp:57-72 | a text used as its own password doubles every letter |
| VigenereCipher.VectorHello | tests/vigenere_1_test.cpp:48-55 | "HELLO" with the password "B" gives "IFMMP" |
| VigenereCipher.VectorSelfFox | tests/vigenere_1_test.cpp:57-64 | the fox sentence keyed with itself gives the expected 36 letters |
| VigenereCipher.AddInverseLetter | include/cipher_utils.hpp:48-60 | adding a letter's inverse after the letter cancels it |
| VigenereCipher.InvertedPasswordDecrypts | include/cipher_utils.hpp:48-60 | encrypting with InvertCipherkey(password) undoes encrypting with password |
| VigenereGeneralized.Combined | source/vigenere_generalized.cpp:68-86 | the combined text has the plaintext's length and its symbols are all below size |
| VigenereGeneralized.CombinedAt | source/vigenere_generalized.cpp:74 | symbol i is (plaintext[i] + key[i mod the key's length]) mod size |
| VigenereGeneralized.VigenereGeneralized | source/vigenere_generalized.cpp:41-88 | an out-of-range plaintext is reported first, then an out-of-range key. Success exactly when both are in range, giving in-range symbols of the plaintext's length |
| VigenereGeneralized.CheckRange | source/vigenere_generalized.cpp:27-36 | the scan returns true exactly when every character, read unsigned, is below max |
| VigenereGeneralized.EncryptVigenereGeneralized | source/vigenere_generalized.cpp:41-88 | the checks and the loop with its restarting key index return what VigenereGeneralized specifies |
| VigenereGeneralized.CombinedFormula | source/vigenere_generalized.cpp:70-74 | on in-range inputs the cipher succeeds, and symbol i is the formula's sum |
| VigenereGeneralized.NegatedKey | source/vigenere_generalized.cpp:70-74 | the additive-inverse key is in range and as long as the key |
| VigenereGeneralized.NegatedKeyDecrypts | source/vigenere_generalized.cpp:41-88 | encrypting with the negated key undoes encryption with the key |
| VigenereGeneralized.ShiftedInRange | source/vigenere_generalized.cpp:97-116 | after `c -= 'A'`, the range check for 26 passes exactly for all-capital text |
| VigenereGeneralized.VigenereUpperAlpha | source/vigenere_generalized.cpp:92-124 | a non-capital plaintext is reported first, then a non-capital key. Success exactly when both are capital letters, giving capital letters of the plaintext's length |
| VigenereGeneralized.ShiftedUpIsUpper | source/vigenere_generalized.cpp:118-123 | symbols 0..25 shifted up by 'A' are capital letters |
| VigenereGeneralized.EncryptVigenereUpperAlpha | source/vigenere_generalized.cpp:92-124 | the copies shifted down in place, the generalized cipher with size 26, and the result shifted up in place give what VigenereUpperAlpha specifies |
| VigenereGeneralized.UpperAlphaAgrees | source/vigenere_generalized.cpp:92-124 | on valid upper-case inputs this route and EncryptVigenereAlpha give the same ciphertext |
| VigenereGeneralized.ValidationDiffers | source/vigenere_generalized.cpp:52-56 | the routes differ on bad input: the password "AB1" with "XY" is an error here and "XZ" in the direct cipher |
| VigenereGeneralized.VectorHelloWorld | source/vigenere_generalized.cpp:133-139 | "HELLOWORLD" with "B" gives "IFMMPXPSME" |
| CaesarCipher.EncryptCaesarAlpha | include/caesar_cipher.hpp:47-50 | success exactly when the text is empty or the key and every text character are capital letters. Then each letter is shifted by the key's offset mod 26. A bad key is blamed first, otherwise the first bad text character |
| CaesarCipher.IdentityKey | tests/caesar_1_test.cpp:20-26 | the key 'A' leaves an upper-case text unchanged |
| CaesarCipher.InvertedKeyDecrypts | include/caesar_cipher.hpp:52-64 | shifting with the inverted key undoes the shift, which is what a Caesar decryption must do |
| CaesarCipher.VectorHelloWorld | include/caesar_cipher.hpp:17-20 | "HELLOWORLD" with the key 'B' gives "IFMMPXPSME" |
| CaesarCipher.KeyBlamedFirst | include/caesar_cipher.hpp:47-50 | the key 'a' on the text "x" is reported as a bad key with hex "61" |
| RailFenceCipher.RailOf | include/rail_fence_cipher.hpp:57-76 | with two rails or more, every position lies on a rail below the rail count |
| RailFenceCipher.RailOrder | include/rail_fence_cipher.hpp:57-77 | the ciphertext's order lists size positions, all inside the text |
| RailFenceCipher.RailOrderFacts | include/rail_fence_cipher.hpp:57-77 | that order visits each position exactly once: rail 0 first, then rail 1, and so on, left to right within a rail |
| RailFenceCipher.WalkInBounds | include/rail_fence_cipher.hpp:67-76 | the inner loop's walk never leaves the text |
| RailFenceCipher.WalkFrom | include/rail_fence_cipher.hpp:59-76 | from any stop on a rail, the gaps (num_rails - rail - 1) * 2 and its complement, taken in turn and skipping a zero gap, emit exactly the rail's remaining positions, ascending |
| RailFenceCipher.WalkIsRail | include/rail_fence_cipher.hpp:59-76 | the inner loop's whole walk for a rail is the ascending list of that rail's positions |
| RailFenceCipher.RailsFit | include/rail_fence_cipher.hpp:56-77 | the rails done so far and the current rail never need more ciphertext slots than the text has |
| RailFenceCipher.RailFence | include/rail_fence_cipher.hpp:36-79 | a non-capital text is refused first, then zero rails. Success exactly otherwise, giving capital letters of the text's length |
| RailFenceCipher.EncryptRailFenceAlpha | include/rail_fence_cipher.hpp:36-79 | the checks, the one-rail identity and the nested loops return what RailFence specifies |
| RailFenceCipher.ReadRails | include/rail_fence_cipher.hpp:56-77 | after the outer loop the ciphertext is the text read along the rail order |
| RailFenceCipher.ReadRail | include/rail_fence_cipher.hpp:59-76 | one rail's loop appends that rail's letters, in order, after what the earlier rails wrote |
| RailFenceCipher.ReadStep | include/rail_fence_cipher.hpp:69-75 | one step of the walk copies the position reached unless the gap taken was 0, keeping the copied positions followed by the walk still ahead equal to the rail's walk |
| RailFenceCipher.ReadLetter | include/rail_fence_cipher.hpp:69-72 | one copy extends the written prefix by the letter at the walk's position |
| RailFenceCipher.RailFenceDecrypt | include/rail_fence_cipher.hpp:90-133 | the same checks and the same error order, success exactly otherwise, with a result of the ciphertext's length |
| RailFenceCipher.DecryptRailFenceAlpha | include/rail_fence_cipher.hpp:90-133 | the checks, the identity and the nested loops return what RailFenceDecrypt specifies |
| RailFenceCipher.WriteRails | include/rail_fence_cipher.hpp:110-131 | after the outer loop, each ciphertext letter stands at the position the rail order gives it |
| RailFenceCipher.WriteRail | include/rail_fence_cipher.hpp:113-130 | one rail's loop writes the next ciphertext letters to that rail's positions and touches nothing else |
| RailFenceCipher.WriteLetter | include/rail_fence_cipher.hpp:123-126 | one write puts the next ciphertext letter at the walk's position |
| RailFenceCipher.OneRailIdentity | tests/rail_fence_1_test.cpp:22-100 | one rail leaves an upper-case text unchanged, encrypting and decrypting |
| RailFenceCipher.EncryptPermutes | include/rail_fence_cipher.hpp:57-77 | encryption is a rearrangement: the same multiset of letters, letter j being the one at position j of the rail order |
| RailFenceCipher.DecryptEncrypt | include/rail_fence_cipher.hpp:90-133 | decrypting an encryption with the same rail count gives the plaintext back |
| RailFenceCipher.EncryptDecrypt | include/rail_fence_cipher.hpp:36-79 | encrypting a decryption gives the ciphertext back: both are bijections |
| RailFenceCipher.ScatteredUpper | include/rail_fence_cipher.hpp:121-130 | writing capital letters to every position of the text leaves only capital letters |
| RailFenceCipher.RailWalksAreBuckets | include/rail_fence_cipher.hpp:57-77 | the walks of rails 0..k-1 in turn are the positions of those rails grouped by rail |
| RailFenceCipher.RailWalkAlternates | include/rail_fence_cipher.hpp:59-76 | a rail's walk starts at the rail and steps by the two gaps alternately; the first and last rails step by their one nonzero gap |
| RailFenceCipher.GatheredVector | include/rail_fence_cipher.hpp:36-79 | an order known to be the rail order gives the ciphertext by reading the text along it |
| RailFenceCipher.DecryptedVector | include/rail_fence_cipher.hpp:90-133 | a known encryption is a known decryption the other way round |
| RailFenceCipher.VectorFleeAtOnce2 | tests/rail_fence_1_test.cpp:43-52 | "WEAREDISCOVEREDFLEEATONCE" on 2 rails gives "WAEICVRDLETNEERDSOEEFEAOC" |
| RailFenceCipher.VectorFleeAtOnce3 | tests/rail_fence_1_test.cpp:55-64 | the message on 3 rails gives "WECRLTEERDSOEEFEAOCAIVDEN" |
| RailFenceCipher.VectorFleeAtOnce4 | tests/rail_fence_1_test.cpp:67-76 | the message on 4 rails gives "WIREEEDSEEEACAECVDLTNROFO" |
| RailFenceCipher.VectorFleeAtOnce5 | tests/rail_fence_1_test.cpp:79-88 | the message on 5 rails gives "WCLEESOFECAIVDENRDEEAOERT" |
| RailFenceCipher.VectorFleeAtOnceDecrypt2 | tests/rail_fence_1_test.cpp:103-112 | the 2-rail ciphertext decrypts to the message |
| RailFenceCipher.VectorFleeAtOnceDecrypt3 | tests/rail_fence_1_test.cpp:115-124 | the 3-rail ciphertext decrypts to the message |
| RailFenceCipher.VectorFleeAtOnceDecrypt4 | tests/rail_fence_1_test.cpp:127-136 | the 4-rail ciphertext decrypts to the message |
| RailFenceCipher.VectorFleeAtOnceDecrypt5 | tests/rail_fence_1_test.cpp:139-148 | the 5-rail ciphertext decrypts to the message |
| IndexWalks.GatherPermutation | include/scytale_cipher.hpp:73-81 | reading a text along a permutation of its positions keeps its multiset of letters |
| IndexWalks.ScatterGather | include/rail_fence_cipher.hpp:121-130 | writing back, along the same permutation, what was read along it restores the text |
| IndexWalks.GatherScatter | include/rail_fence_cipher.hpp:67-76 | reading back, along the same permutation, what was written along it gives the written values |
| IndexWalks.ScatterAppend | include/rail_fence_cipher.hpp:111-131 | writing along a walk and then along another is writing along their concatenation |
| IndexWalks.BucketsPermutation | include/rail_fence_cipher.hpp:57-77 | grouping the positions by a slot below k lists each position exactly once |
| IndexWalks.BucketsSorted | include/rail_fence_cipher.hpp:57-77 | the grouping is by slot, and ascending within a slot |
| IndexWalks.ColumnIsMembers | include/scytale_cipher.hpp:77-80 | stepping by w from c lists exactly the positions with remainder c mod w, ascending |
| IndexWalks.ColumnsPermutation | include/scytale_cipher.hpp:75-81 | the w columns, one after the other, list each position exactly once |
| IndexWalks.ReadColumn | include/scytale_cipher.hpp:77-80 | the column loop appends the column's letters after what was already written, and moves the write index by the column's length |
| ScytaleCipher.Resize | include/scytale_cipher.hpp:71 | `resize` leaves the requested length |
| ScytaleCipher.ScytaleOrder | include/scytale_cipher.hpp:75-81 | the reading order is a permutation of the text's positions |
| ScytaleCipher.Scytale | include/scytale_cipher.hpp:67-82 | the output has the text's length. Width 0 leaves the caller's buffer, resized |
| ScytaleCipher.ScytaleDecrypt | include/scytale_cipher.hpp:92-97 | the output has the ciphertext's length |
| ScytaleCipher.EncryptScytaleAlpha | include/scytale_cipher.hpp:67-82 | the column-by-column loops return what Scytale specifies |
| ScytaleCipher.DecryptScytaleAlpha | include/scytale_cipher.hpp:92-97 | re-encryption with the wrapped column height returns what ScytaleDecrypt specifies |
| ScytaleCipher.ScytaleReadsColumns | include/scytale_cipher.hpp:15-38 | the ciphertext is column 0 of the rows (letters 0, w, 2w, ...), then column 1, up to column w - 1 |
| ScytaleCipher.ScytalePermutes | include/scytale_cipher.hpp:67-82 | with a positive width, encryption keeps the multiset of letters |
| ScytaleCipher.ColumnHeightIsRows | include/scytale_cipher.hpp:95 | for a non-empty text the computed column height is the row count ⌈n / w⌉, and the rows hold the text |
| ScytaleCipher.DecryptEmpty | include/scytale_cipher.hpp:92-97 | an empty ciphertext decrypts to an empty text, whatever the wrapped column height is |
| ScytaleCipher.ScytaleInverse | include/scytale_cipher.hpp:84-97 | the intended decryption has the ciphertext's length |
| ScytaleCipher.InverseUndoesScytale | include/scytale_cipher.hpp:84-97 | the intended decryption recovers every plaintext, whatever its length |
| ScytaleCipher.ScytaleUndoesInverse | include/scytale_cipher.hpp:84-97 | every ciphertext is the encryption of its intended decryption |
| ScytaleCipher.DecryptIsInverse | include/scytale_cipher.hpp:92-97 | with at most one short column, or a single row, the source's decryption is the intended one |
| ScytaleCipher.DecryptEncrypt | include/scytale_cipher.hpp:92-97 | in such grids, decrypting an encryption with the same width gives the text back |
| ScytaleCipher.ScytaleIdentity | tests/scytale_1_test.cpp:20-28 | width 1, or a width holding the whole text in one row, leaves the text unchanged |
| ScytaleCipher.FiveColumnVector | include/scytale_cipher.hpp:20-38 | in rows of five, the ciphertext is the five columns read top to bottom |
| ScytaleCipher.TwoColumnVector | include/scytale_cipher.hpp:92-97 | in rows of two, the ciphertext is the two columns read top to bottom |
| ScytaleCipher.VectorGoodMorning | tests/scytale_1_test.cpp:30-38 | "GOODMORNINGWORLDANDALLWHOINHABITIT" with width 5 gives "GOGDLIIORWALNTONONWHIDIRDHATMNLAOB" |
| ScytaleCipher.VectorGoodMorningDecrypt | tests/scytale_1_test.cpp:40-48 | that ciphertext with width 5 decrypts to the text |
| ScytaleCipher.SevenEncrypts | include/scytale_cipher.hpp:67-82 | "ABCDEFG" with width 5 gives "AFBGCDE" |
| ScytaleCipher.SevenDecrypts | include/scytale_cipher.hpp:92-97 | "AFBGCDE" with width 5 decrypts to "ABCEFGD" |
| ScytaleCipher.DecryptMissesShortColumns | include/scytale_cipher.hpp:95 | with three short columns, decryption does not undo encryption: "ABCDEFG" comes back as "ABCEFGD" |
| ColumnarCipher.SortIndices | include/columnar_cipher.hpp:60-71 | the result lists the key's positions once each, their letters never decreasing |
| ColumnarCipher.PadToRows | include/columnar_cipher.hpp:86-98 | the loop appends filler letters until the length is a multiple of the width, and no more |
| ColumnarCipher.EncryptColumnarAlpha | include/columnar_cipher.hpp:79-114 | the columns of the padded text are read top to bottom, in the key's sorted order; the order used is a sorted key order |
| ColumnarCipher.PadCountLeast | include/columnar_cipher.hpp:88-97 | fewer letters than the width are ever added, and they fill the last row |
| ColumnarCipher.PadCountUnique | include/columnar_cipher.hpp:94-97 | that count is the only one below the width that fills the rows |
| ColumnarCipher.PaddingFacts | include/columnar_cipher.hpp:86-98 | the padded text starts with the plaintext and is a whole number of rows. It is less than one row longer, and upper-case fill gives upper-case padding |
| ColumnarCipher.WalkIsPermutation | include/columnar_cipher.hpp:100-113 | reading every column once, in any key order, visits every position of the padded text once |
| ColumnarCipher.ColumnarPermutes | include/columnar_cipher.hpp:79-114 | the ciphertext is a rearrangement of the padded text, and of the plaintext when no padding is needed |
| ColumnarCipher.ColumnarBlocks | include/columnar_cipher.hpp:14-34 | block j of the ciphertext is column order[j]: its k-th letter is the padded text's letter at order[j] + k times the key's length |
| ColumnarCipher.KeyOrdersAgree | include/columnar_cipher.hpp:60-71 | two sorted orders of a key with distinct letters agree on every prefix |
| ColumnarCipher.KeyOrderUnique | include/columnar_cipher.hpp:60-71 | a key with distinct letters has exactly one sorted order, so the ciphertext does not depend on the sort |
| ColumnarCipher.VectorZebras | tests/columnar_1_test.cpp:20-27 | "WEAREDISCOVEREDFLEEATONCEQKJEU" with the key "ZEBRAS" gives "EVLNEACDTKESEAQROFOJDEECUWIREE" |

## Left out

- Signed `char`: every character is read as an unsigned byte. On a platform with signed `char`,
  `IsUpperAlpha`, `CheckPlaintextRange` and the key sort in `SortIndices` compare negative
  values for bytes of 128 and above. `EncryptVigenereUpperAlpha` would then also accept
  characters below 'A', whose shifted value is negative, and `InvertCipherkey` would invert
  such characters differently: '0' gives 'R' with signed `char` but '<' in the model. Those
  behaviours are not modelled.
- Error messages: only which check failed is kept, with the offending byte's two hex digits
  where the message shows them. The message text is left out.
- Partial output: when the source throws part-way, it has already resized or partly written the
  output string. `Err` carries no output, so that partial state is not modelled.
- Aliasing: output parameters are return values, so calling a cipher with the same string as
  input and output (in-place use) is not modelled.
- DecryptCaesarAlpha: it calls `DecryptVigenereAlpha`, which is not part of this model (no file
  modelled here defines it). Caesar decryption is covered instead by
  `CaesarCipher.InvertedKeyDecrypts`, which uses the inverted key as `InvertCipherkey` produces it.
- VigenereCipher.EncryptVigenereAlpha: requires a non-empty password when the text is non-empty.
  The source dereferences the password's end iterator in that case.
- VigenereGeneralized.EncryptVigenereGeneralized: requires a non-empty key when the plaintext is
  non-empty and in range, for the same reason. `size < 256` is the `unsigned char` parameter's type.
- VigenereGeneralized.VigenereUpperAlpha: requires a non-empty key when the plaintext is
  non-empty and upper-case, for the same reason.
- ScytaleCipher.DecryptScytaleAlpha: requires a positive row width. The source divides by the
  width.
- ScytaleCipher.DecryptScytaleAlpha: an empty ciphertext makes `total_length - 1` wrap. The
  column height is then about 2^64 / w (0 for width 1). The model computes this wrap-around
  (`ColumnHeight`) but not the time the source's outer loop spends counting up to that height.
  The result is the same empty text.
- ScytaleCipher.DecryptIsInverse: assumes the text is no longer than the largest `size_t`.
  The same holds for `DecryptEncrypt` and `ColumnHeightIsRows`.
- ColumnarCipher.EncryptColumnarAlpha: requires a non-empty key (the source takes a remainder
  modulo the key's length). The letters drawn from `std::mt19937`, seeded by
  `std::random_device` and passed through `uniform_int_distribution<char>('A', 'Z')`, are a
  `filler` parameter. The encryption requires at least as many filler letters as the padding
  needs. That they are upper-case is left to the caller.
- ColumnarCipher.SortIndices: `std::sort` is not stable, so positions with equal key letters
  may come in any order. The contract (`KeyOrder`) allows every such order. The method is an
  insertion sort, which produces one of them. `EncryptColumnarAlpha` also returns the order it
  used, which the C++ function keeps to itself. `KeyOrderUnique` shows the order is determined when the key's letters
  are distinct.
- Scytale and columnar encryption accept any bytes: the source makes no letter check there,
  despite the comments, and the model makes none.
- Integer width: row widths, rail counts and indices are unbounded. The `size_t` overflow of
  `plaintext_index += gap` or `(num_rails - rail_n - 1) << 1` for widths near 2^64 is not
  modelled.
- RailFenceCipher.DecryptRailFenceAlpha: the output buffer is modelled as starting from zero
  bytes, while `resize` keeps the caller's earlier contents. Every position is overwritten
  because the rail order is a permutation (`RailOrderFacts`), so the result is the same.
- `std::isspace` is read in the C locale (space, tab, newline, vertical tab, form feed,
  carriage return). Other locales are not modelled.
- `source/cipher_main.cpp` (the command-line front end) and the `main` in
  `source/vigenere_generalized.cpp` do console I/O and are not modelled. The `main`'s example
  is `VigenereGeneralized.VectorHelloWorld`.
- The scytale test vectors over "Iamhurtverybadlyhelp" (a full 4-by-5 grid) are not restated.
  They are instances of `ScytaleCipher.DecryptEncrypt`.

## Findings

| source | as written | input that shows it | evidently intended | confidence | as-written member | corrected member |
|---|---|---|---|---|---|---|
| include/scytale_cipher.hpp:95 | decryption re-encrypts with the column height ⌈n / w⌉ as the row width. That transposes back only when the grid has no short column, exactly one short column, or a single row | "ABCDEFG" with width 5 encrypts to "AFBGCDE", which decrypts to "ABCEFGD" | decryption writes every letter back to the position encryption read it from, for every length | not executed | ScytaleCipher.DecryptMissesShortColumns | ScytaleCipher.InverseUndoesScytale |
