# Classical ciphers, modelled and verified in Dafny

This project models the seven classical ciphers of `src/utils/ciphers/`:
standard, auto-key and extended Vigenère; Playfair; affine; Hill; and the
super encryption, which is extended Vigenère followed by columnar
transposition. Each cipher is a pair of string-to-string functions and keeps
no state between calls.

Every exported function has two parts in the model:

- a specification function (`Encrypted`, `Decrypted`) that states what the
  TypeScript returns, branch by branch;
- a method (`Encrypt`, `Decrypt`) that follows the TypeScript loop step by
  step, with loop invariants proving it computes that function.

The lemmas then prove the properties the ciphers promise:

- per-position formulas;
- output lengths and alphabets;
- the empty-key and letterless-key pass-throughs;
- the error results of Affine and Hill;
- round trips in both directions;
- the places where a round trip does not hold.

Modules follow the source files:

| module | file | source |
|---|---|---|
| `Letters` | `letters.dfy` | the helpers the letter ciphers share: `charToNum`, `numToChar`, `cleanText`, JavaScript's `%` |
| `Modular` | `modular.dfy` | `gcd`, `isCoprime` and `modInverse` of `affine.ts` and `hill.ts` |
| `Vigenere` | `vigenere.dfy` | `vigenere.ts` |
| `AutoKey` | `autokey.dfy` | `autoKeyVigenere.ts` |
| `ExtendedVigenere` | `extended_vigenere.dfy` | `extendedVigenere.ts`, over UTF-16 code units |
| `Playfair` | `playfair.dfy` | `playfair.ts` |
| `Affine` | `affine.dfy` | `affine.ts` |
| `Hill` | `hill.dfy` | `hill.ts` |
| `Transposition` | `transposition.dfy` | the columnar transposition half of `superEncryption.ts` |
| `SuperEncryption` | `super_encryption.dfy` | `encryptSuperEncryption` and `decryptSuperEncryption` |

Conventions:

- Strings of the letter ciphers are `string`.
- The extended Vigenère and the transposition work on `charCodeAt` values, so their texts are sequences of code units in `[0, 65536)`.
- JavaScript's truncating `%` is the function `Letters.JsRem`.
- `String.fromCharCode` keeps its argument modulo 2^16.
- The error strings of Affine and Hill are `Err` values carrying the exact literals.

Facts about the code that the model makes explicit:

- Auto-key decryption grows its key one position too early. The round trip
  holds only for a one-letter key or a text no longer than the key (see
  Findings).
- Columnar decryption shortens the columns of highest rank, not the columns
  that are actually short. The round trip holds only when those are the same
  columns (see Findings):
  - when the text fills every row;
  - when the key's characters are in ascending order;
  - in general, under `Transposition.ShortColumnsAgree`.
- A key with repeated characters makes columnar encryption drop columns.
  `getColumnOrder` gives equal characters equal ranks, so some ranks have no
  column (`indexOf` returns -1). For example, key "aab" encrypts "abc" to "ac".
- The Hill key "abcd" gives the matrix [[0,1],[2,3]], whose determinant is
  ≡ 24 (mod 26). That matrix is not invertible, so decryption with this key
  returns the error.
- A non-empty key without letters is not a pass-through for Playfair or Hill:
  - Playfair uses the plain alphabetical square;
  - Hill uses the zero matrix, which encrypts every pair to "aa".
- Extended Vigenère: the round trip is proved for text and key units below
  256. Text units must be below 256. Some wider key units break it, because
  decryption can then produce a unit above 255
  (`ExtendedVigenere.WideKeyBreaksRoundTrip`).
- Even where columnar decryption fails to round-trip, for a key without
  repeats it is a permutation of the ciphertext: the fill loop uses every
  unit exactly once (`Transposition.DecryptedPermutation`).

## Model

| member | source | states |
|---|---|---|
| Letters.JsRem | src/utils/ciphers/extendedVigenere.ts:37 | JavaScript's `%`: the remainder differs from `x` by a multiple of `m`, and it has `x`'s sign and is smaller than `abs(m)` |
| Letters.CharToNum | src/utils/ciphers/vigenere.ts:7-9 | a letter of either case maps to its position 0..25 in the alphabet |
| Letters.NumToChar | src/utils/ciphers/vigenere.ts:12-14 | a non-negative number maps to the lower-case letter at that number mod 26 |
| Letters.NumToCharIsJs | src/utils/ciphers/vigenere.ts:12-14 | for every integer, the character code is JavaScript's `num % 26` plus the code of 'a' |
| Letters.CharToNumToChar | src/utils/ciphers/vigenere.ts:7-14 | converting a letter to a number and back gives the letter in lower case |
| Letters.CleanShorter | src/utils/ciphers/vigenere.ts:17-19 | the letter filter never lengthens a string, and it leaves a string of letters unchanged |
| Letters.CleanEmpty | src/utils/ciphers/vigenere.ts:17-19 | the filtered string is empty exactly when the input has no ASCII letter |
| Letters.CleanAppend | src/utils/ciphers/vigenere.ts:17-19 | filtering distributes over concatenation |
| Letters.CleanLowerCase | src/utils/ciphers/vigenere.ts:17-19 | filtering commutes with lower-casing |
| Letters.CleanLower | src/utils/ciphers/affine.ts:17-19 | filter then lower-case: lower-case letters, as many as the input's letters, identity on lower-case letter strings |
| Letters.PairedLengthIs | src/utils/ciphers/hill.ts:128-129 | the pairs a pair loop reaches cover the length rounded down to even |
| Modular.Inverse | src/utils/ciphers/hill.ts:27-37 | -1 exactly when no `i` in [1, m) has `a·i ≡ 1 (mod m)`; otherwise the least such `i` |
| Modular.ModInverse | src/utils/ciphers/affine.ts:22-34 | the normalisation and the search loop return `Inverse(a, m)` |
| Modular.GcdIsGreatest | src/utils/ciphers/affine.ts:37-43 | for non-negative arguments, Euclid's recursion is a non-negative common divisor that every common divisor divides |
| Modular.InverseNeedsCoprime | src/utils/ciphers/affine.ts:37-43 | for `a >= 0`, if `a` has an inverse mod `m`, then `isCoprime(a, m)` holds |
| Modular.InverseUnique | src/utils/ciphers/affine.ts:22-34 | two inverses of `a` mod `m` are congruent |
| Modular.CoprimeIffInverse26 | src/utils/ciphers/affine.ts:22-43 | for `a >= 0`: `isCoprime(a, 26)` holds exactly when `modInverse(a, 26)` is not -1 |
| Vigenere.Encrypted | src/utils/ciphers/vigenere.ts:21-44 | a key without letters returns the input untouched; otherwise the output has the input's letter count and is lower case |
| Vigenere.Decrypted | src/utils/ciphers/vigenere.ts:46-69 | the same pass-through, length and alphabet for decryption |
| Vigenere.Encrypt | src/utils/ciphers/vigenere.ts:21-44 | the encryption loop computes `Encrypted` |
| Vigenere.Decrypt | src/utils/ciphers/vigenere.ts:46-69 | the decryption loop computes `Decrypted` |
| Vigenere.ShiftedForwardAt | src/utils/ciphers/vigenere.ts:31-40 | output letter `i` is `(p_i + k_(i mod abs(k))) mod 26`, with `abs(k)` the key's letter count |
| Vigenere.ShiftedBackAt | src/utils/ciphers/vigenere.ts:56-65 | output letter `i` is `(c_i - k_(i mod abs(k)) + 26) mod 26` |
| Vigenere.BackUndoesForward | src/utils/ciphers/vigenere.ts:37-62 | shifting back undoes shifting forward, up to case |
| Vigenere.ForwardUndoesBack | src/utils/ciphers/vigenere.ts:37-62 | shifting forward undoes shifting back, up to case |
| Vigenere.RoundTrip | src/utils/ciphers/vigenere.ts:21-69 | with a key that has a letter, decrypting the encryption gives the plaintext's letters, lower-cased |
| Vigenere.RoundTripInverse | src/utils/ciphers/vigenere.ts:21-69 | encrypting the decryption gives the ciphertext's letters, lower-cased |
| Vigenere.RoundTripLower | src/utils/ciphers/vigenere.ts:21-69 | on a lower-case letter string the round trip is the identity |
| Vigenere.CaseInsensitive | src/utils/ciphers/vigenere.ts:7-19 | for a key with at least one letter, texts and keys that agree up to case give identical encryptions and decryptions |
| Vigenere.EncryptHello | src/utils/ciphers/vigenere.ts:31-40 | "HELLO" under key "key" encrypts to "rijvs" |
| AutoKey.StreamLetter | src/utils/ciphers/autoKeyVigenere.ts:34-41 | key-stream letter `i` is key letter `i` below the key's length, then plaintext letter `i - abs(key)` |
| AutoKey.AutoForward | src/utils/ciphers/autoKeyVigenere.ts:34-48 | the encryption has one lower-case letter per plaintext letter |
| AutoKey.AutoForwardAt | src/utils/ciphers/autoKeyVigenere.ts:40-47 | output letter `i` is plaintext letter `i` advanced by key-stream letter `i` |
| AutoKey.AutoBack | src/utils/ciphers/autoKeyVigenere.ts:65-83 | the decryption, whose key past the given one is the decrypted text `lag` letters back, has one lower-case letter per ciphertext letter |
| AutoKey.Encrypted | src/utils/ciphers/autoKeyVigenere.ts:21-51 | a key without letters returns the input; otherwise the output has the input's letter count and is lower case |
| AutoKey.Decrypted | src/utils/ciphers/autoKeyVigenere.ts:53-86 | the same, for the decryption as written, where the key letter is the previous decrypted letter |
| AutoKey.DecryptedIntended | src/utils/ciphers/autoKeyVigenere.ts:53-86 | the same, for the corrected decryption, where the key letter is the decrypted letter `abs(key)` back |
| AutoKey.Encrypt | src/utils/ciphers/autoKeyVigenere.ts:21-51 | the loop that grows `fullKey` from the plaintext computes `Encrypted` |
| AutoKey.Decrypt | src/utils/ciphers/autoKeyVigenere.ts:53-86 | the loop that grows `fullKey` from the decrypted letters computes `Decrypted` |
| AutoKey.StreamKeyGrown | src/utils/ciphers/autoKeyVigenere.ts:35-41 | after the growth step at `i` of the encryption loop, `fullKey[i]` exists and is key-stream letter `i` |
| AutoKey.BackKeyRead | src/utils/ciphers/autoKeyVigenere.ts:68-82 | in the decryption loop `fullKey[i]` always exists: key letter `i` below the key's length, then decrypted letter `i - 1` |
| AutoKey.BackKeyGrown | src/utils/ciphers/autoKeyVigenere.ts:80-82 | the growth step, taken exactly when `abs(key) - 1 <= i < n - 1`, keeps the key invariant |
| AutoKey.BackUndoesForward | src/utils/ciphers/autoKeyVigenere.ts:35-82 | decryption with lag `abs(key)`, or with any lag on a text no longer than the key, recovers each plaintext letter in lower case |
| AutoKey.ForwardUndoesBack | src/utils/ciphers/autoKeyVigenere.ts:35-82 | encrypting the corrected decryption recovers each ciphertext letter |
| AutoKey.RoundTripIntended | src/utils/ciphers/autoKeyVigenere.ts:21-86 | with the corrected decryption, the round trip gives the plaintext's letters, lower-cased |
| AutoKey.RoundTripIntendedInverse | src/utils/ciphers/autoKeyVigenere.ts:21-86 | encrypting the corrected decryption gives the ciphertext's letters, lower-cased |
| AutoKey.RoundTripAsWritten | src/utils/ciphers/autoKeyVigenere.ts:35-82 | the source's round trip holds when the cleaned key has one letter or the text is no longer than the key |
| AutoKey.DecryptAsWrittenLosesText | src/utils/ciphers/autoKeyVigenere.ts:35-80 | "abc" under key "bc" encrypts to "bdc"; the source decrypts that to "abb", the corrected decryption to "abc" |
| ExtendedVigenere.EncryptUnit | src/utils/ciphers/extendedVigenere.ts:17 | an encrypted unit is below 256 |
| ExtendedVigenere.Shifted | src/utils/ciphers/extendedVigenere.ts:11-21 | one unit per input unit, each below 256 |
| ExtendedVigenere.Encrypted | src/utils/ciphers/extendedVigenere.ts:6-24 | an empty key returns the input; otherwise every unit is kept, so the length is the input's, and each unit is below 256 |
| ExtendedVigenere.Decrypted | src/utils/ciphers/extendedVigenere.ts:26-44 | an empty key returns the input; the length is always the input's |
| ExtendedVigenere.Encrypt | src/utils/ciphers/extendedVigenere.ts:6-24 | the loop computes `Encrypted` |
| ExtendedVigenere.Decrypt | src/utils/ciphers/extendedVigenere.ts:26-44 | the loop, with JavaScript's `%` and `fromCharCode`'s wrap, computes `Decrypted` |
| ExtendedVigenere.UnitRoundTrip | src/utils/ciphers/extendedVigenere.ts:17-37 | for a unit and a key unit below 256, decrypting the encrypted unit gives it back |
| ExtendedVigenere.UnitRoundTripInverse | src/utils/ciphers/extendedVigenere.ts:17-37 | for a unit below 256 and any key unit, encrypting the decrypted unit gives it back |
| ExtendedVigenere.RoundTrip | src/utils/ciphers/extendedVigenere.ts:6-44 | when text and key units are below 256, the round trip is the identity |
| ExtendedVigenere.RoundTripInverse | src/utils/ciphers/extendedVigenere.ts:6-44 | for a ciphertext below 256 and any key, encrypting the decryption is the identity |
| ExtendedVigenere.WideKeyBreaksRoundTrip | src/utils/ciphers/extendedVigenere.ts:17-37 | unit 1 under key unit 600 encrypts to 89, which decrypts to 65281 |
| Playfair.CleanText | src/utils/ciphers/playfair.ts:6-9 | one character per ASCII letter of the input; all are lower case and none is 'j' |
| Playfair.GenerateMatrix | src/utils/ciphers/playfair.ts:12-41 | the matrix is the five rows of `Square(key)` |
| Playfair.AddKeyLetters | src/utils/ciphers/playfair.ts:14-23 | the key loop keeps each cleaned key letter at its first occurrence, and the used set is exactly those letters |
| Playfair.AddAlphabet | src/utils/ciphers/playfair.ts:25-32 | the alphabet loop appends the unused letters other than 'j', completing `Square(key)` |
| Playfair.SliceRows | src/utils/ciphers/playfair.ts:34-38 | the slicing loop yields the five rows of the square |
| Playfair.SquareIsSquare | src/utils/ciphers/playfair.ts:12-41 | the square has 25 distinct letters, none of them 'j', and holds every other letter of the alphabet |
| Playfair.KeyLettersFirst | src/utils/ciphers/playfair.ts:17-23 | the square starts with the key's distinct letters, in first-occurrence order |
| Playfair.LetterlessKeySquare | src/utils/ciphers/playfair.ts:18-32 | a key without letters gives the alphabetical square |
| Playfair.FindCharInMatrix | src/utils/ciphers/playfair.ts:44-53 | `[-1, -1]` exactly when the character is absent; otherwise its first position in row-major order |
| Playfair.FoundIsLocate | src/utils/ciphers/playfair.ts:44-90 | for a letter of the square the search never returns -1 and finds the letter's unique position |
| Playfair.EncryptedPair | src/utils/ciphers/playfair.ts:97-113 | a digraph encrypts to two letters of the square |
| Playfair.EncryptDigraph | src/utils/ciphers/playfair.ts:86-113 | one round of the encryption loop: same row, same column or rectangle computes `EncryptedPair` |
| Playfair.DecryptDigraph | src/utils/ciphers/playfair.ts:130-157 | one round of the decryption loop computes `DecryptedPair` |
| Playfair.PairRoundTrip | src/utils/ciphers/playfair.ts:97-155 | the decryption rules undo the encryption rules on every digraph, and the other way round |
| Playfair.NoFixedLetter | src/utils/ciphers/playfair.ts:97-111 | no encrypted letter equals the letter it replaces |
| Playfair.Prepared | src/utils/ciphers/playfair.ts:56-75 | the prepared text splits into whole pairs of square letters |
| Playfair.PreparedEven | src/utils/ciphers/playfair.ts:69-72 | the prepared text has even length |
| Playfair.PrepareText | src/utils/ciphers/playfair.ts:56-75 | the preparation loop computes `Prepared` |
| Playfair.PreparedNoRepeat | src/utils/ciphers/playfair.ts:60-67 | two equal neighbours in the prepared text are both 'x' |
| Playfair.PreparedHello | src/utils/ciphers/playfair.ts:56-75 | "HELLO" prepares to "helxlo" |
| Playfair.Forward | src/utils/ciphers/playfair.ts:85-114 | the digraph loop over a text gives letters of the square, as many as the pairs it covers |
| Playfair.Backward | src/utils/ciphers/playfair.ts:127-158 | the same for decryption, which drops a trailing unpaired letter |
| Playfair.Encrypted | src/utils/ciphers/playfair.ts:77-117 | an empty key returns the input; otherwise the output is as long as the prepared text and made of square letters |
| Playfair.Decrypted | src/utils/ciphers/playfair.ts:119-164 | an empty key returns the input; otherwise the output covers the cleaned text's letters rounded down to even |
| Playfair.Encrypt | src/utils/ciphers/playfair.ts:77-117 | the method computes `Encrypted` |
| Playfair.EncryptPairs | src/utils/ciphers/playfair.ts:85-114 | the encryption loop computes `Forward` |
| Playfair.Decrypt | src/utils/ciphers/playfair.ts:119-164 | the method computes `Decrypted` |
| Playfair.DecryptPairs | src/utils/ciphers/playfair.ts:127-158 | the decryption loop, with its early break, computes `Backward` |
| Playfair.BackUndoesForward | src/utils/ciphers/playfair.ts:85-158 | on an even-length text of square letters, decryption undoes the encryption loop |
| Playfair.ForwardUndoesBack | src/utils/ciphers/playfair.ts:85-158 | on an even-length text of square letters, encryption undoes the decryption loop |
| Playfair.RoundTrip | src/utils/ciphers/playfair.ts:77-164 | with a non-empty key, decrypting the encryption gives the prepared plaintext, fillers included |
| Playfair.ForwardUndoesBackText | src/utils/ciphers/playfair.ts:119-164 | for a ciphertext with an even letter count, the digraph loop re-applied to the decryption gives back its cleaned letters |
| Playfair.LetterlessKeyExample | src/utils/ciphers/playfair.ts:18-117 | the key "1" is not a pass-through: "he" encrypts to "kc" under the alphabetical square |
| Affine.AffineForward | src/utils/ciphers/affine.ts:55-64 | one output character per letter; lower-case letters when `a` and `b` are non-negative |
| Affine.AffineBack | src/utils/ciphers/affine.ts:82-91 | one output character per letter; lower-case letters when the inverse is non-negative and `b <= 25` |
| Affine.Encrypted | src/utils/ciphers/affine.ts:45-67 | the coprimality error literal when `isCoprime(a, 26)` fails; otherwise one letter per input letter |
| Affine.Decrypted | src/utils/ciphers/affine.ts:69-94 | the same error and length for decryption |
| Affine.Encrypt | src/utils/ciphers/affine.ts:45-67 | the loop computes `Encrypted` |
| Affine.Decrypt | src/utils/ciphers/affine.ts:69-94 | the inverse search and the loop compute `Decrypted` |
| Affine.InverseOfCoprime | src/utils/ciphers/affine.ts:22-77 | for coprime `a >= 0` the inverse is in [1, 25], inverts `a` mod 26, and is the only such number |
| Affine.ResidueRoundTrip | src/utils/ciphers/affine.ts:60-87 | `aInv·((a·x + b) mod 26 - b + 26) mod 26 = x` |
| Affine.LetterRoundTrip | src/utils/ciphers/affine.ts:60-87 | decrypting an encrypted letter gives it back in lower case |
| Affine.LetterRoundTripInverse | src/utils/ciphers/affine.ts:60-87 | encrypting a decrypted letter gives it back in lower case |
| Affine.BackUndoesForward | src/utils/ciphers/affine.ts:55-91 | the decryption loop undoes the encryption loop, up to case |
| Affine.ForwardUndoesBack | src/utils/ciphers/affine.ts:55-91 | the encryption loop undoes the decryption loop, up to case |
| Affine.RoundTrip | src/utils/ciphers/affine.ts:45-94 | for coprime `a >= 0` and `0 <= b <= 25`, the round trip gives the plaintext's letters, lower-cased |
| Affine.RoundTripInverse | src/utils/ciphers/affine.ts:45-94 | encrypting the decryption gives the ciphertext's letters, lower-cased |
| Affine.EncryptHello | src/utils/ciphers/affine.ts:45-94 | ("HELLO", 5, 8) encrypts to "rclla", and "rclla" decrypts to "hello" |
| Affine.MinusThreeRefused | src/utils/ciphers/affine.ts:37-50 | `a = -3` is refused for every text and `b`: Euclid's recursion with JavaScript's `%` yields -1, although -3 has the inverse 17 |
| Affine.MinusFiveAccepted | src/utils/ciphers/affine.ts:37-43 | `a = -5` passes the test: Euclid's recursion with JavaScript's `%` ends in 1 |
| Affine.MinusFiveBreaksRoundTrip | src/utils/ciphers/affine.ts:45-94 | with `a = -5` and `b = 0`, "b" encrypts to the non-letter five below 'a', and decrypting that gives the empty string |
| Hill.Determinant | src/utils/ciphers/hill.ts:22-24 | the determinant, taken with JavaScript's `%`, lies in (-26, 26) and is congruent to `ad - bc` |
| Hill.InverseMatrixCorrect | src/utils/ciphers/hill.ts:40-62 | the inverse has entries in [0, 25], and multiplied by the key on either side it gives the identity mod 26 |
| Hill.InverseMatrixNoneIff | src/utils/ciphers/hill.ts:40-47 | `null` exactly when the determinant mod 26 is not coprime with 26 |
| Hill.PaddedKey | src/utils/ciphers/hill.ts:68-72 | the padded key starts with the cleaned key, is at least 4 long, and the rest is 'a' |
| Hill.KeyMatrix | src/utils/ciphers/hill.ts:65-79 | the entries are residues |
| Hill.KeyMatrixEntries | src/utils/ciphers/hill.ts:65-79 | the entries are the first four key letters in row-major order, 0 ('a') where the key is shorter |
| Hill.KeyToMatrix | src/utils/ciphers/hill.ts:65-79 | the padding loop computes `KeyMatrix` |
| Hill.Block | src/utils/ciphers/hill.ts:98-107 | a pair encrypts to two lower-case letters |
| Hill.HillApply | src/utils/ciphers/hill.ts:96-142 | the pair loop gives two lower-case letters per whole pair |
| Hill.PadEven | src/utils/ciphers/hill.ts:88-91 | an odd text gets a trailing 'x', an even one is unchanged |
| Hill.Encrypted | src/utils/ciphers/hill.ts:81-111 | an empty key returns the input; otherwise the output is the cleaned text's length rounded up to even, all lower case |
| Hill.Decrypted | src/utils/ciphers/hill.ts:113-145 | an empty key returns the input; a non-invertible key gives the error literal whatever the text; otherwise the cleaned length rounded down to even |
| Hill.Encrypt | src/utils/ciphers/hill.ts:81-111 | the method computes `Encrypted` |
| Hill.Decrypt | src/utils/ciphers/hill.ts:113-145 | the method computes `Decrypted` |
| Hill.MultiplyPairs | src/utils/ciphers/hill.ts:96-108 | the block loop computes `HillApply` |
| Hill.MultiplyPair | src/utils/ciphers/hill.ts:98-107 | one block computes `Block` |
| Hill.BlockRoundTrip | src/utils/ciphers/hill.ts:101-138 | the inverse matrix undoes a block, up to case |
| Hill.ApplyRoundTrip | src/utils/ciphers/hill.ts:96-142 | the inverse undoes the pair loop on even-length letter strings |
| Hill.RoundTrip | src/utils/ciphers/hill.ts:81-145 | for an invertible key, the round trip gives the cleaned plaintext padded to even length |
| Hill.RoundTripInverse | src/utils/ciphers/hill.ts:81-145 | encrypting the decryption gives the cleaned ciphertext without a trailing unpaired letter |
| Hill.TrimmedApply | src/utils/ciphers/hill.ts:128-129 | the decryption loop ignores a trailing unpaired letter |
| Hill.LetterlessKey | src/utils/ciphers/hill.ts:65-145 | a non-empty key without letters gives the zero matrix, all-'a' ciphertext, and the error on decryption |
| Hill.KeyAbcdNotInvertible | src/utils/ciphers/hill.ts:40-123 | "abcd" gives [[0,1],[2,3]] with determinant ≡ 24, so decryption returns the error |
| Hill.KeyHillMatrix | src/utils/ciphers/hill.ts:65-79 | "hill" gives [[7,8],[11,11]], which is invertible |
| Hill.HillEncryptExample | src/utils/ciphers/hill.ts:81-111 | "ab" under "hill" encrypts to "il" |
| Hill.HillDecryptExample | src/utils/ciphers/hill.ts:113-145 | "il" under "hill" decrypts to "ab" |
| Transposition.IndexOf | src/utils/ciphers/superEncryption.ts:31 | `indexOf`: the first position holding the value, or -1 when it is absent |
| Transposition.SortSorted | src/utils/ciphers/superEncryption.ts:29 | the sorted copy is in ascending code-unit order and is a permutation of the key |
| Transposition.RankIsCountLess | src/utils/ciphers/superEncryption.ts:27-32 | the rank of key position `c` is the number of key characters smaller than `key[c]` |
| Transposition.OrderIsPermutation | src/utils/ciphers/superEncryption.ts:27-32 | for a key without repeats, every rank is in range, and each rank belongs to exactly one column |
| Transposition.Table | src/utils/ciphers/superEncryption.ts:11-24 | `ceil(n / cols)` rows of `cols` cells |
| Transposition.CreateTable | src/utils/ciphers/superEncryption.ts:11-24 | the nested loops compute `Table`, with '' past the end of the text |
| Transposition.CeilDivBounds | src/utils/ciphers/superEncryption.ts:12-62 | the rows hold the text, and only the last row can have blank cells |
| Transposition.CellFilled | src/utils/ciphers/superEncryption.ts:18-19 | cell `(r, c)` holds a unit exactly when `r` is below column `c`'s length |
| Transposition.Encrypt | src/utils/ciphers/superEncryption.ts:35-55 | the method computes `Encrypted`; an empty key returns the text |
| Transposition.ReadTable | src/utils/ciphers/superEncryption.ts:44-52 | the column loop, skipping '' and missing cells, reads the columns in rank order |
| Transposition.ColumnReadIs | src/utils/ciphers/superEncryption.ts:47-51 | reading a column down the rows gives the text units at `c`, `c + cols`, and so on |
| Transposition.ColumnInCiphertext | src/utils/ciphers/superEncryption.ts:44-52 | the column of rank `i` sits whole in the ciphertext, right after the columns of lower rank |
| Transposition.EncryptedUnitsFrom | src/utils/ciphers/superEncryption.ts:44-52 | for every key, each ciphertext unit is a unit of the text |
| Transposition.EncryptedPermutation | src/utils/ciphers/superEncryption.ts:35-55 | for a key without repeats, the ciphertext is a permutation of the text |
| Transposition.EncryptedLength | src/utils/ciphers/superEncryption.ts:35-55 | for a key without repeats, the ciphertext is as long as the text |
| Transposition.RepeatedKeyDropsColumn | src/utils/ciphers/superEncryption.ts:46-50 | key "aab" gives ranks [0, 0, 2], and "abc" encrypts to "ac": column 1 is never read |
| Transposition.EmptyCells | src/utils/ciphers/superEncryption.ts:66-68 | the blank cells number fewer than `cols`, and with the text they fill every row |
| Transposition.LensDistinct | src/utils/ciphers/superEncryption.ts:74-82 | for a key without repeats, after `e` steps exactly the columns of rank `>= cols - e` are one shorter |
| Transposition.LensBound | src/utils/ciphers/superEncryption.ts:74-82 | no column length exceeds the row count |
| Transposition.Shorten | src/utils/ciphers/superEncryption.ts:74-82 | the loop that decrements `colLengths` in place leaves `Lens(order, rows, emptyCells)` |
| Transposition.FillTable | src/utils/ciphers/superEncryption.ts:85-91 | every cell of the 2-D array is the ciphertext unit that the column fill writes there, or '' for a read past the end |
| Transposition.JoinTable | src/utils/ciphers/superEncryption.ts:93-99 | the rows of the array, joined, skipping '' |
| Transposition.Decrypted | src/utils/ciphers/superEncryption.ts:58-100 | an empty key returns the text; otherwise the filled table, read row by row |
| Transposition.FillConsumesText | src/utils/ciphers/superEncryption.ts:65-91 | for a key without repeats, the column lengths the fill loop uses add up to the ciphertext's length |
| Transposition.ReadDecryptTable | src/utils/ciphers/superEncryption.ts:65-91 | for a key without repeats, the filled table read column by column in rank order is the ciphertext: each rank gets the next run of units |
| Transposition.DecryptedPermutation | src/utils/ciphers/superEncryption.ts:58-100 | for a key without repeats, decryption as written is a multiset permutation of any ciphertext |
| Transposition.DecryptedLength | src/utils/ciphers/superEncryption.ts:58-100 | for a key without repeats, decryption as written keeps the length of any ciphertext |
| Transposition.Decrypt | src/utils/ciphers/superEncryption.ts:58-100 | the method, built on the array and the column-length array, computes `Decrypted` |
| Transposition.DecryptedIntended | src/utils/ciphers/superEncryption.ts:58-100 | the corrected decryption, which shortens the last columns of the table, returns the text for an empty key |
| Transposition.RoundTripIntended | src/utils/ciphers/superEncryption.ts:35-100 | for a key without repeats, the corrected decryption undoes encryption |
| Transposition.RoundTrip | src/utils/ciphers/superEncryption.ts:35-100 | the source's decryption undoes encryption when the key has no repeats and its top ranks sit in the short columns |
| Transposition.RoundTripFullRows | src/utils/ciphers/superEncryption.ts:35-100 | the source's round trip holds when the text fills every row |
| Transposition.SortOfSorted | src/utils/ciphers/superEncryption.ts:29 | sorting an already sorted key leaves it unchanged |
| Transposition.RoundTripAscending | src/utils/ciphers/superEncryption.ts:35-100 | the source's round trip holds for an ascending key without repeats |
| Transposition.EncryptedAbcBa | src/utils/ciphers/superEncryption.ts:35-55 | "abc" under key "ba" encrypts to "bac" |
| Transposition.DecryptedBacBa | src/utils/ciphers/superEncryption.ts:58-100 | "bac" under key "ba" decrypts to "cba" |
| Transposition.DescendingKeyBreaksRoundTrip | src/utils/ciphers/superEncryption.ts:76-81 | the source's round trip turns "abc" into "cba" under key "ba"; the corrected decryption gives "abc" |
| SuperEncryption.Encrypted | src/utils/ciphers/superEncryption.ts:104-112 | either key empty returns the plaintext |
| SuperEncryption.Decrypted | src/utils/ciphers/superEncryption.ts:114-122 | either key empty returns the ciphertext |
| SuperEncryption.DecryptedIntended | src/utils/ciphers/superEncryption.ts:114-122 | the composition with the corrected columnar step, with the same pass-through |
| SuperEncryption.Encrypt | src/utils/ciphers/superEncryption.ts:104-112 | Vigenère, then transposition, computes `Encrypted` |
| SuperEncryption.Decrypt | src/utils/ciphers/superEncryption.ts:114-122 | reverse transposition, then Vigenère, computes `Decrypted` |
| SuperEncryption.CiphertextBelow256 | src/utils/ciphers/superEncryption.ts:104-112 | with both keys given, every ciphertext unit is below 256 |
| SuperEncryption.EncryptedLength | src/utils/ciphers/superEncryption.ts:104-112 | with a second key without repeats, the ciphertext is as long as the plaintext |
| SuperEncryption.DecryptedLength | src/utils/ciphers/superEncryption.ts:114-122 | with a second key without repeats, decryption as written keeps the length of any ciphertext |
| SuperEncryption.RoundTripIntended | src/utils/ciphers/superEncryption.ts:104-122 | with units below 256 and a second key without repeats, the corrected decryption undoes encryption |
| SuperEncryption.RoundTrip | src/utils/ciphers/superEncryption.ts:104-122 | the source's round trip holds when, in addition, the top-ranked columns are the short ones |

## Left out

- The web front end is not part of this model. That covers `src/pages/Index.tsx`, `src/components/CipherSelector.tsx` and `src/components/CipherInput.tsx`: they are React state and presentation.
- `src/components/FileEncryptor.tsx` is not part of this model. It is FileReader, Blob and DOM I/O, and its XOR relies on `TextEncoder`.
- The regular expressions of `cleanText` are not modelled as such. They are written out as an explicit filter on ASCII letters, with lower-casing and the 'j'→'i' replacement where each file does those.
- `Math.ceil(text.length / cols)` is not modelled as floating point. It is the exact integer ceiling, which it equals for every string length.
- `Array.prototype.sort` on the key's characters is not modelled as the library call. It is an insertion sort by code unit, which is how the default sort orders one-unit strings. `Transposition.SortSorted` proves the result sorted and a permutation of the key.
- Strings that go through `charCodeAt` or `split('')` are sequences of UTF-16 code units. These are the extended Vigenère and the transposition strings. Surrogate pairs are two units, as in JavaScript. The letter ciphers only ever keep ASCII letters.
- JavaScript numbers are unbounded integers in the model. The arithmetic in every cipher stays far below 2^53, except the affine `a·x` for huge `a`, which the model does not round.
- `colLengths[-1]--` is modelled as no change to the column lengths. JavaScript runs it when a repeated key leaves a rank without a column, and it sets the array's property `-1` to NaN. The fill loop reads that property back at `superEncryption.ts:88` for the same missing rank, where `j < NaN` is false, so it writes nothing. `Transposition.FillCount` gives 0 for a rank without a column, which is the same outcome.
- `text[textIndex++]` beyond the end of the ciphertext is modelled as ''. JavaScript reads `undefined` there, and `join('')` prints it as ''.
- Transposition.RoundTrip: it needs `ShortColumnsAgree`, because the source shortens the wrong columns (see Findings).
- SuperEncryption.RoundTrip: it needs the same condition for the same reason.
- AutoKey.RoundTripAsWritten: the round trip is stated only for a one-letter key or a text no longer than the key, because it fails otherwise (see Findings).
- ExtendedVigenere.RoundTrip: it is stated for text and key units below 256, the range the cipher is written for. The bound on the text is needed. The bound on the key is sufficient but not necessary: some wider key units still round-trip, and others break it (`ExtendedVigenere.WideKeyBreaksRoundTrip`).
- Affine.RoundTrip: it needs `a >= 0` and `0 <= b <= 25`. The front end's input fields declare such ranges but do not enforce them: it passes `parseInt(val) || 1` and `parseInt(val) || 0` unclamped. A negative `b`, or a negative `a` that passes the coprimality test (such as -5, see `Affine.MinusFiveBreaksRoundTrip`), makes JavaScript's negative remainder yield characters below 'a'.
- Transposition.EncryptedPermutation: it needs a key without repeats. `Transposition.RepeatedKeyDropsColumn` shows that a repeated key loses units.
- Playfair.RoundTrip: it gives back the prepared text, fillers included, not the plaintext. The source keeps the fillers on purpose.
- Hill.RoundTrip: it gives back the padded, cleaned text, not the plaintext. This is what the source computes.

## Findings

| source | as written | input that shows it | evidently intended | confidence | as-written member | corrected member |
|---|---|---|---|---|---|---|
| src/utils/ciphers/autoKeyVigenere.ts:80 | decryption appends decrypted letters to the key from position `abs(key) - 1` on, so past the key the key letter is the previous decrypted letter | plaintext "abc", key "bc": encryption gives "bdc", decryption gives "abb" | the key letter at position `i >= abs(key)` is decrypted letter `i - abs(key)`, mirroring line 35 of the encryption | high; not executed | AutoKey.Decrypted (AutoKey.DecryptAsWrittenLosesText) | AutoKey.DecryptedIntended (AutoKey.RoundTripIntended) |
| src/utils/ciphers/superEncryption.ts:76-81 | decryption shortens the columns whose rank is among the top `emptyCells` ranks | text "abc", key "ba": encryption gives "bac", decryption gives "cba" | shorten the last `emptyCells` columns of the table, which are the ones `createTranspositionTable` leaves with a blank | high; not executed | Transposition.Decrypted (Transposition.DescendingKeyBreaksRoundTrip) | Transposition.DecryptedIntended (Transposition.RoundTripIntended) |
