# Password generator and strength meter

A Dafny model of the password engine of a client-side-encrypted password
manager (`lib/passwordGenerator.js`). It has two operations:

- **generatePassword** builds a character set. It concatenates the enabled classes
  (lowercase, uppercase, digits, symbols, always in that order). It can then
  drop the look-alike characters `0 O 1 l I`. It throws when the set is empty,
  when the length is not a valid typed-array length, or when the length is
  above 16384. Otherwise it maps each word of a buffer of random 32-bit words
  to `charset[word % |charset|]`.
- **calculatePasswordStrength** scores a password. It gives one point per length
  threshold reached (8, 12, 16) and one per character class present
  (lowercase, uppercase, digit, anything not an ASCII letter or digit). It
  halves the points, caps the result at 4 and looks it up in a five-level
  table. An empty or absent password gets a separate "None" result.

Files:

- `wrappers.dfy` holds module `Wrappers`, with `Option` and `Result`.
- `password_generator.dfy` holds module `PasswordGenerator`, with the constants,
  the options, the look-alike filter, the character set, `GeneratePassword` and
  `Strength`.

The random source is an input. `GeneratePassword` takes the words that
`crypto.getRandomValues` would put in the buffer, as a sequence of `uint32`
words, one per password character. That makes generation deterministic, so the
output can be stated character by character.

Consequences of the code that the model makes explicit:

- **Top score.** The raw score is at most 7, and `floor(7 / 2) = 3`. So the
  `min(4, …)` never applies and "Very Strong" is never returned; a 20-character
  password mixing all four classes scores 3 ("Strong").
  `TwentyCharMixedScoresThree` and `VeryStrongUnreachable` state this.
- **Length.** A length of 0 gives the empty password. A negative length, or one
  above 2^53 - 1, throws the RangeError of `new Uint32Array(length)`, which
  comes after the empty-charset check (`InvalidLength`). A length from 16385
  up to 2^53 - 1 asks `crypto.getRandomValues` for more than 65536 bytes, and
  that call throws a QuotaExceededError (`QuotaExceeded`), unless the
  allocation fails first (see "Left out").
- **Empty charset.** Look-alike removal never empties a one-class set: each
  class keeps at least one character (`EffectiveCharsetEmptyIff`).

## Model

| member | source | states |
|---|---|---|
| PasswordGenerator.Resolve | lib/passwordGenerator.js:10-18 | an option left undefined takes its default (length 16, every flag true); a given option is kept as given |
| PasswordGenerator.EmptyOptionsResolveToDefaults | lib/passwordGenerator.js:10-29 | calling with no options yields length 16, every class on, look-alikes excluded, a non-empty charset with no look-alike in it |
| PasswordGenerator.WithoutLookalikes | lib/passwordGenerator.js:27-29 | the filter never lengthens the set, and a character survives exactly when it was in the set and is not one of `0O1lI` |
| PasswordGenerator.WithoutLookalikesSingle | lib/passwordGenerator.js:28 | on a single character the filter keeps it exactly when it is not a look-alike |
| PasswordGenerator.WithoutLookalikesConcat | lib/passwordGenerator.js:28 | the filter distributes over concatenation, so the kept characters stay in their original order |
| PasswordGenerator.WithoutLookalikesKeepsClean | lib/passwordGenerator.js:28 | a set with no look-alikes passes the filter unchanged |
| PasswordGenerator.WithoutLookalikesIdempotent | lib/passwordGenerator.js:28 | filtering twice equals filtering once |
| PasswordGenerator.EffectiveCharset | lib/passwordGenerator.js:20-29 | when look-alikes are excluded, no character of the effective set is a look-alike |
| PasswordGenerator.EffectiveCharsetMembers | lib/passwordGenerator.js:2-29 | a character is in the effective set exactly when an enabled class contains it and it is not removed as a look-alike |
| PasswordGenerator.EffectiveCharsetByClass | lib/passwordGenerator.js:20-29 | filtering the assembled set equals concatenating the filtered enabled classes in the order lowercase, uppercase, digits, symbols |
| PasswordGenerator.EffectiveCharsetEmptyIff | lib/passwordGenerator.js:20-33 | the effective set is empty exactly when all four include flags are false; look-alike removal alone never empties it |
| PasswordGenerator.AssembleCharset | lib/passwordGenerator.js:20-29 | growing the set class by class and then filtering yields the effective set |
| PasswordGenerator.GeneratePassword | lib/passwordGenerator.js:10-45 | throws "no character type" exactly when no class is enabled; throws the length error exactly when a class is enabled and the length is negative or above 2^53 - 1; throws the quota error exactly when a class is enabled and the length is above 16384 words (65536 bytes) and at most 2^53 - 1; succeeds whenever a class is enabled and the length is between 0 and 16384; on success the password has the requested length, its character `i` is `charset[words[i] mod |charset|]` (index always in bounds), every character is in the effective set, and with look-alikes excluded none is a look-alike |
| PasswordGenerator.RawScore | lib/passwordGenerator.js:50-61 | the raw score of three length thresholds and four class tests is at most 7 |
| PasswordGenerator.Normalise | lib/passwordGenerator.js:63-64 | the normalised score always indexes the level table; for every raw score up to 7 it is `floor(raw / 2)`, at most 3, so the cap at 4 never applies |
| PasswordGenerator.Strength | lib/passwordGenerator.js:47-75 | the "None" result is returned exactly for an absent or empty password; otherwise the result is the table entry whose index is its score, and that score is `floor(raw / 2)`, at most 3 |
| PasswordGenerator.LevelScoreIsIndex | lib/passwordGenerator.js:66-72 | every table entry's score equals its index |
| PasswordGenerator.VeryStrongUnreachable | lib/passwordGenerator.js:63-74 | no password, present or absent, is rated "Very Strong" |
| PasswordGenerator.EmptyIsNotVeryWeak | lib/passwordGenerator.js:48-67 | absent and empty passwords get "None"; "a" gets "Very Weak" (score 0); these two results differ |
| PasswordGenerator.AllClassesLongIsStrong | lib/passwordGenerator.js:50-74 | a password of 16 or more characters with all four classes is rated "Strong" (score 3) |
| PasswordGenerator.TwentyCharMixedScoresThree | lib/passwordGenerator.js:50-74 | the 20-character password `Aa1!Aa1!Aa1!Aa1!Aa1!` scores 3, not 4 |
| PasswordGenerator.HasExtends | lib/passwordGenerator.js:58-61 | a character class found in a password is still found after characters are appended |
| PasswordGenerator.StrengthMonotone | lib/passwordGenerator.js:50-64 | appending characters to any password, the empty one included, never lowers its score |

## Left out

- `lib/crypto.js` (key derivation, encryption and decryption) is not part of this model. It only wraps the CryptoJS library's PBKDF2 and AES, whose behaviour is outside the code.
- The React page `app/page_part1.js` and the HTTP handlers in `app/api/[[...path]]/route.js` are not part of this model. They are UI state, `fetch`, `localStorage` and database plumbing.
- `crypto.getRandomValues` is modelled only by its size limit (the `QuotaExceeded` error). Its output is the `words` parameter. Uniformity and the small modulo bias of `word % |charset|` are probabilistic claims and are not stated.
- GeneratePassword: does not model the RangeError that `new Uint32Array(length)` throws when the engine cannot allocate the buffer. That limit depends on the engine and on available memory, and lies somewhere between 16384 and 2^53 - 1, so for such lengths the model reports `QuotaExceeded` where the engine reports a RangeError. Both are errors; no length at which the source succeeds is reported as an error.
- Only integer lengths are modelled. A fractional or non-numeric `length` is left out; in JavaScript it follows the coercion rules of `Uint32Array` and the loop comparison.
- Option values are modelled as booleans and integers. JavaScript's truthiness of other values given as flags is not modelled.
- `Strength` takes a string or nothing. The source accepts any value and treats every falsy one as absent; non-string arguments are not modelled.
- Password length is counted in characters. JavaScript's `.length` counts UTF-16 code units, so a character outside the Basic Multilingual Plane counts twice in the source. The generator's own characters are all ASCII and are not affected.
- The regular-expression tests are modelled as character predicates over the string (`IsLower`, `IsUpper`, `IsDigit`, `IsOther`), not through a regex engine.
- The level record's `label` field is called `name` in the model, because `label` is a reserved word in Dafny.
