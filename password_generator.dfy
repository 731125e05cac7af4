/**
 * Password generation and strength scoring (lib/passwordGenerator.js).
 *
 * Generation assembles a character set from up to four fixed classes,
 * optionally drops the look-alike characters, and maps each caller-supplied
 * random 32-bit word to `charset[word % |charset|]`. Scoring counts length
 * thresholds and character classes, halves the count and looks the result up
 * in a five-level table.
 */
module PasswordGenerator {
  import opened Wrappers

  // ---------------------------------------------------------------------
  // Constants
  // ---------------------------------------------------------------------

  const Lowercase: string := "abcdefghijklmnopqrstuvwxyz"
  const Uppercase: string := "ABCDEFGHIJKLMNOPQRSTUVWXYZ"
  const Numbers: string := "0123456789"
  const Symbols: string := "!@#$%^&*()_+-=[]{}|;:,.<>?"

  /** Characters that are easy to confuse with one another. */
  const Lookalikes: string := "0O1lI"

  /** One word of the random buffer (an element of a `Uint32Array`). */
  newtype uint32 = x: int | 0 <= x < 0x1_0000_0000

  // ---------------------------------------------------------------------
  // Options and the policy they resolve to
  // ---------------------------------------------------------------------

  /** The options object as passed by a caller; `None` is a property left undefined. */
  datatype Options = Options(
    length: Option<int>,
    includeLowercase: Option<bool>,
    includeUppercase: Option<bool>,
    includeNumbers: Option<bool>,
    includeSymbols: Option<bool>,
    excludeLookalikes: Option<bool>)

  /** The options once every default has been filled in. */
  datatype Policy = Policy(
    length: int,
    includeLowercase: bool,
    includeUppercase: bool,
    includeNumbers: bool,
    includeSymbols: bool,
    excludeLookalikes: bool)
  {
    /** At least one character class is enabled. */
    predicate AnyClass() {
      includeLowercase || includeUppercase || includeNumbers || includeSymbols
    }
  }

  const DefaultLength := 16

  function OrDefault<T>(o: Option<T>, default: T): T {
    match o
    case Some(v) => v
    case None => default
  }

  /** Destructuring with defaults: an undefined length is 16, an undefined flag is true. */
  function Resolve(options: Options): (p: Policy)
    ensures options.length.Some? ==> p.length == options.length.value
    ensures options.length.None? ==> p.length == DefaultLength
    ensures options.includeLowercase.None? ==> p.includeLowercase
    ensures options.includeUppercase.None? ==> p.includeUppercase
    ensures options.includeNumbers.None? ==> p.includeNumbers
    ensures options.includeSymbols.None? ==> p.includeSymbols
    ensures options.excludeLookalikes.None? ==> p.excludeLookalikes
    ensures options.includeLowercase.Some? ==> p.includeLowercase == options.includeLowercase.value
    ensures options.includeUppercase.Some? ==> p.includeUppercase == options.includeUppercase.value
    ensures options.includeNumbers.Some? ==> p.includeNumbers == options.includeNumbers.value
    ensures options.includeSymbols.Some? ==> p.includeSymbols == options.includeSymbols.value
    ensures options.excludeLookalikes.Some? ==> p.excludeLookalikes == options.excludeLookalikes.value
  {
    Policy(
      OrDefault(options.length, DefaultLength),
      OrDefault(options.includeLowercase, true),
      OrDefault(options.includeUppercase, true),
      OrDefault(options.includeNumbers, true),
      OrDefault(options.includeSymbols, true),
      OrDefault(options.excludeLookalikes, true))
  }

  /** With no options at all, every class is on and look-alikes are dropped. */
  lemma EmptyOptionsResolveToDefaults()
    ensures var p := Resolve(Options(None, None, None, None, None, None));
      p.length == 16 && p.AnyClass() && p.excludeLookalikes
      && EffectiveCharset(p) != []
      && forall c :: c in EffectiveCharset(p) ==> c !in Lookalikes
  {
    var p := Resolve(Options(None, None, None, None, None, None));
    EffectiveCharsetEmptyIff(p);
  }

  // ---------------------------------------------------------------------
  // The look-alike filter
  // ---------------------------------------------------------------------

  /** `s` with every look-alike character removed, the others kept in order. */
  function WithoutLookalikes(s: string): (r: string)
    ensures |r| <= |s|
    ensures forall c :: c in r <==> c in s && c !in Lookalikes
  {
    if s == [] then []
    else
      assert s == [s[0]] + s[1..];
      if s[0] in Lookalikes then WithoutLookalikes(s[1..])
      else [s[0]] + WithoutLookalikes(s[1..])
  }

  /** The filter acts on one character by keeping it exactly when it is not a look-alike. */
  lemma WithoutLookalikesSingle(c: char)
    ensures WithoutLookalikes([c]) == if c in Lookalikes then [] else [c]
  {
  }

  /** The filter distributes over concatenation, so it keeps the relative order of what it keeps. */
  lemma {:induction false} WithoutLookalikesConcat(a: string, b: string)
    ensures WithoutLookalikes(a + b) == WithoutLookalikes(a) + WithoutLookalikes(b)
  {
    if a == [] {
      assert a + b == b;
    } else {
      assert (a + b)[0] == a[0];
      assert (a + b)[1..] == a[1..] + b;
      WithoutLookalikesConcat(a[1..], b);
    }
  }

  /** A string with no look-alike in it passes the filter unchanged. */
  lemma {:induction false} WithoutLookalikesKeepsClean(s: string)
    requires forall c :: c in s ==> c !in Lookalikes
    ensures WithoutLookalikes(s) == s
  {
    if s != [] {
      assert s[0] in s;
      assert forall c :: c in s[1..] ==> c in s;
      WithoutLookalikesKeepsClean(s[1..]);
      assert s == [s[0]] + s[1..];
    }
  }

  /** Filtering twice is filtering once. */
  lemma WithoutLookalikesIdempotent(s: string)
    ensures WithoutLookalikes(WithoutLookalikes(s)) == WithoutLookalikes(s)
  {
    WithoutLookalikesKeepsClean(WithoutLookalikes(s));
  }

  // ---------------------------------------------------------------------
  // The effective character set
  // ---------------------------------------------------------------------

  /** The enabled classes concatenated in the fixed order lowercase, uppercase, digits, symbols. */
  function Assembled(p: Policy): string {
    ClassIf(p.includeLowercase, Lowercase) + ClassIf(p.includeUppercase, Uppercase)
    + ClassIf(p.includeNumbers, Numbers) + ClassIf(p.includeSymbols, Symbols)
  }

  /** The characters of one class when it is enabled, none otherwise. */
  function ClassIf(enabled: bool, chars: string): string {
    if enabled then chars else ""
  }

  /** The characters a password is drawn from: the assembled classes, filtered when asked. */
  function EffectiveCharset(p: Policy): (cs: string)
    ensures p.excludeLookalikes ==> forall c :: c in cs ==> c !in Lookalikes
  {
    if p.excludeLookalikes then WithoutLookalikes(Assembled(p)) else Assembled(p)
  }

  /** A character is available exactly when an enabled class has it and it is not filtered out. */
  lemma EffectiveCharsetMembers(p: Policy, c: char)
    ensures c in EffectiveCharset(p) <==>
      ((p.includeLowercase && c in Lowercase)
       || (p.includeUppercase && c in Uppercase)
       || (p.includeNumbers && c in Numbers)
       || (p.includeSymbols && c in Symbols))
      && !(p.excludeLookalikes && c in Lookalikes)
  {
  }

  /** Filtering the assembled set is the same as assembling the filtered classes. */
  lemma EffectiveCharsetByClass(p: Policy)
    ensures EffectiveCharset(p) ==
      Part(p, p.includeLowercase, Lowercase) + Part(p, p.includeUppercase, Uppercase)
      + Part(p, p.includeNumbers, Numbers) + Part(p, p.includeSymbols, Symbols)
  {
    var l := ClassIf(p.includeLowercase, Lowercase);
    var u := ClassIf(p.includeUppercase, Uppercase);
    var n := ClassIf(p.includeNumbers, Numbers);
    var s := ClassIf(p.includeSymbols, Symbols);
    if p.excludeLookalikes {
      WithoutLookalikesConcat(l + u + n, s);
      WithoutLookalikesConcat(l + u, n);
      WithoutLookalikesConcat(l, u);
    }
  }

  /** One class's contribution to the effective set. */
  function Part(p: Policy, enabled: bool, chars: string): string {
    if p.excludeLookalikes then WithoutLookalikes(ClassIf(enabled, chars)) else ClassIf(enabled, chars)
  }

  /** Each class keeps a character after filtering, so only disabling every class empties the set. */
  lemma EffectiveCharsetEmptyIff(p: Policy)
    ensures EffectiveCharset(p) == [] <==> !p.AnyClass()
  {
    if p.includeLowercase {
      EffectiveCharsetMembers(p, 'a');
    } else if p.includeUppercase {
      EffectiveCharsetMembers(p, 'A');
    } else if p.includeNumbers {
      assert Numbers[2] == '2';
      EffectiveCharsetMembers(p, '2');
    } else if p.includeSymbols {
      EffectiveCharsetMembers(p, '!');
    }
  }

  // ---------------------------------------------------------------------
  // generatePassword
  // ---------------------------------------------------------------------

  /** The errors generatePassword throws. */
  datatype GenerateError =
    | NoCharacterType   // "At least one character type must be selected"
    | InvalidLength     // the RangeError of `new Uint32Array(length)` for a length that is not a valid index
    | QuotaExceeded     // the QuotaExceededError of `crypto.getRandomValues` for a buffer over 65536 bytes

  /** The most 32-bit words `crypto.getRandomValues` fills in one call: 65536 bytes. */
  const MaxRandomWords := 65536 / 4

  /** The largest length `new Uint32Array` accepts as an index (`Number.MAX_SAFE_INTEGER`). */
  const MaxIndex := 0x20_0000_0000_0000 - 1

  /** Grows the character set class by class, then drops the look-alikes when asked. */
  method AssembleCharset(policy: Policy) returns (charset: string)
    ensures charset == EffectiveCharset(policy)
  {
    charset := "";
    if policy.includeLowercase { charset := charset + Lowercase; }
    assert charset == ClassIf(policy.includeLowercase, Lowercase);
    if policy.includeUppercase { charset := charset + Uppercase; }
    if policy.includeNumbers { charset := charset + Numbers; }
    if policy.includeSymbols { charset := charset + Symbols; }
    assert charset == Assembled(policy);

    if policy.excludeLookalikes {
      charset := WithoutLookalikes(charset);
    }
  }

  /**
   * Builds the character set, fails when it is empty, when the length is
   * not a valid typed-array length or when the random buffer is too large for
   * `crypto.getRandomValues`, and otherwise fills the password from `words`,
   * which stand for the `length` words that call fills the buffer with.
   */
  method GeneratePassword(policy: Policy, words: seq<uint32>) returns (r: Result<string, GenerateError>)
    requires 0 <= policy.length <= MaxRandomWords ==> |words| == policy.length
    ensures r == Failure(NoCharacterType) <==> !policy.AnyClass()
    ensures r == Failure(InvalidLength) <==>
      policy.AnyClass() && (policy.length < 0 || policy.length > MaxIndex)
    ensures r == Failure(QuotaExceeded) <==>
      policy.AnyClass() && MaxRandomWords < policy.length <= MaxIndex
    ensures policy.AnyClass() && 0 <= policy.length <= MaxRandomWords ==> r.Success?
    ensures r.Success? ==>
      var cs := EffectiveCharset(policy);
      cs != [] && |r.value| == policy.length
      && forall i :: 0 <= i < |r.value| ==> r.value[i] == cs[words[i] as int % |cs|]
    ensures r.Success? ==> forall c :: c in r.value ==> c in EffectiveCharset(policy)
    ensures r.Success? && policy.excludeLookalikes ==> forall c :: c in r.value ==> c !in Lookalikes
  {
    var charset := AssembleCharset(policy);
    EffectiveCharsetEmptyIff(policy);
    if charset == [] {
      return Failure(NoCharacterType);
    }
    if policy.length < 0 || policy.length > MaxIndex {
      return Failure(InvalidLength);
    }
    if policy.length > MaxRandomWords {
      return Failure(QuotaExceeded);
    }

    var password: string := [];
    var i := 0;
    while i < policy.length
      invariant 0 <= i <= policy.length
      invariant |password| == i
      invariant forall k :: 0 <= k < i ==> password[k] == charset[words[k] as int % |charset|]
    {
      password := password + [charset[words[i] as int % |charset|]];
      i := i + 1;
    }
    forall c | c in password
      ensures c in charset
    {
      var k :| 0 <= k < |password| && password[k] == c;
      assert 0 <= words[k] as int % |charset| < |charset|;
    }
    r := Success(password);
  }

  // ---------------------------------------------------------------------
  // calculatePasswordStrength
  // ---------------------------------------------------------------------

  /** One strength level: a score, a name (the label shown) and a display colour. */
  datatype Level = Level(score: nat, name: string, color: string)

  /** The result for an empty or absent password. */
  const NoneLevel := Level(0, "None", "bg-gray-300")

  const Levels: seq<Level> := [
    Level(0, "Very Weak", "bg-red-500"),
    Level(1, "Weak", "bg-orange-500"),
    Level(2, "Fair", "bg-yellow-500"),
    Level(3, "Strong", "bg-green-500"),
    Level(4, "Very Strong", "bg-green-600")
  ]

  predicate IsLower(c: char) { 'a' <= c <= 'z' }
  predicate IsUpper(c: char) { 'A' <= c <= 'Z' }
  predicate IsDigit(c: char) { '0' <= c <= '9' }
  /** The class `[^a-zA-Z0-9]`: anything that is not an ASCII letter or digit. */
  predicate IsOther(c: char) { !IsLower(c) && !IsUpper(c) && !IsDigit(c) }

  /** Some character of `s` is in `inClass` (a regular-expression test for one class). */
  predicate Has(s: string, inClass: char -> bool) {
    exists i :: 0 <= i < |s| && inClass(s[i])
  }

  function Point(b: bool): nat { if b then 1 else 0 }

  /** One point per length threshold reached and one per character class present. */
  function RawScore(password: string): (raw: nat)
    ensures raw <= 7
  {
    Point(|password| >= 8) + Point(|password| >= 12) + Point(|password| >= 16)
    + Point(Has(password, IsLower)) + Point(Has(password, IsUpper))
    + Point(Has(password, IsDigit)) + Point(Has(password, IsOther))
  }

  /** `min(4, floor(raw / 2))`; for every raw score that can occur the minimum never applies. */
  function Normalise(raw: nat): (score: nat)
    ensures score < |Levels|
    ensures raw <= 7 ==> score == raw / 2 && score <= 3
  {
    if raw / 2 < 4 then raw / 2 else 4
  }

  /** The strength of `password`; `None` stands for an absent argument. */
  function Strength(password: Option<string>): (r: Level)
    ensures r == NoneLevel <==> password.None? || password.value == []
    ensures r.score <= 3
    ensures r != NoneLevel ==> r == Levels[r.score] && r.score == RawScore(password.value) / 2
  {
    if password.None? || password.value == [] then NoneLevel
    else Levels[Normalise(RawScore(password.value))]
  }

  /** Every entry of the level table carries its own index as its score. */
  lemma LevelScoreIsIndex(i: nat)
    requires i < |Levels|
    ensures Levels[i].score == i
  {
  }

  /** The top level of the table is never returned. */
  lemma VeryStrongUnreachable(password: Option<string>)
    ensures Strength(password).name != "Very Strong"
    ensures Strength(password) != Levels[4]
  {
  }

  /** An empty or absent password is "None", which is not the "Very Weak" that "a" gets. */
  lemma EmptyIsNotVeryWeak()
    ensures Strength(None) == NoneLevel && Strength(Some("")) == NoneLevel
    ensures Strength(Some("a")) == Levels[0] && Strength(Some("a")).name == "Very Weak"
    ensures Strength(Some("")) != Strength(Some("a"))
  {
  }

  /** Sixteen characters with all four classes reach the highest reachable level, "Strong". */
  lemma AllClassesLongIsStrong(password: string)
    requires |password| >= 16
    requires Has(password, IsLower) && Has(password, IsUpper)
    requires Has(password, IsDigit) && Has(password, IsOther)
    ensures Strength(Some(password)) == Levels[3]
    ensures Strength(Some(password)).name == "Strong"
  {
  }

  /** A 20-character password mixing all four classes scores 3, not 4. */
  lemma TwentyCharMixedScoresThree()
    ensures Strength(Some("Aa1!Aa1!Aa1!Aa1!Aa1!")).score == 3
  {
    var p := "Aa1!Aa1!Aa1!Aa1!Aa1!";
    assert IsUpper(p[0]) && IsLower(p[1]) && IsDigit(p[2]) && IsOther(p[3]);
    AllClassesLongIsStrong(p);
  }

  /** A class present in `s` stays present after anything is appended. */
  lemma HasExtends(s: string, t: string, inClass: char -> bool)
    requires Has(s, inClass)
    ensures Has(s + t, inClass)
  {
    var i :| 0 <= i < |s| && inClass(s[i]);
    assert (s + t)[i] == s[i];
  }

  /** Appending characters to a password never lowers its score. */
  lemma StrengthMonotone(password: string, suffix: string)
    ensures Strength(Some(password + suffix)).score >= Strength(Some(password)).score
  {
    var whole := password + suffix;
    if Has(password, IsLower) { HasExtends(password, suffix, IsLower); }
    if Has(password, IsUpper) { HasExtends(password, suffix, IsUpper); }
    if Has(password, IsDigit) { HasExtends(password, suffix, IsDigit); }
    if Has(password, IsOther) { HasExtends(password, suffix, IsOther); }
    assert RawScore(whole) >= RawScore(password);
  }
}
