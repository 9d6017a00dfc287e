/**
 * The string <-> number encoding used by the string histograms.
 *
 * A string over a range of consecutive `supported_characters` is mapped onto an integer so that
 * the lexicographic order of strings with at most `string_prefix_length` characters becomes the
 * order of integers.  Longer strings are mapped onto the representation of their prefix plus one.
 */
module HistogramUtils {
  import opened Wrappers
  import opened Arithmetic

  const UINT64_MODULUS: int := 0x1_0000_0000_0000_0000

  type uint64 = x: int | 0 <= x < UINT64_MODULUS

  function Pow(b: nat, e: nat): nat
  {
    if e == 0 then 1 else b * Pow(b, e - 1)
  }

  // ---------------------------------------------------------------------------------------------
  // ipow

  lemma {:induction false} PowMod(b: nat, e: nat)
    ensures Pow(b % UINT64_MODULUS, e) % UINT64_MODULUS == Pow(b, e) % UINT64_MODULUS
    decreases e
  {
    if e > 0 {
      var m := UINT64_MODULUS;
      PowMod(b, e - 1);
      calc {
        Pow(b % m, e) % m;
        ((b % m) * Pow(b % m, e - 1)) % m;
        { ModMulLeft(b, Pow(b % m, e - 1), m); }
        (b * Pow(b % m, e - 1)) % m;
        { ModMulRight(b, Pow(b % m, e - 1), m); }
        (b * (Pow(b % m, e - 1) % m)) % m;
        { ModMulRight(b, Pow(b, e - 1), m); }
        (b * Pow(b, e - 1)) % m;
      }
    }
  }

  lemma {:induction false} PowSquare(b: nat, k: nat)
    ensures Pow(b * b, k) == Pow(b, 2 * k)
    decreases k
  {
    if k > 0 {
      PowSquare(b, k - 1);
      assert Pow(b, 2 * k) == b * (b * Pow(b, 2 * (k - 1)));
    }
  }

  /** One odd step of `ipow`: multiplying `result` by `base` (mod 2^64) consumes the low exponent bit. */
  lemma IPowOddStep(result: nat, base: nat, exp: nat)
    requires exp % 2 == 1
    ensures (((result * base) % UINT64_MODULUS) * Pow(base, exp - 1)) % UINT64_MODULUS
         == (result * Pow(base, exp)) % UINT64_MODULUS
  {
    ModMulLeft(result * base, Pow(base, exp - 1), UINT64_MODULUS);
    assert (result * base) * Pow(base, exp - 1) == result * Pow(base, exp);
  }

  /** One squaring step of `ipow`: squaring `base` (mod 2^64) halves the exponent. */
  lemma IPowSquareStep(result: nat, base: nat, k: nat)
    ensures (result * Pow((base * base) % UINT64_MODULUS, k)) % UINT64_MODULUS
         == (result * Pow(base, 2 * k)) % UINT64_MODULUS
  {
    var m := UINT64_MODULUS;
    PowMod(base * base, k);
    ModMulRight(result, Pow((base * base) % m, k), m);
    ModMulRight(result, Pow(base * base, k), m);
    PowSquare(base, k);
  }

  /**
   * `ipow`: exponentiation by squaring on `uint64`, so every multiplication wraps modulo 2^64.
   * `exp & 1` and `exp >>= 1` are the remainder and the quotient by 2.
   */
  method IPow(base0: uint64, exp0: uint64) returns (result: uint64)
    ensures result == Pow(base0, exp0) % UINT64_MODULUS
  {
    result := 1;
    var base: uint64 := base0;
    var exp: uint64 := exp0;
    while true
      invariant (result * Pow(base, exp)) % UINT64_MODULUS == Pow(base0, exp0) % UINT64_MODULUS
      decreases exp
    {
      if exp % 2 == 1 {
        IPowOddStep(result, base, exp);
        result := (result * base) % UINT64_MODULUS;
        assert 2 * (exp / 2) == exp - 1;
      } else {
        assert 2 * (exp / 2) == exp;
      }
      exp := exp / 2;
      if exp == 0 {
        break;
      }
      IPowSquareStep(result, base, exp);
      base := (base * base) % UINT64_MODULUS;
    }
  }

  // ---------------------------------------------------------------------------------------------
  // Base values and the largest representation.

  /** `base_value_for_prefix_length` without wrap-around: 1 + n^1 + ... + n^(L-1). */
  function BaseValue(n: nat, prefixLength: nat): (b: nat)
    ensures b >= 1
  {
    if prefixLength <= 1 then 1 else BaseValue(n, prefixLength - 1) + Pow(n, prefixLength - 1)
  }

  /** n^1 + ... + n^L: the representation of the string of L last supported characters. */
  function MaxRepr(n: nat, prefixLength: nat): nat
  {
    if prefixLength == 0 then 0 else MaxRepr(n, prefixLength - 1) + Pow(n, prefixLength)
  }

  /** One wrapping addition of the loop in `base_value_for_prefix_length`. */
  lemma BaseValueModStep(n: nat, exp: nat, result: int, power: int)
    requires exp >= 1
    requires result == BaseValue(n, exp) % UINT64_MODULUS && power == Pow(n, exp) % UINT64_MODULUS
    ensures (result + power) % UINT64_MODULUS == BaseValue(n, exp + 1) % UINT64_MODULUS
  {
    ModAdd(BaseValue(n, exp), Pow(n, exp), UINT64_MODULUS);
  }

  method BaseValueForPrefixLength(prefixLength: uint64, numCharacters: uint64) returns (result: uint64)
    ensures result == BaseValue(numCharacters, prefixLength) % UINT64_MODULUS
  {
    result := 1;
    var exp: uint64 := 1;
    while exp < prefixLength
      invariant 1 <= exp
      invariant exp <= prefixLength || exp == 1
      invariant result == BaseValue(numCharacters, exp) % UINT64_MODULUS
      decreases prefixLength - exp
    {
      var power := IPow(numCharacters, exp);
      BaseValueModStep(numCharacters, exp, result, power);
      result := (result + power) % UINT64_MODULUS;
      exp := exp + 1;
    }
  }

  lemma {:induction false} BaseValueIsMaxReprPlusOne(n: nat, prefixLength: nat)
    requires prefixLength >= 1
    ensures BaseValue(n, prefixLength) == MaxRepr(n, prefixLength - 1) + 1
    decreases prefixLength
  {
    if prefixLength > 1 {
      BaseValueIsMaxReprPlusOne(n, prefixLength - 1);
    }
  }

  lemma {:induction false} MaxReprIsMultipleOfBase(n: nat, prefixLength: nat)
    requires prefixLength >= 1
    ensures MaxRepr(n, prefixLength) == n * BaseValue(n, prefixLength)
    decreases prefixLength
  {
    if prefixLength > 1 {
      calc {
        MaxRepr(n, prefixLength);
        MaxRepr(n, prefixLength - 1) + Pow(n, prefixLength);
        { MaxReprIsMultipleOfBase(n, prefixLength - 1); }
        n * BaseValue(n, prefixLength - 1) + n * Pow(n, prefixLength - 1);
        { MulAdd(n, BaseValue(n, prefixLength - 1), Pow(n, prefixLength - 1)); }
        n * (BaseValue(n, prefixLength - 1) + Pow(n, prefixLength - 1));
        n * BaseValue(n, prefixLength);
      }
    } else {
      assert Pow(n, 1) == n * Pow(n, 0);
    }
  }

  /** Horner form of the base values: Base(L+1) = n * Base(L) + 1. */
  lemma BaseValueStep(n: nat, prefixLength: nat)
    requires prefixLength >= 1
    ensures BaseValue(n, prefixLength + 1) == n * BaseValue(n, prefixLength) + 1
  {
    BaseValueIsMaxReprPlusOne(n, prefixLength + 1);
    MaxReprIsMultipleOfBase(n, prefixLength);
  }

  // ---------------------------------------------------------------------------------------------
  // Supported characters.

  /** The characters form a consecutive, ascending range (checked by the string histogram constructor). */
  predicate Consecutive(chars: string)
  {
    forall i :: 0 <= i < |chars| ==> chars[i] as int == chars[0] as int + i
  }

  predicate ValidCharacters(chars: string)
  {
    |chars| > 0 && Consecutive(chars)
  }

  predicate Supported(s: string, chars: string)
  {
    forall i :: 0 <= i < |s| ==> s[i] in chars
  }

  /** Index of a supported character, computed as in the source as `c - supported_characters.front()`. */
  function CharIndex(c: char, chars: string): (k: nat)
    requires ValidCharacters(chars) && c in chars
    ensures k < |chars| && chars[k] == c
  {
    c as int - chars[0] as int
  }

  lemma CharIndexOf(chars: string, k: nat)
    requires ValidCharacters(chars) && k < |chars|
    ensures CharIndex(chars[k], chars) == k
  {
  }

  function Repeat(c: char, k: nat): (s: string)
    ensures |s| == k && forall i :: 0 <= i < k ==> s[i] == c
  {
    if k == 0 then "" else Repeat(c, k - 1) + [c]
  }

  lemma SuffixSupported(s: string, chars: string)
    requires |s| > 0 && Supported(s, chars)
    ensures Supported(s[1..], chars)
  {
    forall i | 0 <= i < |s| - 1 ensures s[1..][i] in chars {
      assert s[1..][i] == s[i + 1];
    }
  }

  lemma PrefixSupported(s: string, k: nat, chars: string)
    requires k <= |s| && Supported(s, chars)
    ensures Supported(s[..k], chars)
  {
    forall i | 0 <= i < k ensures s[..k][i] in chars {
      assert s[..k][i] == s[i];
    }
  }

  lemma AppendSupported(p: string, c: char, chars: string)
    requires Supported(p, chars) && c in chars
    ensures Supported(p + [c], chars)
  {
    forall i | 0 <= i < |p| + 1 ensures (p + [c])[i] in chars {
      if i < |p| {
        assert (p + [c])[i] == p[i];
      }
    }
  }

  // ---------------------------------------------------------------------------------------------
  // convert_string_to_number_representation

  /** The representation of a supported string (the computation after the Asserts on its characters). */
  function Repr(s: string, chars: string, prefixLength: nat): nat
    requires ValidCharacters(chars) && Supported(s, chars)
    requires prefixLength > 0 || s == ""
    decreases |s|
  {
    if s == "" then 0
    else
      var trimmed := s[..Min(prefixLength, |s|)];
      PrefixSupported(s, Min(prefixLength, |s|), chars);
      SuffixSupported(trimmed, chars);
      MulNonNegative(CharIndex(trimmed[0], chars), BaseValue(|chars|, prefixLength));
      CharIndex(trimmed[0], chars) * BaseValue(|chars|, prefixLength) + 1
      + Repr(trimmed[1..], chars, prefixLength - 1)
      + (if |s| > prefixLength then 1 else 0)
  }

  /**
   * `convert_string_to_number_representation`: the empty string maps to 0; any other string with a
   * character outside the supported set fails the `Assert`.  The `DebugAssert` on the prefix length
   * is a precondition.
   */
  function ConvertStringToNumber(s: string, chars: string, prefixLength: nat): (r: Result<nat>)
    requires ValidCharacters(chars)
    requires prefixLength > 0 || s == ""
    ensures s == "" ==> r == Success(0)
    ensures r.Success? <==> Supported(s, chars)
    ensures r.Success? ==> r.value == Repr(s, chars, prefixLength)
  {
    if s == "" then Success(0)
    else if !Supported(s, chars) then Failure("Unsupported characters.")
    else Success(Repr(s, chars, prefixLength))
  }

  /** The recursion of the representation for a nonempty string within the prefix. */
  lemma ReprUnfold(s: string, chars: string, prefixLength: nat)
    requires ValidCharacters(chars) && Supported(s, chars)
    requires 0 < |s| <= prefixLength
    ensures Supported(s[1..], chars)
    ensures Repr(s, chars, prefixLength)
         == CharIndex(s[0], chars) * BaseValue(|chars|, prefixLength) + 1 + Repr(s[1..], chars, prefixLength - 1)
  {
    SuffixSupported(s, chars);
    assert s[..Min(prefixLength, |s|)] == s;
  }

  /** Appending one character at depth |p| adds its index times the base value of that depth, plus one. */
  lemma {:induction false} ReprAppend(p: string, c: char, chars: string, prefixLength: nat)
    requires ValidCharacters(chars) && Supported(p, chars) && c in chars
    requires |p| + 1 <= prefixLength
    ensures Supported(p + [c], chars)
    ensures Repr(p + [c], chars, prefixLength)
         == Repr(p, chars, prefixLength) + CharIndex(c, chars) * BaseValue(|chars|, prefixLength - |p|) + 1
    decreases |p|
  {
    var s := p + [c];
    AppendSupported(p, c, chars);
    ReprUnfold(s, chars, prefixLength);
    if p == "" {
      assert s[1..] == "";
    } else {
      ReprUnfold(p, chars, prefixLength);
      assert s[1..] == p[1..] + [c];
      ReprAppend(p[1..], c, chars, prefixLength - 1);
    }
  }

  /** A string longer than the prefix maps onto the representation of its prefix, plus one. */
  lemma ReprOfLongString(s: string, chars: string, prefixLength: nat)
    requires ValidCharacters(chars) && Supported(s, chars)
    requires prefixLength > 0 && |s| > prefixLength
    ensures Supported(s[..prefixLength], chars)
    ensures Repr(s, chars, prefixLength) == Repr(s[..prefixLength], chars, prefixLength) + 1
  {
    var t := s[..prefixLength];
    PrefixSupported(s, prefixLength, chars);
    assert t[..Min(prefixLength, |t|)] == t;
  }

  /** Strings no longer than the prefix map into [0, MaxRepr]. */
  lemma {:induction false} ReprBound(s: string, chars: string, prefixLength: nat)
    requires ValidCharacters(chars) && Supported(s, chars)
    requires |s| <= prefixLength
    ensures Repr(s, chars, prefixLength) <= MaxRepr(|chars|, prefixLength)
    decreases |s|
  {
    if s != "" {
      var n := |chars|;
      var b := BaseValue(n, prefixLength);
      ReprUnfold(s, chars, prefixLength);
      ReprBound(s[1..], chars, prefixLength - 1);
      BaseValueIsMaxReprPlusOne(n, prefixLength);
      MaxReprIsMultipleOfBase(n, prefixLength);
      var k := CharIndex(s[0], chars);
      MulMonotone(k, n - 1, b);
      MulSucc(n - 1, b);
    }
  }

  /** The all-last-character string of full length is the largest representation (475254 for a..z, 4). */
  lemma {:induction false} ReprOfLastString(chars: string, prefixLength: nat)
    requires ValidCharacters(chars)
    ensures Supported(Repeat(chars[|chars| - 1], prefixLength), chars)
    ensures Repr(Repeat(chars[|chars| - 1], prefixLength), chars, prefixLength) == MaxRepr(|chars|, prefixLength)
    decreases prefixLength
  {
    var n := |chars|;
    var last := chars[n - 1];
    var s := Repeat(last, prefixLength);
    assert Supported(s, chars) by {
      forall i | 0 <= i < |s| ensures s[i] in chars {
        assert s[i] == chars[n - 1];
      }
    }
    if prefixLength > 0 {
      ReprOfLastString(chars, prefixLength - 1);
      ReprUnfold(s, chars, prefixLength);
      assert s[1..] == Repeat(last, prefixLength - 1);
      CharIndexOf(chars, n - 1);
      BaseValueIsMaxReprPlusOne(n, prefixLength);
      MaxReprIsMultipleOfBase(n, prefixLength);
      var b := BaseValue(n, prefixLength);
      MulSucc(n - 1, b);
    }
  }

  // ---------------------------------------------------------------------------------------------
  // convert_number_representation_to_string

  /**
   * `convert_number_representation_to_string`.  The `DebugAssert` that the value does not exceed the
   * representation of the all-last-character string is a precondition; under it `chars.at` never throws.
   */
  function ToStr(v: nat, chars: string, prefixLength: nat): (s: string)
    requires ValidCharacters(chars)
    requires v <= MaxRepr(|chars|, prefixLength)
    ensures |s| <= prefixLength && Supported(s, chars)
    ensures v == 0 <==> s == ""
    decreases prefixLength
  {
    if v == 0 then ""
    else
      var n := |chars|;
      var b := BaseValue(n, prefixLength);
      BaseValueIsMaxReprPlusOne(n, prefixLength);
      MaxReprIsMultipleOfBase(n, prefixLength);
      DivBelow(v - 1, b, n);
      var rest := ToStr((v - 1) % b, chars, prefixLength - 1);
      var s := [chars[(v - 1) / b]] + rest;
      assert forall i :: 1 <= i < |s| ==> s[i] == rest[i - 1];
      s
  }

  /** The first step of number->string for a positive value. */
  lemma ToStrUnfold(v: nat, chars: string, prefixLength: nat)
    requires ValidCharacters(chars)
    requires 0 < v <= MaxRepr(|chars|, prefixLength)
    ensures prefixLength > 0
    ensures 0 <= (v - 1) / BaseValue(|chars|, prefixLength) < |chars|
    ensures (v - 1) % BaseValue(|chars|, prefixLength) <= MaxRepr(|chars|, prefixLength - 1)
    ensures ToStr(v, chars, prefixLength)
         == [chars[(v - 1) / BaseValue(|chars|, prefixLength)]]
            + ToStr((v - 1) % BaseValue(|chars|, prefixLength), chars, prefixLength - 1)
  {
    var n := |chars|;
    BaseValueIsMaxReprPlusOne(n, prefixLength);
    MaxReprIsMultipleOfBase(n, prefixLength);
    DivBelow(v - 1, BaseValue(n, prefixLength), n);
  }

  /** Round trip on numbers: string->number(number->string(v)) == v over the whole range. */
  lemma {:induction false} ReprOfToStr(v: nat, chars: string, prefixLength: nat)
    requires ValidCharacters(chars)
    requires v <= MaxRepr(|chars|, prefixLength)
    ensures prefixLength > 0 || ToStr(v, chars, prefixLength) == ""
    ensures Repr(ToStr(v, chars, prefixLength), chars, prefixLength) == v
    decreases prefixLength
  {
    if v > 0 {
      var n := |chars|;
      var b := BaseValue(n, prefixLength);
      ToStrUnfold(v, chars, prefixLength);
      var q := (v - 1) / b;
      var r := (v - 1) % b;
      var rest := ToStr(r, chars, prefixLength - 1);
      ReprOfToStr(r, chars, prefixLength - 1);
      var s := ToStr(v, chars, prefixLength);
      ReprUnfold(s, chars, prefixLength);
      assert s[1..] == rest;
      CharIndexOf(chars, q);
      DivModIdentity(v - 1, b);
    }
  }

  /** Dividing a nonempty string's representation minus one by the top base value splits off its first character. */
  lemma ReprDivMod(s: string, chars: string, prefixLength: nat)
    requires ValidCharacters(chars) && Supported(s, chars)
    requires 0 < |s| <= prefixLength
    ensures Supported(s[1..], chars)
    ensures Repr(s, chars, prefixLength) > 0
    ensures (Repr(s, chars, prefixLength) - 1) / BaseValue(|chars|, prefixLength) == CharIndex(s[0], chars)
    ensures (Repr(s, chars, prefixLength) - 1) % BaseValue(|chars|, prefixLength)
         == Repr(s[1..], chars, prefixLength - 1)
  {
    var n := |chars|;
    var b := BaseValue(n, prefixLength);
    ReprUnfold(s, chars, prefixLength);
    ReprBound(s[1..], chars, prefixLength - 1);
    BaseValueIsMaxReprPlusOne(n, prefixLength);
    var k := CharIndex(s[0], chars);
    MulNonNegative(k, b);
    DivModUnique(Repr(s, chars, prefixLength) - 1, b, k, Repr(s[1..], chars, prefixLength - 1));
  }

  /** Round trip on strings: number->string(string->number(s)) == s for strings within the prefix. */
  lemma {:induction false} ToStrOfRepr(s: string, chars: string, prefixLength: nat)
    requires ValidCharacters(chars) && Supported(s, chars)
    requires |s| <= prefixLength
    ensures Repr(s, chars, prefixLength) <= MaxRepr(|chars|, prefixLength)
    ensures ToStr(Repr(s, chars, prefixLength), chars, prefixLength) == s
    decreases |s|
  {
    ReprBound(s, chars, prefixLength);
    if s != "" {
      ReprDivMod(s, chars, prefixLength);
      ToStrOfRepr(s[1..], chars, prefixLength - 1);
      ToStrOfReprStep(s, chars, prefixLength);
    }
  }

  /** The first character comes back from the quotient, the rest from the remainder. */
  lemma ToStrOfReprStep(s: string, chars: string, prefixLength: nat)
    requires ValidCharacters(chars) && Supported(s, chars) && 0 < |s| <= prefixLength
    requires Repr(s, chars, prefixLength) <= MaxRepr(|chars|, prefixLength)
    requires Supported(s[1..], chars) && Repr(s[1..], chars, prefixLength - 1) <= MaxRepr(|chars|, prefixLength - 1)
    requires ToStr(Repr(s[1..], chars, prefixLength - 1), chars, prefixLength - 1) == s[1..]
    ensures ToStr(Repr(s, chars, prefixLength), chars, prefixLength) == s
  {
    var v := Repr(s, chars, prefixLength);
    var k := CharIndex(s[0], chars);
    var rest := Repr(s[1..], chars, prefixLength - 1);
    ReprDivMod(s, chars, prefixLength);
    ToStrUnfold(v, chars, prefixLength);
    assert ToStr(v, chars, prefixLength) == [chars[k]] + ToStr(rest, chars, prefixLength - 1);
    assert s == [s[0]] + s[1..];
  }

  // ---------------------------------------------------------------------------------------------
  // Lexicographic order (std::string comparison) and order preservation.

  predicate LexLess(s: string, t: string)
  {
    if s == "" then t != ""
    else if t == "" then false
    else if s[0] == t[0] then LexLess(s[1..], t[1..])
    else s[0] < t[0]
  }

  lemma {:induction false} LexTotal(s: string, t: string)
    ensures s == t || LexLess(s, t) || LexLess(t, s)
    decreases |s|
  {
    if s != "" && t != "" && s[0] == t[0] {
      LexTotal(s[1..], t[1..]);
      if s[1..] == t[1..] {
        assert s == [s[0]] + s[1..] && t == [t[0]] + t[1..];
      }
    }
  }

  /** Strings whose first characters differ are ordered by those characters alone. */
  lemma FirstCharDominates(s: string, t: string, chars: string, prefixLength: nat)
    requires ValidCharacters(chars) && Supported(s, chars) && Supported(t, chars)
    requires 0 < |s| <= prefixLength && 0 < |t| <= prefixLength
    requires CharIndex(s[0], chars) < CharIndex(t[0], chars)
    ensures Repr(s, chars, prefixLength) < Repr(t, chars, prefixLength)
  {
    var n := |chars|;
    var b := BaseValue(n, prefixLength);
    var ks := CharIndex(s[0], chars);
    var kt := CharIndex(t[0], chars);
    ReprUnfold(s, chars, prefixLength);
    ReprUnfold(t, chars, prefixLength);
    ReprBound(s[1..], chars, prefixLength - 1);
    BaseValueIsMaxReprPlusOne(n, prefixLength);
    DigitOrder(ks, kt, b, Repr(s[1..], chars, prefixLength - 1), Repr(t[1..], chars, prefixLength - 1));
  }

  /** One direction of the isomorphism: a lexicographically smaller string has a smaller representation. */
  lemma {:induction false} LexLessImpliesReprLess(s: string, t: string, chars: string, prefixLength: nat)
    requires ValidCharacters(chars) && Supported(s, chars) && Supported(t, chars)
    requires |s| <= prefixLength && |t| <= prefixLength
    requires LexLess(s, t)
    ensures Repr(s, chars, prefixLength) < Repr(t, chars, prefixLength)
    decreases |s|
  {
    ReprUnfold(t, chars, prefixLength);
    MulNonNegative(CharIndex(t[0], chars), BaseValue(|chars|, prefixLength));
    if s != "" {
      ReprUnfold(s, chars, prefixLength);
      if s[0] == t[0] {
        LexLessImpliesReprLess(s[1..], t[1..], chars, prefixLength - 1);
      } else {
        FirstCharDominates(s, t, chars, prefixLength);
      }
    }
  }

  /** Order preservation: for strings within the prefix, s < t iff repr(s) < repr(t). */
  lemma LexLessIffReprLess(s: string, t: string, chars: string, prefixLength: nat)
    requires ValidCharacters(chars) && Supported(s, chars) && Supported(t, chars)
    requires |s| <= prefixLength && |t| <= prefixLength
    ensures LexLess(s, t) <==> Repr(s, chars, prefixLength) < Repr(t, chars, prefixLength)
  {
    if LexLess(s, t) {
      LexLessImpliesReprLess(s, t, chars, prefixLength);
    } else {
      LexTotal(s, t);
      if LexLess(t, s) {
        LexLessImpliesReprLess(t, s, chars, prefixLength);
      }
    }
  }

  /** number->string is strictly increasing over the whole range of representations. */
  lemma ToStrIncreasing(v: nat, chars: string, prefixLength: nat)
    requires ValidCharacters(chars)
    requires v < MaxRepr(|chars|, prefixLength)
    ensures LexLess(ToStr(v, chars, prefixLength), ToStr(v + 1, chars, prefixLength))
  {
    ReprOfToStr(v, chars, prefixLength);
    ReprOfToStr(v + 1, chars, prefixLength);
    LexLessIffReprLess(ToStr(v, chars, prefixLength), ToStr(v + 1, chars, prefixLength), chars, prefixLength);
  }

  // ---------------------------------------------------------------------------------------------
  // next_value

  /** The successor computation on a supported string (the recursion after the source's `Assert`). */
  function Next(value: string, chars: string, prefixLength: nat): (r: string)
    requires ValidCharacters(chars) && Supported(value, chars)
    requires prefixLength > 0 || value == ""
    ensures Supported(r, chars)
    decreases prefixLength
  {
    var last := chars[|chars| - 1];
    if |value| < prefixLength then
      AppendSupported(value, chars[0], chars);
      value + [chars[0]]
    else if value == Repeat(last, prefixLength) then value
    else
      // `cleaned_value` is value[..prefixLength]; its last character and the string before it:
      var lastChar := value[prefixLength - 1];
      var substring := value[..prefixLength - 1];
      PrefixSupported(value, prefixLength - 1, chars);
      if lastChar != last then
        // `last_char + 1` is the next supported character because the range is consecutive.
        var k := CharIndex(lastChar, chars);
        AppendSupported(substring, chars[k + 1], chars);
        substring + [chars[k + 1]]
      else
        Next(substring, chars, prefixLength - 1)
  }

  /** One step of `Next` on a string at least as long as the prefix that is not all last characters. */
  lemma NextUnfold(value: string, chars: string, prefixLength: nat)
    requires ValidCharacters(chars) && Supported(value, chars)
    requires 0 < prefixLength <= |value|
    requires value != Repeat(chars[|chars| - 1], prefixLength)
    ensures Supported(value[..prefixLength - 1], chars)
    ensures value[prefixLength - 1] != chars[|chars| - 1] ==>
      CharIndex(value[prefixLength - 1], chars) + 1 < |chars| &&
      Next(value, chars, prefixLength)
        == value[..prefixLength - 1] + [chars[CharIndex(value[prefixLength - 1], chars) + 1]]
    ensures value[prefixLength - 1] == chars[|chars| - 1] ==>
      Next(value, chars, prefixLength) == Next(value[..prefixLength - 1], chars, prefixLength - 1)
  {
    PrefixSupported(value, prefixLength - 1, chars);
  }

  /**
   * `next_value(value, supported_characters, string_prefix_length)`: unsupported characters fail the
   * `Assert`; a nonempty value with prefix length 0 would read `back()` of an empty string, which the
   * precondition excludes.  The increment `last_char + 1` is the next supported character because the
   * range is consecutive.
   */
  function NextValue(value: string, chars: string, prefixLength: nat): (r: Result<string>)
    requires ValidCharacters(chars)
    requires !Supported(value, chars) || prefixLength > 0 || value == ""
    ensures r.Success? <==> Supported(value, chars)
    ensures r.Success? ==> r.value == Next(value, chars, prefixLength)
  {
    if !Supported(value, chars) then Failure("Unsupported characters.") else Success(Next(value, chars, prefixLength))
  }

  /** `next_value(value, supported_characters)` uses prefix length `|value| + 1`, so it always appends. */
  function NextValueAppending(value: string, chars: string): (r: Result<string>)
    requires ValidCharacters(chars)
    ensures r.Success? <==> Supported(value, chars)
    ensures r.Success? ==> r.value == value + [chars[0]]
  {
    NextValue(value, chars, |value| + 1)
  }

  /**
   * A full-length string of length k, read as a prefix of a string encoded at prefix length L >= k:
   * next_value(u, k) increases the representation at L by the base value of depth L - k + 1.
   */
  lemma {:induction false} NextAtDepth(u: string, chars: string, k: nat, prefixLength: nat)
    requires ValidCharacters(chars) && Supported(u, chars)
    requires |u| == k && 1 <= k <= prefixLength
    requires u != Repeat(chars[|chars| - 1], k)
    ensures Repr(Next(u, chars, k), chars, prefixLength)
         == Repr(u, chars, prefixLength) + BaseValue(|chars|, prefixLength - k + 1)
    decreases k
  {
    var n := |chars|;
    var last := chars[n - 1];
    assert u[..k] == u;
    var p := u[..k - 1];
    var c := u[k - 1];
    assert u == p + [c];
    PrefixSupported(u, k - 1, chars);
    ReprAppend(p, c, chars, prefixLength);
    var kc := CharIndex(c, chars);
    var m := prefixLength - k + 1;
    assert prefixLength - |p| == m;
    if c != last {
      var c1 := chars[kc + 1];
      CharIndexOf(chars, kc + 1);
      NextUnfold(u, chars, k);
      ReprAppend(p, c1, chars, prefixLength);
      MulSucc(kc, BaseValue(n, m));
    } else {
      NextUnfold(u, chars, k);
      assert Repeat(last, k) == Repeat(last, k - 1) + [last];
      assert Repeat(last, 0) == "";
      NextAtDepth(p, chars, k - 1, prefixLength);
      CharIndexOf(chars, n - 1);
      BaseValueStep(n, m);
      assert prefixLength - (k - 1) + 1 == m + 1;
      MulSucc(n - 1, BaseValue(n, m));
    }
  }

  /**
   * The successor in the encoding: for a string within the prefix that is not the largest one,
   * next_value increases the representation by exactly one.
   */
  lemma NextIncrementsRepr(value: string, chars: string, prefixLength: nat)
    requires ValidCharacters(chars) && Supported(value, chars)
    requires |value| <= prefixLength
    requires value != Repeat(chars[|chars| - 1], prefixLength)
    ensures Repr(Next(value, chars, prefixLength), chars, prefixLength) == Repr(value, chars, prefixLength) + 1
  {
    if |value| < prefixLength {
      ReprAppend(value, chars[0], chars, prefixLength);
      CharIndexOf(chars, 0);
    } else {
      NextAtDepth(value, chars, prefixLength, prefixLength);
      assert BaseValue(|chars|, 1) == 1;
    }
  }

  lemma {:induction false} NextLength(value: string, chars: string, prefixLength: nat)
    requires ValidCharacters(chars) && Supported(value, chars)
    requires |value| <= prefixLength
    ensures |Next(value, chars, prefixLength)| <= prefixLength
    decreases prefixLength
  {
    var last := chars[|chars| - 1];
    if |value| == prefixLength && value != Repeat(last, prefixLength) {
      var substring := value[..prefixLength - 1];
      if value[prefixLength - 1] == last {
        PrefixSupported(value, prefixLength - 1, chars);
        assert value[..prefixLength][..prefixLength - 1] == substring;
        NextLength(substring, chars, prefixLength - 1);
      }
    }
  }

  /** next_value yields a lexicographically greater string within the prefix. */
  lemma NextIsLexGreater(value: string, chars: string, prefixLength: nat)
    requires ValidCharacters(chars) && Supported(value, chars)
    requires |value| <= prefixLength
    requires value != Repeat(chars[|chars| - 1], prefixLength)
    ensures |Next(value, chars, prefixLength)| <= prefixLength
    ensures LexLess(value, Next(value, chars, prefixLength))
  {
    NextLength(value, chars, prefixLength);
    NextIncrementsRepr(value, chars, prefixLength);
    LexLessIffReprLess(value, Next(value, chars, prefixLength), chars, prefixLength);
  }

  /**
   * A string longer than the prefix whose prefix is not all last characters gets the successor of its
   * prefix, which has the same representation as the long string.
   */
  lemma NextOfLongValue(value: string, chars: string, prefixLength: nat)
    requires ValidCharacters(chars) && Supported(value, chars)
    requires prefixLength > 0 && |value| > prefixLength
    requires value[..prefixLength] != Repeat(chars[|chars| - 1], prefixLength)
    ensures Supported(value[..prefixLength], chars)
    ensures Next(value, chars, prefixLength) == Next(value[..prefixLength], chars, prefixLength)
    ensures Repr(Next(value, chars, prefixLength), chars, prefixLength) == Repr(value, chars, prefixLength)
  {
    var t := value[..prefixLength];
    ReprOfLongString(value, chars, prefixLength);
    NextOfLongValueIsNextOfPrefix(value, chars, prefixLength);
    NextIncrementsRepr(t, chars, prefixLength);
  }

  /** next_value only looks at the first `prefix_length` characters of a string that is not all last characters. */
  lemma NextOfLongValueIsNextOfPrefix(value: string, chars: string, prefixLength: nat)
    requires ValidCharacters(chars) && Supported(value, chars)
    requires prefixLength > 0 && |value| > prefixLength
    requires value[..prefixLength] != Repeat(chars[|chars| - 1], prefixLength)
    ensures Supported(value[..prefixLength], chars)
    ensures Next(value, chars, prefixLength) == Next(value[..prefixLength], chars, prefixLength)
  {
    var t := value[..prefixLength];
    PrefixSupported(value, prefixLength, chars);
    assert |Repeat(chars[|chars| - 1], prefixLength)| == prefixLength;
    assert t[..prefixLength] == value[..prefixLength];
    NextSamePrefix(value, t, chars, prefixLength);
  }

  /** Two strings at least `prefix_length` long that agree on it, neither all last characters, have the same successor. */
  lemma NextSamePrefix(a: string, b: string, chars: string, prefixLength: nat)
    requires ValidCharacters(chars) && Supported(a, chars) && Supported(b, chars)
    requires 0 < prefixLength <= |a| && prefixLength <= |b| && a[..prefixLength] == b[..prefixLength]
    requires a != Repeat(chars[|chars| - 1], prefixLength) && b != Repeat(chars[|chars| - 1], prefixLength)
    ensures Next(a, chars, prefixLength) == Next(b, chars, prefixLength)
  {
    NextUnfold(a, chars, prefixLength);
    NextUnfold(b, chars, prefixLength);
    assert a[..prefixLength - 1] == a[..prefixLength][..prefixLength - 1];
    assert b[..prefixLength - 1] == b[..prefixLength][..prefixLength - 1];
    assert a[prefixLength - 1] == a[..prefixLength][prefixLength - 1];
    assert b[prefixLength - 1] == b[..prefixLength][prefixLength - 1];
  }

  /**
   * A string longer than the prefix whose prefix is all last characters does not hit the special case
   * (which compares the whole value) and comes out one character shorter than the prefix.
   */
  lemma NextOfLongLastValue(value: string, chars: string, prefixLength: nat)
    requires ValidCharacters(chars) && Supported(value, chars)
    requires prefixLength > 0 && |value| > prefixLength
    requires value[..prefixLength] == Repeat(chars[|chars| - 1], prefixLength)
    ensures Next(value, chars, prefixLength) == Repeat(chars[|chars| - 1], prefixLength - 1)
  {
    var last := chars[|chars| - 1];
    assert value != Repeat(last, prefixLength);
    var substring := value[..prefixLength][..prefixLength - 1];
    assert substring == Repeat(last, prefixLength - 1);
    assert value[..prefixLength][prefixLength - 1] == last;
  }

  /** next_value("zzzzz", a..z, 4) == "zzz": the successor of a long string can sort before it. */
  lemma NextOfZzzzz()
    ensures ValidCharacters("abcdefghijklmnopqrstuvwxyz")
    ensures Supported("zzzzz", "abcdefghijklmnopqrstuvwxyz")
    ensures Next("zzzzz", "abcdefghijklmnopqrstuvwxyz", 4) == "zzz"
    ensures LexLess("zzz", "zzzzz")
  {
    var chars := "abcdefghijklmnopqrstuvwxyz";
    assert Supported("zzzzz", chars) by {
      forall i | 0 <= i < 5 ensures "zzzzz"[i] in chars {
        assert "zzzzz"[i] == chars[25];
      }
    }
    assert "zzzzz"[..4] == Repeat('z', 4);
    NextOfLongLastValue("zzzzz", chars, 4);
    assert Repeat('z', 3) == "zzz";
    assert LexLess("", "zz");
  }

  /** A value shorter than the prefix gets the first character; the full-length all-last string is a fixed point. */
  lemma NextOfShortAndLastValues(value: string, chars: string, prefixLength: nat)
    requires ValidCharacters(chars) && Supported(value, chars)
    requires |value| < prefixLength
    ensures Next(value, chars, prefixLength) == value + [chars[0]]
    ensures Supported(Repeat(chars[|chars| - 1], prefixLength), chars)
    ensures Next(Repeat(chars[|chars| - 1], prefixLength), chars, prefixLength)
         == Repeat(chars[|chars| - 1], prefixLength)
  {
    ReprOfLastString(chars, prefixLength);
  }

  /** With the 26 lower-case letters and prefix length 4, "zzzz" has representation 475254. */
  lemma MaxReprOfLetters()
    ensures MaxRepr(26, 4) == 475254
  {
    assert Pow(26, 4) == 456976 by {
      assert Pow(26, 2) == 676;
    }
  }

  // ---------------------------------------------------------------------------------------------
  // previous_value for strings (called by the string equal-width histogram; only its tests are known)

  /** The predecessor in the encoding; "" is its own predecessor. */
  function PreviousValue(value: string, chars: string, prefixLength: nat): (r: string)
    requires ValidCharacters(chars) && Supported(value, chars)
    requires |value| <= prefixLength
    ensures |r| <= prefixLength && Supported(r, chars)
  {
    ReprBound(value, chars, prefixLength);
    if value == "" then "" else ToStr(Repr(value, chars, prefixLength) - 1, chars, prefixLength)
  }

  /** previous_value undoes next_value: next(previous(s)) == s for every nonempty string within the prefix. */
  lemma NextOfPrevious(value: string, chars: string, prefixLength: nat)
    requires ValidCharacters(chars) && Supported(value, chars)
    requires |value| <= prefixLength && value != ""
    ensures Next(PreviousValue(value, chars, prefixLength), chars, prefixLength) == value
  {
    var p := PreviousValue(value, chars, prefixLength);
    PreviousIsReprMinusOne(value, chars, prefixLength);
    NextIncrementsRepr(p, chars, prefixLength);
    NextLength(p, chars, prefixLength);
    var q := Next(p, chars, prefixLength);
    ToStrOfRepr(q, chars, prefixLength);
    ToStrOfRepr(value, chars, prefixLength);
  }

  /** previous_value of a nonempty string has one less representation and so is not the last string. */
  lemma PreviousIsReprMinusOne(value: string, chars: string, prefixLength: nat)
    requires ValidCharacters(chars) && Supported(value, chars)
    requires |value| <= prefixLength && value != ""
    ensures var p := PreviousValue(value, chars, prefixLength);
      |p| <= prefixLength && Repr(p, chars, prefixLength) + 1 == Repr(value, chars, prefixLength)
      && p != Repeat(chars[|chars| - 1], prefixLength)
  {
    ReprBound(value, chars, prefixLength);
    var v := Repr(value, chars, prefixLength);
    ToStrOfRepr(value, chars, prefixLength);
    assert v > 0;
    var p := ToStr(v - 1, chars, prefixLength);
    assert p == PreviousValue(value, chars, prefixLength);
    ReprOfToStr(v - 1, chars, prefixLength);
    ReprOfLastString(chars, prefixLength);
    assert Repr(p, chars, prefixLength) < MaxRepr(|chars|, prefixLength);
  }
}
