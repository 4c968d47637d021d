/**
 * The short-code encoder `generateShortURL`: a 32-bit string hash of the long
 * URL, plus a timestamp, written as exactly six base-62 digits.
 *
 * The clock read `Date.now()` is the parameter `timestamp`.
 */
module Encoder {
  import opened JsSemantics

  /**
   * The symbols of a short code; the symbol at index d stands for digit d. The
   * value is "ABCDEFGHIJKLMNOPQRSTUVWXYZabcdefghijklmnopqrstuvwxyz0123456789",
   * written as its three ranges so that each index can be read off cheaply.
   */
  const Characters: string := UpperCase + LowerCase + DecimalDigits
  const UpperCase: string := "ABCDEFGHIJKLMNOPQRSTUVWXYZ"
  const LowerCase: string := "abcdefghijklmnopqrstuvwxyz"
  const DecimalDigits: string := "0123456789"
  /** `characters.length` */
  const Base: nat := 62
  /** The number of digits the extraction loop produces. */
  const CodeLength: nat := 6

  /** Digit d of the alphabet, described by the three ranges it is made of. */
  function Symbol(d: nat): (c: char)
    requires d < Base
  {
    if d < 26 then ('A' as int + d) as char
    else if d < 52 then ('a' as int + (d - 26)) as char
    else ('0' as int + (d - 52)) as char
  }

  /** The alphabet is the three ranges A-Z, a-z and 0-9, in that order. */
  lemma CharactersAreSymbols()
    ensures |Characters| == Base
    ensures forall d :: 0 <= d < Base ==> Characters[d] == Symbol(d)
  {
    assert forall d :: 0 <= d < 26 ==> UpperCase[d] == ('A' as int + d) as char;
    assert forall d :: 0 <= d < 26 ==> LowerCase[d] == ('a' as int + d) as char;
    assert forall d :: 0 <= d < 10 ==> DecimalDigits[d] == ('0' as int + d) as char;
  }

  /** One of the 62 symbols: an ASCII letter or decimal digit. */
  predicate IsSymbol(c: char)
  {
    'A' <= c <= 'Z' || 'a' <= c <= 'z' || '0' <= c <= '9'
  }

  /** The digit a symbol stands for: its index in `Characters`. */
  function DigitValue(c: char): (d: nat)
    requires IsSymbol(c)
    ensures d < Base && Symbol(d) == c
  {
    if 'A' <= c <= 'Z' then c as int - 'A' as int
    else if 'a' <= c <= 'z' then c as int - 'a' as int + 26
    else c as int - '0' as int + 52
  }

  /** Every digit has a symbol, and no two digits share one. */
  lemma DigitValueOfSymbol(d: nat)
    requires d < Base
    ensures IsSymbol(Symbol(d)) && DigitValue(Symbol(d)) == d
  {
  }

  /** The symbols are exactly the characters of the alphabet. */
  lemma SymbolsAreCharacters(c: char)
    ensures IsSymbol(c) <==> c in Characters
  {
    CharactersAreSymbols();
    if IsSymbol(c) {
      assert Characters[DigitValue(c)] == c;
    } else if c in Characters {
      var d :| 0 <= d < |Characters| && Characters[d] == c;
      DigitValueOfSymbol(d);
    }
  }

  function Pow(b: nat, k: nat): (r: nat)
    requires b > 0
    ensures r > 0
  {
    if k == 0 then 1 else b * Pow(b, k - 1)
  }

  /** A string made only of alphabet symbols. */
  predicate IsCode(s: string)
  {
    forall i :: 0 <= i < |s| ==> IsSymbol(s[i])
  }

  // ---------------------------------------------------------------------------
  // The hash: `longURL.split('').reduce((acc, char) => ((acc << 5) - acc) + char.charCodeAt(0), 0)`
  // ---------------------------------------------------------------------------

  /**
   * One step of the fold. Only the shift is reduced to 32 bits; the subtraction
   * and the addition are exact, so the accumulator may leave the 32-bit range.
   */
  function HashStep(acc: int, c: CodeUnit): (r: int)
    ensures Abs(r) <= Abs(acc) + StepGrowth
  {
    ShiftLeft5(acc) - acc + c
  }

  /** The left fold of HashStep over the code units, starting from 0. */
  function Hash(units: seq<CodeUnit>): int
  {
    if units == [] then 0
    else HashStep(Hash(units[..|units| - 1]), units[|units| - 1])
  }

  /** The textbook polynomial string hash: the sum of c_i * 31^(n-1-i). */
  function Polynomial31(units: seq<CodeUnit>): int
  {
    if units == [] then 0
    else 31 * Polynomial31(units[..|units| - 1]) + units[|units| - 1]
  }

  /**
   * The fold agrees with the polynomial hash modulo 2^32, so its 32-bit image
   * is the polynomial hash wrapped to 32 bits.
   */
  lemma {:induction false} HashIsPolynomialModulo32(units: seq<CodeUnit>)
    ensures (Hash(units) - Polynomial31(units)) % TwoTo32 == 0
    ensures ToInt32(Hash(units)) == ToInt32(Polynomial31(units))
  {
    if units != [] {
      var prefix, c := units[..|units| - 1], units[|units| - 1];
      var h, p := Hash(prefix), Polynomial31(prefix);
      HashIsPolynomialModulo32(prefix);
      var shifted := ShiftLeft5(h);
      ShiftLeft5Multiplies(h);
      assert Hash(units) - Polynomial31(units) == (shifted - h * 32) + (h - p) * 31;
      MultipleOfModulus(h - p, 31);
      CongruentSum(shifted - h * 32, (h - p) * 31);
    }
    ToInt32Congruent(Hash(units), Polynomial31(units));
  }

  /** The largest amount by which one step can move the accumulator away from 0. */
  const StepGrowth: nat := TwoTo31 + 0xFFFF

  /** Each step adds at most 2^31 + 65535 in magnitude. */
  lemma {:induction false} HashBound(units: seq<CodeUnit>)
    ensures Abs(Hash(units)) <= |units| * StepGrowth
  {
    if units != [] {
      var prefix := units[..|units| - 1];
      HashBound(prefix);
      assert |units| * StepGrowth == |prefix| * StepGrowth + StepGrowth;
    }
  }

  /**
   * The hash of fewer than 2^21 code units stays below 2^53, so a JavaScript
   * number holds every accumulator of the fold exactly.
   */
  lemma HashFitsDouble(units: seq<CodeUnit>)
    requires |units| < 0x20_0000
    ensures Abs(Hash(units)) < 0x20_0000_0000_0000
  {
    HashBound(units);
    MulMonotone(|units|, 0x20_0000, StepGrowth);
  }

  /**
   * The hash is the last accumulator of the fold's trace: the sequence that
   * starts at 0 and applies one step per code unit.
   */
  lemma {:induction false} HashIsLastOfTrace(units: seq<CodeUnit>, trace: seq<int>)
    requires |trace| == |units| + 1 && trace[0] == 0
    requires forall k :: 0 <= k < |units| ==> trace[k + 1] == HashStep(trace[k], units[k])
    ensures Hash(units) == trace[|units|]
  {
    if units != [] {
      var n := |units|;
      HashIsLastOfTrace(units[..n - 1], trace[..n]);
      assert units[..n - 1] == units[..n][..n - 1];
    }
  }

  /**
   * The fold does not stay in the 32-bit range: the code units of the
   * seven-letter string "otazgsr" hash to 3142961000, above 2^31 - 1,
   * because the subtraction after the shift is not wrapped.
   */
  lemma HashLeaves32Bits(u: seq<CodeUnit>)
    requires |u| == 7
    requires u[0] == 111 && u[1] == 116 && u[2] == 97 && u[3] == 122
    requires u[4] == 103 && u[5] == 115 && u[6] == 114
    ensures Hash(u) == 3142961000
  {
    var trace := [0, 111, 3557, 110364, 3421406, 106063689, -1006992822, 3142961000];
    HashIsLastOfTrace(u, trace);
  }

  // ---------------------------------------------------------------------------
  // The digit extraction loop and the base-62 reading of its result
  // ---------------------------------------------------------------------------

  /**
   * The k lowest base-62 digits of n as symbols, most significant first: the
   * string the extraction loop builds in k rounds.
   */
  function Digits(n: nat, k: nat): (s: string)
    ensures |s| == k && IsCode(s)
  {
    if k == 0 then []
    else
      DigitValueOfSymbol(n % Base);
      Digits(n / Base, k - 1) + [Symbol(n % Base)]
  }

  /** Reads a code as a base-62 numeral whose first symbol is the most significant. */
  function FromDigits(s: string): nat
    requires IsCode(s)
  {
    if s == [] then 0
    else
      assert IsCode(s[..|s| - 1]);
      FromDigits(s[..|s| - 1]) * Base + DigitValue(s[|s| - 1])
  }

  /** A code of length k reads as a number below 62^k. */
  lemma {:induction false} FromDigitsBound(s: string)
    requires IsCode(s)
    ensures FromDigits(s) < Pow(Base, |s|)
  {
    if s != [] {
      var prefix := s[..|s| - 1];
      assert IsCode(prefix);
      FromDigitsBound(prefix);
      var m, d := FromDigits(prefix), DigitValue(s[|s| - 1]);
      assert FromDigits(s) == m * Base + d;
      MulMonotone(m, Pow(Base, |prefix|) - 1, Base);
      assert Pow(Base, |s|) == Pow(Base, |prefix|) * Base;
    }
  }

  /** Splitting n into its lowest digit and the rest, for a modulus that is a multiple of b. */
  lemma ModOfMultiple(n: nat, b: nat, m: nat)
    requires b > 0 && m > 0
    ensures (n / b) % m * b + n % b == n % (m * b)
  {
    var q, r := n / b, n % b;
    var q2, r2 := q / m, q % m;
    assert n == q * b + r;
    assert q == q2 * m + r2;
    assert q * b == q2 * (m * b) + r2 * b by {
      assert q * b == (q2 * m + r2) * b;
      assert (q2 * m + r2) * b == q2 * m * b + r2 * b;
      assert q2 * m * b == q2 * (m * b);
    }
    assert r2 * b <= (m - 1) * b by {
      MulMonotone(r2, m - 1, b);
    }
    assert (m - 1) * b == m * b - b;
    DivModUnique(n, m * b, q2, r2 * b + r);
  }

  lemma MulMonotone(x: nat, y: nat, b: nat)
    requires x <= y
    ensures x * b <= y * b
  {
    assert y * b == x * b + (y - x) * b;
  }

  /** Decoding the digits gives back the number modulo 62^k. */
  lemma {:induction false} FromDigitsOfDigits(n: nat, k: nat)
    ensures FromDigits(Digits(n, k)) == n % Pow(Base, k)
  {
    if k > 0 {
      var s := Digits(n, k);
      var q, r, p := n / Base, n % Base, Pow(Base, k - 1);
      assert s[..k - 1] == Digits(q, k - 1) && s[k - 1] == Symbol(r);
      FromDigitsOfDigits(q, k - 1);
      DigitValueOfSymbol(r);
      assert FromDigits(s) == (q % p) * Base + r;
      ModOfMultiple(n, Base, p);
      assert p * Base == Pow(Base, k);
    }
  }

  /** Every code of length k is the digit string of its own value. */
  lemma {:induction false} DigitsOfFromDigits(s: string)
    requires IsCode(s)
    ensures Digits(FromDigits(s), |s|) == s
  {
    if s != [] {
      var prefix, last := s[..|s| - 1], s[|s| - 1];
      assert IsCode(prefix);
      var n, m, d := FromDigits(s), FromDigits(prefix), DigitValue(last);
      assert n == m * Base + d;
      DivModUnique(n, Base, m, d);
      DigitsOfFromDigits(prefix);
      assert Digits(n, |s|) == Digits(m, |prefix|) + [Symbol(d)];
      assert s == prefix + [last];
    }
  }

  /** Two numbers get the same k-digit code exactly when they agree modulo 62^k. */
  lemma DigitsCollide(n: nat, m: nat, k: nat)
    ensures Digits(n, k) == Digits(m, k) <==> n % Pow(Base, k) == m % Pow(Base, k)
  {
    FromDigitsOfDigits(n, k);
    FromDigitsOfDigits(m, k);
    if n % Pow(Base, k) == m % Pow(Base, k) {
      DigitsOfFromDigits(Digits(n, k));
      DigitsOfFromDigits(Digits(m, k));
    }
  }

  // ---------------------------------------------------------------------------
  // generateShortURL
  // ---------------------------------------------------------------------------

  /** The number whose six lowest base-62 digits form the code: |hash + timestamp|. */
  function Seed(longURL: string, timestamp: int): nat
  {
    Abs(Hash(Utf16(longURL)) + timestamp)
  }

  /** The code generateShortURL returns for this URL at this timestamp. */
  function ShortCodeOf(longURL: string, timestamp: int): (code: string)
    ensures |code| == CodeLength && IsCode(code)
  {
    Digits(Seed(longURL, timestamp), CodeLength)
  }

  /**
   * Hashes the URL, adds the timestamp, takes the absolute value and extracts
   * six base-62 digits, prepending each new one.
   */
  method GenerateShortURL(longURL: string, timestamp: int) returns (shortCode: string)
    ensures shortCode == ShortCodeOf(longURL, timestamp)
    ensures |shortCode| == CodeLength && IsCode(shortCode)
  {
    var base := |Characters|;
    assert base == Base;
    var hash := Hash(Utf16(longURL));
    var seed := hash + timestamp;
    shortCode := "";
    var num: nat := Abs(seed);
    ghost var code := ShortCodeOf(longURL, timestamp);
    assert code == Digits(num, CodeLength);
    CharactersAreSymbols();
    for i := 0 to CodeLength
      invariant code == Digits(num, CodeLength - i) + shortCode
    {
      assert Digits(num, CodeLength - i) == Digits(num / Base, CodeLength - i - 1) + [Symbol(num % Base)];
      shortCode := [Characters[num % base]] + shortCode;
      num := num / base;
    }
  }

  /**
   * Read as a base-62 numeral, first symbol most significant, the code is
   * |hash + timestamp| modulo 62^6.
   */
  lemma ShortCodeDecodes(longURL: string, timestamp: int)
    ensures IsCode(ShortCodeOf(longURL, timestamp))
    ensures FromDigits(ShortCodeOf(longURL, timestamp)) == Seed(longURL, timestamp) % Pow(Base, CodeLength)
  {
    FromDigitsOfDigits(Seed(longURL, timestamp), CodeLength);
  }

  /** The code is six characters, each taken from the alphabet. */
  lemma ShortCodeShape(longURL: string, timestamp: int)
    ensures |ShortCodeOf(longURL, timestamp)| == CodeLength
    ensures forall i :: 0 <= i < CodeLength ==> ShortCodeOf(longURL, timestamp)[i] in Characters
  {
    var code := ShortCodeOf(longURL, timestamp);
    forall i | 0 <= i < CodeLength
      ensures code[i] in Characters
    {
      SymbolsAreCharacters(code[i]);
    }
  }

  /**
   * Codes are not unique: the same URL gets the same code again 62^6
   * milliseconds (about 657 days) later.
   */
  lemma ShortCodeRepeats(longURL: string, timestamp: int)
    requires Hash(Utf16(longURL)) + timestamp >= 0
    ensures ShortCodeOf(longURL, timestamp) == ShortCodeOf(longURL, timestamp + Pow(Base, CodeLength))
  {
    var n, p := Seed(longURL, timestamp), Pow(Base, CodeLength);
    assert Seed(longURL, timestamp + p) == n + p;
    ModShift(n, 1, p);
    DigitsCollide(n, n + p, CodeLength);
  }

  /** The empty URL hashes to 0, so its code depends on the timestamp alone. */
  lemma EmptyURLCode(timestamp: int)
    ensures ShortCodeOf("", timestamp) == Digits(Abs(timestamp), CodeLength)
  {
  }
}
