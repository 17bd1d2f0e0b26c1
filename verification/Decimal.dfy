/** Decimal text: what `to_string` prints and `str::parse` reads for unsigned integers. */
module Decimal {
  import opened Bytes

  function Digits(n: nat): (s: Str)
    ensures s != [] && AllDigits(s)
  {
    if n < 10 then [48 + n] else Digits(n / 10) + [48 + n % 10]
  }

  predicate AllDigits(s: Str) {
    forall i :: 0 <= i < |s| ==> 48 <= s[i] <= 57
  }

  function Value(s: Str): nat
    requires AllDigits(s)
  {
    if s == [] then 0 else Value(s[..|s| - 1]) * 10 + (s[|s| - 1] - 48)
  }

  /** `str::parse` at an unsigned type whose largest value is `max`: one leading `+` is allowed,
      leading zeros are allowed, overflow is an error. */
  function ParseUnsigned(s: Str, max: nat): Option<nat> {
    var digits := if |s| >= 2 && s[0] == 43 then s[1..] else s;
    if digits == [] || !AllDigits(digits) then None
    else if Value(digits) > max then None
    else Some(Value(digits))
  }

  lemma {:induction false} ValueOfDigits(n: nat)
    ensures Value(Digits(n)) == n
  {
    if n >= 10 {
      var s := Digits(n);
      assert s[..|s| - 1] == Digits(n / 10);
      ValueOfDigits(n / 10);
    }
  }

  /** Printing then parsing is the identity up to the type's range. */
  lemma ParseOfDigits(n: nat, max: nat)
    ensures ParseUnsigned(Digits(n), max) == if n <= max then Some(n) else None
  {
    ValueOfDigits(n);
    var s := Digits(n);
    assert s[0] != 43;
  }

  function Zeros(k: nat): (s: Str)
    ensures |s| == k && AllDigits(s)
  {
    seq(k, _ => 48)
  }

  function Spelling(plus: bool, zeros: nat, n: nat): Str {
    (if plus then [43] else []) + (Zeros(zeros) + Digits(n))
  }

  /** The texts that `parse` accepts for a number: a plus sign or not, any zeros, then its digits. */
  ghost predicate Spells(s: Str, n: nat) {
    exists plus, zeros :: s == Spelling(plus, zeros, n)
  }

  lemma {:induction false} ValueOfZeros(k: nat, s: Str)
    requires AllDigits(s)
    ensures AllDigits(Zeros(k) + s) && Value(Zeros(k) + s) == Value(s)
    decreases |s|, k
  {
    var t := Zeros(k) + s;
    if s != [] {
      assert t[..|t| - 1] == Zeros(k) + s[..|s| - 1];
      ValueOfZeros(k, s[..|s| - 1]);
    } else if k > 0 {
      assert t[..|t| - 1] == Zeros(k - 1) + s;
      ValueOfZeros(k - 1, s);
    }
  }

  /** Digits are some zeros and then the digits of their value. */
  lemma {:induction false} DigitsOfValue(s: Str) returns (zeros: nat)
    requires s != [] && AllDigits(s)
    ensures s == Zeros(zeros) + Digits(Value(s))
  {
    var front, last := s[..|s| - 1], s[|s| - 1];
    if front == [] {
      zeros := 0;
      assert Value(s) == Value([]) * 10 + (last - 48) == last - 48;
    } else {
      var k := DigitsOfValue(front);
      zeros := OneMoreDigit(front, last, k);
      assert s == front + [last];
    }
  }

  lemma OneMoreDigit(front: Str, last: Byte, k: nat) returns (zeros: nat)
    requires AllDigits(front) && 48 <= last <= 57 && front == Zeros(k) + Digits(Value(front))
    ensures front + [last] == Zeros(zeros) + Digits(Value(front) * 10 + (last - 48))
  {
    var v, n := Value(front), Value(front) * 10 + (last - 48);
    if v == 0 {
      zeros := k + 1;
      assert front == Zeros(k + 1);
    } else {
      zeros := k;
      assert Digits(n) == Digits(v) + [last];
    }
  }

  /** What `parse` reads as `n`: exactly the spellings of `n`, if it is in range. */
  lemma ParseExact(s: Str, max: nat, n: nat)
    ensures ParseUnsigned(s, max) == Some(n) <==> n <= max && Spells(s, n)
  {
    if ParseUnsigned(s, max) == Some(n) {
      ParsedSpells(s, max, n);
    }
    if n <= max && Spells(s, n) {
      var plus, zeros :| s == Spelling(plus, zeros, n);
      ParseOfSpelling(plus, zeros, n, max);
    }
  }

  lemma ParsedSpells(s: Str, max: nat, n: nat)
    requires ParseUnsigned(s, max) == Some(n)
    ensures Spells(s, n)
  {
    var plus := |s| >= 2 && s[0] == 43;
    var digits := if plus then s[1..] else s;
    var zeros := DigitsOfValue(digits);
    SpellingOf(s, plus, digits, zeros, n);
  }

  lemma SpellingOf(s: Str, plus: bool, digits: Str, zeros: nat, n: nat)
    requires digits == Zeros(zeros) + Digits(n)
    requires s == if plus then [43] + digits else digits
    ensures s == Spelling(plus, zeros, n)
  {
    if !plus { assert s == [] + digits; }
  }

  lemma ParseOfSpelling(plus: bool, zeros: nat, n: nat, max: nat)
    requires n <= max
    ensures ParseUnsigned(Spelling(plus, zeros, n), max) == Some(n)
  {
    var digits := Zeros(zeros) + Digits(n);
    ValueOfZeros(zeros, Digits(n));
    ValueOfDigits(n);
    if plus {
      assert ([43] + digits)[1..] == digits;
    } else {
      assert [] + digits == digits;
      assert digits[0] != 43;
    }
  }

  function Pow10(k: nat): nat {
    if k == 0 then 1 else 10 * Pow10(k - 1)
  }

  /** A number prints in at most `k` digits exactly when it is below 10^k. */
  lemma {:induction false} DigitCount(n: nat, k: nat)
    requires k >= 1
    ensures |Digits(n)| <= k <==> n < Pow10(k)
  {
    if k == 1 {
      assert Pow10(1) == 10 * Pow10(0);
      if n >= 10 { assert |Digits(n)| == |Digits(n / 10)| + 1; }
    } else {
      PowPositive(k - 1);
      if n >= 10 {
        DigitCount(n / 10, k - 1);
        assert n < 10 * Pow10(k - 1) <==> n / 10 < Pow10(k - 1);
      }
    }
  }

  lemma {:induction false} PowPositive(k: nat)
    ensures Pow10(k) >= 1
  {
    if k > 0 { PowPositive(k - 1); }
  }
}
