/** The `grpc-timeout` header: formatting a duration (rounding up) and parsing one.
    A `Duration` is its length in nanoseconds. */
module Timeout {
  import opened Bytes
  import opened Decimal

  const MAX_VALUE: nat := 99_999_999
  const NANOS_PER_SEC: nat := 1_000_000_000
  const U64_MAX: nat := 0xFFFF_FFFF_FFFF_FFFF

  /** (nanoseconds, suffix), smallest unit first: n, u, m, S, M, H. */
  const UNITS: seq<(nat, Byte)> := [
    (1, 110), (1_000, 117), (1_000_000, 109),
    (1_000_000_000, 83), (60_000_000_000, 77), (3_600_000_000_000, 72)]

  type UnitIndex = i: nat | i < 6

  function CeilDiv(n: nat, d: nat): nat
    requires d > 0
  {
    (n + d - 1) / d
  }

  /** The unit search: the first unit from `i` on whose rounded-up value fits in eight digits. */
  function Choose(nanos: nat, i: UnitIndex): (nat, UnitIndex)
    decreases 6 - i
  {
    var value := CeilDiv(nanos, UNITS[i].0);
    if value <= MAX_VALUE then (value, i)
    else if i == 5 then (MAX_VALUE, 5)
    else Choose(nanos, i + 1)
  }

  function Format(nanos: nat): Str {
    var (value, i) := Choose(nanos, 0);
    Digits(value) + [UNITS[i].1]
  }

  function UnitNanos(suffix: Byte): Option<nat> {
    if suffix == 110 then Some(1)
    else if suffix == 117 then Some(1_000)
    else if suffix == 109 then Some(1_000_000)
    else if suffix == 83 then Some(1_000_000_000)
    else if suffix == 77 then Some(60_000_000_000)
    else if suffix == 72 then Some(3_600_000_000_000)
    else None
  }

  function Parse(s: Str): Option<nat> {
    if s == [] then None
    else
      var digits := s[..|s| - 1];
      if digits == [] || !AllDigits(digits) then None
      else match (ParseUnsigned(digits, U64_MAX), UnitNanos(s[|s| - 1]))
           case (Some(value), Some(unit)) =>
             var total := value * unit;
             if total / NANOS_PER_SEC > U64_MAX then None else Some(total)
           case _ => None
  }

  /** What the search finds: the smallest fitting unit with the value rounded up, or saturation. */
  ghost predicate Chosen(nanos: nat, value: nat, i: UnitIndex) {
    && value <= MAX_VALUE
    && (i > 0 ==> nanos > MAX_VALUE * UNITS[i - 1].0)
    && (|| nanos <= value * UNITS[i].0 < nanos + UNITS[i].0
        || (i == 5 && value == MAX_VALUE && nanos > MAX_VALUE * UNITS[5].0))
  }

  lemma CeilFits(nanos: nat, i: UnitIndex)
    ensures CeilDiv(nanos, UNITS[i].0) <= MAX_VALUE <==> nanos <= MAX_VALUE * UNITS[i].0
    ensures nanos <= CeilDiv(nanos, UNITS[i].0) * UNITS[i].0 < nanos + UNITS[i].0
  {
    if i == 0 {} else if i == 1 {} else if i == 2 {} else if i == 3 {} else if i == 4 {} else {}
  }

  lemma {:induction false} ChooseSpec(nanos: nat, i: UnitIndex)
    requires i > 0 ==> nanos > MAX_VALUE * UNITS[i - 1].0
    ensures Chosen(nanos, Choose(nanos, i).0, Choose(nanos, i).1)
    decreases 6 - i
  {
    CeilFits(nanos, i);
    if CeilDiv(nanos, UNITS[i].0) > MAX_VALUE && i < 5 {
      ChooseSpec(nanos, i + 1);
    }
  }

  /** The search result is determined by its specification. */
  lemma ChosenUnique(nanos: nat, v1: nat, i1: UnitIndex, v2: nat, i2: UnitIndex)
    requires Chosen(nanos, v1, i1) && Chosen(nanos, v2, i2)
    ensures v1 == v2 && i1 == i2
  {
    if i1 < i2 { UnitsGrow(i1, i2 - 1); ScaleUp(v1, i1, i2 - 1); }
    if i2 < i1 { UnitsGrow(i2, i1 - 1); ScaleUp(v2, i2, i1 - 1); }
    if i1 == 0 {} else if i1 == 1 {} else if i1 == 2 {} else if i1 == 3 {} else if i1 == 4 {} else {}
  }

  lemma UnitsGrow(i: UnitIndex, j: UnitIndex)
    requires i <= j
    ensures UNITS[i].0 <= UNITS[j].0
  {
  }

  lemma ScaleUp(v: nat, i: UnitIndex, j: UnitIndex)
    requires v <= MAX_VALUE && UNITS[i].0 <= UNITS[j].0
    ensures v * UNITS[i].0 <= MAX_VALUE * UNITS[j].0
  {
    assert v * UNITS[i].0 <= MAX_VALUE * UNITS[i].0 by {
      if i == 0 {} else if i == 1 {} else if i == 2 {} else if i == 3 {} else if i == 4 {} else {}
    }
  }

  /** The duration a formatted timeout stands for. */
  function Advertised(nanos: nat): nat {
    var (value, i) := Choose(nanos, 0);
    value * UNITS[i].0
  }

  /** Every formatted timeout parses, and stands for its value times its unit. */
  lemma ParseOfFormat(nanos: nat)
    ensures Parse(Format(nanos)) == Some(Advertised(nanos))
  {
    ChooseSpec(nanos, 0);
    var (value, i) := Choose(nanos, 0);
    var s := Format(nanos);
    assert s[..|s| - 1] == Digits(value);
    ParseOfDigits(value, U64_MAX);
    assert Digits(value)[0] != 43;
    assert UnitNanos(UNITS[i].1) == Some(UNITS[i].0);
    ScaleUp(value, i, 5);
  }

  /** The emitted number has at most eight digits. */
  lemma FormatIsShort(nanos: nat)
    ensures 2 <= |Format(nanos)| <= 9
  {
    ChooseSpec(nanos, 0);
    var value := Choose(nanos, 0).0;
    assert Pow10(8) == 100_000_000 by {
      assert Pow10(1) == 10 && Pow10(2) == 100 && Pow10(3) == 1000;
      assert Pow10(4) == 10 * Pow10(3) && Pow10(5) == 10 * Pow10(4) && Pow10(6) == 10 * Pow10(5);
      assert Pow10(7) == 10 * Pow10(6) && Pow10(8) == 10 * Pow10(7);
    }
    DigitCount(value, 8);
  }

  /** A deadline is never tightened on the wire, and is loosened by less than 1000 parts in
      99,999,999; beyond 99,999,999 hours it saturates, which is the only tightening there is. */
  lemma NeverTightens(nanos: nat)
    ensures Parse(Format(nanos)).Some?
    ensures var wire := Parse(Format(nanos)).value;
            && (wire >= nanos <==> nanos <= MAX_VALUE * UNITS[5].0)
            && (wire >= nanos && nanos > 0 ==> (wire - nanos) * MAX_VALUE < 1000 * nanos)
            && (wire < nanos ==> wire == MAX_VALUE * UNITS[5].0)
  {
    ParseOfFormat(nanos);
    ChooseSpec(nanos, 0);
    var (value, i) := Choose(nanos, 0);
    ScaleUp(value, i, 5);
    if i == 0 {} else if i == 1 {} else if i == 2 {} else if i == 3 {} else if i == 4 {} else {}
  }

  /** A longer timeout is never advertised as a shorter one. */
  lemma FormatMonotone(a: nat, b: nat)
    requires a <= b
    ensures Parse(Format(a)).Some? && Parse(Format(b)).Some?
    ensures Parse(Format(a)).value <= Parse(Format(b)).value
  {
    ParseOfFormat(a);
    ParseOfFormat(b);
    ChooseSpec(a, 0);
    ChooseSpec(b, 0);
    var (v, i) := Choose(a, 0);
    var (w, j) := Choose(b, 0);
    ChosenMonotone(a, v, i, b, w, j);
  }

  lemma ChosenMonotone(a: nat, v: nat, i: UnitIndex, b: nat, w: nat, j: UnitIndex)
    requires a <= b && Chosen(a, v, i) && Chosen(b, w, j)
    ensures v * UNITS[i].0 <= w * UNITS[j].0
  {
    if i < j {
      UnitsGrow(i, j - 1);
      ScaleUp(v, i, j - 1);
      ScaleUp(v, i, 5);
    } else if j < i {
      UnitsGrow(j, i - 1);
      ScaleUp(w, j, i - 1);
    } else {
      SameUnitMonotone(a, v, b, w, i);
    }
  }

  lemma SameUnitMonotone(a: nat, v: nat, b: nat, w: nat, i: UnitIndex)
    requires a <= b && Chosen(a, v, i) && Chosen(b, w, i)
    ensures v * UNITS[i].0 <= w * UNITS[i].0
  {
    if i == 0 {} else if i == 1 {} else if i == 2 {} else if i == 3 {} else if i == 4 {} else {}
  }

  /** Re-advertising what was parsed changes nothing: the wire form is a fixed point. */
  lemma FormatIdempotent(nanos: nat)
    ensures Parse(Format(nanos)).Some?
    ensures Format(Parse(Format(nanos)).value) == Format(nanos)
  {
    ParseOfFormat(nanos);
    ChooseSpec(nanos, 0);
    var (value, i) := Choose(nanos, 0);
    var wire := Advertised(nanos);
    assert i > 0 ==> wire > MAX_VALUE * UNITS[i - 1].0 by {
      if wire < nanos { assert i == 5; }
    }
    assert Chosen(wire, value, i);
    ChooseSpec(wire, 0);
    ChosenUnique(wire, value, i, Choose(wire, 0).0, Choose(wire, 0).1);
  }

  /** The parser's exact domain: digits that fit a u64, one known unit, and a total whose whole
      seconds fit a u64 — more than eight digits are accepted. */
  lemma ParseAccepts(digits: Str, suffix: Byte)
    ensures Parse(digits + [suffix]).Some? <==>
            && digits != [] && AllDigits(digits)
            && Value(digits) < 0x1_0000_0000_0000_0000
            && UnitNanos(suffix).Some?
            && Value(digits) * UnitNanos(suffix).value / 1_000_000_000 < 0x1_0000_0000_0000_0000
  {
    var s := digits + [suffix];
    assert s[..|s| - 1] == digits;
    if digits != [] && AllDigits(digits) {
      assert digits[0] != 43;
    }
  }
}
