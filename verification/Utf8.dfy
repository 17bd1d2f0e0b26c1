/** UTF-8 well-formedness (section 4 of RFC 3629) and Rust's `from_utf8_lossy`, which replaces
    each maximal ill-formed prefix of a character by U+FFFD. */
module Utf8 {
  import opened Bytes

  /** The front of a non-empty byte string: one whole character, or an ill-formed prefix of one. */
  datatype Front = Char(len: nat) | Broken(len: nat)

  predicate Within(s: Str, i: nat, lo: int, hi: int) {
    i < |s| && lo <= s[i] <= hi
  }

  function Scan(s: Str): (f: Front)
    requires s != []
    ensures 1 <= f.len <= |s| && f.len <= 4
  {
    var b := s[0];
    if b < 0x80 then Char(1)
    else if 0xC2 <= b <= 0xDF then
      if Within(s, 1, 0x80, 0xBF) then Char(2) else Broken(1)
    else if 0xE0 <= b <= 0xEF then
      if !Within(s, 1, if b == 0xE0 then 0xA0 else 0x80, if b == 0xED then 0x9F else 0xBF) then Broken(1)
      else if !Within(s, 2, 0x80, 0xBF) then Broken(2)
      else Char(3)
    else if 0xF0 <= b <= 0xF4 then
      if !Within(s, 1, if b == 0xF0 then 0x90 else 0x80, if b == 0xF4 then 0x8F else 0xBF) then Broken(1)
      else if !Within(s, 2, 0x80, 0xBF) then Broken(2)
      else if !Within(s, 3, 0x80, 0xBF) then Broken(3)
      else Char(4)
    else Broken(1)
  }

  predicate Valid(s: Str) {
    s == [] || (Scan(s).Char? && Valid(s[Scan(s).len..]))
  }

  /** A Unicode scalar value: a code point other than a surrogate. */
  type Scalar = c: nat | c < 0xD800 || 0xE000 <= c < 0x11_0000

  /** Its octets, by the table in section 3 of RFC 3629. */
  function Octets(c: Scalar): (s: Str)
    ensures 1 <= |s| <= 4
  {
    if c < 0x80 then [c]
    else if c < 0x800 then [0xC0 + c / 0x40, 0x80 + c % 0x40]
    else if c < 0x1_0000 then [0xE0 + c / 0x1000, 0x80 + c / 0x40 % 0x40, 0x80 + c % 0x40]
    else [0xF0 + c / 0x4_0000, 0x80 + c / 0x1000 % 0x40, 0x80 + c / 0x40 % 0x40, 0x80 + c % 0x40]
  }

  function AllOctets(cs: seq<Scalar>): Str {
    if cs == [] then [] else Octets(cs[0]) + AllOctets(cs[1..])
  }

  /** The well-formed byte strings are those that spell some scalar values, each in its octets. */
  lemma ValidExactly(s: Str)
    ensures Valid(s) <==> exists cs: seq<Scalar> :: s == AllOctets(cs)
  {
    if Valid(s) {
      var cs := Spelt(s);
    }
    if exists cs: seq<Scalar> :: s == AllOctets(cs) {
      var cs: seq<Scalar> :| s == AllOctets(cs);
      SpellingValid(cs);
    }
  }

  lemma {:induction false} SpellingValid(cs: seq<Scalar>)
    ensures Valid(AllOctets(cs))
  {
    if cs != [] {
      var head, rest := Octets(cs[0]), AllOctets(cs[1..]);
      SpellingValid(cs[1..]);
      OctetsScan(cs[0]);
      CharPrepends(head, rest);
    }
  }

  lemma OctetsScan(c: Scalar)
    ensures Scan(Octets(c)) == Char(|Octets(c)|)
  {
  }

  lemma {:induction false} Spelt(s: Str) returns (cs: seq<Scalar>)
    requires Valid(s)
    ensures s == AllOctets(cs)
  {
    if s == [] {
      cs := [];
    } else {
      var n := Scan(s).len;
      var c := ScalarOf(s);
      var rest := Spelt(s[n..]);
      cs := [c] + rest;
      assert s == s[..n] + s[n..] && cs[1..] == rest;
    }
  }

  lemma ScalarOf(s: Str) returns (c: Scalar)
    requires s != [] && Scan(s).Char?
    ensures s[..Scan(s).len] == Octets(c)
  {
    match Scan(s).len {
      case 1 => c := s[0];
      case 2 => c := ScalarOfTwo(s[0], s[1]);
      case 3 => c := ScalarOfThree(s[0], s[1], s[2]);
      case _ => c := ScalarOfFour(s[0], s[1], s[2], s[3]);
    }
  }

  lemma ScalarOfTwo(x: Byte, y: Byte) returns (c: Scalar)
    requires 0xC2 <= x <= 0xDF && 0x80 <= y <= 0xBF
    ensures Octets(c) == [x, y]
  {
    var (a: int, b: int) := (x - 0xC0, y - 0x80);
    c := a * 0x40 + b;
  }

  lemma ScalarOfThree(x: Byte, y: Byte, z: Byte) returns (c: Scalar)
    requires 0xE0 <= x <= 0xEF && 0x80 <= y <= 0xBF && 0x80 <= z <= 0xBF
    requires (x == 0xE0 ==> y >= 0xA0) && (x == 0xED ==> y <= 0x9F)
    ensures Octets(c) == [x, y, z]
  {
    var (a: int, b: int, d: int) := (x - 0xE0, y - 0x80, z - 0x80);
    c := a * 0x1000 + b * 0x40 + d;
    assert c / 0x40 == a * 0x40 + b && c / 0x1000 == a;
  }

  lemma ScalarOfFour(x: Byte, y: Byte, z: Byte, w: Byte) returns (c: Scalar)
    requires 0xF0 <= x <= 0xF4 && 0x80 <= y <= 0xBF && 0x80 <= z <= 0xBF && 0x80 <= w <= 0xBF
    requires (x == 0xF0 ==> y >= 0x90) && (x == 0xF4 ==> y <= 0x8F)
    ensures Octets(c) == [x, y, z, w]
  {
    var (a: int, b: int, d: int, e: int) := (x - 0xF0, y - 0x80, z - 0x80, w - 0x80);
    c := a * 0x4_0000 + b * 0x1000 + d * 0x40 + e;
    assert c / 0x40 == a * 0x1000 + b * 0x40 + d && c / 0x1000 == a * 0x40 + b && c / 0x4_0000 == a;
  }

  const REPLACEMENT: Str := [0xEF, 0xBF, 0xBD]

  function Lossy(s: Str): Str {
    if s == [] then []
    else match Scan(s)
         case Char(n) => s[..n] + Lossy(s[n..])
         case Broken(n) => REPLACEMENT + Lossy(s[n..])
  }

  /** Lossy decoding changes nothing exactly when the bytes are UTF-8 already. */
  lemma {:induction false} LossyIdentity(s: Str)
    ensures Lossy(s) == s <==> Valid(s)
  {
    if s != [] {
      var n := Scan(s).len;
      assert s == s[..n] + s[n..];
      LossyIdentity(s[n..]);
      if Scan(s).Char? {
        assert Lossy(s)[n..] == Lossy(s[n..]);
      } else {
        assert Lossy(s)[0] == 0xEF && Lossy(s)[1] == 0xBF && Lossy(s)[2] == 0xBD;
      }
    }
  }

  /** Whatever the bytes, lossy decoding produces a proper string. */
  lemma {:induction false} LossyValid(s: Str)
    ensures Valid(Lossy(s))
  {
    if s != [] {
      var n := Scan(s).len;
      var rest := Lossy(s[n..]);
      LossyValid(s[n..]);
      var head := if Scan(s).Char? then s[..n] else REPLACEMENT;
      assert Lossy(s) == head + rest;
      CharPrepends(head, rest);
    }
  }

  lemma CharPrepends(head: Str, rest: Str)
    requires head != [] && Scan(head) == Char(|head|) && Valid(rest)
    ensures Valid(head + rest)
  {
    var s := head + rest;
    assert forall i :: 0 <= i < |head| ==> s[i] == head[i];
    assert Scan(s) == Scan(head);
    assert s[|head|..] == rest;
  }

  /** Text in the ASCII range is UTF-8. */
  lemma {:induction false} AsciiValid(s: Str)
    requires forall i :: 0 <= i < |s| ==> s[i] < 0x80
    ensures Valid(s)
  {
    if s != [] {
      assert Scan(s) == Char(1);
      AsciiValid(s[1..]);
    }
  }

  /** How many bytes are in the ASCII range. */
  function AsciiCount(s: Str): nat {
    if s == [] then 0 else (if s[0] < 0x80 then 1 else 0) + AsciiCount(s[1..])
  }

  lemma {:induction false} AsciiCountAppend(a: Str, b: Str)
    ensures AsciiCount(a + b) == AsciiCount(a) + AsciiCount(b)
  {
    if a == [] {
      assert a + b == b;
    } else {
      assert (a + b)[1..] == a[1..] + b;
      AsciiCountAppend(a[1..], b);
    }
  }

  lemma {:induction false} NoAscii(s: Str)
    requires forall i :: 0 <= i < |s| ==> s[i] >= 0x80
    ensures AsciiCount(s) == 0
  {
    if s != [] { NoAscii(s[1..]); }
  }

  /** Lossy decoding neither loses nor invents ASCII characters. */
  lemma {:induction false} LossyKeepsAscii(s: Str)
    ensures AsciiCount(Lossy(s)) == AsciiCount(s)
  {
    if s != [] {
      var n := Scan(s).len;
      LossyKeepsAscii(s[n..]);
      AsciiCountAppend(s[..n], s[n..]);
      assert s == s[..n] + s[n..];
      if Scan(s).Char? {
        AsciiCountAppend(s[..n], Lossy(s[n..]));
      } else {
        NoAscii(s[..n]);
        NoAscii(REPLACEMENT);
        AsciiCountAppend(REPLACEMENT, Lossy(s[n..]));
      }
    }
  }
}
