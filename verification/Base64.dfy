/** Base64 without padding: the alphabet of section 4 of RFC 4648 with padding omitted as in
    section 3.2, decoded strictly (no padding, no stray trailing bits). */
module Base64 {
  import opened Bytes

  function Symbol(v: Byte): (c: Byte)
    requires v < 64
    ensures 0x20 <= c <= 0x7E
  {
    if v < 26 then 65 + v
    else if v < 52 then 97 + (v - 26)
    else if v < 62 then 48 + (v - 52)
    else if v == 62 then 43
    else 47
  }

  function SextetOf(c: Byte): (v: Option<Byte>)
    ensures v.Some? ==> v.value < 64 && Symbol(v.value) == c
  {
    if 65 <= c <= 90 then Some(c - 65)
    else if 97 <= c <= 122 then Some(c - 97 + 26)
    else if 48 <= c <= 57 then Some(c - 48 + 52)
    else if c == 43 then Some(62)
    else if c == 47 then Some(63)
    else None
  }

  lemma SextetOfSymbol(v: Byte)
    requires v < 64
    ensures SextetOf(Symbol(v)) == Some(v)
  {
    assert v < 26 || 26 <= v < 52 || 52 <= v < 62 || v == 62 || v == 63;
  }

  function Encode(b: Str): Str {
    if |b| == 0 then []
    else if |b| == 1 then [Symbol(b[0] / 4), Symbol(b[0] % 4 * 16)]
    else if |b| == 2 then [Symbol(b[0] / 4), Symbol(b[0] % 4 * 16 + b[1] / 16), Symbol(b[1] % 16 * 4)]
    else Quad(b[0], b[1], b[2]) + Encode(b[3..])
  }

  function Quad(x: Byte, y: Byte, z: Byte): (q: Str)
    ensures |q| == 4
  {
    [Symbol(x / 4), Symbol(x % 4 * 16 + y / 16), Symbol(y % 16 * 4 + z / 64), Symbol(z % 64)]
  }

  function Triple(s: Str): Option<Str>
    requires |s| == 4
  {
    match (SextetOf(s[0]), SextetOf(s[1]), SextetOf(s[2]), SextetOf(s[3]))
    case (Some(a), Some(b), Some(c), Some(d)) =>
      Some([a * 4 + b / 16, b % 16 * 16 + c / 4, c % 4 * 64 + d])
    case _ => None
  }

  function Tail(s: Str): Option<Str>
    requires |s| < 4
  {
    if |s| == 0 then Some([])
    else if |s| == 1 then None
    else if |s| == 2 then
      match (SextetOf(s[0]), SextetOf(s[1]))
      case (Some(a), Some(b)) => if b % 16 == 0 then Some([a * 4 + b / 16]) else None
      case _ => None
    else
      match (SextetOf(s[0]), SextetOf(s[1]), SextetOf(s[2]))
      case (Some(a), Some(b), Some(c)) =>
        if c % 4 == 0 then Some([a * 4 + b / 16, b % 16 * 16 + c / 4]) else None
      case _ => None
  }

  function Decode(s: Str): Option<Str> {
    if |s| < 4 then Tail(s)
    else match (Triple(s[..4]), Decode(s[4..]))
         case (Some(front), Some(back)) => Some(front + back)
         case _ => None
  }

  /** Cutting bytes into sextets and gluing the sextets back loses nothing. */
  lemma Regroup(x: Byte, y: Byte, z: Byte)
    ensures x / 4 * 4 + (x % 4 * 16 + y / 16) / 16 == x
    ensures (x % 4 * 16 + y / 16) % 16 * 16 + (y % 16 * 4 + z / 64) / 4 == y
    ensures (y % 16 * 4 + z / 64) % 4 * 64 + z % 64 == z
  {
  }

  lemma TripleOfQuad(x: Byte, y: Byte, z: Byte)
    ensures Triple(Quad(x, y, z)) == Some([x, y, z])
  {
    var a: Byte, b: Byte, c: Byte, d: Byte := x / 4, x % 4 * 16 + y / 16, y % 16 * 4 + z / 64, z % 64;
    SextetOfSymbol(a);
    SextetOfSymbol(b);
    SextetOfSymbol(c);
    SextetOfSymbol(d);
    Regroup(x, y, z);
  }

  lemma TailOfEncode(b: Str)
    requires |b| < 3
    ensures |Encode(b)| < 4 && Tail(Encode(b)) == Some(b)
  {
    if |b| == 1 {
      TailOfOne(b[0]);
      assert b == [b[0]];
    } else if |b| == 2 {
      TailOfTwo(b[0], b[1]);
      assert b == [b[0], b[1]];
    }
  }

  lemma TailOfOne(x: Byte)
    ensures Tail([Symbol(x / 4), Symbol(x % 4 * 16)]) == Some([x])
  {
    SextetOfSymbol(x / 4);
    SextetOfSymbol(x % 4 * 16);
    assert x % 4 * 16 / 16 == x % 4 && x % 4 * 16 % 16 == 0;
  }

  lemma TailOfTwo(x: Byte, y: Byte)
    ensures Tail([Symbol(x / 4), Symbol(x % 4 * 16 + y / 16), Symbol(y % 16 * 4)]) == Some([x, y])
  {
    SextetOfSymbol(x / 4);
    SextetOfSymbol(x % 4 * 16 + y / 16);
    SextetOfSymbol(y % 16 * 4);
    Regroup(x, y, 0);
  }

  lemma QuadOfTriple(s: Str)
    requires |s| == 4 && Triple(s).Some?
    ensures var t := Triple(s).value; |t| == 3 && Quad(t[0], t[1], t[2]) == s
  {
    var a, b, c, d := SextetOf(s[0]).value, SextetOf(s[1]).value, SextetOf(s[2]).value, SextetOf(s[3]).value;
    var t := Triple(s).value;
    assert t[0] / 4 == a && t[0] % 4 == b / 16;
    assert t[1] / 16 == b % 16 && t[1] % 16 == c / 4;
    assert t[2] / 64 == c % 4 && t[2] % 64 == d;
    assert b == b / 16 * 16 + b % 16 && c == c / 4 * 4 + c % 4;
  }

  lemma {:induction false} DecodeOfEncode(b: Str)
    ensures Decode(Encode(b)) == Some(b)
  {
    if |b| >= 3 {
      var q, s := Quad(b[0], b[1], b[2]), Encode(b);
      assert s[..4] == q && s[4..] == Encode(b[3..]);
      TripleOfQuad(b[0], b[1], b[2]);
      DecodeOfEncode(b[3..]);
      assert b == [b[0], b[1], b[2]] + b[3..];
    } else {
      TailOfEncode(b);
    }
  }

  /** The encoding is canonical: only `Encode(b)` decodes to `b`. */
  lemma {:induction false} EncodeOfDecode(s: Str)
    requires Decode(s).Some?
    ensures Encode(Decode(s).value) == s
  {
    if |s| >= 4 {
      QuadOfTriple(s[..4]);
      EncodeOfDecode(s[4..]);
      var b, t := Decode(s).value, Triple(s[..4]).value;
      assert b[0] == t[0] && b[1] == t[1] && b[2] == t[2];
      assert b[3..] == Decode(s[4..]).value;
      assert s == s[..4] + s[4..];
    } else {
      EncodeOfTail(s);
    }
  }

  lemma EncodeOfTail(s: Str)
    requires |s| < 4 && Tail(s).Some?
    ensures Encode(Tail(s).value) == s
  {
    if |s| == 3 {
      var x, y, z := SextetOf(s[0]).value, SextetOf(s[1]).value, SextetOf(s[2]).value;
      var b := Tail(s).value;
      assert y == y / 16 * 16 + y % 16 && z == z / 4 * 4;
      assert b[0] / 4 == x && b[0] % 4 == y / 16 && b[1] / 16 == y % 16 && b[1] % 16 * 4 == z;
      assert s == [s[0], s[1], s[2]];
    } else if |s| == 2 {
      var x, y := SextetOf(s[0]).value, SextetOf(s[1]).value;
      var b := Tail(s).value;
      assert y == y / 16 * 16;
      assert b[0] / 4 == x && b[0] % 4 * 16 == y;
      assert s == [s[0], s[1]];
    }
  }

  /** The symbols are printable ASCII, so the result is a legal header value. */
  lemma {:induction false} EncodePrintable(b: Str)
    ensures forall i :: 0 <= i < |Encode(b)| ==> 0x20 <= Encode(b)[i] <= 0x7E
  {
    if |b| >= 3 { EncodePrintable(b[3..]); }
  }
}
