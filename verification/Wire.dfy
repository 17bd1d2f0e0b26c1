/** The wire, spelled out: the texts and bytes that the protocol fixes, next to what the codecs here
    write and read. Each lemma has a reference of its own, so that the two directions of a codec
    cannot be wrong together. */
module Wire {
  import opened Bytes
  import opened Decimal
  import opened HeaderMap
  import opened Statuses
  import opened Encodings
  import opened Timeout
  import Base64
  import Utf8
  import M = CustomMetadata

  // ---- status codes ----

  /** The value of `grpc-status` for each code. */
  function CodeText(c: Code): string {
    match c
    case Success => "0"
    case Cancelled => "1"
    case Unknown => "2"
    case InvalidArgument => "3"
    case DeadlineExceeded => "4"
    case NotFound => "5"
    case AlreadyExists => "6"
    case PermissionDenied => "7"
    case ResourceExhausted => "8"
    case FailedPrecondition => "9"
    case Aborted => "10"
    case OutOfRange => "11"
    case Unimplemented => "12"
    case Internal => "13"
    case Unavailable => "14"
    case DataLoss => "15"
    case Unauthenticated => "16"
  }

  lemma DigitsOfCode(c: Code)
    ensures Digits(Number(c)) == Text(CodeText(c))
  {
    assert Digits(1) == [49];
  }

  /** The trailers of a status name its code by exactly this text, whatever was preset. */
  lemma CodeWritten(s: Status, preset: Headers)
    requires M.WellFormed(s.metadata)
    ensures ValuesOf(WriteInto(s, preset), "grpc-status") == [Text(CodeText(s.code))]
  {
    Statuses.FrameworkNames();
    DigitsOfCode(s.code);
    M.ReservedUntouched(s.metadata, Framework(s, preset), "grpc-status");
  }

  /** And a header block that holds this text means that code. */
  lemma CodeRead(h: Headers, c: Code)
    requires ValuesOf(h, "grpc-status") == [Text(CodeText(c))]
    ensures if c == Success then FromTrailers(h) == Ok(()) else FromTrailers(h).Err? && FromTrailers(h).error.code == c
  {
    DigitsOfCode(c);
    ReadCodeOf(h, c);
  }

  // ---- percent-encoding ----

  const UPPER_HEX := "0123456789ABCDEF"
  const LOWER_HEX := "0123456789abcdef"

  /** A message byte on the wire: itself if it is printable ASCII other than the percent sign, else
      a percent sign and two upper-case hex digits, the high one first. */
  lemma ByteEscaped(s: Str, b: Byte)
    ensures PercentEncode(s + [b]) == PercentEncode(s) + Escaped(b)
  {
    EncodeSnoc(s, b);
    EscapedIs(b);
  }

  lemma EscapedIs(b: Byte)
    ensures EncodeByte(b) == Escaped(b)
  {
    if Literal(b) {
    } else {
      NibbleDigit(b / 16);
      NibbleDigit(b % 16);
    }
  }

  function Escaped(b: Byte): Str {
    if 0x20 <= b <= 0x7E && b != '%' as int then [b] else ['%' as int, HexDigit(b / 16), HexDigit(b % 16)]
  }

  function HexDigit(n: Nibble): Byte {
    UPPER_HEX[n] as int % 256
  }

  lemma NibbleDigit(n: Nibble)
    ensures HexNibble(n) == HexDigit(n)
  {
  }

  /** Hex digits of either case are read, and nothing else is. */
  lemma HexRead(c: Byte, n: Nibble)
    ensures HexValue(c) == Some(n) <==> c == UPPER_HEX[n] as int || c == LOWER_HEX[n] as int
  {
  }

  /** An escape in front of anything is read as its byte. */
  lemma EscapeRead(x: Byte, y: Byte, hi: Nibble, lo: Nibble, rest: Str)
    requires HexValue(x) == Some(hi) && HexValue(y) == Some(lo)
    ensures DecodeFrom(['%' as int, x, y] + rest, 0) == [hi * 16 + lo] + DecodeFrom(rest, 0)
  {
    var head: Str := ['%' as int, x, y];
    DecodeSuffix(head, rest, 0);
    assert EscapeAt(head + rest, 0) && Unescape(head + rest, 0) == hi * 16 + lo;
  }

  /** The trailers of a status hold its message in that form, which is printable, and no message when
      it has none; a `grpc-message` that a peer sends is read from it. */
  lemma MessageWritten(s: Status, preset: Headers)
    requires M.WellFormed(s.metadata)
    ensures ValuesOf(WriteInto(s, preset), "grpc-message")
            == if Wording(s.message) == [] then ValuesOf(preset, "grpc-message")
               else [PercentEncode(Wording(s.message))]
  {
    Statuses.FrameworkNames();
    M.ReservedUntouched(s.metadata, Framework(s, preset), "grpc-message");
  }

  lemma MessageRead(h: Headers, text: Str)
    requires GetStr(h, "grpc-message") == Some(text)
    ensures FromTrailers(h).Err? ==> Wording(FromTrailers(h).error.message) == PercentDecode(text)
  {
  }

  /** A header that is read as one text was sent once, as that text. */
  lemma HeaderRead(h: Headers, name: string, text: Str)
    ensures GetStr(h, name) == Some(text) <==> ValuesOf(h, name) == [text] && Utf8.Valid(text)
  {
  }

  // ---- timeouts ----

  /** A timeout is a number of hours, minutes, seconds, milliseconds, microseconds or nanoseconds. */
  function LetterNanos(letter: char): Option<nat> {
    match letter
    case 'H' => Some(60 * 60 * 1_000_000_000)
    case 'M' => Some(60 * 1_000_000_000)
    case 'S' => Some(1_000_000_000)
    case 'm' => Some(1_000_000)
    case 'u' => Some(1_000)
    case 'n' => Some(1)
    case _ => None
  }

  /** Digits of at most 99,999,999 and one of these letters are read as that many of its unit; with
      any other letter they are no timeout. */
  lemma TimeoutRead(digits: Str, letter: Byte)
    requires digits != [] && AllDigits(digits) && Value(digits) <= 99_999_999
    ensures Parse(digits + [letter]) == match LetterNanos(letter as char)
                                        case None => None
                                        case Some(nanos) => Some(Value(digits) * nanos)
  {
    var s := digits + [letter];
    assert s[..|s| - 1] == digits;
    assert digits[0] != 43;
    if UnitNanos(letter).Some? {
      WithinRange(Value(digits), UnitNanos(letter).value);
    }
  }

  lemma WithinRange(value: nat, unit: nat)
    requires value <= 99_999_999
    requires unit in {1, 1_000, 1_000_000, 1_000_000_000, 60_000_000_000, 3_600_000_000_000}
    ensures value * unit / NANOS_PER_SEC <= U64_MAX
  {
    if unit == 1 {
    } else if unit == 1_000 {
    } else if unit == 1_000_000 {
    } else if unit == 1_000_000_000 {
    } else if unit == 60_000_000_000 {
    } else {
    }
  }

  /** What is written for a duration is some number below a hundred million, then a letter: the
      finest unit in which the rounded-up number fits. */
  lemma TimeoutWritten(nanos: nat) returns (value: nat, letter: char, unit: nat)
    ensures value <= 99_999_999 && LetterNanos(letter) == Some(unit)
    ensures Format(nanos) == Digits(value) + Text([letter])
    ensures || nanos <= value * unit < nanos + unit
            || (letter == 'H' && value == 99_999_999 && nanos > 99_999_999 * unit)
    ensures forall finer: char {:trigger LetterNanos(finer)} ::
              LetterNanos(finer).Some? && LetterNanos(finer).value < unit ==>
                nanos > 99_999_999 * LetterNanos(finer).value
  {
    ChooseSpec(nanos, 0);
    var (v, i) := Choose(nanos, 0);
    value, letter, unit := v, UNITS[i].1 as char, UNITS[i].0;
    if i == 0 {} else if i == 1 {} else if i == 2 {} else if i == 3 {} else if i == 4 {} else {}
  }

  // ---- encodings ----

  /** The list of codecs that a build announces. */
  function AcceptText(f: Features): string {
    "identity" + (if f.gzip then ",gzip" else "") + (if f.deflate then ",deflate" else "")
    + (if f.zstd then ",zstd" else "")
  }

  lemma AcceptWritten(f: Features)
    ensures AcceptedEncodings(f) == Text(AcceptText(f))
  {
    var none: seq<Encoding> := [];
    var a := [Identity];
    var b := a + (if f.gzip then [Gzip] else none);
    var c := b + (if f.deflate then [Deflate] else none);
    var d := c + (if f.zstd then [Zstd] else none);
    var t := "identity";
    var u := t + (if f.gzip then ",gzip" else "");
    var v := u + (if f.deflate then ",deflate" else "");
    var w := v + (if f.zstd then ",zstd" else "");
    AnnounceOne(a, t, f.gzip, Gzip, "gzip");
    AnnounceOne(b, u, f.deflate, Deflate, "deflate");
    AnnounceOne(c, v, f.zstd, Zstd, "zstd");
    assert d == All(f) && w == AcceptText(f);
  }

  lemma AnnounceOne(es: seq<Encoding>, text: string, more: bool, e: Encoding, name: string)
    requires es != [] && Join(MapTokens(es)) == Text(text) && Token(e) == Text(name)
    ensures Join(MapTokens(es + if more then [e] else [])) == Text(text + if more then "," + name else "")
  {
    if more {
      assert MapTokens(es + [e]) == MapTokens(es) + [Token(e)];
      JoinSnoc(MapTokens(es), Token(e));
      assert Text(text + ("," + name)) == Text(text) + [COMMA] + Text(name);
    } else {
      assert es + [] == es && text + "" == text;
    }
  }

  lemma {:induction false} JoinSnoc(parts: seq<Str>, last: Str)
    requires parts != []
    ensures Join(parts + [last]) == Join(parts) + [COMMA] + last
  {
    if |parts| > 1 {
      assert (parts + [last])[1..] == parts[1..] + [last];
      JoinSnoc(parts[1..], last);
    }
  }

  // ---- blanks around the parts of a list ----

  /** Spaces, tabs, line feeds, vertical tabs, form feeds and carriage returns only. */
  predicate Blank(s: Str) {
    forall i :: 0 <= i < |s| ==> s[i] in {0x20, 0x09, 0x0A, 0x0B, 0x0C, 0x0D}
  }

  /** No blank at either end. */
  predicate Compact(s: Str) {
    s != [] ==> !Blank([s[0]]) && !Blank([s[|s| - 1]])
  }

  lemma BlankByte(b: Byte)
    ensures IsSpace(b) <==> Blank([b])
  {
    if Blank([b]) { assert [b][0] == b; }
  }

  lemma {:induction false} TrimStartOver(left: Str, s: Str)
    requires Blank(left) && (s != [] ==> !IsSpace(s[0]))
    ensures TrimStart(left + s) == s
  {
    if left == [] {
      assert left + s == s;
    } else {
      assert (left + s)[1..] == left[1..] + s;
      TrimStartOver(left[1..], s);
    }
  }

  lemma {:induction false} TrimEndOver(s: Str, right: Str)
    requires Blank(right) && (s != [] ==> !IsSpace(s[|s| - 1]))
    ensures TrimEnd(s + right) == s
  {
    if right == [] {
      assert s + right == s;
    } else {
      assert (s + right)[..|s + right| - 1] == s + right[..|right| - 1];
      TrimEndOver(s, right[..|right| - 1]);
    }
  }

  lemma TrimBlank(s: Str)
    requires Blank(s)
    ensures Trim(s) == []
  {
    TrimStartOver(s, []);
    assert s + [] == s;
  }

  /** Trimming takes the blanks off both ends and nothing else. */
  lemma TrimExactly(left: Str, core: Str, right: Str)
    requires Blank(left) && Compact(core) && Blank(right)
    ensures Trim(left + core + right) == core
  {
    if core == [] {
      assert left + core + right == left + right;
      TrimBlank(left + right);
    } else {
      BlankByte(core[0]);
      BlankByte(core[|core| - 1]);
      TrimStartOver(left, core + right);
      TrimEndOver(core, right);
      assert left + core + right == left + (core + right);
    }
  }

  function Padded(lefts: seq<Str>, cores: seq<Str>, rights: seq<Str>): seq<Str>
    requires |lefts| == |cores| == |rights|
  {
    seq(|cores|, i requires 0 <= i < |cores| => lefts[i] + cores[i] + rights[i])
  }

  /** A header that joins names with commas lists exactly those names, however blanks are put around
      them. */
  lemma ListRead(lefts: seq<Str>, cores: seq<Str>, rights: seq<Str>, e: Encoding)
    requires |lefts| == |cores| == |rights| > 0
    requires forall i :: 0 <= i < |cores| ==>
               Blank(lefts[i]) && Blank(rights[i]) && Compact(cores[i]) && ',' as int !in cores[i]
    ensures Lists(Join(Padded(lefts, cores, rights)), e) <==> Token(e) in cores
  {
    var parts := Padded(lefts, cores, rights);
    forall i | 0 <= i < |parts| ensures COMMA !in parts[i] && Trim(parts[i]) == cores[i] {
      TrimExactly(lefts[i], cores[i], rights[i]);
    }
    SplitOfJoin(parts);
    if Token(e) in cores {
      var i :| 0 <= i < |cores| && cores[i] == Token(e);
      assert Trim(Split(Join(parts))[i]) == Token(e);
    }
  }

  // ---- Base64 ----

  const UPPER := "ABCDEFGHIJKLMNOPQRSTUVWXYZ"
  const LOWER := "abcdefghijklmnopqrstuvwxyz"
  const DIGIT := "0123456789"

  /** The alphabet of section 4 of RFC 4648. */
  const ALPHABET := UPPER + LOWER + DIGIT + "+/"

  function ByteAt(b: Str, i: nat): Byte {
    if i < |b| then b[i] else 0
  }

  /** The `j`-th group of six bits, counted from the most significant, of three bytes. */
  function SixBits(x: Byte, y: Byte, z: Byte, j: nat): (v: Byte)
    requires j < 4
    ensures v < 64
  {
    var bits := x * 0x1_0000 + y * 0x100 + z;
    match j case 0 => bits / 262_144 case 1 => bits / 4_096 % 64 case 2 => bits / 64 % 64 case 3 => bits % 64
  }

  /** Symbol `i` of the encoding is that of the six bits `6 * i .. 6 * i + 6` of the data, padded with
      zero bits; there are as many as it takes to cover the data. */
  lemma Base64Written(b: Str, i: nat)
    requires i < |Base64.Encode(b)|
    ensures |Base64.Encode(b)| == (8 * |b| + 5) / 6
    ensures Base64.Encode(b)[i] as char == ALPHABET[SixBitsOf(b, i)]
  {
    EncodeLength(b);
    SymbolAt(b, i);
    SymbolSpelled(SixBitsOf(b, i));
  }

  lemma {:induction false} EncodeLength(b: Str)
    ensures |Base64.Encode(b)| == (8 * |b| + 5) / 6
  {
    if |b| >= 3 { EncodeLength(b[3..]); }
  }

  lemma {:induction false} SymbolAt(b: Str, i: nat)
    requires i < |Base64.Encode(b)|
    ensures Base64.Encode(b)[i] == Base64.Symbol(SixBitsOf(b, i))
  {
    if i < 4 {
      FrontSymbol(b, i);
    } else {
      FrontOfMany(b);
      SixBitsShift(b, i);
      SymbolAt(b[3..], i - 4);
    }
  }

  lemma FrontSymbol(b: Str, i: nat)
    requires i < 4 && i < |Base64.Encode(b)|
    ensures Base64.Encode(b)[i] == Base64.Symbol(SixBitsOf(b, i))
  {
    if |b| == 1 {
      SixBitsOfOne(b);
    } else if |b| == 2 {
      SixBitsOfTwo(b);
    } else {
      FrontOfMany(b);
      SixBitsCut(b[0], b[1], b[2]);
    }
  }

  lemma SixBitsOfOne(b: Str)
    requires |b| == 1
    ensures SixBitsOf(b, 0) == b[0] / 4 && SixBitsOf(b, 1) == b[0] % 4 * 16
  {
    SixBitsCut(b[0], 0, 0);
  }

  lemma SixBitsOfTwo(b: Str)
    requires |b| == 2
    ensures SixBitsOf(b, 0) == b[0] / 4 && SixBitsOf(b, 1) == b[0] % 4 * 16 + b[1] / 16
    ensures SixBitsOf(b, 2) == b[1] % 16 * 4
  {
    SixBitsCut(b[0], b[1], 0);
  }

  lemma FrontOfMany(b: Str)
    requires |b| >= 3
    ensures Base64.Encode(b) == Base64.Quad(b[0], b[1], b[2]) + Base64.Encode(b[3..])
  {
  }

  function SixBitsOf(b: Str, i: nat): (v: Byte)
    ensures v < 64
  {
    var at := i / 4 * 3;
    SixBits(ByteAt(b, at), ByteAt(b, at + 1), ByteAt(b, at + 2), i % 4)
  }

  lemma SixBitsShift(b: Str, i: nat)
    requires |b| >= 3 && i >= 4
    ensures SixBitsOf(b, i) == SixBitsOf(b[3..], i - 4)
  {
    var at := i / 4 * 3;
    assert (i - 4) / 4 * 3 == at - 3 && (i - 4) % 4 == i % 4;
  }

  lemma SixBitsCut(x: Byte, y: Byte, z: Byte)
    ensures SixBits(x, y, z, 0) == x / 4 && SixBits(x, y, z, 1) == x % 4 * 16 + y / 16
    ensures SixBits(x, y, z, 2) == y % 16 * 4 + z / 64 && SixBits(x, y, z, 3) == z % 64
  {
    var bits := x * 0x1_0000 + y * 0x100 + z;
    CutAt(bits, x / 4, x % 4 * 0x1_0000 + y * 0x100 + z, 262_144);
    CutAt(bits, x * 16 + y / 16, y % 16 * 0x100 + z, 4_096);
    CutAt(bits, x * 1024 + y * 4 + z / 64, z % 64, 64);
    assert (x * 16 + y / 16) % 64 == x % 4 * 16 + y / 16;
    assert (x * 1024 + y * 4 + z / 64) % 64 == y % 16 * 4 + z / 64;
  }

  lemma CutAt(n: nat, q: nat, r: nat, unit: nat)
    requires unit in {262_144, 4_096, 64} && n == q * unit + r && r < unit
    ensures n / unit == q
  {
    if unit == 64 {} else if unit == 4_096 {} else {}
  }

  lemma SymbolSpelled(v: Byte)
    requires v < 64
    ensures Base64.Symbol(v) as char == ALPHABET[v]
  {
    if v < 26 {
      UpperSpelled(v);
    } else if v < 52 {
      LowerSpelled(v - 26);
    } else if v < 62 {
      DigitSpelled(v - 52);
    }
  }

  lemma UpperSpelled(k: nat)
    requires k < 26
    ensures UPPER[k] == 'A' + k as char
  {
  }

  lemma LowerSpelled(k: nat)
    requires k < 26
    ensures LOWER[k] == 'a' + k as char
  {
  }

  lemma DigitSpelled(k: nat)
    requires k < 10
    ensures DIGIT[k] == '0' + k as char
  {
  }

  // ---- metadata ----

  /** The keys that user metadata may have: digits, lower-case letters, underscore, hyphen and dot,
      save the protocol's own names and those of the transport. */
  lemma KeysSpelled(key: string)
    ensures M.CustomKey(key) <==>
              && key != ""
              && (forall i :: 0 <= i < |key| ==> key[i] in DIGIT || key[i] in LOWER || key[i] in "_-.")
              && !Owned(key)
  {
    forall c ensures M.ValidKeyChar(c) <==> c in DIGIT || c in LOWER || c in "_-." {
      KeyChar(c);
    }
    OwnedReserved(key);
  }

  predicate Owned(key: string) {
    "grpc-" <= key || key in ["te", "content-type", "user-agent", "host", "connection"]
  }

  lemma OwnedReserved(key: string)
    ensures M.Reserved(key) <==> Owned(key)
  {
    if |key| >= 5 { assert "grpc-" <= key <==> key[..5] == "grpc-"; }
  }

  /** Texts that metadata may hold: from the space to the tilde. */
  lemma TextsSpelled(s: Str)
    ensures M.PrintableText(s) <==> forall i :: 0 <= i < |s| ==> ' ' <= s[i] as char <= '~'
  {
  }

  /** Keys of binary values are those that end in `-bin`. */
  lemma BinaryKeysSpelled(key: string)
    ensures M.EndsInBin(key) <==> exists stem: string :: key == stem + "-bin"
  {
    if M.EndsInBin(key) { assert key == key[..|key| - 4] + "-bin"; }
  }

  lemma KeyChar(c: char)
    ensures M.ValidKeyChar(c) <==> c in DIGIT || c in LOWER || c in "_-."
  {
    if 'a' <= c <= 'z' { LowerSpelled(c as int - 'a' as int); }
    if '0' <= c <= '9' { DigitSpelled(c as int - '0' as int); }
  }

  /** How the `i`-th value stored under a key is written: text as it is, bytes in Base64 without
      padding. */
  lemma ValueWritten(bag: M.Bag, h: Headers, key: string, i: nat)
    requires key in bag && i < |bag[key]|
    ensures |ValuesOf(M.WriteInto(bag, h), key)| == |ValuesOf(h, key)| + |bag[key]|
    ensures var line := ValuesOf(M.WriteInto(bag, h), key)[|ValuesOf(h, key)| + i];
            match bag[key][i]
            case Ascii(text) => line == text
            case Binary(bytes) => IsBase64(line, bytes)
  {
    M.WriteAt(bag, h, key);
    if bag[key][i].Binary? {
      EncodeIsBase64(bag[key][i].bytes);
    }
  }

  predicate IsBase64(line: Str, bytes: Str) {
    && |line| == (8 * |bytes| + 5) / 6
    && forall k :: 0 <= k < |line| ==> line[k] as char == ALPHABET[SixBitsOf(bytes, k)]
  }

  lemma EncodeIsBase64(bytes: Str)
    ensures IsBase64(Base64.Encode(bytes), bytes)
  {
    EncodeLength(bytes);
    forall k | 0 <= k < |Base64.Encode(bytes)|
      ensures Base64.Encode(bytes)[k] as char == ALPHABET[SixBitsOf(bytes, k)]
    {
      Base64Written(bytes, k);
    }
  }
}
