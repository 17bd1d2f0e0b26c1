/** RPC outcomes and the `grpc-status` / `grpc-message` trailers that carry them. */
module Statuses {
  import opened Bytes
  import opened Decimal
  import opened HeaderMap
  import Utf8
  import M = CustomMetadata

  datatype Code =
    | Success | Cancelled | Unknown | InvalidArgument | DeadlineExceeded | NotFound | AlreadyExists
    | PermissionDenied | ResourceExhausted | FailedPrecondition | Aborted | OutOfRange | Unimplemented
    | Internal | Unavailable | DataLoss | Unauthenticated

  const CODES: seq<Code> := [
    Success, Cancelled, Unknown, InvalidArgument, DeadlineExceeded, NotFound, AlreadyExists,
    PermissionDenied, ResourceExhausted, FailedPrecondition, Aborted, OutOfRange, Unimplemented,
    Internal, Unavailable, DataLoss, Unauthenticated]

  function Number(c: Code): (n: nat)
    ensures n < |CODES| && CODES[n] == c
  {
    match c
    case Success => 0
    case Cancelled => 1
    case Unknown => 2
    case InvalidArgument => 3
    case DeadlineExceeded => 4
    case NotFound => 5
    case AlreadyExists => 6
    case PermissionDenied => 7
    case ResourceExhausted => 8
    case FailedPrecondition => 9
    case Aborted => 10
    case OutOfRange => 11
    case Unimplemented => 12
    case Internal => 13
    case Unavailable => 14
    case DataLoss => 15
    case Unauthenticated => 16
  }

  function CodeOf(n: nat): Option<Code> {
    if n < |CODES| then Some(CODES[n]) else None
  }

  /** What a status says: a text that comes from elsewhere, or something the framework says itself. */
  datatype Message =
    | Plain(text: Str)
    | TransportFailed(error: Str) | ReadFailed(error: Str) | WriteFailed(error: Str) | CloseFailed(error: Str)
    | CallCancelled | DeadlineElapsed | SentAfterClose | SentAfterResponse | TrailersOnlyBody | NotAwaited
    | NoResponse | ManyResponses | NoRequest | ManyRequests
    | HttpFailed(http: nat) | NotGrpc | BadEncoding | BadTimeout | BadMetadata(problem: M.Error)
    | EofInPrefix | EofInPayload | Unnegotiated | Oversized(len: nat, max: nat) | Inflated(max: nat)

  /** Its text. A Rust string is held as its UTF-8 bytes. */
  function Wording(m: Message): Str {
    match m
    case Plain(text) => text
    case TransportFailed(e) => Text("transport error: ") + e
    case ReadFailed(e) => Text("read error: ") + e
    case WriteFailed(e) => Text("write error: ") + e
    case CloseFailed(e) => Text("close error: ") + e
    case CallCancelled => Text("call cancelled")
    case DeadlineElapsed => Text("deadline elapsed")
    case SentAfterClose => Text("send after close_send")
    case SentAfterResponse => Text("send after response started")
    case TrailersOnlyBody => Text("trailers-only response (grpc-status in headers) carried a message body")
    case NotAwaited => Text("call has not been awaited")
    case NoResponse => Text("unary response had no message")
    case ManyResponses => Text("unary response had multiple messages")
    case NoRequest => Text("expected exactly one request message, but the request stream was empty")
    case ManyRequests => Text("expected exactly one request message, but the request stream had more than one")
    case HttpFailed(http) => Text("HTTP ") + Digits(http)
    case NotGrpc => Text("unexpected response content-type")
    case BadEncoding => Text("unsupported grpc-encoding")
    case BadTimeout => Text("malformed grpc-timeout")
    case BadMetadata(problem) => Text("invalid metadata: ") + Describe(problem)
    case EofInPrefix => Text("unexpected EOF in frame prefix")
    case EofInPayload => Text("unexpected EOF in frame payload")
    case Unnegotiated => Text("received compressed message but no encoding negotiated")
    case Oversized(len, max) =>
      Text("received message of ") + Digits(len) + Text(" bytes exceeds limit of ") + Digits(max)
    case Inflated(max) => Text("decompressed message exceeds limit of ") + Digits(max) + Text(" bytes")
  }

  function Describe(e: M.Error): Str {
    match e
    case InvalidKey => Text("invalid key")
    case ReservedKey => Text("reserved key")
    case AsciiKeyHasBinSuffix => Text("ASCII key ends in -bin")
    case BinaryKeyMissingBinSuffix => Text("binary key must end in -bin")
    case InvalidAsciiValue => Text("value contains non-printable bytes")
  }

  datatype Status = Status(code: Code, message: Message, metadata: M.Bag)

  /** What a response amounts to: success, or an error status. */
  type Verdict = Result<(), Status>

  function Fail(code: Code, message: Message): Status { Status(code, message, map[]) }

  function Done(): Status { Status(Success, Plain([]), map[]) }

  /** The statuses a program can hold: text is a string, metadata passed validation. */
  ghost predicate Proper(s: Status) {
    Utf8.Valid(Wording(s.message)) && M.WellFormed(s.metadata)
  }

  // ---- percent-encoding ----

  const PERCENT: Byte := 37

  type Nibble = n: nat | n < 16

  function HexNibble(n: Nibble): (c: Byte)
    ensures HexValue(c) == Some(n)
  {
    if n <= 9 then 48 + n else 65 + n - 10
  }

  function HexValue(c: Byte): Option<Nibble> {
    if 48 <= c <= 57 then Some(c - 48)
    else if 97 <= c <= 102 then Some(c - 97 + 10)
    else if 65 <= c <= 70 then Some(c - 65 + 10)
    else None
  }

  predicate Literal(b: Byte) { 0x20 <= b <= 0x7E && b != PERCENT }

  function EncodeByte(b: Byte): Str {
    if Literal(b) then [b] else [PERCENT, HexNibble(b / 16), HexNibble(b % 16)]
  }

  function PercentEncode(s: Str): Str {
    if s == [] then [] else EncodeByte(s[0]) + PercentEncode(s[1..])
  }

  /** Whether a well-formed `%XX` escape starts at `i`. */
  predicate EscapeAt(s: Str, i: nat) {
    i + 2 < |s| && s[i] == PERCENT && HexValue(s[i + 1]).Some? && HexValue(s[i + 2]).Some?
  }

  function Unescape(s: Str, i: nat): Byte
    requires EscapeAt(s, i)
  {
    HexValue(s[i + 1]).value * 16 + HexValue(s[i + 2]).value
  }

  /** The bytes decoded from position `i` on. */
  function DecodeFrom(s: Str, i: nat): Str
    requires i <= |s|
    decreases |s| - i
  {
    if i == |s| then []
    else if EscapeAt(s, i) then [Unescape(s, i)] + DecodeFrom(s, i + 3)
    else [s[i]] + DecodeFrom(s, i + 1)
  }

  function PercentDecode(s: Str): Str { Utf8.Lossy(DecodeFrom(s, 0)) }

  lemma {:induction false} EncodeSnoc(s: Str, b: Byte)
    ensures PercentEncode(s + [b]) == PercentEncode(s) + EncodeByte(b)
  {
    if s == [] {
      assert PercentEncode([b]) == EncodeByte(b) + PercentEncode([]);
    } else {
      assert (s + [b])[1..] == s[1..] + [b];
      EncodeSnoc(s[1..], b);
    }
  }

  method PercentEncodeLoop(s: Str) returns (out: Str)
    ensures out == PercentEncode(s)
  {
    out := [];
    var i := 0;
    while i < |s|
      invariant 0 <= i <= |s|
      invariant out == PercentEncode(s[..i])
    {
      var b := s[i];
      assert s[..i + 1] == s[..i] + [b];
      EncodeSnoc(s[..i], b);
      if Literal(b) {
        out := out + [b];
      } else {
        out := out + [PERCENT];
        out := out + [HexNibble(b / 16)];
        out := out + [HexNibble(b % 16)];
      }
      i := i + 1;
    }
    assert s[..|s|] == s;
  }

  method PercentDecodeLoop(s: Str) returns (out: Str)
    ensures out == PercentDecode(s)
  {
    var raw: Str := [];
    var i := 0;
    while i < |s|
      invariant 0 <= i <= |s|
      invariant DecodeFrom(s, 0) == raw + DecodeFrom(s, i)
    {
      if EscapeAt(s, i) {
        raw := raw + [Unescape(s, i)];
        i := i + 3;
        continue;
      }
      raw := raw + [s[i]];
      i := i + 1;
    }
    assert raw + [] == raw;
    out := Utf8.Lossy(raw);
  }

  /** Decoding looks only at what is ahead of the position. */
  lemma {:induction false} DecodeSuffix(a: Str, s: Str, i: nat)
    requires i <= |s|
    ensures DecodeFrom(a + s, |a| + i) == DecodeFrom(s, i)
    decreases |s| - i
  {
    if i < |s| {
      EscapeShift(a, s, i);
      if EscapeAt(s, i) {
        DecodeSuffix(a, s, i + 3);
      } else {
        DecodeSuffix(a, s, i + 1);
      }
    }
  }

  lemma EscapeShift(a: Str, s: Str, i: nat)
    requires i < |s|
    ensures (a + s)[|a| + i] == s[i] && EscapeAt(a + s, |a| + i) == EscapeAt(s, i)
    ensures EscapeAt(s, i) ==> Unescape(a + s, |a| + i) == Unescape(s, i)
  {
    assert forall k :: i <= k < |s| ==> (a + s)[|a| + k] == s[k];
  }

  lemma {:induction false} DecodeOfEncode(s: Str)
    ensures DecodeFrom(PercentEncode(s), 0) == s
  {
    if s != [] {
      var b, head, rest := s[0], EncodeByte(s[0]), PercentEncode(s[1..]);
      var all := head + rest;
      DecodeOfEncode(s[1..]);
      DecodeSuffix(head, rest, 0);
      if !Literal(b) {
        assert EscapeAt(all, 0) && Unescape(all, 0) == b / 16 * 16 + b % 16;
      }
      assert DecodeFrom(all, 0) == [b] + DecodeFrom(all, |head|);
    }
  }

  /** A message survives percent-encoding, and the encoded form is printable ASCII. */
  lemma {:induction false} PercentRoundTrip(s: Str)
    requires Utf8.Valid(s)
    ensures PercentDecode(PercentEncode(s)) == s
    ensures M.PrintableText(PercentEncode(s))
  {
    DecodeOfEncode(s);
    Utf8.LossyIdentity(s);
    EncodedPrintable(s);
  }

  lemma {:induction false} EncodedPrintable(s: Str)
    ensures M.PrintableText(PercentEncode(s))
    ensures PercentEncode(s) == [] <==> s == []
  {
    if s != [] { EncodedPrintable(s[1..]); }
  }

  lemma {:induction false} DecodeLength(s: Str, i: nat)
    requires i <= |s|
    ensures |DecodeFrom(s, i)| <= |s| - i
    ensures (exists k :: i <= k < |s| && EscapeAt(s, k)) ==> |DecodeFrom(s, i)| < |s| - i
    ensures !(exists k :: i <= k < |s| && EscapeAt(s, k)) ==> DecodeFrom(s, i) == s[i..]
    decreases |s| - i
  {
    if i < |s| {
      DecodeLength(s, if EscapeAt(s, i) then i + 3 else i + 1);
    }
  }

  /** An escape spends three ASCII characters on at most one. */
  lemma {:induction false} DecodeSpendsAscii(s: Str, i: nat)
    requires i <= |s|
    ensures Utf8.AsciiCount(DecodeFrom(s, i)) <= Utf8.AsciiCount(s[i..])
    ensures (exists k :: i <= k < |s| && EscapeAt(s, k)) ==>
              Utf8.AsciiCount(DecodeFrom(s, i)) < Utf8.AsciiCount(s[i..])
    decreases |s| - i
  {
    if i < |s| {
      if EscapeAt(s, i) {
        DecodeSpendsAscii(s, i + 3);
        assert s[i..] == [s[i], s[i + 1], s[i + 2]] + s[i + 3..];
        Utf8.AsciiCountAppend([s[i], s[i + 1], s[i + 2]], s[i + 3..]);
        EscapeAscii(s, i);
        Utf8.AsciiCountAppend([Unescape(s, i)], DecodeFrom(s, i + 3));
      } else {
        DecodeSpendsAscii(s, i + 1);
        assert s[i..] == [s[i]] + s[i + 1..];
        Utf8.AsciiCountAppend([s[i]], s[i + 1..]);
        Utf8.AsciiCountAppend([s[i]], DecodeFrom(s, i + 1));
      }
    }
  }

  lemma EscapeAscii(s: Str, i: nat)
    requires EscapeAt(s, i)
    ensures Utf8.AsciiCount([s[i], s[i + 1], s[i + 2]]) == 3 && Utf8.AsciiCount([Unescape(s, i)]) <= 1
  {
    var (a: Byte, b: Byte, c: Byte) := (s[i], s[i + 1], s[i + 2]);
    assert [a, b, c][1..] == [b, c] && [b, c][1..] == [c] && [c][1..] == [];
    assert Utf8.AsciiCount([c]) == 1 && Utf8.AsciiCount([b, c]) == 2;
  }

  /** Decoding leaves a string alone exactly when it contains no well-formed escape. */
  lemma PercentDecodeUnchanged(s: Str)
    requires Utf8.Valid(s)
    ensures PercentDecode(s) == s <==> !exists k :: 0 <= k < |s| && EscapeAt(s, k)
  {
    DecodeLength(s, 0);
    DecodeSpendsAscii(s, 0);
    assert s[0..] == s;
    Utf8.LossyIdentity(s);
    Utf8.LossyKeepsAscii(DecodeFrom(s, 0));
  }

  // ---- trailers ----

  /** The two framework trailers: the message only when there is one. */
  function Framework(s: Status, h: Headers): Headers {
    var coded := Insert(h, "grpc-status", Digits(Number(s.code)));
    var text := Wording(s.message);
    if text == [] then coded else Insert(coded, "grpc-message", PercentEncode(text))
  }

  /** `write_into`. */
  function WriteInto(s: Status, h: Headers): Headers {
    M.WriteInto(s.metadata, Framework(s, h))
  }

  function ReadCode(h: Headers): Code {
    match GetStr(h, "grpc-status")
    case None => Unknown
    case Some(text) =>
      match ParseUnsigned(text, 255)
      case None => Unknown
      case Some(n) => match CodeOf(n) case None => Unknown case Some(c) => c
  }

  function ReadMessage(h: Headers): Str {
    match GetStr(h, "grpc-message")
    case None => []
    case Some(text) => PercentDecode(text)
  }

  /** `from_trailers`. */
  function FromTrailers(h: Headers): Verdict {
    if ReadCode(h) == Success then Ok(())
    else Err(Status(ReadCode(h), Plain(ReadMessage(h)), M.FromHeaders(h)))
  }

  lemma {:induction false} DigitsAreUtf8(n: nat)
    ensures Utf8.Valid(Digits(n))
  {
    Utf8.AsciiValid(Digits(n));
  }

  lemma FrameworkNames()
    ensures !M.CustomKey("grpc-status") && !M.CustomKey("grpc-message")
    ensures "grpc-status" != "grpc-message"
  {
    assert "grpc-status"[..5] == "grpc-" && "grpc-message"[..5] == "grpc-";
    assert |"grpc-status"| != |"grpc-message"|;
  }

  /** The verdict that reaches the peer when a status is written onto trailers which the handler
      had already been writing to. */
  function Delivered(s: Status, preset: Headers): Verdict {
    if s.code == Success then Ok(())
    else
      Err(Status(s.code,
                 Plain(if Wording(s.message) == [] then ReadMessage(preset) else Wording(s.message)),
                 M.Merge(M.FromHeaders(preset), s.metadata)))
  }

  /** Reading the trailers of a status written over any preset trailers: the code is always the
      status's own, whatever `grpc-status` was preset. */
  lemma TrailersDeliver(s: Status, preset: Headers)
    requires Proper(s)
    ensures FromTrailers(WriteInto(s, preset)) == Delivered(s, preset)
    ensures ReadCode(WriteInto(s, preset)) == s.code
    ensures GetStr(WriteInto(s, preset), "grpc-status").Some?
  {
    CodeDelivered(s, preset);
    MessageDelivered(s, preset);
    MetadataDelivered(s, preset);
  }

  lemma CodeDelivered(s: Status, preset: Headers)
    requires M.WellFormed(s.metadata)
    ensures ReadCode(WriteInto(s, preset)) == s.code
    ensures GetStr(WriteInto(s, preset), "grpc-status").Some?
  {
    FrameworkNames();
    M.ReservedUntouched(s.metadata, Framework(s, preset), "grpc-status");
    assert ValuesOf(WriteInto(s, preset), "grpc-status") == [Digits(Number(s.code))];
    ReadCodeOf(WriteInto(s, preset), s.code);
  }

  lemma ReadCodeOf(h: Headers, c: Code)
    requires ValuesOf(h, "grpc-status") == [Digits(Number(c))]
    ensures ReadCode(h) == c && GetStr(h, "grpc-status").Some?
  {
    DigitsAreUtf8(Number(c));
    var text := Digits(Number(c));
    assert GetStr(h, "grpc-status") == Some(text);
    ParseOfDigits(Number(c), 255);
    CodeNumber(ParseUnsigned(text, 255), c);
  }

  lemma MessageDelivered(s: Status, preset: Headers)
    requires Proper(s)
    ensures ReadMessage(WriteInto(s, preset)) ==
              if Wording(s.message) == [] then ReadMessage(preset) else Wording(s.message)
  {
    FrameworkNames();
    M.ReservedUntouched(s.metadata, Framework(s, preset), "grpc-message");
    var text := Wording(s.message);
    PercentRoundTrip(text);
    Utf8.AsciiValid(PercentEncode(text));
  }

  lemma MetadataDelivered(s: Status, preset: Headers)
    requires M.WellFormed(s.metadata)
    ensures M.FromHeaders(WriteInto(s, preset)) == M.Merge(M.FromHeaders(preset), s.metadata)
  {
    FrameworkNames();
    M.FromHeadersOfWriteInto(s.metadata, Framework(s, preset));
    var coded := Insert(preset, "grpc-status", Digits(Number(s.code)));
    M.InsertReserved(preset, "grpc-status", Digits(Number(s.code)));
    M.InsertReserved(coded, "grpc-message", PercentEncode(Wording(s.message)));
  }

  /** A status as the wire tells it: with its message as plain text. */
  function Told(s: Status): Status {
    s.(message := Plain(Wording(s.message)))
  }

  /** An error status survives fresh trailers whole: code, message, and metadata key by key. */
  lemma RoundTrip(s: Status)
    requires Proper(s)
    ensures FromTrailers(WriteInto(s, map[])) == if s.code == Success then Ok(()) else Err(Told(s))
    ensures s.message.Plain? ==> Told(s) == s
  {
    TrailersDeliver(s, map[]);
    M.EmptyHeaders();
    M.MergeEmpty(s.metadata);
  }

  /** Anything read off the wire is again a proper status. */
  lemma FromTrailersProper(h: Headers)
    ensures FromTrailers(h).Err? ==> Proper(FromTrailers(h).error)
  {
    M.FromHeadersWellFormed(h);
    if GetStr(h, "grpc-message").Some? {
      Utf8.LossyValid(DecodeFrom(GetStr(h, "grpc-message").value, 0));
    }
  }

  /** The header holds a spelling of the code's number. */
  ghost predicate Names(h: Headers, c: Code) {
    GetStr(h, "grpc-status").Some? && Spells(GetStr(h, "grpc-status").value, Number(c))
  }

  /** The `grpc-status` texts that read as a given code: an optional plus sign, then any zeros, then
      the digits of its number. Whatever is no such text for any code reads as Unknown. */
  lemma ReadCodeExact(h: Headers, c: Code)
    ensures ReadCode(h) == c <==> Names(h, c) || (c == Unknown && forall d :: !Names(h, d))
  {
    forall d ensures Names(h, d) ==> ReadCode(h) == d {
      ReadCodeNamed(h, d);
    }
    ReadCodeNamed(h, ReadCode(h));
  }

  lemma ReadCodeNamed(h: Headers, c: Code)
    ensures Names(h, c) ==> ReadCode(h) == c
    ensures ReadCode(h) == c && c != Unknown ==> Names(h, c)
  {
    if GetStr(h, "grpc-status").Some? {
      var text := GetStr(h, "grpc-status").value;
      ParseExact(text, 255, Number(c));
      CodeNumber(ParseUnsigned(text, 255), c);
    }
  }

  lemma CodeNumber(n: Option<nat>, c: Code)
    ensures n == Some(Number(c)) <==> n.Some? && CodeOf(n.value) == Some(c)
  {
    if n.Some? && n.value < |CODES| { CodesDistinct(n.value); }
  }

  lemma CodesDistinct(n: nat)
    requires n < |CODES|
    ensures Number(CODES[n]) == n
  {
  }
}
