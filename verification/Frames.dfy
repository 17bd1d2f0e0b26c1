/** The length-prefixed message format: the frame writer, and a simple recursive parser that says
    what any byte string means to a reader. Section "Requests" of PROTOCOL-HTTP2.md. */
module Frames {
  import opened Bytes
  import opened Statuses
  import opened Encodings

  const PREFIX_LEN: nat := 5
  const U32_RANGE: nat := 0x1_0000_0000

  /** How a side reads messages: codec, negotiated encoding, size cap, compression libraries. */
  datatype Inbound<T> = Inbound(decode: Str -> Result<T, Status>, encoding: Encoding, max: nat, lib: Library)

  /** How a side writes messages. */
  datatype Outbound<!T> = Outbound(encode: T -> Result<Str, Status>, encoding: Encoding, lib: Library)

  // ---- writing ----

  /** `u32::to_be_bytes` of a length cast `as u32`, which drops everything above 32 bits. */
  function LengthBytes(n: nat): (s: Str)
    ensures |s| == 4
  {
    var m := n % U32_RANGE;
    [m / 16777216, m / 65536 % 256, m / 256 % 256, m % 256]
  }

  /** `u32::from_be_bytes`. */
  function LengthOf(s: Str): (n: nat)
    requires |s| == 4
    ensures n < U32_RANGE
  {
    var (a: int, b: int, c: int, d: int) := (s[0], s[1], s[2], s[3]);
    a * 16777216 + b * 65536 + c * 256 + d
  }

  /** Most significant byte first; what is read back is the length modulo 2^32. */
  lemma LengthRoundTrip(n: nat)
    ensures n < U32_RANGE ==> IsBigEndian(LengthBytes(n), n)
    ensures LengthOf(LengthBytes(n)) == n % U32_RANGE
  {
    var m := n % U32_RANGE;
    assert m == m / 256 * 256 + m % 256;
    assert m / 256 == m / 65536 * 256 + m / 256 % 256;
    assert m / 65536 == m / 16777216 * 256 + m / 65536 % 256;
  }

  /** Four bytes that spell a number below 2^32 with the most significant one first. */
  predicate IsBigEndian(s: Str, n: nat) {
    |s| == 4 && s[0] == n / 0x100_0000 && s[1] == n / 0x1_0000 % 0x100 && s[2] == n / 0x100 % 0x100 && s[3] == n % 0x100
  }

  /** The bytes of one frame: the flag, the length, the payload as it was packed. */
  predicate IsFrame(frame: Str, compressed: bool, packed: Str) {
    && |frame| == 5 + |packed| && frame[0] == (if compressed then 1 else 0)
    && IsBigEndian(frame[1..5], |packed|) && frame[5..] == packed
  }

  function Flag(e: Encoding): Byte { if e == Identity then 0 else 1 }

  function FrameOf(flag: Byte, payload: Str): (frame: Str)
    ensures |frame| == PREFIX_LEN + |payload|
  {
    [flag] + LengthBytes(|payload|) + payload
  }

  /** `encode_payload`. */
  function EncodePayload(lib: Library, payload: Str, e: Encoding): Result<Str, Status> {
    match Compress(lib, e, payload)
    case Err(s) => Err(s)
    case Ok(packed) => Ok(FrameOf(Flag(e), packed))
  }

  /** The frame on the wire, byte by byte: the flag, the length most significant byte first, the
      payload that was packed. */
  lemma FrameSpelled(lib: Library, payload: Str, e: Encoding, packed: Str)
    requires Compress(lib, e, payload) == Ok(packed) && |packed| < U32_RANGE
    ensures EncodePayload(lib, payload, e).Ok? && IsFrame(EncodePayload(lib, payload, e).value, e != Identity, packed)
  {
    var frame := FrameOf(Flag(e), packed);
    assert frame[1..5] == LengthBytes(|packed|) && frame[5..] == packed;
    LengthRoundTrip(|packed|);
  }

  method WritePayload(lib: Library, payload: Str, e: Encoding) returns (r: Result<Str, Status>)
    ensures r == EncodePayload(lib, payload, e)
    ensures Compress(lib, e, payload).Ok? && |Compress(lib, e, payload).value| < U32_RANGE ==>
              r.Ok? && IsFrame(r.value, e != Identity, Compress(lib, e, payload).value)
  {
    var flag: Byte, body := 0, payload;
    if e != Identity {
      var packed := lib.compress(e, payload);
      if packed.Err? {
        return Err(packed.error);
      }
      flag, body := 1, packed.value;
    }
    var out: Str := [];
    out := out + [flag];
    out := out + LengthBytes(|body|);
    out := out + body;
    assert out == FrameOf(flag, body);
    if |body| < U32_RANGE {
      FrameSpelled(lib, payload, e, body);
    }
    return Ok(out);
  }

  /** `encode_frame`: the codec, then the frame. */
  function EncodeFrame<T>(outb: Outbound<T>, message: T): Result<Str, Status> {
    match outb.encode(message)
    case Err(s) => Err(s)
    case Ok(payload) => EncodePayload(outb.lib, payload, outb.encoding)
  }

  // ---- reading ----

  /** How a byte stream ends: cleanly, or with an I/O error. */
  datatype Ending = Eof | Broken(error: Str)

  /** One read outcome: nothing more, or an item; `last` when the reader is finished after it;
      `left` is what stays unread in the byte stream. */
  datatype Step<T> = End | Item(item: Result<T, Status>, last: bool, left: Str)

  function ReadError(e: Str): Status { Fail(Unavailable, ReadFailed(e)) }

  function Truncated(ending: Ending, message: Message): Status {
    match ending
    case Broken(e) => ReadError(e)
    case Eof => Fail(Internal, message)
  }

  /** The bytes that reach the codec for one payload: never more than the cap, and none for a
      compressed flag on a call without an encoding. */
  function CodecInput<T>(inb: Inbound<T>, compressed: bool, payload: Str): (r: Result<Str, Status>)
    requires |payload| <= inb.max
    ensures r.Ok? ==> |r.value| <= inb.max
    ensures compressed && inb.encoding == Identity ==> r.Err? && r.error.code == Internal
  {
    if !compressed then Ok(payload)
    else if inb.encoding == Identity then
      Err(Fail(Internal, Unnegotiated))
    else Decompress(inb.lib, inb.encoding, payload, inb.max)
  }

  function Message<T>(inb: Inbound<T>, compressed: bool, payload: Str): Result<T, Status>
    requires |payload| <= inb.max
  {
    match CodecInput(inb, compressed, payload)
    case Err(s) => Err(s)
    case Ok(bytes) => inb.decode(bytes)
  }

  function ParsePayload<T>(inb: Inbound<T>, compressed: bool, len: nat, bytes: Str, ending: Ending): Step<T>
    requires len <= inb.max
  {
    if |bytes| < len then Item(Err(Truncated(ending, EofInPayload)), true, [])
    else Item(Message(inb, compressed, bytes[..len]), false, bytes[len..])
  }

  function TooLong(len: nat, max: nat): Status {
    Fail(ResourceExhausted, Oversized(len, max))
  }

  function ParsePrefix<T>(inb: Inbound<T>, bytes: Str, ending: Ending): Step<T>
    requires |bytes| >= PREFIX_LEN
  {
    var len := LengthOf(bytes[1..5]);
    if len > inb.max then Item(Err(TooLong(len, inb.max)), true, bytes[5..])
    else ParsePayload(inb, bytes[0] != 0, len, bytes[5..], ending)
  }

  function ParseOne<T>(inb: Inbound<T>, bytes: Str, ending: Ending): Step<T> {
    if |bytes| >= PREFIX_LEN then ParsePrefix(inb, bytes, ending)
    else if bytes == [] && ending == Eof then End
    else Item(Err(Truncated(ending, EofInPrefix)), true, [])
  }

  /** Everything a reader yields from a byte stream. */
  function Items<T>(inb: Inbound<T>, bytes: Str, ending: Ending): seq<Result<T, Status>>
    decreases |bytes|
  {
    match ParseOne(inb, bytes, ending)
    case End => []
    case Item(item, last, left) => if last then [item] else [item] + Items(inb, left, ending)
  }

  /** The items that follow a step, when the same reader goes on. */
  function After<T>(inb: Inbound<T>, step: Step<T>, ending: Ending): seq<Result<T, Status>> {
    match step
    case End => []
    case Item(item, last, left) => if last then [] else Items(inb, left, ending)
  }

  function Unroll<T>(inb: Inbound<T>, step: Step<T>, ending: Ending): seq<Result<T, Status>> {
    match step
    case End => []
    case Item(item, last, left) => [item] + After(inb, step, ending)
  }

  /** Five bytes of prefix spelled out, and what they announce: the reader takes the length with its
      most significant byte first, hands an uncompressed payload to the codec as it is, leaves what
      follows, and refuses a payload above the cap. */
  lemma FrameRead<T>(
      inb: Inbound<T>, flag: Byte, a: Byte, b: Byte, c: Byte, d: Byte, payload: Str, tail: Str, ending: Ending)
    requires |payload| == a * 0x100_0000 + b * 0x1_0000 + c * 0x100 + d
    ensures var step := ParseOne(inb, [flag, a, b, c, d] + payload + tail, ending);
            && step.Item?
            && if |payload| > inb.max then
                 step.last && step.left == payload + tail && step.item.Err? && step.item.error.code == ResourceExhausted
               else
                 && !step.last && step.left == tail
                 && (flag == 0 ==> step.item == inb.decode(payload))
                 && (flag != 0 && inb.encoding == Identity ==> step.item.Err? && step.item.error.code == Internal)
  {
    var prefix, rest := [flag, a, b, c, d], payload + tail;
    var bytes := prefix + payload + tail;
    assert bytes == prefix + rest;
    assert bytes[1..5] == prefix[1..5] == [a, b, c, d] && bytes[5..] == rest;
    assert (payload + tail)[..|payload|] == payload && (payload + tail)[|payload|..] == tail;
  }

  /** No read-ahead: a step that keeps the stream in step has consumed one whole frame, prefix
      and payload, and nothing beyond; only errors end the reading. */
  lemma StepConsumesOneFrame<T>(inb: Inbound<T>, bytes: Str, ending: Ending)
    ensures match ParseOne(inb, bytes, ending)
            case End => bytes == [] && ending == Eof
            case Item(item, last, left) =>
              if last then
                && item.Err?
                && (|| |bytes| < PREFIX_LEN
                    || LengthOf(bytes[1..5]) > inb.max
                    || |bytes| - PREFIX_LEN < LengthOf(bytes[1..5]))
                && item.error.code == if |bytes| >= PREFIX_LEN && LengthOf(bytes[1..5]) > inb.max then ResourceExhausted
                                      else if ending == Eof then Internal else Unavailable
              else
                && |bytes| >= PREFIX_LEN && LengthOf(bytes[1..5]) <= inb.max
                && |bytes| >= PREFIX_LEN + LengthOf(bytes[1..5])
                && left == bytes[PREFIX_LEN + LengthOf(bytes[1..5])..]
  {
    if |bytes| >= PREFIX_LEN {
      var len := LengthOf(bytes[1..5]);
      if |bytes| - PREFIX_LEN >= len {
        assert bytes[5..][len..] == bytes[5 + len..];
      }
    }
  }

  lemma ItemsEmpty<T>(inb: Inbound<T>, bytes: Str, ending: Ending)
    ensures Items(inb, bytes, ending) == [] <==> bytes == [] && ending == Eof
  {
    StepConsumesOneFrame(inb, bytes, ending);
  }

  /** Handing the byte stream to a fresh reader after any outcome loses or invents nothing exactly
      when the outcome left the first reader in step, or nothing at all is left to read. */
  lemma SeamExact<T>(inb: Inbound<T>, bytes: Str, ending: Ending)
    requires ParseOne(inb, bytes, ending).Item?
    ensures var step := ParseOne(inb, bytes, ending);
            (Items(inb, step.left, ending) == After(inb, step, ending))
            <==> (!step.last || (step.left == [] && ending == Eof))
  {
    ItemsEmpty(inb, ParseOne(inb, bytes, ending).left, ending);
  }

  /** The same in terms of the bytes alone: a whole frame within the cap is at the front, or the
      stream ends cleanly and with it whatever the first reader could not make a frame of. */
  lemma SeamExactOnBytes<T>(inb: Inbound<T>, bytes: Str, ending: Ending)
    requires ParseOne(inb, bytes, ending).Item?
    ensures var step := ParseOne(inb, bytes, ending);
            (Items(inb, step.left, ending) == After(inb, step, ending))
            <==> FrameAhead(inb, bytes)
                 || (ending == Eof && (|bytes| <= PREFIX_LEN || LengthOf(bytes[1..5]) <= inb.max))
  {
    SeamExact(inb, bytes, ending);
    StepConsumesOneFrame(inb, bytes, ending);
  }

  /** A whole frame within the cap is at the front. */
  predicate FrameAhead<T>(inb: Inbound<T>, bytes: Str) {
    && |bytes| >= PREFIX_LEN && LengthOf(bytes[1..5]) <= inb.max
    && |bytes| - PREFIX_LEN >= LengthOf(bytes[1..5])
  }

  /** A hand-off after an oversize message is not safe, whatever the cap of the readers: the fresh
      reader takes what is left of the message for a new frame, while the old reader would have
      ended. */
  lemma SeamBreaksAfterOversize<T>(inb: Inbound<T>)
    requires inb.max + 1 < U32_RANGE
    ensures var bytes: Str := [0] + LengthBytes(inb.max + 1) + [7];
            && ParseOne(inb, bytes, Eof) == Item(Err(TooLong(inb.max + 1, inb.max)), true, [7])
            && Items(inb, bytes, Eof) == [Err(TooLong(inb.max + 1, inb.max))]
            && Items(inb, [7], Eof) == [Err(Truncated(Eof, EofInPrefix))]
  {
    var bytes: Str := [0] + LengthBytes(inb.max + 1) + [7];
    LengthRoundTrip(inb.max + 1);
    assert bytes[1..5] == LengthBytes(inb.max + 1);
    assert bytes[5..] == [7];
  }

  /** The stream position after reading `k` items that kept it in step. */
  ghost predicate ReachedBy<T>(inb: Inbound<T>, bytes: Str, ending: Ending, k: nat, left: Str)
    decreases k
  {
    if k == 0 then left == bytes
    else
      match ParseOne(inb, bytes, ending)
      case End => false
      case Item(item, last, next) => !last && ReachedBy(inb, next, ending, k - 1, left)
  }

  lemma DropFront<T>(x: T, rest: seq<T>, k: nat)
    requires 0 < k <= |rest| + 1
    ensures ([x] + rest)[k..] == rest[k - 1..]
  {
  }

  /** Reading `k` messages, dropping the reader and starting a fresh one yields what a single
      reader would have gone on to yield. */
  lemma {:induction false} SafeSeam<T>(inb: Inbound<T>, bytes: Str, ending: Ending, k: nat, left: Str)
    requires ReachedBy(inb, bytes, ending, k, left)
    ensures k <= |Items(inb, bytes, ending)|
    ensures Items(inb, bytes, ending)[k..] == Items(inb, left, ending)
    decreases k
  {
    if k > 0 {
      var step := ParseOne(inb, bytes, ending);
      SafeSeam(inb, step.left, ending, k - 1, left);
      DropFront(step.item, Items(inb, step.left, ending), k);
    }
  }

  // ---- writing, then reading ----

  /** Two ends of a call: the same encoding, codecs that undo each other, lossless libraries. */
  ghost predicate Agreed<T(!new)>(inb: Inbound<T>, outb: Outbound<T>) {
    && inb.encoding == outb.encoding && inb.lib == outb.lib && Lossless(inb.lib)
    && forall m: T, p: Str :: outb.encode(m) == Ok(p) ==> inb.decode(p) == Ok(m)
  }

  /** Whether a message is within the reader's limits, compressed and uncompressed, and its
      length can be written in 32 bits. */
  ghost predicate Fits<T>(inb: Inbound<T>, outb: Outbound<T>, m: T) {
    && outb.encode(m).Ok?
    && var p := outb.encode(m).value;
    && Compress(outb.lib, outb.encoding, p).Ok?
    && var packed := Compress(outb.lib, outb.encoding, p).value;
    && |packed| < U32_RANGE && |packed| <= inb.max && |p| <= inb.max
  }

  /** A written frame is read back whole, leaving exactly what follows it, if and only if the
      message is within the limits. */
  lemma FrameRoundTrip<T(!new)>(inb: Inbound<T>, outb: Outbound<T>, m: T, tail: Str, ending: Ending)
    requires Agreed(inb, outb) && EncodeFrame(outb, m).Ok?
    ensures ParseOne(inb, EncodeFrame(outb, m).value + tail, ending) == Item(Ok(m), false, tail)
            <==> Fits(inb, outb, m)
  {
    var p := outb.encode(m).value;
    var packed := Compress(outb.lib, outb.encoding, p).value;
    assert EncodeFrame(outb, m).value == FrameOf(Flag(outb.encoding), packed);
    ParseOfFrame(inb, Flag(outb.encoding), packed, tail, ending);
    DecompressOfCompress(inb.lib, inb.encoding, p, packed, inb.max);
  }

  /** What a reader makes of one frame followed by anything. */
  lemma ParseOfFrame<T>(inb: Inbound<T>, flag: Byte, packed: Str, tail: Str, ending: Ending)
    ensures var step := ParseOne(inb, FrameOf(flag, packed) + tail, ending);
            if |packed| >= U32_RANGE then step.Item? && step.left != tail
            else if |packed| > inb.max then step == Item(Err(TooLong(|packed|, inb.max)), true, packed + tail)
            else step == Item(Message(inb, flag != 0, packed), false, tail)
  {
    var bytes := FrameOf(flag, packed) + tail;
    var len := |packed| % U32_RANGE;
    assert bytes[1..5] == LengthBytes(|packed|);
    LengthRoundTrip(|packed|);
    assert bytes[5..] == packed + tail;
    assert ParseOne(inb, bytes, ending) == ParsePrefix(inb, bytes, ending);
    if |packed| < U32_RANGE {
      assert (packed + tail)[..|packed|] == packed && (packed + tail)[|packed|..] == tail;
    } else {
      CutElsewhere(inb, flag != 0, len, packed, tail, ending);
    }
  }

  /** A length that lost its upper bits cuts the payload, never the tail, off. */
  lemma CutElsewhere<T>(inb: Inbound<T>, compressed: bool, len: nat, packed: Str, tail: Str, ending: Ending)
    requires len < |packed|
    ensures packed + tail != tail
    ensures len <= inb.max ==>
              var step := ParsePayload(inb, compressed, len, packed + tail, ending); step.Item? && step.left != tail
  {
    assert |(packed + tail)[len..]| > |tail|;
  }

  lemma ItemsOfFrame<T(!new)>(inb: Inbound<T>, outb: Outbound<T>, m: T, tail: Str, ending: Ending)
    requires Agreed(inb, outb) && EncodeFrame(outb, m).Ok? && Fits(inb, outb, m)
    ensures Items(inb, EncodeFrame(outb, m).value + tail, ending) == [Ok(m)] + Items(inb, tail, ending)
  {
    FrameRoundTrip(inb, outb, m, tail, ending);
  }

  ghost predicate Encodable<T>(outb: Outbound<T>, ms: seq<T>) {
    forall i :: 0 <= i < |ms| ==> EncodeFrame(outb, ms[i]).Ok?
  }

  ghost predicate AllFit<T>(inb: Inbound<T>, outb: Outbound<T>, ms: seq<T>) {
    forall i :: 0 <= i < |ms| ==> Fits(inb, outb, ms[i])
  }

  /** The bytes of a list of messages on the wire. */
  ghost function WireOf<T>(outb: Outbound<T>, ms: seq<T>): Str
    requires Encodable(outb, ms)
  {
    if ms == [] then [] else EncodeFrame(outb, ms[0]).value + WireOf(outb, ms[1..])
  }

  lemma {:induction false} WireSnoc<T>(outb: Outbound<T>, ms: seq<T>, m: T)
    requires Encodable(outb, ms + [m])
    ensures Encodable(outb, ms) && EncodeFrame(outb, m).Ok?
    ensures WireOf(outb, ms + [m]) == WireOf(outb, ms) + EncodeFrame(outb, m).value
  {
    assert forall i :: 0 <= i < |ms| ==> (ms + [m])[i] == ms[i];
    assert (ms + [m])[|ms|] == m;
    if ms == [] {
      assert WireOf(outb, [m]) == EncodeFrame(outb, m).value + WireOf(outb, []);
    } else {
      assert (ms + [m])[1..] == ms[1..] + [m];
      WireSnoc(outb, ms[1..], m);
    }
  }

  function Oks<T, E>(ms: seq<T>): seq<Result<T, E>> {
    seq(|ms|, i requires 0 <= i < |ms| => Ok(ms[i]))
  }

  lemma OksCons<T, E>(ms: seq<T>, rest: seq<Result<T, E>>)
    requires ms != []
    ensures Oks(ms) + rest == [Ok(ms[0])] + (Oks(ms[1..]) + rest)
  {
  }

  /** Reading the frames of any messages gives the messages back, in order, and then whatever
      follows the frames. */
  lemma {:induction false} ItemsOfWire<T(!new)>(
      inb: Inbound<T>, outb: Outbound<T>, ms: seq<T>, tail: Str, ending: Ending)
    requires Agreed(inb, outb) && Encodable(outb, ms) && AllFit(inb, outb, ms)
    ensures Items(inb, WireOf(outb, ms) + tail, ending) == Oks(ms) + Items(inb, tail, ending)
  {
    if ms == [] {
      assert WireOf(outb, ms) + tail == tail;
      assert Oks<T, Status>(ms) == [];
    } else {
      var frame, more := EncodeFrame(outb, ms[0]).value, WireOf(outb, ms[1..]) + tail;
      ItemsOfWire(inb, outb, ms[1..], tail, ending);
      ItemsOfFrame(inb, outb, ms[0], more, ending);
      assert WireOf(outb, ms) + tail == frame + more;
      OksCons<T, Status>(ms, Items(inb, tail, ending));
    }
  }
}
