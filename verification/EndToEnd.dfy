/** Both ends together: what a client sends is what a server reads, and what a server's response
    amounts to is what the client's `recv` answers. */
module EndToEnd {
  import opened Bytes
  import opened HeaderMap
  import opened Statuses
  import opened Encodings
  import opened Frames
  import opened Timeout
  import opened ResponseBody
  import opened ClientSpec
  import opened ClientRuns
  import opened ClientHeads
  import opened ClientRequests
  import opened Typed
  import opened Dispatch
  import Utf8
  import M = CustomMetadata
  import S = StreamingCalls

  // ---- text that passes through headers unharmed ----

  /** Visible ASCII without separators: tokens, numbers and content types are made of it. */
  predicate Plain(s: Str) {
    forall i :: 0 <= i < |s| ==> 33 <= s[i] <= 126 && s[i] != SEMICOLON && s[i] != COMMA
  }

  lemma {:induction false} UpToPlain(s: Str)
    requires Plain(s)
    ensures UpTo(s, SEMICOLON) == s
  {
    if s != [] { UpToPlain(s[1..]); }
  }

  lemma TrimPlain(s: Str)
    requires Plain(s)
    ensures Trim(s) == s
  {
    assert TrimStart(s) == s && TrimEnd(s) == s;
  }

  lemma PlainValid(s: Str)
    requires forall i :: 0 <= i < |s| ==> s[i] < 0x80
    ensures Utf8.Valid(s)
  {
    Utf8.AsciiValid(s);
  }

  lemma {:induction false} JoinAscii(parts: seq<Str>)
    requires forall i :: 0 <= i < |parts| ==> Plain(parts[i])
    ensures forall k :: 0 <= k < |Join(parts)| ==> Join(parts)[k] < 0x80
  {
    if |parts| > 1 { JoinAscii(parts[1..]); }
  }

  lemma LettersPlain(t: Str)
    requires LowerLetters(t)
    ensures Plain(t) && Utf8.Valid(t) && Lower(t) == t
  {
    PlainValid(t);
  }

  lemma AcceptedAscii(f: Features)
    ensures Utf8.Valid(AcceptedEncodings(f))
  {
    var tokens := MapTokens(All(f));
    forall i | 0 <= i < |tokens| ensures Plain(tokens[i]) {
      TokenLetters(All(f)[i]);
      LettersPlain(tokens[i]);
    }
    JoinAscii(tokens);
    PlainValid(AcceptedEncodings(f));
  }

  lemma TokenValid(e: Encoding)
    ensures Utf8.Valid(Token(e))
  {
    TokenLetters(e);
    LettersPlain(Token(e));
  }

  const GRPC: Str := Text("application/grpc+")

  /** Literals made of lower-case letters and a few signs. */
  predicate LowerPlain(s: string) {
    forall i :: 0 <= i < |s| ==> '!' <= s[i] <= '~' && s[i] != ';' && s[i] != ',' && !('A' <= s[i] <= 'Z')
  }

  lemma TextOfLiteral(s: string)
    requires LowerPlain(s)
    ensures Plain(Text(s)) && Lower(Text(s)) == Text(s)
  {
  }

  lemma GrpcPrefix()
    ensures |GRPC| == 17 && Plain(GRPC) && GRPC[16] == PLUS
    ensures Lower(GRPC[..16]) == Text("application/grpc")
  {
    var whole, name := "application/grpc+", "application/grpc";
    TextOfLiteral(whole);
    TextOfLiteral(name);
    assert whole == name + "+";
    assert GRPC[..16] == Text(name);
  }

  /** `application/grpc+<suffix>` is read back as that suffix. */
  lemma ContentTypeRoundTrip(suffix: Str)
    requires Plain(suffix)
    ensures ContentSuffix(GRPC + suffix) == Some(suffix) && Utf8.Valid(GRPC + suffix)
  {
    var v := GRPC + suffix;
    GrpcPrefix();
    TrimPlain(v);
    UpToPlain(v);
    PlainValid(v);
    assert v[..16] == GRPC[..16];
    assert v[16] == PLUS && v[17..] == suffix;
    assert |v| == 16 ==> false;
  }

  // ---- the request, read by the server ----

  /** The request headers of any client call, whatever metadata it carries: the server's preflight
      accepts them, reads the client's codec list, and reads the timeout that was advertised. */
  lemma RequestUnderstood<Req, Resp>(call: Call<Req, Resp>, c: Client<Resp>, server: Features, suffix: Str)
    requires c.phase.NotFired? && M.WellFormed(c.phase.metadata)
    requires Plain(suffix) && call.contentType == GRPC + suffix
    ensures var h := RequestOf(call, c).headers;
            && Prepare(server, suffix, h) == Ok(ResponseHead(server, suffix, Some(AcceptedEncodings(call.features))))
            && RequestTimeout(h)
               == Ok(if c.deadline.None? then None else Some(Advertised(Remaining(c.deadline.value, c.now))))
  {
    PreflightUnderstood(call, c, suffix);
    TimeoutUnderstood(call, c);
    TeSurvives(call, c);
  }

  lemma PreflightUnderstood<Req, Resp>(call: Call<Req, Resp>, c: Client<Resp>, suffix: Str)
    requires c.phase.NotFired? && M.WellFormed(c.phase.metadata)
    requires Plain(suffix) && call.contentType == GRPC + suffix
    ensures GetStr(RequestOf(call, c).headers, "content-type") == Some(GRPC + suffix)
    ensures GetStr(RequestOf(call, c).headers, "grpc-accept-encoding") == Some(AcceptedEncodings(call.features))
    ensures ContentSuffix(GRPC + suffix) == Some(suffix)
  {
    FrameworkHeadersSurvive(call, c, "content-type");
    FrameworkHeadersSurvive(call, c, "grpc-accept-encoding");
    OwnHeaders(call, c.deadline, c.now);
    ContentTypeRoundTrip(suffix);
    AcceptedAscii(call.features);
  }

  lemma TimeoutUnderstood<Req, Resp>(call: Call<Req, Resp>, c: Client<Resp>)
    requires c.phase.NotFired? && M.WellFormed(c.phase.metadata)
    ensures RequestTimeout(RequestOf(call, c).headers)
            == Ok(if c.deadline.None? then None else Some(Advertised(Remaining(c.deadline.value, c.now))))
  {
    FrameworkHeadersSurvive(call, c, "grpc-timeout");
    TimeoutHeader(call, c.deadline, c.now);
    if c.deadline.Some? {
      ParseOfFormat(Remaining(c.deadline.value, c.now));
    }
  }

  lemma TimeoutHeader<Req, Resp>(call: Call<Req, Resp>, deadline: Option<nat>, now: nat)
    ensures GetStr(FrameworkHeaders(call, deadline, now), "grpc-timeout")
            == if deadline.None? then None else Some(Format(Remaining(deadline.value, now)))
  {
    if deadline.Some? {
      PlainValid(Format(Remaining(deadline.value, now)));
    }
  }

  lemma TeSurvives<Req, Resp>(call: Call<Req, Resp>, c: Client<Resp>)
    requires c.phase.NotFired? && M.WellFormed(c.phase.metadata)
    ensures NamesTrailers(ValuesOf(RequestOf(call, c).headers, "te"))
  {
    ClientRuns.FrameworkNames();
    M.ReservedUntouched(c.phase.metadata, FrameworkHeaders(call, c.deadline, c.now), "te");
    OwnHeaders(call, c.deadline, c.now);
    TrailersToken();
  }

  lemma TrailersToken()
    ensures NamesTrailers([Text("trailers")])
  {
    var te := Text("trailers");
    TextOfLiteral("trailers");
    LoneToken(te);
  }

  lemma LoneToken(te: Str)
    requires Plain(te) && Lower(te) == te && te == Text("trailers")
    ensures NamesTrailers([te])
  {
    var values := [te];
    SplitPrefix(te, []);
    TrimPlain(te);
    PlainValid(te);
    assert Split(values[0]) == [te];
    assert Trim(Split(values[0])[0]) == te;
  }

  /** The server decompresses requests with the client's encoding, or refuses an encoding that is
      not in its build. */
  lemma RequestEncodingAgrees<Req, Resp>(call: Call<Req, Resp>, c: Client<Resp>, server: Features)
    requires c.phase.NotFired? && M.WellFormed(c.phase.metadata)
    ensures var r := RequestEncoding(server, GetStr(RequestOf(call, c).headers, "grpc-encoding"));
            if call.outb.encoding in All(server) then r == Ok(call.outb.encoding)
            else r.Err? && r.error.code == Unimplemented
  {
    FrameworkHeadersSurvive(call, c, "grpc-encoding");
    TokenValid(call.outb.encoding);
    TokenRoundTrip(server, Token(call.outb.encoding), call.outb.encoding);
    var own := FrameworkHeaders(call, c.deadline, c.now);
    assert ValuesOf(own, "grpc-encoding") == if call.outb.encoding == Identity then [] else [Token(call.outb.encoding)];
    if FromToken(server, Token(call.outb.encoding)).Some? {
      TokenRoundTrip(server, Token(call.outb.encoding), FromToken(server, Token(call.outb.encoding)).value);
      TokensDiffer(FromToken(server, Token(call.outb.encoding)).value, call.outb.encoding);
    }
  }

  /** A deadline reaches the server: however long the request was on its way, the timeout that the
      server reads, counted from when the request was made, does not end before the client's deadline,
      as long as that was at most 99,999,999 hours ahead. */
  lemma DeadlineArrives<Req, Resp>(call: Call<Req, Resp>, c: Client<Resp>) returns (wire: nat)
    requires c.phase.NotFired? && M.WellFormed(c.phase.metadata) && c.deadline.Some? && !Barred(c)
    ensures RequestTimeout(RequestOf(call, c).headers) == Ok(Some(wire))
    ensures Reaches(c.deadline.value - c.now, wire)
  {
    TimeoutUnderstood(call, c);
    wire := WireTimeout(c.deadline.value, c.now);
  }

  lemma WireTimeout(deadline: nat, now: nat) returns (wire: nat)
    requires now <= deadline
    ensures wire == Advertised(Remaining(deadline, now)) && Reaches(deadline - now, wire)
  {
    wire := Advertised(deadline - now);
    AdvertisedReaches(deadline - now);
  }

  predicate Reaches(ahead: nat, wire: nat) {
    && (wire >= ahead <==> ahead <= 99_999_999 * 3_600_000_000_000)
    && (wire > ahead ==> (wire - ahead) * 99_999_999 < 1000 * ahead)
  }

  lemma AdvertisedReaches(ahead: nat)
    ensures Reaches(ahead, Advertised(ahead))
  {
    ParseOfFormat(ahead);
    NeverTightens(ahead);
  }

  /** What the server reads from the request so far: exactly the messages the client's sends accepted,
      in order, and then how the bytes end. They end cleanly only once the request is complete. */
  lemma RequestsArrive<Req(!new), Resp(!new)>(
      call: Call<Req, Resp>, states: seq<Client<Resp>>, events: seq<Event<Req, Resp>>, n: nat, inb: Inbound<Req>,
      ending: Ending)
    requires Run(call, states, events) && n <= |events| && Intact(states, events, n)
    requires !states[n].phase.NotFired? && states[n].fired != [] && (ending == Eof ==> Sealed(states[n]))
    requires Agreed(inb, call.outb) && AllFit(inb, call.outb, AcceptedUpTo(call, states, events, n))
    ensures Items(inb, states[n].fired[0].body + states[n].live, ending)
            == Oks(AcceptedUpTo(call, states, events, n))
               + (match ending case Eof => [] case Broken(e) => [Err(ReadError(e))])
  {
    RequestsConserved(call, states, events, n);
    ItemsOfWire(inb, call.outb, AcceptedUpTo(call, states, events, n), [], ending);
    var wire := WireOf(call.outb, AcceptedUpTo(call, states, events, n));
    assert wire + [] == wire;
  }

  /** So once `close_send` answered Ok, the server can read the whole request: every message accepted,
      and the end. */
  lemma ClosedRequestArrives<Req(!new), Resp(!new)>(
      call: Call<Req, Resp>, states: seq<Client<Resp>>, events: seq<Event<Req, Resp>>, i: nat, n: nat,
      inb: Inbound<Req>)
    requires Run(call, states, events) && i < n <= |events| && Intact(states, events, n)
    requires M.WellFormed(states[0].phase.metadata)
    requires events[i].op.CloseSend? && events[i].out == Unit && (states[i].phase.NotFired? || states[i].phase.Live?)
    requires Agreed(inb, call.outb) && AllFit(inb, call.outb, AcceptedUpTo(call, states, events, n))
    ensures states[n].fired != []
    ensures Items(inb, states[n].fired[0].body + states[n].live, Eof) == Oks(AcceptedUpTo(call, states, events, n))
  {
    ClosedArrives(call, states, events, i, n);
    Lifecycle(call, states, events, 0, n);
    RequestsArrive(call, states, events, n, inb, Eof);
    var accepted: seq<Result<Req, Status>> := Oks(AcceptedUpTo(call, states, events, n));
    assert accepted + [] == accepted;
  }

  // ---- the response, read by the client ----

  /** `decode_response`: on the client a message that cannot be decoded is the server's fault. */
  function ResponseDecoder<T>(decode: Str -> Result<T, Status>): Str -> Result<T, Status> {
    (bytes: Str) =>
      match decode(bytes)
      case Ok(m) => Ok(m)
      case Err(s) => Err(Fail(Internal, s.message))
  }

  /** The cap of the call is the cap of its reader: a payload up to it is one message and the reader
      goes on, a longer one is the last thing read. */
  lemma ResponseCap<Req, T>(call: Call<Req, T>, e: Encoding, payload: Str, tail: Str, ending: Ending)
    requires |payload| < U32_RANGE
    ensures var step := ParseOne(Reading(call, e), FrameOf(0, payload) + tail, ending);
            && step.Item? && (step.last <==> |payload| > call.max)
            && (step.last ==> step.item.Err? && step.item.error.code == ResourceExhausted)
            && (!step.last ==> step.item == call.decode(payload) && step.left == tail)
  {
    ParseOfFrame(Reading(call, e), 0, payload, tail, ending);
  }

  /** A message whose bytes the codec rejects is an Internal error with the codec's message, whatever
      code the codec gave it; the reader goes on behind it. */
  lemma UndecodableResponse<Req, T>(
      call: Call<Req, T>, decode: Str -> Result<T, Status>, e: Encoding, payload: Str, tail: Str, ending: Ending)
    requires call.decode == ResponseDecoder(decode) && decode(payload).Err?
    requires |payload| < U32_RANGE && |payload| <= call.max
    ensures var step := ParseOne(Reading(call, e), FrameOf(0, payload) + tail, ending);
            && step.Item? && !step.last && step.left == tail && step.item.Err?
            && step.item.error.code == Internal && step.item.error.message == decode(payload).error.message
            && step.item.error.metadata == map[]
  {
    ParseOfFrame(Reading(call, e), 0, payload, tail, ending);
  }

  /** The server's response head, with any initial metadata on it, is understood by any client: it
      is no Trailers-Only head, the encoding read is the one the frames are written with, and the
      metadata is read back. */
  lemma ResponseUnderstood(client: Features, server: Features, suffix: Str, initial: M.Bag)
    requires Plain(suffix) && M.WellFormed(initial)
    ensures var accept := Some(AcceptedEncodings(client));
            var head := M.WriteInto(initial, ResponseHead(server, suffix, accept));
            && ProcessHead(client, Some(200), head) == Ok(Head(Negotiate(server, accept), None))
            && M.FromHeaders(head) == initial
  {
    InitialArrives(server, suffix, initial, Some(AcceptedEncodings(client)));
    var accept := Some(AcceptedEncodings(client));
    var own := ResponseHead(server, suffix, accept);
    var head := M.WriteInto(initial, own);
    ClientRuns.FrameworkNames();
    Statuses.FrameworkNames();
    M.ReservedUntouched(initial, own, "content-type");
    M.ReservedUntouched(initial, own, "grpc-encoding");
    M.ReservedUntouched(initial, own, "grpc-status");
    OwnResponseHead(server, suffix, accept);
    ContentTypeRoundTrip(suffix);
    BuildsAgree(client, server);
    TokenValid(Negotiate(server, accept));
    HeadFrom(client, head, suffix, Negotiate(server, accept));
  }

  lemma InitialArrives(server: Features, suffix: Str, initial: M.Bag, accept: Option<Str>)
    requires M.WellFormed(initial)
    ensures M.FromHeaders(M.WriteInto(initial, ResponseHead(server, suffix, accept))) == initial
  {
    M.FromHeadersOfWriteInto(initial, ResponseHead(server, suffix, accept));
    OwnHeadHoldsNone(server, suffix, accept);
    M.MergeEmpty(initial);
  }

  lemma OwnHeadHoldsNone(server: Features, suffix: Str, accept: Option<Str>)
    ensures M.FromHeaders(ResponseHead(server, suffix, accept)) == map[]
  {
    ClientRuns.FrameworkNames();
    var own := ResponseHead(server, suffix, accept);
    assert own.Keys <= {"content-type", "grpc-accept-encoding", "grpc-encoding"};
    HoldsNone(own);
  }

  lemma HoldsNone(h: Headers)
    requires forall name :: name in h ==> !M.CustomKey(name)
    ensures M.FromHeaders(h) == map[]
  {
  }

  lemma OwnResponseHead(server: Features, suffix: Str, accept: Option<Str>)
    ensures var own, e := ResponseHead(server, suffix, accept), Negotiate(server, accept);
            && ValuesOf(own, "content-type") == [GRPC + suffix]
            && ValuesOf(own, "grpc-status") == []
            && ValuesOf(own, "grpc-encoding") == if e == Identity then [] else [Token(e)]
  {
  }

  lemma HeadFrom(client: Features, head: Headers, suffix: Str, e: Encoding)
    requires ValuesOf(head, "content-type") == [GRPC + suffix] && Utf8.Valid(GRPC + suffix)
    requires ContentSuffix(GRPC + suffix) == Some(suffix)
    requires ValuesOf(head, "grpc-status") == []
    requires ValuesOf(head, "grpc-encoding") == if e == Identity then [] else [Token(e)]
    requires Utf8.Valid(Token(e)) && FromToken(client, Token(e)) == Some(e)
    ensures ProcessHead(client, Some(200), head) == Ok(Head(e, None))
  {
  }

  /** A client and a server of the same service: the codec undoes itself, the libraries are
      lossless, and the server writes with the encoding it negotiated. */
  ghost predicate Peers<Req, T(!new)>(
      call: Call<Req, T>, outb: Outbound<T>, decode: Str -> Result<T, Status>, server: Features, suffix: Str)
  {
    && Plain(suffix) && call.decode == ResponseDecoder(decode) && call.outb.lib == outb.lib && Lossless(outb.lib)
    && outb.encoding == Negotiate(server, Some(AcceptedEncodings(call.features)))
    && forall m: T, p: Str :: outb.encode(m) == Ok(p) ==> decode(p) == Ok(m)
  }

  /** The reply that carries a body and a status written over the handler's trailers. */
  function ReplyWith<Req, T>(
      call: Call<Req, T>, server: Features, suffix: Str, initial: M.Bag, body: Str, trailers: Headers): Reply
  {
    Response(Some(200), M.WriteInto(initial, ResponseHead(server, suffix, Some(AcceptedEncodings(call.features)))),
             body, Eof, Some(trailers))
  }

  /** The client's answers to any response made of frames and a status: the messages in order, then
      the verdict that the status amounts to. */
  lemma ResponseEndToEnd<Req, T(!new)>(
      call: Call<Req, T>, outb: Outbound<T>, decode: Str -> Result<T, Status>, server: Features, suffix: Str,
      initial: M.Bag, ms: seq<T>, reason: Status, preset: Headers)
    requires Peers(call, outb, decode, server, suffix) && M.WellFormed(initial) && Proper(reason)
    requires Encodable(outb, ms) && AllFit(Reading(call, outb.encoding), outb, ms)
    requires call.reply == ReplyWith(call, server, suffix, initial, WireOf(outb, ms), WriteInto(reason, preset))
    ensures Opened(call).Ok? && Opened(call).value.Live? && Opened(call).value.headStatus == None
    ensures Opened(call).value.todo == Oks(ms)
    ensures CallAnswers(call) == Receiveds(ms) + [VerdictOut(Delivered(reason, preset))]
  {
    ResponseUnderstood(call.features, server, suffix, initial);
    MessagesArrive(Reading(call, outb.encoding), outb, ms);
    AnswersArrive(call, ms, reason, preset);
  }

  lemma AnswersArrive<Req, T(!new)>(call: Call<Req, T>, ms: seq<T>, reason: Status, preset: Headers)
    requires WireTrailers(call) == WriteInto(reason, preset) && Proper(reason)
    ensures Answers(call, None, Oks(ms)) == Receiveds(ms) + [VerdictOut(Delivered(reason, preset))]
  {
    VerdictAlone(call, reason, preset);
    AnswersOfMessages(call, ms, []);
    assert Oks<T, Status>(ms) + [] == Oks(ms);
  }

  lemma MessagesArrive<T(!new)>(inb: Inbound<T>, outb: Outbound<T>, ms: seq<T>)
    requires Agreed(inb, outb) && Encodable(outb, ms) && AllFit(inb, outb, ms)
    ensures Items(inb, WireOf(outb, ms), Eof) == Oks(ms)
  {
    ItemsOfWire(inb, outb, ms, [], Eof);
    assert WireOf(outb, ms) + [] == WireOf(outb, ms);
    assert Oks<T, Status>(ms) + [] == Oks(ms);
  }

  lemma VerdictAlone<Req, T>(call: Call<Req, T>, reason: Status, preset: Headers)
    requires WireTrailers(call) == WriteInto(reason, preset) && Proper(reason)
    ensures Answers(call, None, []) == [VerdictOut(Delivered(reason, preset))]
  {
    TrailersDeliver(reason, preset);
  }

  /** The metadata of both ends of a response: in every run against such a reply, what `headers()`
      shows is read as the server's initial metadata as soon as there is a head, and what `trailers()`
      shows at the end as the trailing one, the handler's own and the status's. */
  lemma MetadataEndToEnd<Req, T(!new)>(
      call: Call<Req, T>, outb: Outbound<T>, decode: Str -> Result<T, Status>, server: Features, suffix: Str,
      initial: M.Bag, ms: seq<T>, reason: Status, preset: Headers,
      states: seq<Client<T>>, events: seq<Event<Req, T>>, n: nat)
    requires Peers(call, outb, decode, server, suffix) && M.WellFormed(initial) && Proper(reason)
    requires Encodable(outb, ms) && AllFit(Reading(call, outb.encoding), outb, ms)
    requires call.reply == ReplyWith(call, server, suffix, initial, WireOf(outb, ms), WriteInto(reason, preset))
    requires Run(call, states, events) && n <= |events| && Unfailed(states, n) && !states[n].phase.NotFired?
    ensures HeadersOf(states[n].phase).Some? && M.FromHeaders(HeadersOf(states[n].phase).value) == initial
    ensures states[n].phase.Over? ==>
              && TrailersOf(states[n].phase) == Some(WriteInto(reason, preset))
              && M.FromHeaders(TrailersOf(states[n].phase).value) == M.Merge(M.FromHeaders(preset), reason.metadata)
  {
    ResponseEndToEnd(call, outb, decode, server, suffix, initial, ms, reason, preset);
    HeadersAreTheHead(call, states, events, n);
    InitialArrives(server, suffix, initial, Some(AcceptedEncodings(call.features)));
    MetadataDelivered(reason, preset);
    if states[n].phase.Over? {
      MetadataShown(call, states, events, n);
      UntroubledEnd(call, states[n].phase, ms);
    }
  }

  lemma UntroubledEnd<Req, T>(call: Call<Req, T>, p: Phase<T>, ms: seq<T>)
    requires p.Over? && Shows(call, p) && Opened(call).Ok? && Opened(call).value.Live?
    requires Opened(call).value.headStatus == None && Opened(call).value.todo == Oks(ms)
    ensures p.trailers == WireTrailers(call)
  {
    assert Untroubled(None, Oks<T, Status>(ms));
  }

  /** A status that a server puts onto its response head, with no body behind it, is what the client
      hears: its code, its message, and the initial metadata with its own. */
  lemma TrailersOnlyEndToEnd<Req, T>(
      call: Call<Req, T>, server: Features, suffix: Str, initial: M.Bag, s: Status, trailers: Option<Headers>)
    requires Plain(suffix) && M.WellFormed(initial) && Proper(s)
    requires trailers.Some? ==> GetStr(trailers.value, "grpc-status").None?
    requires var accept := Some(AcceptedEncodings(call.features));
             var head := WriteInto(s, M.WriteInto(initial, ResponseHead(server, suffix, accept)));
             call.reply == Response(Some(200), head, [], Eof, trailers)
    ensures CallAnswers(call)
            == [if s.code == Success then EndOfStream
                else Error(Status(s.code, Message.Plain(Wording(s.message)), M.Merge(initial, s.metadata)))]
  {
    StatusInHead(server, suffix, initial, s, Some(AcceptedEncodings(call.features)));
    StatusOnHead(call.features, server, suffix, initial, s);
    TrailersOnlyAnswers(call);
  }

  lemma StatusInHead(server: Features, suffix: Str, initial: M.Bag, s: Status, accept: Option<Str>)
    requires M.WellFormed(initial) && Proper(s)
    ensures var head := WriteInto(s, M.WriteInto(initial, ResponseHead(server, suffix, accept)));
            && GetStr(head, "grpc-status").Some?
            && FromTrailers(head)
               == if s.code == Success then Ok(())
                  else Err(Status(s.code, Message.Plain(Wording(s.message)), M.Merge(initial, s.metadata)))
  {
    TrailersDeliver(s, M.WriteInto(initial, ResponseHead(server, suffix, accept)));
    InitialArrives(server, suffix, initial, accept);
    NoMessageYet(server, suffix, initial, accept);
  }

  lemma NoMessageYet(server: Features, suffix: Str, initial: M.Bag, accept: Option<Str>)
    requires M.WellFormed(initial)
    ensures ReadMessage(M.WriteInto(initial, ResponseHead(server, suffix, accept))) == []
  {
    Statuses.FrameworkNames();
    M.ReservedUntouched(initial, ResponseHead(server, suffix, accept), "grpc-message");
    assert "grpc-message" !in ResponseHead(server, suffix, accept);
  }

  /** The head stays one that the client accepts. */
  lemma StatusOnHead(client: Features, server: Features, suffix: Str, initial: M.Bag, s: Status)
    requires Plain(suffix) && M.WellFormed(initial) && M.WellFormed(s.metadata)
    ensures var accept := Some(AcceptedEncodings(client));
            var head := WriteInto(s, M.WriteInto(initial, ResponseHead(server, suffix, accept)));
            GrpcHead(head) && HeadEncoding(client, head).Some?
  {
    var accept := Some(AcceptedEncodings(client));
    var plain := M.WriteInto(initial, ResponseHead(server, suffix, accept));
    ResponseUnderstood(client, server, suffix, initial);
    HeadRefused(client, Some(200), plain);
    StatusKeeps(s, plain, "content-type");
    StatusKeeps(s, plain, "grpc-encoding");
  }

  lemma StatusKeeps(s: Status, h: Headers, name: string)
    requires M.WellFormed(s.metadata) && name in ["content-type", "grpc-encoding"]
    ensures ValuesOf(WriteInto(s, h), name) == ValuesOf(h, name)
  {
    ClientRuns.FrameworkNames();
    M.ReservedUntouched(s.metadata, Framework(s, h), name);
    assert name != "grpc-status" && name != "grpc-message";
  }

  ghost predicate ProperItems<T>(script: seq<Result<T, Status>>) {
    forall i :: 0 <= i < |script| && script[i].Err? ==> Proper(script[i].error)
  }

  ghost predicate ProperEncode<T(!new)>(outb: Outbound<T>) {
    forall m: T :: EncodeFrame(outb, m).Err? ==> Proper(EncodeFrame(outb, m).error)
  }

  lemma {:induction false} PlayProper<T(!new)>(outb: Outbound<T>, script: seq<Result<T, Status>>, cut: Option<Cut>)
    requires ProperItems(script) && ProperEncode(outb) && (cut.Some? ==> Proper(cut.value.status))
    ensures Proper(Play(outb, script, cut).1) && Encodable(outb, Play(outb, script, cut).0)
    decreases |script|
  {
    if !(cut.Some? && cut.value.after == 0) && script != [] && script[0].Ok? && EncodeFrame(outb, script[0].value).Ok? {
      PlayProper(outb, script[1..], if cut.None? then None else Some(cut.value.(after := cut.value.after - 1)));
    }
  }

  /** Server streaming, end to end. For any script of the handler's stream and any point at which
      cancellation cuts it, with the body's bytes and trailers on the wire: in any run of the
      client that reaches the end without a failed open, the answers heard are exactly the items
      the server pulled and encoded, in order, then the status recorded at its end. */
  lemma StreamingEndToEnd<Req, T(!new)>(
      call: Call<Req, T>, outb: Outbound<T>, decode: Str -> Result<T, Status>, server: Features, suffix: Str,
      initial: M.Bag, script: seq<Result<T, Status>>, cut: Option<Cut>, preset: Headers,
      states: seq<Client<T>>, events: seq<Event<Req, T>>, n: nat)
    requires Peers(call, outb, decode, server, suffix) && M.WellFormed(initial)
    requires ProperItems(script) && ProperEncode(outb) && (cut.Some? ==> Proper(cut.value.status))
    requires Encodable(outb, Play(outb, script, cut).0)
    requires AllFit(Reading(call, outb.encoding), outb, Play(outb, script, cut).0)
    requires call.reply == ReplyWith(call, server, suffix, initial, WireOf(outb, Play(outb, script, cut).0),
                                     WriteInto(Play(outb, script, cut).1, preset))
    requires Run(call, states, events) && n <= |events| && Unfailed(states, n)
    ensures var (ms, reason) := Play(outb, script, cut);
            var answers := Receiveds(ms) + [VerdictOut(Delivered(reason, preset))];
            && Heard(call, states, events, n) <= answers
            && (states[n].phase.Over? ==> Heard(call, states, events, n) == answers)
  {
    var (ms, reason) := Play(outb, script, cut);
    PlayProper(outb, script, cut);
    ResponseEndToEnd(call, outb, decode, server, suffix, initial, ms, reason, preset);
    RecvRefines(call, states, events, n);
  }

  /** The same in terms of what the client's stream yields: if nobody disturbs the call, the items are
      a front part of the server's messages and verdict, or all of them and then only ends. */
  lemma StreamYieldsAnswers<Req, T(!new)>(
      call: Call<Req, T>, outb: Outbound<T>, decode: Str -> Result<T, Status>, server: Features, suffix: Str,
      initial: M.Bag, script: seq<Result<T, Status>>, cut: Option<Cut>, preset: Headers,
      log0: S.Log<Req, T>, log: S.Log<Req, T>, items: seq<Option<Result<T, Status>>>, c: Client<T>)
    requires Peers(call, outb, decode, server, suffix) && M.WellFormed(initial)
    requires ProperItems(script) && ProperEncode(outb) && (cut.Some? ==> Proper(cut.value.status))
    requires Encodable(outb, Play(outb, script, cut).0)
    requires AllFit(Reading(call, outb.encoding), outb, Play(outb, script, cut).0)
    requires call.reply == ReplyWith(call, server, suffix, initial, WireOf(outb, Play(outb, script, cut).0),
                                     WriteInto(Play(outb, script, cut).1, preset))
    requires S.Logged(call, log, c) && S.Extends(log0, log, items) && RecvOuts(log.events, 0, |log0.events|) == []
    requires Undisturbed(log.states, |log.events|) && Unfailed(log.states, |log.events|)
    ensures var (ms, reason) := Play(outb, script, cut);
            var answers, yielded := Receiveds(ms) + [VerdictOut(Delivered(reason, preset))], S.AnswersOf(items);
            yielded <= answers || (answers <= yielded && AllEnd(yielded[|answers|..]))
  {
    var (ms, reason) := Play(outb, script, cut);
    var answers, n := Receiveds(ms) + [VerdictOut(Delivered(reason, preset))], |log.events|;
    var heard := Heard(call, log.states, log.events, n);
    StreamingEndToEnd(call, outb, decode, server, suffix, initial, script, cut, preset, log.states, log.events, n);
    RecvsReturnAnswers(call, log.states, log.events, n);
    S.RecvOutsJoin(log.events, 0, |log0.events|, n);
    assert RecvOuts(log.events, 0, n) == S.AnswersOf(items);
    if log.states[n].phase.Over? {
      assert heard == answers;
    }
  }

  /** The server's side of the same statement, on the real objects: serving a stream body with any
      buffer sizes produces exactly such a reply. */
  method ServeStream<Req, T>(
      call: Call<Req, T>, server: Features, suffix: Str, initial: M.Bag, body: StreamBody<T>)
    returns (reply: Reply, ghost cut: Option<Cut>)
    requires body.Valid() && !body.finished && body.emitted == []
    modifies body.Repr()
    ensures cut == if body.cancel != null && body.cancel.resolved then Some(Cut(|body.sent|, body.cancel.status))
                   else None
    ensures var (ms, reason) := Play(body.outb, body.stream.script, cut);
            Encodable(body.outb, ms) &&
            reply == ReplyWith(call, server, suffix, initial, WireOf(body.outb, ms),
                               WriteInto(reason, old(body.baseTrailers)))
  {
    var wire, trailers := body.Serve();
    cut := body.TheCut();
    reply := ReplyWith(call, server, suffix, initial, wire, trailers);
  }

  /** The server's side of a single response, on the real object: the reply that `FinishUnary` is
      about is what serving a one-shot body with any buffer sizes produces. */
  method ServeUnary<Req, T>(
      call: Call<Req, T>, outb: Outbound<T>, server: Features, suffix: Str, initial: M.Bag,
      result: Result<T, Status>, preset: Headers)
    returns (reply: Reply)
    ensures var (body, trailers) := FinishUnary(outb, result, preset);
            reply == ReplyWith(call, server, suffix, initial, body, trailers)
  {
    var (bytes, trailers) := FinishUnary(outb, result, preset);
    var body := new OneShotBody(bytes, trailers);
    var wire, sent := body.Serve();
    reply := ReplyWith(call, server, suffix, initial, wire, sent);
  }

  /** What a handler's single result comes to at the client: its message, or its error with code,
      message and metadata as the trailers deliver it. A handler that returns an error with the
      success code leaves the client without a message, which it reports as such. */
  function Expected<T>(outb: Outbound<T>, result: Result<T, Status>, preset: Headers): Result<T, Status> {
    var (ms, reason) := SingleResponse(outb, result);
    if reason.code != Success then Err(Delivered(reason, preset).error)
    else if ms == [] then Err(Fail(Internal, NoResponse))
    else Ok(ms[0])
  }

  /** Spelled out: a message that can be framed comes back, an error with its code, and a success code
      without a message as Internal. */
  lemma ExpectedSpelled<T>(outb: Outbound<T>, result: Result<T, Status>, preset: Headers)
    ensures var e := Expected(outb, result, preset);
            match result
            case Ok(m) =>
              && (EncodeFrame(outb, m).Ok? ==> e == Ok(m))
              && (EncodeFrame(outb, m).Err? ==> e.Err? && ErrorReads(e.error, EncodeFrame(outb, m).error, preset))
            case Err(s) => e.Err? && ErrorReads(e.error, s, preset)
  {
  }

  predicate ErrorReads(told: Status, s: Status, preset: Headers) {
    if s.code == Success then told.code == Internal
    else
      && told.code == s.code && told.metadata == M.Merge(M.FromHeaders(preset), s.metadata)
      && (Wording(s.message) != [] ==> Wording(told.message) == Wording(s.message))
  }

  /** What ends a stream: with all its items good, success; otherwise the first error, which comes
      with its code, or the first message that cannot be framed; and a cut in between brings its own
      status. */
  lemma StreamEnds<T>(
      outb: Outbound<T>, ms: seq<T>, m: T, s: Status, rest: seq<Result<T, Status>>, preset: Headers)
    requires Encodable(outb, ms)
    ensures Play(outb, Oks(ms), None) == (ms, Done())
    ensures Play(outb, Oks(ms) + ([Err(s)] + rest), None) == (ms, s)
    ensures EncodeFrame(outb, m).Err? ==>
              Play(outb, Oks(ms) + ([Ok(m)] + rest), None) == (ms, EncodeFrame(outb, m).error)
    ensures Play(outb, Oks(ms) + rest, Some(Cut(|ms|, s))) == (ms, s)
    ensures VerdictOut<T>(Delivered(Done(), preset)) == EndOfStream
    ensures s.code != Success ==>
              var out: Out<T> := VerdictOut(Delivered(s, preset)); out.Error? && ErrorReads(out.status, s, preset)
  {
    var good: seq<Result<T, Status>> := Oks(ms);
    assert good[..|ms|] == good && (good + rest)[..|ms|] == good && (good + ([Err(s)] + rest))[..|ms|] == good;
    if EncodeFrame(outb, m).Err? {
      assert (good + ([Ok(m)] + rest))[..|ms|] == good;
      PlayStops(outb, good + ([Ok(m)] + rest), ms, None, EncodeFrame(outb, m).error);
    }
    PlayStops(outb, good, ms, None, Done());
    PlayStops(outb, good + ([Err(s)] + rest), ms, None, s);
    PlayStops(outb, good + rest, ms, Some(Cut(|ms|, s)), s);
  }

  /** Unary calls, end to end: whatever awaiting the call comes to, `into_message` gives what the
      handler's result comes to, unless the call was interrupted; and awaiting fails only because of
      a message that cannot be framed, a recorded construction error, or an interruption. */
  lemma UnaryEndToEnd<Req, T(!new)>(
      call: Call<Req, T>, outb: Outbound<T>, decode: Str -> Result<T, Status>, server: Features, suffix: Str,
      initial: M.Bag, result: Result<T, Status>, preset: Headers,
      c: Client<T>, ms: seq<Req>, d: Client<T>, r: Result<Outcome<T>, Status>)
    requires Peers(call, outb, decode, server, suffix) && M.WellFormed(initial) && ProperEncode(outb)
    requires Served(call, outb, server, suffix, initial, result, preset)
    requires c.phase.NotFired? && Sound(c) && UnaryResult(call, c, ms, d, r)
    ensures match r
            case Ok(o) =>
              IntoMessage(Some(o)) == Expected(outb, result, preset) || (o.verdict.Err? && Stops(d, o.verdict.error))
            case Err(s) =>
              if Encodable(call.outb, ms) then c.initError == Some(s) || (c.initError.None? && Stops(d, s))
              else exists i: nat :: i < |ms| && EncodeFrame(call.outb, ms[i]) == Err(s) && Encodable(call.outb, ms[..i])
  {
    SingleEndToEnd(call, outb, decode, server, suffix, initial, result, preset);
    match r {
      case Err(s) => FiringFailures(call, c, ms, d, s);
      case Ok(o) => OutcomeExpected(call, o, d, Expected(outb, result, preset));
    }
  }

  /** The same on the object: a typed unary call against a server whose handler gave `result`. */
  method AwaitUnary<Req, T(!new)>(
      conn: UnaryConn<Req, T>, outb: Outbound<T>, decode: Str -> Result<T, Status>, server: Features, suffix: Str,
      initial: M.Bag, result: Result<T, Status>, preset: Headers)
    returns (r: Result<(), Status>)
    requires conn.engine.Valid() && conn !in conn.engine.Repr && !conn.engine.call.fullDuplex && conn.outcome == None
    requires conn.engine.PhaseOf().NotFired? && Sound(conn.engine.State()) && !conn.engine.PhaseOf().sendClosed
    requires Peers(conn.engine.call, outb, decode, server, suffix) && M.WellFormed(initial) && ProperEncode(outb)
    requires Served(conn.engine.call, outb, server, suffix, initial, result, preset)
    modifies conn, conn.engine.Repr
    ensures conn.engine.Valid() && (if r.Err? then conn.outcome == None else conn.outcome.Some?)
    ensures r.Ok? ==>
              || IntoMessage(conn.outcome) == Expected(outb, result, preset)
              || (conn.outcome.value.verdict.Err? && Stops(conn.engine.State(), conn.outcome.value.verdict.error))
    ensures r.Err? ==>
              var outb, ms, c := conn.engine.call.outb, old(Source(conn.requests)), old(conn.engine.State());
              if Encodable(outb, ms) then
                c.initError == Some(r.error) || (c.initError.None? && Stops(conn.engine.State(), r.error))
              else
                exists i: nat :: i < |ms| && EncodeFrame(outb, ms[i]) == Err(r.error) && Encodable(outb, ms[..i])
  {
    ghost var c, ms := conn.engine.State(), Source(conn.requests);
    r := conn.Await();
    if r.Ok? {
      UnaryEndToEnd(conn.engine.call, outb, decode, server, suffix, initial, result, preset, c, ms,
                    conn.engine.State(), Ok(conn.outcome.value));
    } else {
      UnaryEndToEnd(conn.engine.call, outb, decode, server, suffix, initial, result, preset, c, ms,
                    conn.engine.State(), Err(r.error));
    }
  }

  /** The reply is that of a handler's single result, whose message is within the client's limits. */
  ghost predicate Served<Req, T>(
      call: Call<Req, T>, outb: Outbound<T>, server: Features, suffix: Str, initial: M.Bag,
      result: Result<T, Status>, preset: Headers)
  {
    var (body, trailers) := FinishUnary(outb, result, preset);
    && call.reply == ReplyWith(call, server, suffix, initial, body, trailers)
    && (result.Err? ==> Proper(result.error))
    && (result.Ok? && EncodeFrame(outb, result.value).Ok? ==> Fits(Reading(call, outb.encoding), outb, result.value))
  }

  /** The two answers of such a reply. */
  lemma SingleEndToEnd<Req, T(!new)>(
      call: Call<Req, T>, outb: Outbound<T>, decode: Str -> Result<T, Status>, server: Features, suffix: Str,
      initial: M.Bag, result: Result<T, Status>, preset: Headers)
    requires Peers(call, outb, decode, server, suffix) && M.WellFormed(initial) && ProperEncode(outb)
    requires Served(call, outb, server, suffix, initial, result, preset)
    ensures Opened(call).Ok? && Opened(call).value.Live?
    ensures var live := Opened(call).value;
            var answers := Answers(call, live.headStatus, live.todo);
            IntoMessage(Some(ReadOutcome(Nth(answers, 0), Nth(answers, 1)))) == Expected(outb, result, preset)
  {
    var (ms, reason) := SingleResponse(outb, result);
    SingleServed(call, outb, server, suffix, initial, result, preset);
    ResponseEndToEnd(call, outb, decode, server, suffix, initial, ms, reason, preset);
    SingleAnswer(ms, reason, preset);
  }

  lemma SingleServed<Req, T(!new)>(
      call: Call<Req, T>, outb: Outbound<T>, server: Features, suffix: Str, initial: M.Bag,
      result: Result<T, Status>, preset: Headers)
    requires ProperEncode(outb) && Served(call, outb, server, suffix, initial, result, preset)
    ensures var (ms, reason) := SingleResponse(outb, result);
            && Proper(reason) && Encodable(outb, ms) && AllFit(Reading(call, outb.encoding), outb, ms)
            && call.reply == ReplyWith(call, server, suffix, initial, WireOf(outb, ms), WriteInto(reason, preset))
  {
    SingleWire(outb, result, preset);
  }

  lemma OutcomeExpected<Req, T(!new)>(
      call: Call<Req, T>, o: Outcome<T>, d: Client<T>, expected: Result<T, Status>)
    requires Opened(call).Ok? && Opened(call).value.Live?
    requires UnaryOutcome(call, Opened(call).value.headStatus, Opened(call).value.todo, o, d)
    requires var live := Opened(call).value;
             var answers := Answers(call, live.headStatus, live.todo);
             IntoMessage(Some(ReadOutcome(Nth(answers, 0), Nth(answers, 1)))) == expected
    ensures IntoMessage(Some(o)) == expected || (o.verdict.Err? && Stops(d, o.verdict.error))
  {
  }

  /** The messages and the status that a single-response result puts on the wire. */
  function SingleResponse<T>(outb: Outbound<T>, result: Result<T, Status>): (seq<T>, Status) {
    match result
    case Err(s) => ([], s)
    case Ok(m) => match EncodeFrame(outb, m) case Err(s) => ([], s) case Ok(_) => ([m], Done())
  }

  lemma SingleWire<T>(outb: Outbound<T>, result: Result<T, Status>, preset: Headers)
    ensures var (ms, reason) := SingleResponse(outb, result);
            Encodable(outb, ms) && FinishUnary(outb, result, preset) == (WireOf(outb, ms), WriteInto(reason, preset))
  {
    var ms := SingleResponse(outb, result).0;
    if ms != [] {
      var frame := EncodeFrame(outb, ms[0]).value;
      assert ms[1..] == [] && WireOf(outb, ms[1..]) == [];
      assert WireOf(outb, ms) == frame + [] == frame;
    }
  }

  lemma SingleAnswer<T>(ms: seq<T>, reason: Status, preset: Headers)
    requires |ms| <= 1
    ensures var answers := Receiveds(ms) + [VerdictOut(Delivered(reason, preset))];
            IntoMessage(Some(ReadOutcome(Nth(answers, 0), Nth(answers, 1)))) ==
              if reason.code != Success then Err(Delivered(reason, preset).error)
              else if ms == [] then Err(Fail(Internal, NoResponse))
              else Ok(ms[0])
  {
  }
}
