/** The client call as a state machine: what each operation of `GrpcClientConn` may do, stated as a
    relation between the state before and the state after. */
module ClientSpec {
  import opened Bytes
  import opened HeaderMap
  import opened Statuses
  import opened Encodings
  import opened Frames
  import opened Timeout
  import M = CustomMetadata

  /** How the server answers this call. It is fixed per run, but nothing is assumed about it. */
  datatype Reply =
    | Unreachable(error: Str)
    | Response(http: Option<nat>, headers: Headers, body: Str, ending: Ending, trailers: Option<Headers>)

  /** What is fixed when a call is made. */
  datatype Call<!Req, Resp> = Call(
    outb: Outbound<Req>, decode: Str -> Result<Resp, Status>, max: nat,
    features: Features, contentType: Str, fullDuplex: bool, reply: Reply)

  function Reading<Req, Resp>(call: Call<Req, Resp>, e: Encoding): Inbound<Resp> {
    Inbound(call.decode, e, call.max, call.outb.lib)
  }

  datatype Request = Request(headers: Headers, body: Str, upgrade: bool)

  /** `NotFired` is the crate's `Inner::Pending`; `Live` is `Inner::Duplex` or `Inner::Reading`, with
      the items its reader is still going to deliver. */
  datatype Phase<T> =
    | NotFired(body: Str, metadata: M.Bag, sendClosed: bool)
    | Live(duplex: bool, head: Headers, headStatus: Option<Verdict>, todo: seq<Result<T, Status>>)
    | Over(responseHeaders: Headers, trailers: Headers)
    | Failed(status: Status)

  datatype Client<T> = Client(
    phase: Phase<T>, initError: Option<Status>, deadline: Option<nat>,
    now: nat, cancelled: bool,                      // the world: a monotone clock, a sticky flag
    fired: seq<Request>, live: Str, closed: bool)   // the wire: requests made, bytes written live

  datatype Op<Req> =
    | AddAscii(key: string, text: Str) | AddBinary(key: string, bytes: Str) | SetDeadline(timeout: nat)
    | Buffer(m: Req) | OpenHead | Send(m: Req) | CloseSend | Recv | Cancel | Wait

  datatype Out<T> = Unit | Error(status: Status) | Received(m: T) | EndOfStream

  // ---- the request ----

  function Remaining(deadline: nat, now: nat): nat { if now < deadline then deadline - now else 0 }

  /** The headers the framework itself puts on a request. */
  function FrameworkHeaders<Req, Resp>(call: Call<Req, Resp>, deadline: Option<nat>, now: nat): Headers {
    var h := map["content-type" := [call.contentType], "te" := [Text("trailers")],
                 "grpc-accept-encoding" := [AcceptedEncodings(call.features)]];
    var h := if call.outb.encoding == Identity then h else Insert(h, "grpc-encoding", Token(call.outb.encoding));
    if deadline.None? then h else Insert(h, "grpc-timeout", Format(Remaining(deadline.value, now)))
  }

  /** `build_request`. */
  function RequestOf<Req, Resp>(call: Call<Req, Resp>, s: Client<Resp>): Request
    requires s.phase.NotFired?
  {
    Request(M.WriteInto(s.phase.metadata, FrameworkHeaders(call, s.deadline, s.now)), s.phase.body, call.fullDuplex)
  }

  // ---- the response head ----

  function UpTo(s: Str, stop: Byte): Str {
    if s == [] || s[0] == stop then [] else [s[0]] + UpTo(s[1..], stop)
  }

  function Lower(s: Str): Str {
    seq(|s|, i requires 0 <= i < |s| => if 65 <= s[i] <= 90 then s[i] + 32 else s[i])
  }

  const SEMICOLON: Byte := 59
  const PLUS: Byte := 43

  /** `parse_grpc_content_type`: the codec suffix of a gRPC content type. */
  function ContentSuffix(value: Str): Option<Str> {
    var media := Trim(UpTo(Trim(value), SEMICOLON));
    if |media| < 16 || Lower(media[..16]) != Text("application/grpc") then None
    else if |media| == 16 then Some(Text("proto"))
    else if media[16] == PLUS then Some(media[17..])
    else None
  }

  /** `http_to_grpc_status`. */
  function HttpStatus(http: nat): Status {
    var code :=
      if http == 400 then Internal
      else if http == 401 then Unauthenticated
      else if http == 403 then PermissionDenied
      else if http == 404 then Unimplemented
      else if http in {429, 502, 503, 504} then Unavailable
      else Unknown;
    Fail(code, HttpFailed(http))
  }

  datatype Head = Head(encoding: Encoding, status: Option<Verdict>)

  /** `process_head`. */
  function ProcessHead(f: Features, http: Option<nat>, h: Headers): Result<Head, Status> {
    if http != Some(200) then Err(HttpStatus(match http case None => 0 case Some(n) => n))
    else
      var ct := GetStr(h, "content-type");
      if ct.None? || ContentSuffix(ct.value).None? then Err(Fail(Unknown, NotGrpc))
      else
        var status := if GetStr(h, "grpc-status").Some? then Some(FromTrailers(h)) else None;
        match GetStr(h, "grpc-encoding")
        case None => Ok(Head(Identity, status))
        case Some(token) =>
          match FromToken(f, token)
          case None => Err(Fail(Internal, BadEncoding))
          case Some(e) => Ok(Head(e, status))
  }

  /** What firing the request leads to, if nothing interrupts it. */
  function Opened<Req, Resp>(call: Call<Req, Resp>): Result<Phase<Resp>, Status> {
    match call.reply
    case Unreachable(e) => Err(Fail(Unavailable, TransportFailed(e)))
    case Response(http, headers, body, ending, _) =>
      match ProcessHead(call.features, http, headers)
      case Err(s) => Err(s)
      case Ok(head) =>
        Ok(Live(call.fullDuplex, headers, head.status, Items(Reading(call, head.encoding), body, ending)))
  }

  // ---- the end of the response ----

  function WireTrailers<Req, Resp>(call: Call<Req, Resp>): Headers {
    if call.reply.Response? && call.reply.trailers.Some? then call.reply.trailers.value else map[]
  }

  /** The verdict of `finish_from_trailers`: a status in the trailers, else one in the head, else
      what trailers without a status mean. */
  function FinalVerdict(headStatus: Option<Verdict>, trailers: Headers): Verdict {
    if GetStr(trailers, "grpc-status").Some? then FromTrailers(trailers)
    else if headStatus.Some? then headStatus.value
    else FromTrailers(trailers)
  }

  /** The trailers it leaves behind: those of a Trailers-Only response lived in the head. */
  function FinalTrailers(head: Headers, headStatus: Option<Verdict>, trailers: Headers): Headers {
    if GetStr(trailers, "grpc-status").None? && headStatus.Some? then head else trailers
  }

  function VerdictOut<T>(v: Verdict): Out<T> {
    match v case Ok(_) => EndOfStream case Err(s) => Error(s)
  }

  function TrailersOnlyViolation(): Status {
    Fail(Internal, TrailersOnlyBody)
  }

  // ---- interruption ----

  function CancelledStatus(): Status { Fail(Cancelled, CallCancelled) }

  function DeadlineStatus(): Status { Fail(DeadlineExceeded, DeadlineElapsed) }

  /** `s` may interrupt an operation in this state. */
  predicate Stops<T>(c: Client<T>, s: Status) {
    || (s == CancelledStatus() && c.cancelled)
    || (s == DeadlineStatus() && c.deadline.Some? && c.now >= c.deadline.value)
  }

  /** Nothing may start any more: cancelled, or strictly past the deadline. */
  predicate Barred<T>(c: Client<T>) {
    c.cancelled || (c.deadline.Some? && c.now > c.deadline.value)
  }

  /** The world moves on: time passes, cancellation may arrive and stays. */
  predicate Onward<T>(c: Client<T>, d: Client<T>) {
    c.now <= d.now && (c.cancelled ==> d.cancelled) && c.deadline == d.deadline
  }

  // ---- the operations ----

  /** `materialize_reading` / `materialize_duplex`. */
  ghost predicate Opening<Req, Resp>(call: Call<Req, Resp>, c: Client<Resp>, d: Client<Resp>, out: Out<Resp>)
    requires c.phase.NotFired?
  {
    match c.initError
    case Some(e) => d == c.(phase := Failed(e), initError := None) && out == Error(e)
    case None =>
      && Onward(c, d) && d.initError == None && d.live == c.live && d.closed == c.closed
      && (|| (d.fired == c.fired && Stopped(d, out))
          || (&& !Barred(c) && d.fired == c.fired + [RequestOf(call, c)]
              && (Stopped(d, out) || Answered(call, d, out))))
  }

  ghost predicate Stopped<Resp>(d: Client<Resp>, out: Out<Resp>) {
    d.phase.Failed? && Stops(d, d.phase.status) && out == Error(d.phase.status)
  }

  ghost predicate Answered<Req, Resp>(call: Call<Req, Resp>, d: Client<Resp>, out: Out<Resp>) {
    match Opened(call)
    case Err(s) => d.phase == Failed(s) && out == Error(s)
    case Ok(live) => d.phase == live && out == Unit
  }

  /** The state after a reader outcome that ends the call; before EOF the transport may or may not
      know the trailers yet. */
  ghost predicate Ended<Req, Resp>(call: Call<Req, Resp>, p: Phase<Resp>, q: Phase<Resp>)
    requires p.Live?
  {
    || q == Over(p.head, FinalTrailers(p.head, p.headStatus, WireTrailers(call)))
    || (p.todo != [] && q == Over(p.head, FinalTrailers(p.head, p.headStatus, map[])))
  }

  /** `read_one`. */
  ghost predicate Reads<Req, Resp>(call: Call<Req, Resp>, c: Client<Resp>, d: Client<Resp>, out: Out<Resp>)
    requires c.phase.Live?
  {
    && Onward(c, d) && d == c.(phase := d.phase, now := d.now, cancelled := d.cancelled)
    && (|| (out.Error? && Stops(d, out.status) && d.phase == c.phase)
        || (!Barred(c) && Delivers(call, c.phase, d.phase, out)))
  }

  ghost predicate Delivers<Req, Resp>(call: Call<Req, Resp>, p: Phase<Resp>, q: Phase<Resp>, out: Out<Resp>)
    requires p.Live?
  {
    if p.todo == [] then
      out == VerdictOut(FinalVerdict(p.headStatus, WireTrailers(call))) && Ended(call, p, q)
    else
      match p.todo[0]
      case Err(s) => out == Error(s) && Ended(call, p, q)
      case Ok(m) =>
        if p.headStatus.Some? then out == Error(TrailersOnlyViolation()) && Ended(call, p, q)
        else out == Received(m) && q == p.(todo := p.todo[1..])
  }

  /** `recv`. */
  ghost predicate Receives<Req, Resp(!new)>(call: Call<Req, Resp>, c: Client<Resp>, d: Client<Resp>, out: Out<Resp>) {
    match c.phase
    case NotFired(_, _, _) =>
      || (out.Error? && Opening(call, c, d, out))
      || exists mid: Client<Resp> :: mid.phase.Live? && Opening(call, c, mid, Unit) && Reads(call, mid, d, out)
    case Live(_, _, _, _) => Reads(call, c, d, out)
    case Over(_, _) => out == EndOfStream && d == c
    case Failed(s) => out == Error(s) && d == c.(phase := Over(map[], map[]))
  }

  /** `send`. */
  ghost predicate Sends<Req, Resp>(call: Call<Req, Resp>, c: Client<Resp>, d: Client<Resp>, m: Req, out: Out<Resp>) {
    match EncodeFrame(call.outb, m)
    case Err(s) => out == Error(s) && d == c
    case Ok(frame) =>
      match c.phase
      case NotFired(body, _, sendClosed) =>
        if sendClosed then out == Error(Fail(Internal, SentAfterClose)) && d == c
        else out == Unit && d == c.(phase := c.phase.(body := body + frame))
      case Live(duplex, _, _, _) =>
        if duplex then Writes(c, d, frame, out)
        else out == Error(Fail(Internal, SentAfterResponse)) && d == c
      case _ => out == Error(Fail(Internal, SentAfterResponse)) && d == c
  }

  /** A live write: the whole frame, or an error after some part of it. */
  ghost predicate Writes<Resp>(c: Client<Resp>, d: Client<Resp>, frame: Str, out: Out<Resp>) {
    && Onward(c, d) && d == c.(live := d.live, now := d.now, cancelled := d.cancelled)
    && (Barred(c) ==> d.live == c.live && out.Error?)
    && match out
       case Unit => d.live == c.live + frame
       case Error(s) =>
         && c.live <= d.live <= c.live + frame
         && (Stops(d, s) || exists e :: s == WriteError(e))
       case _ => false
  }

  function WriteError(e: Str): Status { Fail(Unavailable, WriteFailed(e)) }

  function CloseError(e: Str): Status { Fail(Unavailable, CloseFailed(e)) }

  ghost predicate Closes<Resp>(c: Client<Resp>, d: Client<Resp>, out: Out<Resp>) {
    && d == c.(closed := d.closed)
    && match out
       case Unit => d.closed
       case Error(s) => d.closed == c.closed && exists e :: s == CloseError(e)
       case _ => false
  }

  /** `close_send`. */
  ghost predicate ClosesSend<Req, Resp(!new)>(call: Call<Req, Resp>, c: Client<Resp>, d: Client<Resp>, out: Out<Resp>) {
    match c.phase
    case NotFired(_, _, _) =>
      var c' := c.(phase := c.phase.(sendClosed := true));
      if call.fullDuplex then
        || (out.Error? && Opening(call, c', d, out))
        || exists mid: Client<Resp> :: mid.phase.Live? && Opening(call, c', mid, Unit) && Closes(mid, d, out)
      else Opening(call, c', d, out)
    case Live(duplex, _, _, _) => if duplex then Closes(c, d, out) else out == Unit && d == c
    case _ => out == Unit && d == c
  }

  /** Keep the first recorded construction error. */
  function Record<T>(c: Client<T>, s: Status): Client<T> {
    if c.initError.Some? then c else c.(initError := Some(s))
  }

  function InvalidMetadata(e: M.Error): Status {
    Fail(InvalidArgument, BadMetadata(e))
  }

  function Adds<T>(c: Client<T>, problem: Option<M.Error>, key: string, value: M.Value): Client<T> {
    if !c.phase.NotFired? then c
    else match problem
         case Some(e) => Record(c, InvalidMetadata(e))
         case None => c.(phase := c.phase.(metadata := M.Add(c.phase.metadata, key, value)))
  }

  function Buffers<Req, Resp>(call: Call<Req, Resp>, c: Client<Resp>, m: Req): Client<Resp> {
    match EncodeFrame(call.outb, m)
    case Err(s) => Record(c, s)
    case Ok(frame) => if c.phase.NotFired? then c.(phase := c.phase.(body := c.phase.body + frame)) else c
  }

  /** One operation of one call. */
  ghost predicate Performs<Req, Resp(!new)>(
      call: Call<Req, Resp>, c: Client<Resp>, op: Op<Req>, out: Out<Resp>, d: Client<Resp>)
  {
    match op
    case AddAscii(key, text) => out == Unit && d == Adds(c, M.CheckAscii(key, text), key, M.Ascii(text))
    case AddBinary(key, bytes) => out == Unit && d == Adds(c, M.CheckBinary(key), key, M.Binary(bytes))
    case SetDeadline(timeout) => out == Unit && d == c.(deadline := Some(c.now + timeout))
    case Buffer(m) => out == Unit && d == Buffers(call, c, m)
    case OpenHead => if c.phase.NotFired? then Opening(call, c, d, out) else out == Unit && d == c
    case Send(m) => Sends(call, c, d, m, out)
    case CloseSend => ClosesSend(call, c, d, out)
    case Recv => Receives(call, c, d, out)
    case Cancel => out == Unit && d == c.(cancelled := true)
    case Wait => out == Unit && Onward(c, d) && d == c.(now := d.now, cancelled := d.cancelled)
  }

  datatype Event<Req, T> = Event(op: Op<Req>, out: Out<T>)

  ghost predicate Fresh<T>(c: Client<T>) {
    c.phase.NotFired? && c.phase.body == [] && c.fired == [] && c.live == [] && !c.closed
  }

  /** The `i`-th operation of a sequence of states and events. */
  ghost predicate PerformsAt<Req, Resp(!new)>(
      call: Call<Req, Resp>, states: seq<Client<Resp>>, events: seq<Event<Req, Resp>>, i: nat)
    requires i < |events| && |states| == |events| + 1
  {
    Performs(call, states[i], events[i].op, events[i].out, states[i + 1])
  }

  /** A run of a call: any operations in any order, in any world. */
  ghost predicate Run<Req, Resp(!new)>(
      call: Call<Req, Resp>, states: seq<Client<Resp>>, events: seq<Event<Req, Resp>>)
  {
    && |states| == |events| + 1 && Fresh(states[0])
    && forall i {:trigger PerformsAt(call, states, events, i)} ::
         0 <= i < |events| ==> PerformsAt(call, states, events, i)
  }
}
