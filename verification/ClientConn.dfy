/** `GrpcClientConn`: the owned, per-call client handle, driving a request and reading its response
    while racing cancellation and the deadline. Each operation runs to completion. */
module ClientConn {
  import opened Bytes
  import opened HeaderMap
  import opened Statuses
  import opened Frames
  import opened FrameReader
  import opened ClientSpec
  import ClientHeads
  import ClientRequests
  import M = CustomMetadata

  /** The clock, which never runs backwards, and the cancel flag, which is never lowered. */
  class World {
    var now: nat
    var cancelled: bool

    constructor (now: nat)
      ensures this.now == now && !cancelled
    {
      this.now, cancelled := now, false;
    }

    /** What may happen while an operation waits. */
    method Tick()
      modifies this
      ensures old(now) <= now && (old(cancelled) ==> cancelled)
    {
      var passed: nat :| passed >= 0;
      var cancel: bool := *;
      now, cancelled := now + passed, cancelled || cancel;
    }
  }

  /** The HTTP side of a call: it takes one request, answers it with a reply nothing is assumed
      about, and for an upgraded call accepts further bytes in pieces of any size. */
  class Transport {
    const reply: Reply
    var fired: seq<Request>
    var live: Str
    var closed: bool
    /** How often it still makes its caller wait, and how often a response body will. */
    var patience: nat
    const bodyPatience: nat

    constructor (reply: Reply, patience: nat, bodyPatience: nat)
      ensures this.reply == reply && fired == [] && live == [] && !closed
      ensures this.patience == patience && this.bodyPatience == bodyPatience
    {
      this.reply, this.patience, this.bodyPatience := reply, patience, bodyPatience;
      fired, live, closed := [], [], false;
    }

    /** Poll the exchange; its first poll is what makes the request. */
    method PollExchange(request: Request, first: bool) returns (r: Poll<Reply>)
      modifies this
      ensures fired == old(fired) + (if first then [request] else [])
      ensures live == old(live) && closed == old(closed)
      ensures if r.Pending? then patience < old(patience) else patience == old(patience)
      ensures r.Ready? ==> r.value == reply
    {
      if first {
        fired := fired + [request];
      }
      var wait: bool := *;
      if wait && patience > 0 {
        patience := patience - 1;
        return Pending;
      }
      return Ready(reply);
    }

    method PollWrite(data: Str) returns (r: Poll<Result<nat, Str>>)
      requires data != []
      modifies this
      ensures fired == old(fired) && closed == old(closed)
      ensures r.Pending? ==> patience < old(patience) && live == old(live)
      ensures r.Ready? ==> patience == old(patience)
      ensures r.Ready? && r.value.Err? ==> live == old(live)
      ensures r.Ready? && r.value.Ok? ==> 0 < r.value.value <= |data| && live == old(live) + data[..r.value.value]
    {
      var wait: bool, fails: bool := *, *;
      if wait && patience > 0 {
        patience := patience - 1;
        return Pending;
      }
      if fails {
        var e: Str := *;
        return Ready(Err(e));
      }
      var n: nat :| 0 < n <= |data|;
      live := live + data[..n];
      return Ready(Ok(n));
    }

    method Close() returns (r: Result<(), Str>)
      modifies this
      ensures fired == old(fired) && live == old(live)
      ensures if r.Ok? then closed else closed == old(closed)
    {
      var fails: bool := *;
      if fails {
        var e: Str := *;
        return Err(e);
      }
      closed := true;
      return Ok(());
    }
  }

  datatype LiveConn<T> = LiveConn(reader: MessageStream<T>, responseHeaders: Headers, headStatus: Option<Verdict>)

  datatype Inner<T> =
    | Gathering(body: Str, sendClosed: bool)      // the crate's `Inner::Pending`
    | HalfDuplex(conn: LiveConn<T>)               // `Inner::Reading`
    | FullDuplex(conn: LiveConn<T>)               // `Inner::Duplex`
    | Ended(responseHeaders: Headers, trailers: Headers)
    | Broken(status: Status)                      // `Inner::Failed`

  lemma ClosesByOpening<Req, Resp(!new)>(
      call: Call<Req, Resp>, c: Client<Resp>, mid: Client<Resp>, answer: Out<Resp>, d: Client<Resp>, out: Out<Resp>)
    requires c.phase.NotFired? && Opening(call, c.(phase := c.phase.(sendClosed := true)), mid, answer)
    requires if call.fullDuplex && !answer.Error? then mid.phase.Live? && answer == Unit && Closes(mid, d, out)
             else d == mid && out == answer
    ensures Performs(call, c, Op.CloseSend, out, d)
  {
  }

  class GrpcClientConn<Req, Resp(!new)> {
    const call: Call<Req, Resp>
    const world: World
    const net: Transport
    const requestMetadata: M.Metadata
    var inner: Inner<Resp>
    var initError: Option<Status>
    var deadline: Option<nat>
    ghost var Repr: set<object>

    /** Between operations: a live reader has not finished. */
    ghost predicate Valid()
      reads this, Repr
      ensures Valid() ==> this in Repr
    {
      Core() && ((inner.HalfDuplex? || inner.FullDuplex?) ==> !inner.conn.reader.state.Finished?)
    }

    ghost predicate Core()
      reads this, Repr
      ensures Core() ==> this in Repr
    {
      && this in Repr && world in Repr && net in Repr && requestMetadata in Repr
      && requestMetadata.Valid() && net.reply == call.reply
      && match inner
         case HalfDuplex(conn) => !call.fullDuplex && Owns(conn)
         case FullDuplex(conn) => call.fullDuplex && Owns(conn)
         case _ => true
    }

    ghost predicate Owns(conn: LiveConn<Resp>)
      reads this, Repr
    {
      && conn.reader in Repr && conn.reader.Repr <= Repr
      && {this, world, net, requestMetadata} !! conn.reader.Repr
      && conn.reader.Valid() && call.reply.Response?
    }

    ghost function PhaseOf(): Phase<Resp>
      requires Core()
      reads this, Repr
    {
      match inner
      case Gathering(body, sendClosed) => NotFired(body, requestMetadata.Contents(), sendClosed)
      case HalfDuplex(conn) => Live(false, conn.responseHeaders, conn.headStatus, conn.reader.Todo())
      case FullDuplex(conn) => Live(true, conn.responseHeaders, conn.headStatus, conn.reader.Todo())
      case Ended(h, t) => Over(h, t)
      case Broken(s) => Phase.Failed(s)
    }

    /** How many polls of a `recv` may still have to wait, for the head and for the items. */
    ghost function Budget(): nat
      requires Core()
      reads this, Repr
    {
      match inner
      case Gathering(_, _) => net.patience + net.bodyPatience
      case HalfDuplex(conn) => conn.reader.source.patience
      case FullDuplex(conn) => conn.reader.source.patience
      case _ => 0
    }

    /** The call as the specification sees it. */
    ghost function State(): Client<Resp>
      requires Core()
      reads this, Repr
    {
      Client(PhaseOf(), initError, deadline, world.now, world.cancelled, net.fired, net.live, net.closed)
    }

    /** `open`: nothing touches the network yet. */
    constructor (
        call: Call<Req, Resp>, world: World, net: Transport, metadata: M.Metadata, timeout: Option<nat>)
      requires net.reply == call.reply && net.fired == [] && net.live == [] && !net.closed
      requires metadata.Valid()
      ensures Valid() && fresh(Repr - {world, net, metadata})
      ensures this.call == call && this.world == world && this.net == net
      ensures Fresh(State()) && initError == None
      ensures PhaseOf() == NotFired([], metadata.Contents(), false)
      ensures deadline == match timeout case None => None case Some(d) => Some(world.now + d)
    {
      this.call, this.world, this.net, requestMetadata := call, world, net, metadata;
      inner, initError := Gathering([], false), None;
      deadline := match timeout case None => None case Some(d) => Some(world.now + d);
      new;
      Repr := {this, world, net, requestMetadata};
    }

    method AddAscii(key: string, text: Str)
      requires Valid()
      modifies Repr
      ensures Valid() && fresh(Repr - old(Repr))
      ensures Performs(call, old(State()), Op.AddAscii(key, text), Unit, State())
    {
      if inner.Gathering? {
        var r := requestMetadata.InsertAscii(key, text);
        if r.Err? {
          NoteError(InvalidMetadata(r.error));
        }
      }
    }

    method AddBinary(key: string, bytes: Str)
      requires Valid()
      modifies Repr
      ensures Valid() && fresh(Repr - old(Repr))
      ensures Performs(call, old(State()), Op.AddBinary(key, bytes), Unit, State())
    {
      if inner.Gathering? {
        var r := requestMetadata.InsertBinary(key, bytes);
        if r.Err? {
          NoteError(InvalidMetadata(r.error));
        }
      }
    }

    /** `init_error.get_or_insert`. */
    method NoteError(s: Status)
      requires Valid()
      modifies this
      ensures Valid() && Repr == old(Repr) && State() == Record(old(State()), s)
    {
      if initError.None? {
        initError := Some(s);
      }
    }

    method SetDeadline(timeout: nat)
      requires Valid()
      modifies this
      ensures Valid() && Repr == old(Repr)
      ensures Performs(call, old(State()), Op.SetDeadline(timeout), Unit, State())
    {
      deadline := Some(world.now + timeout);
    }

    method Buffer(message: Req)
      requires Valid()
      modifies this
      ensures Valid() && Repr == old(Repr)
      ensures Performs(call, old(State()), Op.Buffer(message), Unit, State())
    {
      var framed := EncodeFrame(call.outb, message);
      match framed {
        case Err(s) => NoteError(s);
        case Ok(frame) =>
          if inner.Gathering? {
            inner := inner.(body := inner.body + frame);
          }
      }
    }

    method OpenHead() returns (out: Out<Resp>)
      requires Valid()
      modifies Repr
      ensures Valid() && fresh(Repr - old(Repr))
      ensures Performs(call, old(State()), Op.OpenHead, out, State())
    {
      if inner.Gathering? {
        out := Materialize();
      } else {
        out := Unit;
      }
    }

    method Send(message: Req) returns (out: Out<Resp>)
      requires Valid()
      modifies Repr
      ensures Valid() && fresh(Repr - old(Repr))
      ensures Performs(call, old(State()), Op.Send(message), out, State())
    {
      var framed := EncodeFrame(call.outb, message);
      if framed.Err? {
        return Error(framed.error);
      }
      match inner {
        case Gathering(body, sendClosed) =>
          if sendClosed {
            return Error(Fail(Internal, SentAfterClose));
          }
          inner := Gathering(body + framed.value, sendClosed);
          return Unit;
        case FullDuplex(_) => out := WriteAll(framed.value);
        case _ => return Error(Fail(Internal, SentAfterResponse));
      }
    }

    method CloseSend() returns (out: Out<Resp>)
      requires Valid()
      modifies Repr
      ensures Valid() && fresh(Repr - old(Repr))
      ensures Performs(call, old(State()), Op.CloseSend, out, State())
      ensures out == Unit && call.fullDuplex && (old(inner).Gathering? || old(inner).FullDuplex?) ==> net.closed
    {
      match inner {
        case Gathering(body, _) =>
          ghost var start := State();
          inner := Gathering(body, true);
          assert State() == start.(phase := start.phase.(sendClosed := true));
          out := Materialize();
          ghost var mid, answer := State(), out;
          if call.fullDuplex && !out.Error? {
            out := Close();
          }
          ClosesByOpening(call, start, mid, answer, State(), out);
        case FullDuplex(_) => out := Close();
        case _ => out := Unit;
      }
    }

    method Close() returns (out: Out<Resp>)
      requires Valid()
      modifies net
      ensures Valid() && Closes(old(State()), State(), out)
    {
      var r := net.Close();
      match r {
        case Ok(_) => out := Unit;
        case Err(e) => out := Error(CloseError(e));
      }
    }

    method Recv() returns (out: Out<Resp>)
      requires Valid()
      modifies Repr
      ensures Valid() && fresh(Repr - old(Repr))
      ensures Performs(call, old(State()), Op.Recv, out, State())
    {
      if inner.Gathering? {
        out := Materialize();
        if out.Error? {
          return;
        }
        ghost var mid := State();
        out := ReadOne();
        assert mid.phase.Live? && Opening(call, old(State()), mid, Unit) && Reads(call, mid, State(), out);
        return;
      }
      match inner {
        case HalfDuplex(_) => out := ReadOne();
        case FullDuplex(_) => out := ReadOne();
        case Ended(_, _) => out := EndOfStream;
        case Broken(s) =>
          inner := Ended(map[], map[]);
          out := Error(s);
      }
    }

    method Cancel()
      requires Valid()
      modifies world
      ensures Valid() && Repr == old(Repr)
      ensures Performs(call, old(State()), Op.Cancel, Unit, State())
    {
      world.cancelled := true;
    }

    /** Time passing between two operations. */
    method Wait()
      requires Valid()
      modifies world
      ensures Valid() && Repr == old(Repr)
      ensures Performs(call, old(State()), Op.Wait, Unit, State())
    {
      world.Tick();
    }

    // ---- racing ----

    /** The left-biased head of a race's poll: the cancel signal, then the timer. */
    method PollStops() returns (s: Option<Status>)
      requires Core()
      ensures s.Some? ==> Stops(State(), s.value)
      ensures s.None? ==> !world.cancelled
      ensures world.cancelled ==> s == Some(CancelledStatus())
    {
      if world.cancelled {
        return Some(CancelledStatus());
      }
      var rings: bool := *;
      if deadline.Some? && world.now >= deadline.value && rings {
        return Some(DeadlineStatus());
      }
      return None;
    }

    /** Whether the deadline has strictly passed before anything is polled. */
    method Late() returns (late: bool)
      requires Valid()
      ensures late ==> Stops(State(), DeadlineStatus())
      ensures late <==> deadline.Some? && world.now > deadline.value
    {
      late := deadline.Some? && world.now > deadline.value;
    }

    method RaceExchange(request: Request) returns (r: Result<Reply, Status>)
      requires Valid() && !inner.HalfDuplex? && !inner.FullDuplex?
      modifies world, net
      ensures Valid() && Onward(old(State()), State())
      ensures net.live == old(net.live) && net.closed == old(net.closed)
      ensures r.Err? ==> Stops(State(), r.error)
      ensures r.Ok? ==> r.value == call.reply && net.fired == old(net.fired) + [request]
      ensures net.fired == old(net.fired) || net.fired == old(net.fired) + [request]
      ensures Barred(old(State())) ==> r.Err? && net.fired == old(net.fired)
    {
      var late := Late();
      if late {
        return Err(DeadlineStatus());
      }
      var first := true;
      var answer: Option<Result<Reply, Status>> := None;
      while answer.None?
        invariant Valid() && Onward(old(State()), State())
        invariant net.live == old(net.live) && net.closed == old(net.closed)
        invariant net.fired == old(net.fired) + (if first then [] else [request])
        invariant answer.None? && first ==> State() == old(State())
        invariant old(world.cancelled) ==> first && (answer.Some? ==> answer.value.Err?)
        invariant answer.Some? && answer.value.Err? ==> Stops(State(), answer.value.error)
        invariant answer.Some? && answer.value.Ok? ==> answer.value.value == call.reply && !first
        decreases net.patience, answer.None?
      {
        answer, first := ExchangeStep(request, first);
      }
      r := answer.value;
    }

    /** One poll of the race: cancel signal, timer, exchange; then, if all wait, the world moves on. */
    method ExchangeStep(request: Request, first: bool)
      returns (answer: Option<Result<Reply, Status>>, still: bool)
      requires Valid() && !inner.HalfDuplex? && !inner.FullDuplex?
      modifies world, net
      ensures Valid() && Onward(old(State()), State())
      ensures net.live == old(net.live) && net.closed == old(net.closed)
      ensures net.fired == old(net.fired) + (if first && !still then [request] else []) && (still ==> first)
      ensures answer.None? ==> !still && net.patience < old(net.patience)
      ensures net.patience <= old(net.patience)
      ensures answer.Some? && answer.value.Err? ==> Stops(State(), answer.value.error) && still == first
      ensures answer.Some? && answer.value.Ok? ==> answer.value.value == call.reply && !still
      ensures old(world.cancelled) ==> answer.Some? && answer.value.Err?
    {
      var stop := PollStops();
      if stop.Some? {
        return Some(Err(stop.value)), first;
      }
      var p := net.PollExchange(request, first);
      if p.Ready? {
        return Some(Ok(p.value)), false;
      }
      world.Tick();
      return None, false;
    }

    /** `write_all` on the upgraded transport, raced. */
    method WriteAll(frame: Str) returns (out: Out<Resp>)
      requires Valid() && inner.FullDuplex?
      modifies world, net
      ensures Valid() && Writes(old(State()), State(), frame, out)
    {
      var written;
      var r;
      r, written := RaceWrite(frame);
      if r.Ok? {
        assert frame[..written] == frame;
        return Unit;
      }
      assert frame == frame[..written] + frame[written..];
      return Error(r.error);
    }

    method RaceWrite(frame: Str) returns (r: Result<(), Status>, written: nat)
      requires Valid() && inner.FullDuplex?
      modifies world, net
      ensures Valid() && written <= |frame| && net.live == old(net.live) + frame[..written]
      ensures net.fired == old(net.fired) && net.closed == old(net.closed)
      ensures old(world.now) <= world.now && (old(world.cancelled) ==> world.cancelled)
      ensures r.Ok? ==> written == |frame|
      ensures r.Err? ==> Stops(State(), r.error) || exists e :: r.error == WriteError(e)
      ensures old(world.cancelled) || (deadline.Some? && old(world.now) > deadline.value) ==> r.Err? && written == 0
    {
      written := 0;
      assert net.live == net.live + frame[..0];
      var late := Late();
      if late {
        return Err(DeadlineStatus()), 0;
      }
      ghost var polled := false;
      while true
        invariant Valid() && written <= |frame| && net.live == old(net.live) + frame[..written]
        invariant net.fired == old(net.fired) && net.closed == old(net.closed)
        invariant old(world.now) <= world.now && (old(world.cancelled) ==> world.cancelled && written == 0 && !polled)
        invariant !polled ==> world.cancelled == old(world.cancelled)
        decreases net.patience
      {
        var stop := PollStops();
        if stop.Some? {
          return Err(stop.value), written;
        }
        polled := true;
        ghost var before := written;
        var failure;
        written, failure := PollWriteAll(frame, written);
        assert frame[..written] == frame[..before] + frame[before..written];
        if failure.Some? {
          return Err(WriteError(failure.value)), written;
        }
        if written == |frame| {
          return Ok(()), written;
        }
        world.Tick();
      }
    }

    /** One poll of `write_all`: write pieces until the frame is out, the transport makes the
        caller wait, or a write fails. */
    method PollWriteAll(frame: Str, from: nat) returns (written: nat, failure: Option<Str>)
      requires Valid() && from <= |frame|
      modifies net
      ensures Valid() && from <= written <= |frame|
      ensures net.fired == old(net.fired) && net.closed == old(net.closed)
      ensures net.live == old(net.live) + frame[from..written]
      ensures failure.None? && written < |frame| ==> net.patience < old(net.patience)
    {
      written, failure := from, None;
      while written < |frame|
        invariant Valid() && from <= written <= |frame| && failure.None?
        invariant net.fired == old(net.fired) && net.closed == old(net.closed)
        invariant net.live == old(net.live) + frame[from..written]
        invariant net.patience == old(net.patience)
        decreases |frame| - written
      {
        var p := net.PollWrite(frame[written..]);
        match p {
          case Pending => return;
          case Ready(Err(e)) =>
            failure := Some(e);
            return;
          case Ready(Ok(n)) =>
            assert frame[from..written + n] == frame[from..written] + frame[written..][..n];
            written := written + n;
        }
      }
    }

    // ---- opening ----

    /** `fail`: a failed open is remembered, so the request is never retried. */
    method Fails(s: Status) returns (out: Out<Resp>)
      requires Valid()
      modifies this
      ensures Valid() && Repr == old(Repr) && out == Error(s)
      ensures State() == old(State()).(phase := Phase.Failed(s)) && Budget() == 0
    {
      inner := Inner.Broken(s);
      out := Error(s);
    }

    /** `build_request`. */
    method BuildRequest(body: Str) returns (request: Request)
      requires Valid() && inner.Gathering?
      ensures request == RequestOf(call, State().(phase := PhaseOf().(body := body)))
      ensures !Barred(State()) ==>
                ClientRequests.MadeFrom(call, State().(phase := PhaseOf().(body := body)), request)
    {
      var h := FrameworkHeaders(call, deadline, world.now);
      h := requestMetadata.WriteTo(h);
      request := Request(h, body, call.fullDuplex);
      if !Barred(State()) {
        ClientRequests.RequestMade(call, State().(phase := PhaseOf().(body := body)));
      }
    }

    /** What both ways of firing do first: give up with a recorded construction error, or take the
        body and build the request. */
    method TakeRequest() returns (r: Result<Request, Status>)
      requires Valid() && inner.Gathering?
      modifies this
      ensures Valid() && Repr == old(Repr)
      ensures r.Err? <==> old(initError).Some?
      ensures r.Err? ==> Some(r.error) == old(initError)
                         && State() == old(State()).(phase := Phase.Failed(r.error), initError := None)
      ensures r.Ok? ==> r.value == RequestOf(call, old(State())) && inner.Gathering?
                        && State() == old(State()).(phase := old(PhaseOf()).(body := []))
      ensures Budget() <= old(Budget())
    {
      if initError.Some? {
        var s := initError.value;
        initError := None;
        var _ := Fails(s);
        return Err(s);
      }
      var body := inner.body;
      inner := inner.(body := []);
      var request := BuildRequest(body);
      return Ok(request);
    }

    /** `materialize_reading` and `materialize_duplex`: fire the request, await the head. */
    method Materialize() returns (out: Out<Resp>)
      requires Valid() && inner.Gathering?
      modifies Repr
      ensures Valid() && fresh(Repr - old(Repr))
      ensures Opening(call, old(State()), State(), out)
      ensures out.Error? || (out == Unit && PhaseOf().Live?)
    {
      var taken := TakeRequest();
      if taken.Err? {
        return Error(taken.error);
      }
      var r := RaceExchange(taken.value);
      if r.Err? {
        out := Fails(r.error);
        return;
      }
      out := OnReply(r.value);
    }

    /** The head has arrived, or the transport failed. */
    method OnReply(reply: Reply) returns (out: Out<Resp>)
      requires Valid() && inner.Gathering? && reply == call.reply
      modifies this
      ensures Valid() && fresh(Repr - old(Repr))
      ensures State() == old(State()).(phase := PhaseOf())
      ensures Answered(call, State(), out)
      ensures out.Error? || (out == Unit && PhaseOf().Live?)
      ensures out == Unit <==> ClientHeads.Accepted(call)
      ensures out == Unit ==> PhaseOf() == ClientHeads.LiveOf(call)
      ensures Budget() <= net.bodyPatience
    {
      if reply.Response? { ClientHeads.HeadRefused(call.features, reply.http, reply.headers); }
      if ClientHeads.Accepted(call) { ClientHeads.AcceptedOpens(call); }
      match reply {
        case Unreachable(e) => out := Fails(Fail(Unavailable, TransportFailed(e)));
        case Response(http, headers, bytes, ending, _) =>
          var head := ProcessHead(call.features, http, headers);
          match head {
            case Err(s) => out := Fails(s);
            case Ok(h) =>
              GoLive(headers, h, bytes, ending);
              out := Unit;
          }
      }
    }

    /** A fresh reader over the response body. */
    method GoLive(headers: Headers, head: Head, bytes: Str, ending: Ending)
      requires Valid() && inner.Gathering? && call.reply.Response?
      modifies this
      ensures Valid() && fresh(Repr - old(Repr)) && initError == old(initError) && deadline == old(deadline)
      ensures PhaseOf() == Live(call.fullDuplex, headers, head.status,
                                Items(Reading(call, head.encoding), bytes, ending))
      ensures Budget() == net.bodyPatience
    {
      var reader := NewReader(Reading(call, head.encoding), bytes, ending);
      Repr := Repr + reader.Repr;
      var conn := LiveConn(reader, headers, head.status);
      inner := if call.fullDuplex then FullDuplex(conn) else HalfDuplex(conn);
    }

    method NewReader(inb: Inbound<Resp>, bytes: Str, ending: Ending) returns (reader: MessageStream<Resp>)
      ensures reader.Valid() && fresh(reader.Repr) && !reader.state.Finished?
      ensures reader.Todo() == Items(inb, bytes, ending) && reader.source.patience == net.bodyPatience
    {
      var source := new ByteSource(bytes, ending, net.bodyPatience);
      reader := new MessageStream(source, inb);
    }

    // ---- reading ----

    /** `finish_from_trailers`: end the call with the trailers the transport knows. At EOF it knows
        them; before, it may not have received them yet. */
    method Finish(conn: LiveConn<Resp>, atEof: bool) returns (verdict: Verdict, ghost known: Headers)
      requires Core() && (inner == HalfDuplex(conn) || inner == FullDuplex(conn))
      modifies this
      ensures Valid() && Repr == old(Repr) && initError == old(initError) && deadline == old(deadline)
      ensures known == WireTrailers(call) || (!atEof && known == map[])
      ensures inner == Ended(conn.responseHeaders, FinalTrailers(conn.responseHeaders, conn.headStatus, known))
      ensures verdict == FinalVerdict(conn.headStatus, known)
    {
      var early: bool := *;
      var trailers := if !atEof && early then map[] else WireTrailers(call);
      known := trailers;
      if GetStr(trailers, "grpc-status").Some? {
        verdict := FromTrailers(trailers);
      } else if conn.headStatus.Some? {
        trailers := conn.responseHeaders;
        verdict := conn.headStatus.value;
      } else {
        verdict := FromTrailers(trailers);
      }
      inner := Ended(conn.responseHeaders, trailers);
    }

    /** `read_one`. */
    method ReadOne() returns (out: Out<Resp>)
      requires Valid() && (inner.HalfDuplex? || inner.FullDuplex?)
      modifies Repr
      ensures Valid() && fresh(Repr - old(Repr))
      ensures Reads(call, old(State()), State(), out)
    {
      var conn := inner.conn;
      ghost var todo := conn.reader.Todo();
      var r := RaceRead(conn);
      match r {
        case Err(s) => out := Error(s);
        case Ok(item) => out := Deliver(conn, item, todo);
      }
    }

    /** What the reader answered, as the caller gets it. */
    method Deliver(conn: LiveConn<Resp>, item: Option<Result<Resp, Status>>, ghost todo: seq<Result<Resp, Status>>)
      returns (out: Out<Resp>)
      requires Core() && (inner == HalfDuplex(conn) || inner == FullDuplex(conn))
      requires todo == if item.Some? then [item.value] + conn.reader.Todo() else []
      requires item.Some? && item.value.Ok? ==> Valid()
      modifies this
      ensures Valid() && Repr == old(Repr) && initError == old(initError) && deadline == old(deadline)
      ensures Delivers(call, Live(old(inner).FullDuplex?, conn.responseHeaders, conn.headStatus, todo), PhaseOf(), out)
      ensures Budget() <= conn.reader.source.patience
    {
      match item {
        case None =>
          var verdict, _ := Finish(conn, true);
          return VerdictOut(verdict);
        case Some(Err(s)) =>
          var _, _ := Finish(conn, false);
          return Error(s);
        case Some(Ok(m)) =>
          if conn.headStatus.Some? {
            var _, _ := Finish(conn, false);
            return Error(TrailersOnlyViolation());
          }
          return Received(m);
      }
    }

    /** The race inside `read_one`. An interrupted read keeps what was read so far. */
    method RaceRead(conn: LiveConn<Resp>) returns (r: Result<Option<Result<Resp, Status>>, Status>)
      requires Valid() && (inner == HalfDuplex(conn) || inner == FullDuplex(conn))
      modifies Repr
      ensures Core() && fresh(Repr - old(Repr)) && inner == old(inner)
      ensures initError == old(initError) && deadline == old(deadline)
      ensures net.fired == old(net.fired) && net.live == old(net.live) && net.closed == old(net.closed)
      ensures old(world.now) <= world.now && (old(world.cancelled) ==> world.cancelled)
      ensures RaceAnswer(conn, old(conn.reader.Todo()), r)
      ensures r.Ok? ==> !old(world.cancelled) && (deadline.Some? ==> old(world.now) <= deadline.value)
    {
      var late := Late();
      if late {
        return Err(DeadlineStatus());
      }
      var answer := RaceStep(conn);
      while answer.None?
        invariant Core() && fresh(Repr - old(Repr)) && inner == old(inner) && initError == old(initError)
        invariant deadline == old(deadline)
        invariant net.fired == old(net.fired) && net.live == old(net.live) && net.closed == old(net.closed)
        invariant old(world.now) <= world.now && (old(world.cancelled) ==> world.cancelled)
        invariant answer.None? ==> Valid() && conn.reader.Todo() == old(conn.reader.Todo())
        invariant answer.Some? ==> RaceAnswer(conn, old(conn.reader.Todo()), answer.value)
        invariant old(world.cancelled) ==> answer.Some? && answer.value.Err?
        decreases if answer.None? then conn.reader.source.patience + 1 else 0
      {
        answer := RaceStep(conn);
      }
      r := answer.value;
    }

    /** What an answer of the race means for the items still to come. */
    ghost predicate RaceAnswer(
        conn: LiveConn<Resp>, todo: seq<Result<Resp, Status>>, r: Result<Option<Result<Resp, Status>>, Status>)
      requires Core() && (inner == HalfDuplex(conn) || inner == FullDuplex(conn))
      reads this, Repr
    {
      match r
      case Err(s) => Valid() && Stops(State(), s) && conn.reader.Todo() == todo
      case Ok(item) =>
        && todo == (if item.Some? then [item.value] + conn.reader.Todo() else [])
        && (item.Some? && item.value.Ok? ==> Valid())
    }

    /** One poll of the race: cancel signal, timer, reader; then, if all wait, the world moves on. */
    method RaceStep(conn: LiveConn<Resp>) returns (answer: Option<Result<Option<Result<Resp, Status>>, Status>>)
      requires Valid() && (inner == HalfDuplex(conn) || inner == FullDuplex(conn))
      modifies Repr
      ensures Core() && fresh(Repr - old(Repr)) && inner == old(inner) && initError == old(initError)
      ensures deadline == old(deadline)
      ensures net.fired == old(net.fired) && net.live == old(net.live) && net.closed == old(net.closed)
      ensures old(world.now) <= world.now && (old(world.cancelled) ==> world.cancelled)
      ensures answer.None? ==> Valid() && conn.reader.Todo() == old(conn.reader.Todo())
                               && conn.reader.source.patience < old(conn.reader.source.patience)
      ensures answer.Some? ==> RaceAnswer(conn, old(conn.reader.Todo()), answer.value)
      ensures old(world.cancelled) ==> answer.Some? && answer.value.Err?
    {
      var stop := PollStops();
      if stop.Some? {
        return Some(Err(stop.value));
      }
      var p := PollReader(conn);
      if p.Ready? {
        return Some(Ok(p.value));
      }
      world.Tick();
      return None;
    }

    method PollReader(conn: LiveConn<Resp>) returns (p: Poll<Option<Result<Resp, Status>>>)
      requires Valid() && (inner == HalfDuplex(conn) || inner == FullDuplex(conn))
      modifies Repr
      ensures Core() && fresh(Repr - old(Repr)) && inner == old(inner) && initError == old(initError)
      ensures deadline == old(deadline) && world.now == old(world.now) && world.cancelled == old(world.cancelled)
      ensures net.fired == old(net.fired) && net.live == old(net.live) && net.closed == old(net.closed)
      ensures p.Pending? ==> Valid() && conn.reader.Todo() == old(conn.reader.Todo())
                             && conn.reader.source.patience < old(conn.reader.source.patience)
      ensures p.Ready? ==>
                old(conn.reader.Todo()) == if p.value.Some? then [p.value.value] + conn.reader.Todo() else []
      ensures p.Ready? && p.value.Some? && p.value.value.Ok? ==> Valid()
      ensures p.Ready? ==> conn.reader.source.patience == old(conn.reader.source.patience)
    {
      p := conn.reader.PollNext();
      Repr := Repr + conn.reader.Repr;
    }
  }
}
