/** The typed call handles built on the engine: the unary / client-streaming call with its
    exactly-one-response rule, and a driver that performs any sequence of operations. */
module Typed {
  import opened Bytes
  import opened Statuses
  import opened Frames
  import opened ClientSpec
  import opened ClientRuns
  import opened ClientConn

  /** The message, if one is kept, and the verdict of an awaited unary call. */
  datatype Outcome<T> = Outcome(message: Option<T>, verdict: Verdict)

  /** `read_unary`, given the answers of its two `recv` calls. */
  function ReadOutcome<T>(first: Out<T>, second: Out<T>): Outcome<T> {
    match first
    case Received(m) =>
      (match second
       case Received(_) => Outcome(None, Err(Fail(Internal, ManyResponses)))
       case Error(s) => Outcome(Some(m), Err(s))
       case _ => Outcome(Some(m), Ok(())))
    case Error(s) => Outcome(None, Err(s))
    case _ => Outcome(None, Err(Fail(Internal, NoResponse)))
  }

  /** `into_message`. */
  function IntoMessage<T>(outcome: Option<Outcome<T>>): Result<T, Status> {
    match outcome
    case None => Err(Fail(Internal, NotAwaited))
    case Some(Outcome(message, verdict)) =>
      match verdict
      case Err(s) => Err(s)
      case Ok(_) =>
        match message
        case Some(m) => Ok(m)
        case None => Err(Fail(Internal, NoResponse))
  }

  /** The `k`-th answer of a call; after the last one there is only the end of the stream. */
  function Nth<T>(answers: seq<Out<T>>, k: nat): Out<T> {
    if k < |answers| then answers[k] else EndOfStream
  }

  /** The response that a unary call is supposed to get: one message and an OK verdict, under a
      head that does not announce a status of its own. */
  predicate ExactlyOne<Req, Resp(==)>(
      call: Call<Req, Resp>, headStatus: Option<Verdict>, todo: seq<Result<Resp, Status>>, m: Resp)
  {
    todo == [Ok(m)] && headStatus == None && FinalVerdict(None, WireTrailers(call)) == Ok(())
  }

  /** A unary call returns a message exactly when the response was that one message with an OK
      verdict. */
  lemma UnaryExact<Req, Resp>(
      call: Call<Req, Resp>, headStatus: Option<Verdict>, todo: seq<Result<Resp, Status>>, m: Resp)
    ensures var answers := Answers(call, headStatus, todo);
            IntoMessage(Some(ReadOutcome(Nth(answers, 0), Nth(answers, 1)))) == Ok(m)
            <==> ExactlyOne(call, headStatus, todo, m)
  {
    var answers := Answers(call, headStatus, todo);
    if todo != [] && todo[0].Ok? && headStatus.None? {
      assert answers == [Received(todo[0].value)] + Answers(call, headStatus, todo[1..]);
      assert answers[1] == Answers(call, headStatus, todo[1..])[0];
      if todo[1..] == [] {
        assert todo == [todo[0]];
      }
    }
  }

  /** What a unary call returns otherwise: the first bad answer is the error, none or several messages
      under an OK verdict are Internal. */
  lemma UnaryErrors<Req, Resp>(call: Call<Req, Resp>, todo: seq<Result<Resp, Status>>)
    ensures var answers, verdict := Answers(call, None, todo), FinalVerdict(None, WireTrailers(call));
            var r := IntoMessage(Some(ReadOutcome(Nth(answers, 0), Nth(answers, 1))));
            && (todo == [] && verdict.Err? ==> r == Err(verdict.error))
            && (todo == [] && verdict.Ok? ==> r.Err? && r.error.code == Internal)
            && (|todo| == 1 && todo[0].Ok? && verdict.Err? ==> r == Err(verdict.error))
            && (|todo| >= 1 && todo[0].Err? ==> r == Err(todo[0].error))
            && (|todo| >= 2 && todo[0].Ok? && todo[1].Err? ==> r == Err(todo[1].error))
            && (|todo| >= 2 && todo[0].Ok? && todo[1].Ok? ==> r.Err? && r.error.code == Internal)
    ensures var early := IntoMessage<Resp>(None); early.Err? && early.error.code == Internal
    ensures var bare: Result<Resp, Status> := IntoMessage(Some(Outcome(None, Ok(()))));
            bare.Err? && bare.error.code == Internal
  {
    var answers := Answers(call, None, todo);
    if todo != [] && todo[0].Ok? {
      assert answers == [Received(todo[0].value)] + Answers(call, None, todo[1..]);
      assert answers[1] == Answers(call, None, todo[1..])[0];
    }
  }

  class UnaryConn<Req, Resp(!new)> {
    const engine: GrpcClientConn<Req, Resp>
    var requests: Option<seq<Req>>
    var outcome: Option<Outcome<Resp>>

    /** `engine` carries what was buffered; `requests` is the source still to be drained. */
    constructor (engine: GrpcClientConn<Req, Resp>, requests: Option<seq<Req>>)
      ensures this.engine == engine && this.requests == requests && outcome == None
    {
      this.engine, this.requests, outcome := engine, requests, None;
    }

    /** `.await`: send the requests, fire, read exactly one response. An error before the head
        arrived is returned; the verdict of the call is kept for `into_message`. */
    method Await() returns (r: Result<(), Status>)
      requires engine.Valid() && this !in engine.Repr && !engine.call.fullDuplex
      requires engine.PhaseOf().NotFired? && Sound(engine.State()) && !engine.PhaseOf().sendClosed
      requires outcome == None
      modifies this, engine.Repr
      ensures engine.Valid() && fresh(engine.Repr - old(engine.Repr)) && requests == None
      ensures if r.Err? then outcome == None else outcome.Some?
      ensures outcome.Some? ||
                UnaryResult(engine.call, old(engine.State()), Source(old(requests)), engine.State(), Err(r.error))
      ensures outcome.None? ||
                UnaryResult(engine.call, old(engine.State()), Source(old(requests)), engine.State(), Ok(outcome.value))
    {
      var source := Source(requests);
      var o := Complete(source);
      ghost var end := engine.State();
      requests, outcome := None, match o case Ok(result) => Some(result) case Err(_) => None;
      r := match o case Ok(_) => Ok(()) case Err(s) => Err(s);
      assert engine.Valid() && engine.State() == end;
    }

    method Complete(source: seq<Req>) returns (r: Result<Outcome<Resp>, Status>)
      requires engine.Valid() && this !in engine.Repr && !engine.call.fullDuplex
      requires engine.PhaseOf().NotFired? && Sound(engine.State()) && !engine.PhaseOf().sendClosed
      modifies engine.Repr
      ensures engine.Valid() && fresh(engine.Repr - old(engine.Repr))
      ensures r.Ok? || UnaryResult(engine.call, old(engine.State()), source, engine.State(), Err(r.error))
      ensures r.Err? || UnaryResult(engine.call, old(engine.State()), source, engine.State(), r)
    {
      var fired := Fire(source);
      if fired.Err? {
        return Err(fired.error);
      }
      var o := ReadUnary();
      return Ok(o);
    }

    /** `engine.send(message).await?` for each message of the source. */
    method SendAll(ms: seq<Req>) returns (r: Result<(), Status>)
      requires engine.Valid() && this !in engine.Repr
      requires engine.PhaseOf().NotFired? && !engine.PhaseOf().sendClosed
      modifies engine.Repr
      ensures engine.Valid() && fresh(engine.Repr - old(engine.Repr))
      ensures r.Ok? ==> Encodable(engine.call.outb, ms)
      ensures r.Ok? ==> engine.State() == Extended(engine.call, old(engine.State()), ms)
      ensures r.Ok? || SendingFailed(engine.call, old(engine.State()), ms, engine.State(), r.error)
    {
      ghost var start := engine.State();
      var i := 0;
      assert ms[..0] == [];
      assert start.phase.body + WireOf(engine.call.outb, ms[..0]) == start.phase.body;
      while i < |ms|
        invariant 0 <= i <= |ms|
        invariant engine.Valid() && this !in engine.Repr && fresh(engine.Repr - old(engine.Repr))
        invariant Encodable(engine.call.outb, ms[..i])
        invariant engine.State() == Extended(engine.call, start, ms[..i])
      {
        var out := SendOne(start, ms[..i], ms[i]);
        if out.Error? {
          assert SendFailedAt(engine.call, start, ms, engine.State(), out.status, i);
          return Err(out.status);
        }
        assert ms[..i + 1] == ms[..i] + [ms[i]];
        i := i + 1;
      }
      assert ms[..|ms|] == ms;
      return Ok(());
    }

    method SendOne(ghost start: Client<Resp>, ghost sent: seq<Req>, m: Req) returns (out: Out<Resp>)
      requires engine.Valid() && this !in engine.Repr
      requires start.phase.NotFired? && !start.phase.sendClosed && Encodable(engine.call.outb, sent)
      requires engine.State() == Extended(engine.call, start, sent)
      modifies engine.Repr
      ensures engine.Valid() && fresh(engine.Repr - old(engine.Repr))
      ensures || !out.Error?
              || (EncodeFrame(engine.call.outb, m) == Err(out.status) && engine.State() == old(engine.State()))
      ensures out.Error? || Encodable(engine.call.outb, sent + [m])
      ensures out.Error? || engine.State() == Extended(engine.call, start, sent + [m])
    {
      out := engine.Send(m);
      SendExtends(engine.call, start, sent, m, old(engine.State()), out, engine.State());
    }

    /** `read_unary`: the message, then a second `recv` for the verdict and the cardinality. */
    method ReadUnary() returns (o: Outcome<Resp>)
      requires engine.Valid() && this !in engine.Repr && engine.PhaseOf().Live?
      modifies engine.Repr
      ensures engine.Valid() && fresh(engine.Repr - old(engine.Repr))
      ensures engine.net.fired == old(engine.net.fired)
      ensures UnaryOutcome(
                engine.call, old(engine.PhaseOf().headStatus), old(engine.PhaseOf().todo), o, engine.State())
    {
      ghost var start := engine.State();
      var first := ReceiveMore();
      ghost var mid := engine.State();
      var second := EndOfStream;
      if first.Received? {
        second := ReceiveMore();
      }
      o := ReadOutcome(first, second);
      TwoReads(engine.call, start, mid, engine.State(), first, second);
    }

    method ReceiveMore() returns (out: Out<Resp>)
      requires engine.Valid() && this !in engine.Repr
      modifies engine.Repr
      ensures engine.Valid() && fresh(engine.Repr - old(engine.Repr))
      ensures Receives(engine.call, old(engine.State()), engine.State(), out)
    {
      out := engine.Recv();
    }

    /** Send the requests and fire. */
    method Fire(source: seq<Req>) returns (r: Result<(), Status>)
      requires engine.Valid() && this !in engine.Repr && !engine.call.fullDuplex
      requires engine.PhaseOf().NotFired? && Sound(engine.State()) && !engine.PhaseOf().sendClosed
      modifies engine.Repr
      ensures engine.Valid() && fresh(engine.Repr - old(engine.Repr))
      ensures r.Ok? ==>
                && engine.PhaseOf().Live? && Opened(engine.call) == Ok(engine.PhaseOf())
                && Encodable(engine.call.outb, source) && |engine.net.fired| == 1
                && engine.net.fired[0].body == old(engine.PhaseOf().body) + WireOf(engine.call.outb, source)
      ensures r.Ok? || FiringFailed(engine.call, old(engine.State()), source, engine.State(), r.error)
    {
      var sent := SendAll(source);
      if sent.Err? {
        return sent;
      }
      ghost var gathered := engine.State();
      var closed := engine.CloseSend();
      FiresHalfDuplex(engine.call, gathered, engine.State(), closed);
      return if closed.Error? then Err(closed.status) else Ok(());
    }
  }

  function Source<Req>(requests: Option<seq<Req>>): seq<Req> {
    match requests case None => [] case Some(ms) => ms
  }

  /** Sending stopped at the `i`-th message, which cannot be framed; those before it are buffered. */
  ghost predicate SendFailedAt<Req, Resp>(
      call: Call<Req, Resp>, c: Client<Resp>, ms: seq<Req>, d: Client<Resp>, s: Status, i: nat)
    requires c.phase.NotFired?
  {
    && i < |ms| && EncodeFrame(call.outb, ms[i]) == Err(s)
    && Encodable(call.outb, ms[..i]) && d == Extended(call, c, ms[..i])
  }

  ghost predicate SendingFailed<Req, Resp>(
      call: Call<Req, Resp>, c: Client<Resp>, ms: seq<Req>, d: Client<Resp>, s: Status)
    requires c.phase.NotFired?
  {
    exists i: nat :: SendFailedAt(call, c, ms, d, s, i)
  }

  /** A unary call did not get as far as a head: a message of its source cannot be framed, or it
      gathered them all and opening failed. */
  ghost predicate FiringFailed<Req, Resp>(
      call: Call<Req, Resp>, c: Client<Resp>, ms: seq<Req>, d: Client<Resp>, s: Status)
    requires c.phase.NotFired?
  {
    || SendingFailed(call, c, ms, d, s)
    || (Encodable(call.outb, ms) && Opening(call, Closing(Extended(call, c, ms)), d, Error(s)))
  }

  /** What awaiting a unary call comes to. An error comes from a message that cannot be framed or from
      firing the call. Otherwise the one request made carries everything buffered and every message
      of the source, and the outcome is that of the answers of the response. */
  ghost predicate UnaryResult<Req, Resp>(
      call: Call<Req, Resp>, c: Client<Resp>, ms: seq<Req>, d: Client<Resp>, r: Result<Outcome<Resp>, Status>)
    requires c.phase.NotFired?
  {
    match r
    case Err(s) => FiringFailed(call, c, ms, d, s)
    case Ok(o) =>
      && Opened(call).Ok? && Opened(call).value.Live?
      && UnaryOutcome(call, Opened(call).value.headStatus, Opened(call).value.todo, o, d)
      && Encodable(call.outb, ms) && |d.fired| == 1 && d.fired[0].body == c.phase.body + WireOf(call.outb, ms)
  }

  function Closing<T>(c: Client<T>): Client<T>
    requires c.phase.NotFired?
  {
    c.(phase := c.phase.(sendClosed := true))
  }

  /** In other words: the error is that of the first message that cannot be framed, the recorded
      construction error, the transport's or the head's error, or that of an interruption. In the
      first case nothing is fired and the call still gathers; in the others it is remembered. */
  lemma FiringFailures<Req, Resp>(call: Call<Req, Resp>, c: Client<Resp>, ms: seq<Req>, d: Client<Resp>, s: Status)
    requires c.phase.NotFired? && Sound(c) && FiringFailed(call, c, ms, d, s)
    ensures if Encodable(call.outb, ms) then
              && d.phase == Phase.Failed(s)
              && match c.initError
                 case Some(e) => s == e && d.fired == []
                 case None => Opened(call) == Err(s) || Stops(d, s)
            else
              && d.phase.NotFired? && d.fired == []
              && exists i: nat :: i < |ms| && EncodeFrame(call.outb, ms[i]) == Err(s) && Encodable(call.outb, ms[..i])
  {
    if SendingFailed(call, c, ms, d, s) {
      var i: nat :| SendFailedAt(call, c, ms, d, s, i);
      assert !Encodable(call.outb, ms);
    }
  }

  /** A call that has not fired, after a list of messages was sent. */
  ghost function Extended<Req, Resp>(call: Call<Req, Resp>, c: Client<Resp>, ms: seq<Req>): Client<Resp>
    requires c.phase.NotFired? && Encodable(call.outb, ms)
  {
    c.(phase := c.phase.(body := c.phase.body + WireOf(call.outb, ms)))
  }

  lemma SendExtends<Req, Resp(!new)>(
      call: Call<Req, Resp>, start: Client<Resp>, ms: seq<Req>, m: Req, c: Client<Resp>, out: Out<Resp>,
      d: Client<Resp>)
    requires start.phase.NotFired? && !start.phase.sendClosed && Encodable(call.outb, ms)
    requires c == Extended(call, start, ms) && Sends(call, c, d, m, out)
    ensures out.Error? || (Encodable(call.outb, ms + [m]) && d == Extended(call, start, ms + [m]))
    ensures out.Error? ==> EncodeFrame(call.outb, m) == Err(out.status) && d == c
  {
    if EncodeFrame(call.outb, m).Ok? {
      forall i | 0 <= i < |ms + [m]| ensures EncodeFrame(call.outb, (ms + [m])[i]).Ok? {
      }
      WireSnoc(call.outb, ms, m);
      var frame := EncodeFrame(call.outb, m).value;
      assert start.phase.body + WireOf(call.outb, ms) + frame == start.phase.body + (WireOf(call.outb, ms) + frame);
    }
  }

  /** What `close_send` does to a half-duplex call that has not fired. */
  lemma FiresHalfDuplex<Req, Resp(!new)>(call: Call<Req, Resp>, c: Client<Resp>, d: Client<Resp>, out: Out<Resp>)
    requires c.phase.NotFired? && Sound(c) && !call.fullDuplex && ClosesSend(call, c, d, out)
    ensures out.Error? || (Opened(call) == Ok(d.phase) && d.phase.Live?)
    ensures !out.Error? ==> |d.fired| == 1 && d.fired[0].body == c.phase.body
  {
  }

  lemma ReceivedTakes<Req, Resp>(call: Call<Req, Resp>, c: Client<Resp>, d: Client<Resp>, out: Out<Resp>)
    requires c.phase.Live? && Reads(call, c, d, out) && out.Received?
    ensures d.phase.Live? && d.phase.headStatus == c.phase.headStatus == None
    ensures c.phase.todo == [Ok(out.m)] + d.phase.todo
  {
    assert c.phase.todo == [c.phase.todo[0]] + c.phase.todo[1..];
  }

  /** What two reads of a live call amount to. */
  lemma TwoReads<Req, Resp(!new)>(
      call: Call<Req, Resp>, start: Client<Resp>, mid: Client<Resp>, end: Client<Resp>,
      first: Out<Resp>, second: Out<Resp>)
    requires start.phase.Live? && Reads(call, start, mid, first)
    requires if first.Received? then Receives(call, mid, end, second) else second == EndOfStream && end == mid
    ensures end.fired == start.fired
    ensures UnaryOutcome(call, start.phase.headStatus, start.phase.todo, ReadOutcome(first, second), end)
  {
    if first.Received? {
      ReceivedTakes(call, start, mid, first);
      SecondRead(call, mid, end, first.m, second);
    } else {
      FirstRead(call, start, mid, first);
    }
  }

  lemma FirstRead<Req, Resp(!new)>(call: Call<Req, Resp>, c: Client<Resp>, d: Client<Resp>, out: Out<Resp>)
    requires c.phase.Live? && Reads(call, c, d, out) && !out.Received?
    ensures UnaryOutcome(call, c.phase.headStatus, c.phase.todo, ReadOutcome(out, EndOfStream), d)
  {
    ReadsAnswer(call, c, d, out);
  }

  lemma SecondRead<Req, Resp(!new)>(call: Call<Req, Resp>, c: Client<Resp>, d: Client<Resp>, m: Resp, out: Out<Resp>)
    requires c.phase.Live? && c.phase.headStatus == None && Reads(call, c, d, out)
    ensures UnaryOutcome(call, None, [Ok(m)] + c.phase.todo, ReadOutcome(Received(m), out), d)
  {
    ReadsAnswer(call, c, d, out);
    assert ([Ok(m)] + c.phase.todo)[1..] == c.phase.todo;
    assert Answers(call, None, [Ok(m)] + c.phase.todo) == [Received(m)] + Answers(call, None, c.phase.todo);
  }

  /** The outcome of an awaited unary call: that of the first two answers of the response, all of
      which were read unless there is a second message; or an interruption before them, or between
      the message and the verdict. */
  ghost predicate UnaryOutcome<Req, Resp>(
      call: Call<Req, Resp>, headStatus: Option<Verdict>, todo: seq<Result<Resp, Status>>, o: Outcome<Resp>,
      c: Client<Resp>)
  {
    var first, second := Nth(Answers(call, headStatus, todo), 0), Nth(Answers(call, headStatus, todo), 1);
    || (o == ReadOutcome(first, second) && (c.phase.Over? || (first.Received? && second.Received?)))
    || (&& o.verdict.Err? && Stops(c, o.verdict.error)
        && (o.message.None? || first == Received(o.message.value)))
  }

  /** So a message is returned only for a response of exactly that message, and it is returned for
      such a response unless the call was interrupted. */
  lemma OutcomeExact<Req, Resp(!new)>(
      call: Call<Req, Resp>, headStatus: Option<Verdict>, todo: seq<Result<Resp, Status>>, o: Outcome<Resp>,
      c: Client<Resp>, m: Resp)
    requires UnaryOutcome(call, headStatus, todo, o, c)
    ensures IntoMessage(Some(o)) == Ok(m) ==> ExactlyOne(call, headStatus, todo, m)
    ensures ExactlyOne(call, headStatus, todo, m) ==>
              IntoMessage(Some(o)) == Ok(m) || (o.verdict.Err? && Stops(c, o.verdict.error))
  {
    UnaryExact(call, headStatus, todo, m);
  }

  function Zip<Req, T>(ops: seq<Op<Req>>, outs: seq<Out<T>>): seq<Event<Req, T>>
    requires |ops| == |outs|
  {
    seq(|ops|, i requires 0 <= i < |ops| => Event(ops[i], outs[i]))
  }

  /** Perform one operation on a connection. */
  method PerformOp<Req, Resp(!new)>(conn: GrpcClientConn<Req, Resp>, op: Op<Req>) returns (out: Out<Resp>)
    requires conn.Valid()
    modifies conn.Repr
    ensures conn.Valid() && fresh(conn.Repr - old(conn.Repr))
    ensures Performs(conn.call, old(conn.State()), op, out, conn.State())
  {
    out := Unit;
    match op {
      case Cancel => conn.Cancel();
      case Wait => conn.Wait();
      case OpenHead => out := PerformCall(conn, op);
      case Send(_) => out := PerformCall(conn, op);
      case CloseSend => out := PerformCall(conn, op);
      case Recv => out := PerformCall(conn, op);
      case _ => PerformSetup(conn, op);
    }
  }

  /** The operations that prepare the request. */
  method PerformSetup<Req, Resp(!new)>(conn: GrpcClientConn<Req, Resp>, op: Op<Req>)
    requires conn.Valid() && (op.AddAscii? || op.AddBinary? || op.SetDeadline? || op.Buffer?)
    modifies conn.Repr
    ensures conn.Valid() && fresh(conn.Repr - old(conn.Repr))
    ensures Performs(conn.call, old(conn.State()), op, Unit, conn.State())
  {
    match op {
      case AddAscii(key, text) => conn.AddAscii(key, text);
      case AddBinary(key, bytes) => conn.AddBinary(key, bytes);
      case SetDeadline(timeout) => conn.SetDeadline(timeout);
      case Buffer(m) => conn.Buffer(m);
    }
  }

  /** The operations that may touch the network. */
  method PerformCall<Req, Resp(!new)>(conn: GrpcClientConn<Req, Resp>, op: Op<Req>) returns (out: Out<Resp>)
    requires conn.Valid() && (op.OpenHead? || op.Send? || op.CloseSend? || op.Recv?)
    modifies conn.Repr
    ensures conn.Valid() && fresh(conn.Repr - old(conn.Repr))
    ensures Performs(conn.call, old(conn.State()), op, out, conn.State())
  {
    match op {
      case OpenHead => out := conn.OpenHead();
      case Send(m) => out := conn.Send(m);
      case CloseSend => out := conn.CloseSend();
      case Recv => out := conn.Recv();
    }
  }

  /** Any sequence of operations on a freshly opened connection is a run in the sense of the
      specification, so everything proved about runs holds of the connection. */
  method DriveCall<Req, Resp(!new)>(conn: GrpcClientConn<Req, Resp>, ops: seq<Op<Req>>)
    returns (outs: seq<Out<Resp>>, ghost states: seq<Client<Resp>>)
    requires conn.Valid() && Fresh(conn.State())
    modifies conn.Repr
    ensures conn.Valid() && |outs| == |ops|
    ensures Run(conn.call, states, Zip(ops, outs))
    ensures states[0] == old(conn.State()) && states[|ops|] == conn.State()
  {
    outs, states := [], [conn.State()];
    ghost var events: seq<Event<Req, Resp>> := [];
    var i := 0;
    while i < |ops|
      invariant 0 <= i <= |ops| && |outs| == |events| == i
      invariant conn.Valid() && fresh(conn.Repr - old(conn.Repr))
      invariant Run(conn.call, states, events) && states[0] == old(conn.State()) && states[i] == conn.State()
      invariant forall k :: 0 <= k < i ==> events[k] == Event(ops[k], outs[k])
    {
      var out := PerformOp(conn, ops[i]);
      RunExtends(conn.call, states, events, Event(ops[i], out), conn.State());
      outs, states, events := outs + [out], states + [conn.State()], events + [Event(ops[i], out)];
      i := i + 1;
    }
    assert events == Zip(ops, outs);
  }

  lemma RunExtends<Req, Resp(!new)>(
      call: Call<Req, Resp>, states: seq<Client<Resp>>, events: seq<Event<Req, Resp>>, e: Event<Req, Resp>,
      d: Client<Resp>)
    requires Run(call, states, events) && Performs(call, states[|events|], e.op, e.out, d)
    ensures Run(call, states + [d], events + [e])
  {
    var states', events' := states + [d], events + [e];
    forall i | 0 <= i < |events'| ensures PerformsAt(call, states', events', i) {
      if i < |events| { assert PerformsAt(call, states, events, i); }
    }
  }
}
