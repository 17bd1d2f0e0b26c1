/** The stream view of a client call (`StreamingConn`, `BidiConn`), poll by poll: each item is one
    `recv`, which owns the engine while it is suspended and hands it back with its answer. */
module StreamingCalls {
  import opened Bytes
  import opened Statuses
  import opened ClientSpec
  import opened ClientRuns
  import opened ClientConn
  import opened Typed

  /** An item of the stream, as the answer of the `recv` it stands for. */
  function AnswerOf<T>(item: Option<Result<T, Status>>): Out<T> {
    match item
    case None => EndOfStream
    case Some(Ok(m)) => Received(m)
    case Some(Err(s)) => Error(s)
  }

  /** What the stream makes of an answer. */
  function ItemOf<T>(out: Out<T>): Option<Result<T, Status>> {
    match out
    case Received(m) => Some(Ok(m))
    case Error(s) => Some(Err(s))
    case _ => None
  }

  function AnswersOf<T>(items: seq<Option<Result<T, Status>>>): seq<Out<T>> {
    seq(|items|, i requires 0 <= i < |items| => AnswerOf(items[i]))
  }

  /** A `recv` always answers with a message, an error or the end. */
  lemma RecvAnswers<Req, Resp(!new)>(call: Call<Req, Resp>, c: Client<Resp>, d: Client<Resp>, out: Out<Resp>)
    requires Receives(call, c, d, out)
    ensures AnswerOf(ItemOf(out)) == out && Performs(call, c, Recv, AnswerOf(ItemOf(out)), d)
  {
    RecvNotUnit(call, c, d, out);
  }

  lemma RecvNotUnit<Req, Resp(!new)>(call: Call<Req, Resp>, c: Client<Resp>, d: Client<Resp>, out: Out<Resp>)
    requires Receives(call, c, d, out)
    ensures out != Unit
  {
  }

  // ---- a suspended recv, as states ----

  predicate Overdue<T>(c: Client<T>) {
    c.deadline.Some? && c.now > c.deadline.value
  }

  /** A `recv` that began in `start` and is asking for the head: its body is taken, and once the
      exchange was polled, its request is made. */
  ghost predicate Asking<Req, Resp>(
      call: Call<Req, Resp>, start: Client<Resp>, c: Client<Resp>, request: Request, asked: bool)
  {
    && start.phase.NotFired? && start.initError == None && request == RequestOf(call, start)
    && c == start.(phase := start.phase.(body := []), now := c.now, cancelled := c.cancelled, fired := c.fired)
    && Onward(start, c)
    && if asked then !Barred(start) && c.fired == start.fired + [request]
       else c.fired == start.fired && c.now == start.now && c.cancelled == start.cancelled
  }

  /** Whatever read ends it, a `recv` that began in `start` and came as far as `mid` is one `recv`. */
  ghost predicate Continues<Req, Resp(!new)>(call: Call<Req, Resp>, start: Client<Resp>, mid: Client<Resp>) {
    mid.phase.Live?
    && forall d, out {:trigger Reads(call, mid, d, out)} ::
         Reads(call, mid, d, out) ==> Receives(call, start, d, out)
  }

  lemma LiveContinues<Req, Resp(!new)>(call: Call<Req, Resp>, c: Client<Resp>)
    requires c.phase.Live?
    ensures Continues(call, c, c) && Since(call, c, c)
  {
  }

  lemma OpenedContinues<Req, Resp(!new)>(call: Call<Req, Resp>, start: Client<Resp>, mid: Client<Resp>)
    requires start.phase.NotFired? && mid.phase.Live? && Opening(call, start, mid, Unit)
    ensures Continues(call, start, mid) && Since(call, start, mid)
  {
    forall d, out | Reads(call, mid, d, out) ensures Receives(call, start, d, out) {
      OpenedThenRead(call, start, mid, d, out);
    }
  }

  lemma OpenedThenRead<Req, Resp(!new)>(
      call: Call<Req, Resp>, start: Client<Resp>, mid: Client<Resp>, d: Client<Resp>, out: Out<Resp>)
    requires start.phase.NotFired? && mid.phase.Live? && Opening(call, start, mid, Unit) && Reads(call, mid, d, out)
    ensures Receives(call, start, d, out)
  {
  }

  /** What a `recv` that began in `start` may have changed while it is suspended: the clock and the
      flag have moved on; a gathering call has made its one request, and is live only by its own
      head; a live call still has every item to come; nothing else has changed. */
  ghost predicate Since<Req, Resp>(call: Call<Req, Resp>, start: Client<Resp>, c: Client<Resp>) {
    && Onward(start, c) && c.live == start.live && c.closed == start.closed
    && if start.phase.NotFired? then
         && start.initError == c.initError == None && c.fired == start.fired + [RequestOf(call, start)]
         && !Barred(start) && (c.phase.NotFired? || (c.phase.Live? && Opened(call) == Ok(c.phase)))
       else
         start.phase.Live? && c == start.(now := c.now, cancelled := c.cancelled)
  }

  /** A `recv` that began in `start` and has been reading since `mid`. */
  ghost predicate Awaiting<Req, Resp(!new)>(
      call: Call<Req, Resp>, start: Client<Resp>, mid: Client<Resp>, c: Client<Resp>, polled: bool)
  {
    && Continues(call, start, mid) && Since(call, start, mid)
    && Onward(mid, c) && c == mid.(now := c.now, cancelled := c.cancelled)
    && if polled then !Barred(mid) else c == mid
  }

  /** A `recv` is suspended only where nothing barred it when it began. */
  ghost predicate Suspended<Req, Resp>(call: Call<Req, Resp>, start: Client<Resp>, c: Client<Resp>) {
    Since(call, start, c) && !Barred(start)
  }

  lemma AskingSuspends<Req, Resp>(call: Call<Req, Resp>, start: Client<Resp>, c: Client<Resp>, request: Request)
    requires Asking(call, start, c, request, true)
    ensures Suspended(call, start, c)
  {
  }

  lemma AwaitingSuspends<Req, Resp(!new)>(
      call: Call<Req, Resp>, start: Client<Resp>, mid: Client<Resp>, c: Client<Resp>)
    requires Awaiting(call, start, mid, c, true)
    ensures Suspended(call, start, c)
  {
  }

  /** Interrupted while asking for the head: the whole is one `recv` that failed to open. */
  lemma AskingStops<Req, Resp(!new)>(
      call: Call<Req, Resp>, start: Client<Resp>, c: Client<Resp>, request: Request, asked: bool, s: Status)
    requires Asking(call, start, c, request, asked) && Stops(c, s)
    ensures Receives(call, start, c.(phase := Phase.Failed(s)), Error(s))
  {
    var d := c.(phase := Phase.Failed(s));
    assert Stops(d, s) && Stopped(d, Error(s));
    assert Opening(call, start, d, Error(s));
  }

  /** The head arrived: the whole is one `recv` that failed to open, or it goes on from here. */
  lemma AskingAnswered<Req, Resp(!new)>(
      call: Call<Req, Resp>, start: Client<Resp>, c: Client<Resp>, request: Request, d: Client<Resp>, out: Out<Resp>)
    requires Asking(call, start, c, request, true)
    requires d == c.(phase := d.phase) && Answered(call, d, out)
    ensures if out.Error? then Receives(call, start, d, out)
            else d.phase.Live? && Continues(call, start, d) && Since(call, start, d)
  {
    assert Opening(call, start, d, out);
    if !out.Error? {
      OpenedContinues(call, start, d);
    }
  }

  lemma AwaitingDelivers<Req, Resp(!new)>(
      call: Call<Req, Resp>, start: Client<Resp>, mid: Client<Resp>, c: Client<Resp>, d: Client<Resp>, out: Out<Resp>)
    requires Awaiting(call, start, mid, c, true)
    requires d == c.(phase := d.phase) && Delivers(call, c.phase, d.phase, out)
    ensures Receives(call, start, d, out)
  {
    assert Reads(call, mid, d, out);
  }

  lemma AwaitingStops<Req, Resp(!new)>(
      call: Call<Req, Resp>, start: Client<Resp>, mid: Client<Resp>, c: Client<Resp>, polled: bool, s: Status)
    requires Awaiting(call, start, mid, c, polled) && Stops(c, s)
    ensures Receives(call, start, c, Error(s))
  {
    assert Reads(call, mid, c, Error(s));
  }

  // ---- the polls of a recv ----

  /** Where a `recv` is suspended. */
  datatype Stage = Unstarted | Exchanging(request: Request) | AwaitingItem | Complete

  /** What a poll of one of its races comes to. */
  datatype Turn<T> = Answer(out: Out<T>) | Waits | GoesOn

  predicate IsLive<Req, Resp(!new)>(engine: GrpcClientConn<Req, Resp>)
    reads engine
  {
    engine.inner.HalfDuplex? || engine.inner.FullDuplex?
  }

  /** Up to the race around the exchange: a recorded error or a passed deadline answers at once. */
  method BeginOpening<Req, Resp(!new)>(engine: GrpcClientConn<Req, Resp>)
    returns (turn: Turn<Resp>, request: Option<Request>)
    requires engine.Valid() && engine.inner.Gathering?
    modifies engine
    ensures engine.Valid() && engine.Repr == old(engine.Repr) && engine.Budget() <= old(engine.Budget())
    ensures turn.Answer? || (turn.GoesOn? && request.Some? && engine.inner.Gathering? && !Overdue(old(engine.State()))
                             && Asking(engine.call, old(engine.State()), engine.State(), request.value, false))
    ensures !turn.Answer? || Receives(engine.call, old(engine.State()), engine.State(), turn.out)
  {
    ghost var start := engine.State();
    var taken := engine.TakeRequest();
    if taken.Err? {
      assert Opening(engine.call, start, engine.State(), Error(taken.error));
      return Answer(Error(taken.error)), None;
    }
    turn := StartExchange(engine, taken.value, start);
    request := Some(taken.value);
  }

  /** The first race, unless it is too late for it. */
  method StartExchange<Req, Resp(!new)>(
      engine: GrpcClientConn<Req, Resp>, request: Request, ghost start: Client<Resp>)
    returns (turn: Turn<Resp>)
    requires engine.Valid() && engine.inner.Gathering?
    requires Asking(engine.call, start, engine.State(), request, false)
    modifies engine
    ensures engine.Valid() && engine.Repr == old(engine.Repr) && engine.Budget() <= old(engine.Budget())
    ensures !turn.Waits?
    ensures turn.Answer? || (engine.State() == old(engine.State()) && engine.inner.Gathering? && !Overdue(start))
    ensures !turn.Answer? || Receives(engine.call, start, engine.State(), turn.out)
  {
    var late := engine.Late();
    if late {
      turn := Abandon(engine, request, false, start, DeadlineStatus());
      return;
    }
    return GoesOn;
  }

  /** The race around the exchange is lost. */
  method Abandon<Req, Resp(!new)>(
      engine: GrpcClientConn<Req, Resp>, request: Request, asked: bool, ghost start: Client<Resp>, s: Status)
    returns (turn: Turn<Resp>)
    requires engine.Valid() && engine.inner.Gathering?
    requires Asking(engine.call, start, engine.State(), request, asked) && Stops(engine.State(), s)
    modifies engine
    ensures engine.Valid() && engine.Repr == old(engine.Repr) && engine.Budget() == 0 && turn == Answer(Error(s))
    ensures engine.net.fired == old(engine.net.fired)
    ensures !turn.Answer? || Receives(engine.call, start, engine.State(), turn.out)
  {
    AskingStops(engine.call, start, engine.State(), request, asked, s);
    var out := engine.Fails(s);
    return Answer(out);
  }

  /** One poll of the race around the exchange. */
  method PollHead<Req, Resp(!new)>(
      engine: GrpcClientConn<Req, Resp>, request: Request, asked: bool, ghost start: Client<Resp>)
    returns (turn: Turn<Resp>)
    requires engine.Valid() && engine.inner.Gathering? && !Overdue(start)
    requires Asking(engine.call, start, engine.State(), request, asked)
    modifies engine.Repr
    ensures engine.Valid() && fresh(engine.Repr - old(engine.Repr))
    ensures asked ==> engine.net.fired == old(engine.net.fired)
    ensures old(engine.world.cancelled) ==> turn == Answer(Error(CancelledStatus()))
    ensures engine.Budget() <= old(engine.Budget()) && (turn.Waits? ==> engine.Budget() < old(engine.Budget()))
    ensures turn.Waits? ==> engine.inner.Gathering?
    ensures !turn.Waits? || Asking(engine.call, start, engine.State(), request, true)
    ensures turn.GoesOn? ==> IsLive(engine)
    ensures || !turn.GoesOn?
            || (Continues(engine.call, start, engine.State()) && Since(engine.call, start, engine.State()))
    ensures !turn.Answer? || Receives(engine.call, start, engine.State(), turn.out)
  {
    var stop := engine.PollStops();
    if stop.Some? {
      turn := Abandon(engine, request, asked, start, stop.value);
      return;
    }
    var reply := engine.net.PollExchange(request, !asked);
    if reply.Pending? {
      return Waits;
    }
    turn := TakeReply(engine, request, start, reply.value);
  }

  /** The exchange is over. */
  method TakeReply<Req, Resp(!new)>(
      engine: GrpcClientConn<Req, Resp>, request: Request, ghost start: Client<Resp>, reply: Reply)
    returns (turn: Turn<Resp>)
    requires engine.Valid() && engine.inner.Gathering? && reply == engine.call.reply
    requires Asking(engine.call, start, engine.State(), request, true)
    modifies engine
    ensures engine.Valid() && fresh(engine.Repr - old(engine.Repr)) && !turn.Waits?
    ensures engine.Budget() <= engine.net.bodyPatience
    ensures engine.net.fired == old(engine.net.fired)
    ensures turn.GoesOn? ==> IsLive(engine)
    ensures || !turn.GoesOn?
            || (Continues(engine.call, start, engine.State()) && Since(engine.call, start, engine.State()))
    ensures !turn.Answer? || Receives(engine.call, start, engine.State(), turn.out)
  {
    ghost var c := engine.State();
    var out := engine.OnReply(reply);
    AskingAnswered(engine.call, start, c, request, engine.State(), out);
    return if out.Error? then Answer(out) else GoesOn;
  }

  /** One poll of the race around the reader. */
  method PollItem<Req, Resp(!new)>(
      engine: GrpcClientConn<Req, Resp>, ghost start: Client<Resp>, ghost mid: Client<Resp>, ghost polled: bool)
    returns (turn: Turn<Resp>)
    requires engine.Valid() && IsLive(engine) && !Overdue(mid)
    requires Awaiting(engine.call, start, mid, engine.State(), polled)
    modifies engine.Repr
    ensures engine.Valid() && fresh(engine.Repr - old(engine.Repr)) && !turn.GoesOn?
    ensures engine.net.fired == old(engine.net.fired)
    ensures old(engine.world.cancelled) ==> turn == Answer(Error(CancelledStatus()))
    ensures engine.Budget() <= old(engine.Budget()) && (turn.Waits? ==> engine.Budget() < old(engine.Budget()))
    ensures turn.Waits? ==> IsLive(engine)
    ensures !turn.Waits? || Awaiting(engine.call, start, mid, engine.State(), true)
    ensures !turn.Answer? || Receives(engine.call, start, engine.State(), turn.out)
  {
    var stop := engine.PollStops();
    if stop.Some? {
      AwaitingStops(engine.call, start, mid, engine.State(), polled, stop.value);
      return Answer(Error(stop.value));
    }
    turn := PollLive(engine, start, mid);
  }

  /** Neither cancelled nor timed out: poll the reader. */
  method PollLive<Req, Resp(!new)>(
      engine: GrpcClientConn<Req, Resp>, ghost start: Client<Resp>, ghost mid: Client<Resp>)
    returns (turn: Turn<Resp>)
    requires engine.Valid() && IsLive(engine) && Awaiting(engine.call, start, mid, engine.State(), true)
    modifies engine.Repr
    ensures engine.Valid() && fresh(engine.Repr - old(engine.Repr)) && !turn.GoesOn?
    ensures engine.net.fired == old(engine.net.fired)
    ensures engine.Budget() <= old(engine.Budget()) && (turn.Waits? ==> engine.Budget() < old(engine.Budget()))
    ensures turn.Waits? ==> IsLive(engine)
    ensures !turn.Waits? || engine.State() == old(engine.State())
    ensures !turn.Answer? || Receives(engine.call, start, engine.State(), turn.out)
  {
    var conn := engine.inner.conn;
    ghost var c, todo := engine.State(), conn.reader.Todo();
    var p := engine.PollReader(conn);
    if p.Pending? {
      return Waits;
    }
    turn := TakeItem(engine, conn, p.value, start, mid, c, todo);
  }

  /** The race around the reader is won. */
  method TakeItem<Req, Resp(!new)>(
      engine: GrpcClientConn<Req, Resp>, conn: LiveConn<Resp>, item: Option<Result<Resp, Status>>,
      ghost start: Client<Resp>, ghost mid: Client<Resp>, ghost c: Client<Resp>, ghost todo: seq<Result<Resp, Status>>)
    returns (turn: Turn<Resp>)
    requires engine.Core() && (engine.inner == HalfDuplex(conn) || engine.inner == FullDuplex(conn))
    requires todo == if item.Some? then [item.value] + conn.reader.Todo() else []
    requires item.Some? && item.value.Ok? ==> engine.Valid()
    requires Awaiting(engine.call, start, mid, c, true)
    requires c.phase == Live(engine.inner.FullDuplex?, conn.responseHeaders, conn.headStatus, todo)
    requires c == engine.State().(phase := c.phase)
    modifies engine
    ensures engine.Valid() && engine.Repr == old(engine.Repr) && turn.Answer?
    ensures engine.Budget() <= old(conn.reader.source.patience)
    ensures !turn.Answer? || Receives(engine.call, start, engine.State(), turn.out)
  {
    var out := engine.Deliver(conn, item, todo);
    AwaitingDelivers(engine.call, start, mid, c, engine.State(), out);
    return Answer(out);
  }

  /** A suspended `recv`: where it stands, the state in which it began, the one in which its reading
      began, and the current one. */
  ghost predicate Halted<Req, Resp(!new)>(
      call: Call<Req, Resp>, stage: Stage, start: Client<Resp>, mid: Client<Resp>, c: Client<Resp>)
  {
    match stage
    case Exchanging(request) => Asking(call, start, c, request, true)
    case AwaitingItem => Awaiting(call, start, mid, c, true)
    case _ => false
  }

  lemma HaltedSuspends<Req, Resp(!new)>(
      call: Call<Req, Resp>, stage: Stage, start: Client<Resp>, mid: Client<Resp>, c: Client<Resp>)
    requires Halted(call, stage, start, mid, c)
    ensures Suspended(call, start, c)
  {
    match stage {
      case Exchanging(request) => AskingSuspends(call, start, c, request);
      case AwaitingItem => AwaitingSuspends(call, start, mid, c);
    }
  }

  /** While it is suspended the world may move on. */
  lemma HaltedWaits<Req, Resp(!new)>(
      call: Call<Req, Resp>, stage: Stage, start: Client<Resp>, mid: Client<Resp>, c: Client<Resp>, d: Client<Resp>)
    requires Halted(call, stage, start, mid, c)
    requires Onward(c, d) && d == c.(now := d.now, cancelled := d.cancelled)
    ensures Halted(call, stage, start, mid, d)
  {
  }

  predicate InPlace<Req, Resp(!new)>(engine: GrpcClientConn<Req, Resp>, stage: Stage)
    reads engine
  {
    (stage.Exchanging? ==> engine.inner.Gathering?) && (stage.AwaitingItem? ==> IsLive(engine))
  }

  /** Reading begins: the second race, unless it is too late for it. */
  method StartReading<Req, Resp(!new)>(engine: GrpcClientConn<Req, Resp>, ghost start: Client<Resp>)
    returns (turn: Turn<Resp>, next: Stage, ghost mid: Client<Resp>)
    requires engine.Valid() && IsLive(engine)
    requires Continues(engine.call, start, engine.State()) && Since(engine.call, start, engine.State())
    modifies engine.Repr
    ensures engine.Valid() && fresh(engine.Repr - old(engine.Repr)) && !turn.GoesOn?
    ensures engine.Budget() <= old(engine.Budget()) && (turn.Waits? ==> engine.Budget() < old(engine.Budget()))
    ensures engine.net.fired == old(engine.net.fired)
    ensures turn.Waits? ==> InPlace(engine, next) && next == AwaitingItem
    ensures !turn.Waits? || Halted(engine.call, next, start, mid, engine.State())
    ensures !turn.Answer? || (next == Complete && Receives(engine.call, start, engine.State(), turn.out))
  {
    mid := engine.State();
    var late := engine.Late();
    if late {
      AwaitingStops(engine.call, start, mid, engine.State(), false, DeadlineStatus());
      return Answer(Error(DeadlineStatus())), Complete, mid;
    }
    turn := PollItem(engine, start, mid, false);
    next := if turn.Waits? then AwaitingItem else Complete;
  }

  /** From the race around the exchange on. */
  method FromExchange<Req, Resp(!new)>(
      engine: GrpcClientConn<Req, Resp>, request: Request, asked: bool, ghost start: Client<Resp>)
    returns (turn: Turn<Resp>, next: Stage, ghost mid: Client<Resp>)
    requires engine.Valid() && engine.inner.Gathering? && !Overdue(start)
    requires Asking(engine.call, start, engine.State(), request, asked)
    modifies engine.Repr
    ensures engine.Valid() && fresh(engine.Repr - old(engine.Repr)) && !turn.GoesOn?
    ensures engine.Budget() <= old(engine.Budget()) && (turn.Waits? ==> engine.Budget() < old(engine.Budget()))
    ensures asked ==> engine.net.fired == old(engine.net.fired)
    ensures old(engine.world.cancelled) ==> turn == Answer(Error(CancelledStatus()))
    ensures turn.Waits? ==> InPlace(engine, next) && (next == Exchanging(request) || next == AwaitingItem)
    ensures !turn.Waits? || Halted(engine.call, next, start, mid, engine.State())
    ensures !turn.Answer? || (next == Complete && Receives(engine.call, start, engine.State(), turn.out))
  {
    mid := start;
    turn := PollHead(engine, request, asked, start);
    if turn.Waits? {
      return turn, Exchanging(request), mid;
    }
    if turn.GoesOn? {
      turn, next, mid := StartReading(engine, start);
      return;
    }
    next := Complete;
  }

  /** The first poll of a `recv`. */
  method FromStart<Req, Resp(!new)>(engine: GrpcClientConn<Req, Resp>)
    returns (turn: Turn<Resp>, next: Stage, ghost mid: Client<Resp>)
    requires engine.Valid()
    modifies engine.Repr
    ensures engine.Valid() && fresh(engine.Repr - old(engine.Repr)) && !turn.GoesOn?
    ensures engine.Budget() <= old(engine.Budget()) && (turn.Waits? ==> engine.Budget() < old(engine.Budget()))
    ensures turn.Waits? ==> InPlace(engine, next) && (next.Exchanging? || next.AwaitingItem?)
    ensures !turn.Waits? || Halted(engine.call, next, old(engine.State()), mid, engine.State())
    ensures !turn.Answer? || (next == Complete && Receives(engine.call, old(engine.State()), engine.State(), turn.out))
  {
    ghost var start := engine.State();
    mid, next := start, Complete;
    if engine.inner.Gathering? {
      var request;
      turn, request := BeginOpening(engine);
      if turn.GoesOn? {
        turn, next, mid := FromExchange(engine, request.value, false, start);
      }
    } else if IsLive(engine) {
      LiveContinues(engine.call, start);
      turn, next, mid := StartReading(engine, start);
    } else {
      var out := engine.Recv();
      turn := Answer(out);
    }
  }

  /** One poll, from wherever the `recv` stands. */
  method FromStage<Req, Resp(!new)>(
      engine: GrpcClientConn<Req, Resp>, stage: Stage, ghost start: Client<Resp>, ghost mid: Client<Resp>)
    returns (turn: Turn<Resp>, next: Stage, ghost reading: Client<Resp>)
    requires engine.Valid() && InPlace(engine, stage)
    requires (stage.Unstarted? && start == engine.State()) || Halted(engine.call, stage, start, mid, engine.State())
    modifies engine.Repr
    ensures engine.Valid() && fresh(engine.Repr - old(engine.Repr)) && !turn.GoesOn?
    ensures engine.Budget() <= old(engine.Budget()) && (turn.Waits? ==> engine.Budget() < old(engine.Budget()))
    ensures !stage.Unstarted? ==> engine.net.fired == old(engine.net.fired)
    ensures !stage.Unstarted? && old(engine.world.cancelled) ==> turn == Answer(Error(CancelledStatus()))
    ensures turn.Waits? ==> InPlace(engine, next) && (next.Exchanging? || next.AwaitingItem?)
    ensures !turn.Waits? || Halted(engine.call, next, start, reading, engine.State())
    ensures !turn.Answer? || (next == Complete && Receives(engine.call, start, engine.State(), turn.out))
  {
    match stage {
      case Unstarted => turn, next, reading := FromStart(engine);
      case Exchanging(request) => turn, next, reading := FromExchange(engine, request, true, start);
      case AwaitingItem =>
        turn := PollItem(engine, start, mid, true);
        next, reading := if turn.Waits? then AwaitingItem else Complete, mid;
    }
  }

  /** The future of one `recv`. */
  class RecvFuture<Req, Resp(!new)> {
    const engine: GrpcClientConn<Req, Resp>
    var stage: Stage
    /** The state in which it began, and the one in which its reading began. */
    ghost var start: Client<Resp>
    ghost var mid: Client<Resp>

    ghost predicate Valid()
      reads this, engine, engine.Repr
    {
      && engine.Valid() && this !in engine.Repr && InPlace(engine, stage)
      && (|| (stage.Unstarted? && start == engine.State())
          || Halted(engine.call, stage, start, mid, engine.State()))
    }

    constructor (engine: GrpcClientConn<Req, Resp>, ghost start: Client<Resp>)
      requires engine.Valid() && start == engine.State()
      ensures this.engine == engine && stage.Unstarted? && this.start == start
    {
      this.engine, stage := engine, Unstarted;
      this.start, mid := start, start;
    }

    /** One poll: as far as the `recv` gets. However often it was suspended and whatever happened
        meanwhile, the poll that answers completes one `recv` from the state in which it began. */
    method PollRecv() returns (r: Poll<Out<Resp>>)
      requires Valid()
      modifies this, engine.Repr
      ensures engine.Valid() && fresh(engine.Repr - old(engine.Repr)) && this !in engine.Repr && start == old(start)
      ensures !old(stage).Unstarted? ==> engine.net.fired == old(engine.net.fired)
      ensures !old(stage).Unstarted? && old(engine.world.cancelled) ==> r == Ready(Error(CancelledStatus()))
      ensures r.Pending? ==> Valid() && !stage.Unstarted?
      ensures engine.Budget() <= old(engine.Budget()) && (r.Pending? ==> engine.Budget() < old(engine.Budget()))
      ensures !r.Ready? || Receives(engine.call, start, engine.State(), r.value)
    {
      var turn, next;
      ghost var reading;
      turn, next, reading := FromStage(engine, stage, start, mid);
      ghost var now := engine.State();
      stage, mid := next, reading;
      assert engine.Valid() && engine.State() == now;
      r := if turn.Waits? then Pending else Ready(turn.out);
    }
  }

  // ---- the stream ----

  class StreamingConn<Req, Resp(!new)> {
    var engine: Option<GrpcClientConn<Req, Resp>>
    var inFlight: Option<RecvFuture<Req, Resp>>

    /** The engine is in one place: held between items, or owned by the suspended `recv`. */
    ghost predicate Valid()
      reads this, Parts()
    {
      && (engine.Some? <==> inFlight.None?) && this !in Engine().Repr
      && (if engine.Some? then engine.value.Valid() else inFlight.value.Valid() && !inFlight.value.stage.Unstarted?)
    }

    ghost function Engine(): GrpcClientConn<Req, Resp>
      requires engine.Some? || inFlight.Some?
      reads this
    {
      if engine.Some? then engine.value else inFlight.value.engine
    }

    ghost function Parts(): set<object>
      reads this, if engine.Some? then {engine.value} else if inFlight.Some? then {inFlight.value.engine} else {}
    {
      if engine.Some? then {this, engine.value} + engine.value.Repr
      else if inFlight.Some? then {this, inFlight.value, inFlight.value.engine} + inFlight.value.engine.Repr
      else {this}
    }

    /** The state that counts for the run of the call: the current one, or the one in which the
        suspended `recv` began. */
    ghost function RunState(): Client<Resp>
      requires Valid()
      reads this, Parts()
    {
      if engine.Some? then engine.value.State() else inFlight.value.start
    }

    /** How many polls may still have to wait. */
    ghost function Budget(): nat
      requires Valid()
      reads this, Parts()
    {
      Engine().Budget()
    }

    /** `server_streaming`: the single request is buffered; nothing fires yet. */
    constructor (engine: GrpcClientConn<Req, Resp>, request: Req)
      requires engine.Valid()
      modifies engine
      ensures Valid() && this.engine == Some(engine) && engine.Repr == old(engine.Repr)
      ensures Performs(engine.call, old(engine.State()), Op.Buffer(request), Unit, engine.State())
    {
      this.engine, inFlight := Some(engine), None;
      new;
      engine.Buffer(request);
    }

    /** `poll_next`. The engine is always there to be taken when a new `recv` begins. A waiting poll
        leaves a suspended `recv` behind, which for a gathering call has made the request. The
        answering poll completes exactly one `recv` from where that one began, and gives the engine
        back. */
    method PollNext() returns (r: Poll<Option<Result<Resp, Status>>>)
      requires Valid()
      modifies Parts()
      ensures Valid() && Engine() == old(Engine()) && fresh(Parts() - old(Parts()))
      ensures r.Pending? ==> inFlight.Some? && RunState() == old(RunState())
      ensures r.Ready? ==> engine.Some?
      // a suspended `recv` asks only once, and a cancelled one answers at its next poll
      ensures old(inFlight).Some? ==> Engine().net.fired == old(Engine().net.fired)
      ensures old(inFlight).Some? && old(Engine().world.cancelled) ==> r == Ready(Some(Err(CancelledStatus())))
      ensures Budget() <= old(Budget()) && (r.Pending? ==> Budget() < old(Budget()))
      ensures || (r.Pending? && Suspended(Engine().call, old(RunState()), Engine().State()))
              || (r.Ready? && Performs(Engine().call, old(RunState()), Recv, AnswerOf(r.value), Engine().State()))
    {
      var _ := TakeFuture();
      r := PollTaken();
    }

    /** Poll the `recv` that has the engine. */
    method PollTaken() returns (r: Poll<Option<Result<Resp, Status>>>)
      requires engine.None? && inFlight.Some? && inFlight.value.Valid() && this !in inFlight.value.engine.Repr
      modifies this, inFlight.value, inFlight.value.engine, inFlight.value.engine.Repr
      ensures Valid() && Engine() == old(inFlight.value.engine)
      ensures Parts() <= {this, old(inFlight.value), Engine()} + Engine().Repr
      ensures fresh(Engine().Repr - old(inFlight.value.engine.Repr))
      ensures r.Pending? ==> inFlight.Some? && RunState() == old(inFlight.value.start)
      ensures r.Ready? ==> engine.Some?
      ensures !old(inFlight.value.stage).Unstarted? ==> Engine().net.fired == old(inFlight.value.engine.net.fired)
      ensures !old(inFlight.value.stage).Unstarted? && old(inFlight.value.engine.world.cancelled) ==>
                r == Ready(Some(Err(CancelledStatus())))
      ensures Budget() <= old(inFlight.value.engine.Budget())
      ensures r.Pending? ==> Budget() < old(inFlight.value.engine.Budget())
      ensures || (r.Pending? && Suspended(Engine().call, old(inFlight.value.start), Engine().State()))
              || (r.Ready?
                  && Performs(Engine().call, old(inFlight.value.start), Recv, AnswerOf(r.value), Engine().State()))
    {
      var future := inFlight.value;
      var p := future.PollRecv();
      if p.Pending? {
        HaltedSuspends(future.engine.call, future.stage, future.start, future.mid, future.engine.State());
        return Pending;
      }
      RecvAnswers(future.engine.call, future.start, future.engine.State(), p.value);
      GiveBack();
      return Ready(ItemOf(p.value));
    }

    /** The suspended `recv`, or a new one, which takes the engine. */
    method TakeFuture() returns (future: RecvFuture<Req, Resp>)
      requires Valid()
      modifies this
      ensures inFlight == Some(future) && engine.None? && future.Valid()
      ensures future.engine == old(Engine()) && this !in future.engine.Repr && future.start == old(RunState())
      ensures fresh({future} - old(Parts()))
      ensures if old(inFlight).Some? then inFlight == old(inFlight) && !future.stage.Unstarted?
              else future.stage.Unstarted?
    {
      if inFlight.Some? {
        return inFlight.value;
      }
      future := new RecvFuture(engine.value, engine.value.State());
      engine, inFlight := None, Some(future);
    }

    /** The answered `recv` returns the engine. */
    method GiveBack()
      requires engine.None? && inFlight.Some?
      requires inFlight.value.engine.Valid() && this !in inFlight.value.engine.Repr
      modifies this
      ensures Valid() && engine == Some(old(inFlight.value.engine)) && Parts() <= old(Parts())
      ensures RunState() == old(inFlight.value.engine.State()) && Budget() == old(inFlight.value.engine.Budget())
    {
      engine, inFlight := Some(inFlight.value.engine), None;
    }

    /** Between two polls: time passes, and a cancel handle elsewhere may cancel the call, whether or
        not a `recv` is suspended. */
    method Meanwhile()
      requires Valid()
      modifies Engine().world
      ensures Valid() && Engine() == old(Engine()) && inFlight == old(inFlight) && Parts() == old(Parts())
      ensures Budget() == old(Budget())
      ensures inFlight.Some? ==> RunState() == old(RunState())
      ensures inFlight.Some? || Performs(Engine().call, old(RunState()), Wait, Unit, RunState())
    {
      var holder := if engine.Some? then engine.value else inFlight.value.engine;
      ghost var c := holder.State();
      holder.Wait();
      if inFlight.Some? {
        HaltedWaits(holder.call, inFlight.value.stage, inFlight.value.start, inFlight.value.mid, c, holder.State());
      }
    }

    /** Polling until an item comes: whatever happens between the polls, the item is the answer of
        exactly one `recv`. */
    method Next() returns (item: Option<Result<Resp, Status>>)
      requires Valid()
      modifies Parts()
      ensures Valid() && engine.Some? && Engine() == old(Engine()) && fresh(Parts() - old(Parts()))
      ensures Performs(Engine().call, old(RunState()), Recv, AnswerOf(item), Engine().State())
    {
      ghost var start := RunState();
      var r := PollNext();
      match r {
        case Pending => item := NextLater(start);
        case Ready(answer) => item := answer;
      }
    }

    /** The same once a `recv` is suspended. */
    method NextLater(ghost start: Client<Resp>) returns (item: Option<Result<Resp, Status>>)
      requires Valid() && inFlight.Some? && RunState() == start
      modifies Parts()
      ensures Valid() && engine.Some? && Engine() == old(Engine()) && fresh(Parts() - old(Parts()))
      ensures Performs(Engine().call, start, Recv, AnswerOf(item), Engine().State())
      decreases Budget()
    {
      var r := PollLater(start);
      match r {
        case Pending => item := NextLater(start);
        case Ready(answer) => item := answer;
      }
    }

    /** Another poll of a suspended `recv`, some time later. */
    method PollLater(ghost start: Client<Resp>) returns (r: Poll<Option<Result<Resp, Status>>>)
      requires Valid() && inFlight.Some? && RunState() == start
      modifies Parts()
      ensures Valid() && Engine() == old(Engine()) && fresh(Parts() - old(Parts()))
      ensures r.Pending? ==> inFlight.Some? && RunState() == start
      ensures Budget() <= old(Budget()) && (r.Pending? ==> Budget() < old(Budget()))
      ensures r.Ready? ==> engine.Some?
      ensures r.Pending? || Performs(Engine().call, start, Recv, AnswerOf(r.value), Engine().State())
    {
      Meanwhile();
      r := PollNext();
    }

    /** Any number of polls, whatever happens between them, extend the run of the call by one `recv`
        for each item, none lost and none repeated; a `recv` still suspended at the end has not been
        counted yet. What the world does while one is suspended is part of it. Every poll yields an
        item or waits, and only so many of them wait. */
    method PollMany(polls: nat, ghost log0: Log<Req, Resp>)
      returns (items: seq<Option<Result<Resp, Status>>>, waits: nat, ghost log: Log<Req, Resp>)
      requires Valid() && Logged(Engine().call, log0, RunState())
      modifies Parts()
      ensures Valid() && Engine() == old(Engine())
      ensures |items| + waits == polls && waits + Budget() <= old(Budget())
      ensures Logged(Engine().call, log, RunState()) && Extends(log0, log, items)
    {
      items, waits, log := [], 0, log0;
      ExtendsNothing(log0);
      for i := 0 to polls
        invariant Valid() && Engine() == old(Engine()) && fresh(Parts() - old(Parts()))
        invariant |items| + waits == i && waits + Budget() <= old(Budget())
        invariant Logged(Engine().call, log, RunState()) && Extends(log0, log, items)
      {
        items, waits, log := PollOnce(log0, log, items, waits);
      }
    }

    /** One of these polls, some time after the last. */
    method PollOnce(
        ghost log0: Log<Req, Resp>, ghost log: Log<Req, Resp>, items: seq<Option<Result<Resp, Status>>>, waits: nat)
      returns (more: seq<Option<Result<Resp, Status>>>, waited: nat, ghost next: Log<Req, Resp>)
      requires Valid() && Logged(Engine().call, log, RunState()) && Extends(log0, log, items)
      modifies Parts()
      ensures Valid() && Engine() == old(Engine()) && fresh(Parts() - old(Parts()))
      ensures |more| + waited == |items| + waits + 1 && waited + Budget() <= waits + old(Budget())
      ensures Logged(Engine().call, next, RunState()) && Extends(log0, next, more)
    {
      next := Pass(log0, log, items);
      var p;
      p, next := PollLogged(log0, next, items);
      match p {
        case Pending => more, waited := items, waits + 1;
        case Ready(item) => more, waited := items + [item], waits;
      }
    }

    method PollLogged(
        ghost log0: Log<Req, Resp>, ghost log: Log<Req, Resp>, ghost items: seq<Option<Result<Resp, Status>>>)
      returns (p: Poll<Option<Result<Resp, Status>>>, ghost next: Log<Req, Resp>)
      requires Valid() && Logged(Engine().call, log, RunState()) && Extends(log0, log, items)
      modifies Parts()
      ensures Valid() && Engine() == old(Engine()) && fresh(Parts() - old(Parts()))
      ensures Budget() <= old(Budget()) && (p.Pending? ==> Budget() < old(Budget()))
      ensures Logged(Engine().call, next, RunState())
      ensures Extends(log0, next, if p.Ready? then items + [p.value] else items)
    {
      next := log;
      p := PollNext();
      if p.Ready? {
        LogItem(Engine().call, log0, log, items, p.value, RunState());
        next := log.Then(Event(Recv, AnswerOf(p.value)), RunState());
      }
    }

    /** What happens between two polls is an event of its own only between two `recv`s. */
    method Pass(ghost log0: Log<Req, Resp>, ghost log: Log<Req, Resp>, ghost items: seq<Option<Result<Resp, Status>>>)
      returns (ghost next: Log<Req, Resp>)
      requires Valid() && Logged(Engine().call, log, RunState()) && Extends(log0, log, items)
      modifies Engine().world
      ensures Valid() && Engine() == old(Engine()) && Parts() == old(Parts()) && Budget() == old(Budget())
      ensures Logged(Engine().call, next, RunState()) && Extends(log0, next, items)
    {
      next := log;
      Meanwhile();
      if engine.Some? {
        LogWait(Engine().call, log0, log, items, RunState());
        next := log.Then(Event(Wait, Unit), RunState());
      }
    }
  }

  // ---- the run that the items belong to ----

  /** The states and events of a run so far. */
  datatype Log<Req, T> = Log(states: seq<Client<T>>, events: seq<Event<Req, T>>)
  {
    function Then(e: Event<Req, T>, d: Client<T>): Log<Req, T> {
      Log(states + [d], events + [e])
    }
  }

  /** It is a run, and the call has come to `c`. */
  ghost predicate Logged<Req, Resp(!new)>(call: Call<Req, Resp>, log: Log<Req, Resp>, c: Client<Resp>) {
    Run(call, log.states, log.events) && log.states[|log.events|] == c
  }

  /** The later log continues the earlier one by `recv`s and waiting alone, and the items are the
      answers of these `recv`s, in order. */
  ghost predicate Extends<Req, Resp>(
      log0: Log<Req, Resp>, log: Log<Req, Resp>, items: seq<Option<Result<Resp, Status>>>)
  {
    && log0.events <= log.events && log0.states <= log.states
    && (forall k :: |log0.events| <= k < |log.events| ==> log.events[k].op.Wait? || log.events[k].op.Recv?)
    && RecvOuts(log.events, |log0.events|, |log.events|) == AnswersOf(items)
  }

  lemma ExtendsNothing<Req, Resp>(log: Log<Req, Resp>)
    ensures Extends(log, log, [])
  {
  }

  lemma LogItem<Req, Resp(!new)>(
      call: Call<Req, Resp>, log0: Log<Req, Resp>, log: Log<Req, Resp>, items: seq<Option<Result<Resp, Status>>>,
      item: Option<Result<Resp, Status>>, d: Client<Resp>)
    requires Run(call, log.states, log.events) && Extends(log0, log, items)
    requires Performs(call, log.states[|log.events|], Recv, AnswerOf(item), d)
    ensures var e := Event(Recv, AnswerOf(item));
            Logged(call, log.Then(e, d), d) && Extends(log0, log.Then(e, d), items + [item])
  {
    var e: Event<Req, Resp> := Event(Recv, AnswerOf(item));
    RunExtends(call, log.states, log.events, e, d);
    RecvOutsSnoc(log.events, e, |log0.events|);
    AnswersSnoc(items, item);
  }

  lemma LogWait<Req, Resp(!new)>(
      call: Call<Req, Resp>, log0: Log<Req, Resp>, log: Log<Req, Resp>, items: seq<Option<Result<Resp, Status>>>,
      d: Client<Resp>)
    requires Run(call, log.states, log.events) && Extends(log0, log, items)
    requires Performs(call, log.states[|log.events|], Wait, Unit, d)
    ensures Logged(call, log.Then(Event(Wait, Unit), d), d) && Extends(log0, log.Then(Event(Wait, Unit), d), items)
  {
    var e: Event<Req, Resp> := Event(Wait, Unit);
    RunExtends(call, log.states, log.events, e, d);
    RecvOutsSnoc(log.events, e, |log0.events|);
  }

  lemma {:induction false} RecvOutsFront<Req, Resp>(
      events: seq<Event<Req, Resp>>, more: seq<Event<Req, Resp>>, i: nat, j: nat)
    requires i <= j <= |events|
    ensures RecvOuts(events + more, i, j) == RecvOuts(events, i, j)
    decreases j
  {
    if i < j {
      RecvOutsFront(events, more, i, j - 1);
      assert (events + more)[j - 1] == events[j - 1];
    }
  }

  lemma {:induction false} RecvOutsJoin<Req, Resp>(events: seq<Event<Req, Resp>>, i: nat, j: nat, k: nat)
    requires i <= j <= k <= |events|
    ensures RecvOuts(events, i, k) == RecvOuts(events, i, j) + RecvOuts(events, j, k)
    decreases k
  {
    if j < k {
      RecvOutsJoin(events, i, j, k - 1);
    }
  }

  lemma RecvOutsSnoc<Req, Resp>(events: seq<Event<Req, Resp>>, e: Event<Req, Resp>, i: nat)
    requires i <= |events|
    ensures RecvOuts(events + [e], i, |events| + 1)
            == RecvOuts(events, i, |events|) + (if e.op.Recv? then [e.out] else [])
  {
    RecvOutsFront(events, [e], i, |events|);
    assert (events + [e])[|events|] == e;
  }

  lemma AnswersSnoc<T>(items: seq<Option<Result<T, Status>>>, item: Option<Result<T, Status>>)
    ensures AnswersOf(items + [item]) == AnswersOf(items) + [AnswerOf(item)]
  {
  }
}
