/** What holds over every run of a client call, whatever the caller, the server and the clock do. */
module ClientRuns {
  import opened Bytes
  import opened HeaderMap
  import opened Statuses
  import opened Frames
  import opened ClientSpec
  import M = CustomMetadata

  // ---- lifecycle ----

  ghost predicate Sound<T>(c: Client<T>) {
    |c.fired| <= 1 && (c.phase.NotFired? ==> c.fired == [] && c.live == [] && !c.closed)
  }

  /** `headers()`. */
  function HeadersOf<T>(p: Phase<T>): Option<Headers> {
    match p
    case Live(_, head, _, _) => Some(head)
    case Over(head, _) => Some(head)
    case _ => None
  }

  /** `trailers()`. */
  function TrailersOf<T>(p: Phase<T>): Option<Headers> {
    match p case Over(_, trailers) => Some(trailers) case _ => None
  }

  lemma OpeningLifecycle<Req, Resp>(call: Call<Req, Resp>, c: Client<Resp>, d: Client<Resp>, out: Out<Resp>)
    requires c.phase.NotFired? && Opening(call, c, d, out) && Sound(c)
    ensures Sound(d) && (d.phase.Failed? || d.phase.Live?)
    ensures d.phase.Failed? ==> out == Error(d.phase.status)
    ensures d.phase.Live? ==> out == Unit
  {
  }

  /** However a call leaves `NotFired`, it does so by opening, possibly followed by a read or a
      close within the same operation. */
  lemma FiringFactors<Req, Resp(!new)>(
      call: Call<Req, Resp>, c: Client<Resp>, op: Op<Req>, out: Out<Resp>, d: Client<Resp>)
    returns (b: Client<Resp>, mid: Client<Resp>, o: Out<Resp>)
    requires Performs(call, c, op, out, d) && c.phase.NotFired? && !d.phase.NotFired?
    ensures b == c || b == c.(phase := c.phase.(sendClosed := true))
    ensures Opening(call, b, mid, o)
    ensures || (d == mid && out == o)
            || (op.Recv? && mid.phase.Live? && Reads(call, mid, d, out))
            || (op.CloseSend? && call.fullDuplex && mid.phase.Live? && Closes(mid, d, out))
    ensures op.Recv? && d == mid && out == o ==> out.Error?
    ensures op.OpenHead? || op.CloseSend? || op.Recv?
  {
    b, mid, o := c, d, out;
    match op {
      case CloseSend => b, mid, o := ClosingFactors(call, c, out, d);
      case Recv => mid, o := ReceivingFactors(call, c, out, d);
      case Send(m) => SendKeeps(call, c, d, m, out);
      case OpenHead =>
      case _ => QuietKeeps(call, c, op, out, d);
    }
  }

  lemma ClosingFactors<Req, Resp(!new)>(call: Call<Req, Resp>, c: Client<Resp>, out: Out<Resp>, d: Client<Resp>)
    returns (b: Client<Resp>, mid: Client<Resp>, o: Out<Resp>)
    requires ClosesSend(call, c, d, out) && c.phase.NotFired?
    ensures b == c.(phase := c.phase.(sendClosed := true)) && Opening(call, b, mid, o)
    ensures (d == mid && out == o) || (call.fullDuplex && mid.phase.Live? && Closes(mid, d, out))
  {
    b, mid, o := c.(phase := c.phase.(sendClosed := true)), d, out;
    if !Opening(call, b, d, out) {
      mid :| mid.phase.Live? && Opening(call, b, mid, Unit) && Closes(mid, d, out);
      o := Unit;
    }
  }

  lemma ReceivingFactors<Req, Resp(!new)>(call: Call<Req, Resp>, c: Client<Resp>, out: Out<Resp>, d: Client<Resp>)
    returns (mid: Client<Resp>, o: Out<Resp>)
    requires Receives(call, c, d, out) && c.phase.NotFired?
    ensures Opening(call, c, mid, o)
    ensures (d == mid && out == o && out.Error?) || (mid.phase.Live? && Reads(call, mid, d, out))
    ensures d == mid && out == o ==> out.Error?
  {
    mid, o := d, out;
    if !(out.Error? && Opening(call, c, d, out)) {
      mid :| mid.phase.Live? && Opening(call, c, mid, Unit) && Reads(call, mid, d, out);
      o := Unit;
    }
  }

  lemma ReadsLifecycle<Req, Resp>(call: Call<Req, Resp>, c: Client<Resp>, d: Client<Resp>, out: Out<Resp>)
    requires c.phase.Live? && Reads(call, c, d, out)
    ensures (d.phase.Live? || d.phase.Over?) && HeadersOf(d.phase) == HeadersOf(c.phase)
    ensures d == c.(phase := d.phase, now := d.now, cancelled := d.cancelled)
  {
  }

  lemma OpeningLeaves<Req, Resp>(call: Call<Req, Resp>, c: Client<Resp>, d: Client<Resp>, out: Out<Resp>)
    requires c.phase.NotFired? && Opening(call, c, d, out)
    ensures d.phase.Failed? || d.phase.Live?
  {
  }

  lemma ReceivingLeaves<Req, Resp(!new)>(call: Call<Req, Resp>, c: Client<Resp>, d: Client<Resp>, out: Out<Resp>)
    requires c.phase.NotFired? && Receives(call, c, d, out)
    ensures !d.phase.NotFired?
  {
    if Opening(call, c, d, out) {
      OpeningLeaves(call, c, d, out);
    } else {
      var mid: Client<Resp> :| mid.phase.Live? && Opening(call, c, mid, Unit) && Reads(call, mid, d, out);
      ReadsLifecycle(call, mid, d, out);
    }
  }

  lemma ClosingLeaves<Req, Resp(!new)>(call: Call<Req, Resp>, c: Client<Resp>, d: Client<Resp>, out: Out<Resp>)
    requires c.phase.NotFired? && ClosesSend(call, c, d, out)
    ensures !d.phase.NotFired?
  {
    var c' := c.(phase := c.phase.(sendClosed := true));
    if Opening(call, c', d, out) {
      OpeningLeaves(call, c', d, out);
    } else {
      var mid: Client<Resp> :| mid.phase.Live? && Opening(call, c', mid, Unit) && Closes(mid, d, out);
    }
  }

  predicate Quiet<Req>(op: Op<Req>) {
    op.AddAscii? || op.AddBinary? || op.SetDeadline? || op.Buffer? || op.Cancel? || op.Wait?
  }

  /** What the operations that never touch the network keep. */
  lemma QuietKeeps<Req, Resp(!new)>(
      call: Call<Req, Resp>, c: Client<Resp>, op: Op<Req>, out: Out<Resp>, d: Client<Resp>)
    requires Quiet(op) && Performs(call, c, op, out, d)
    ensures out == Unit && d.fired == c.fired && d.live == c.live && d.closed == c.closed
    ensures if c.phase.NotFired? then d.phase.NotFired? else d.phase == c.phase
    ensures c.now <= d.now && (c.cancelled ==> d.cancelled) && (!op.SetDeadline? ==> d.deadline == c.deadline)
  {
  }

  lemma SendKeeps<Req, Resp>(call: Call<Req, Resp>, c: Client<Resp>, d: Client<Resp>, m: Req, out: Out<Resp>)
    requires Sends(call, c, d, m, out)
    ensures out == Unit || out.Error?
    ensures d.fired == c.fired && d.closed == c.closed && d.initError == c.initError
    ensures if c.phase.NotFired? then d.phase.NotFired? && d.live == c.live else d.phase == c.phase
  {
  }

  lemma CloseKeeps<Req, Resp(!new)>(call: Call<Req, Resp>, c: Client<Resp>, d: Client<Resp>, out: Out<Resp>)
    requires ClosesSend(call, c, d, out) && !c.phase.NotFired?
    ensures d == c.(closed := d.closed) && (out == Unit || out.Error?)
  {
  }

  /** An operation that leaves the call gathering touches nothing on the wire. */
  lemma GatheringKeeps<Req, Resp(!new)>(
      call: Call<Req, Resp>, c: Client<Resp>, op: Op<Req>, out: Out<Resp>, d: Client<Resp>)
    requires Performs(call, c, op, out, d) && c.phase.NotFired? && d.phase.NotFired?
    ensures Quiet(op) || op.Send?
    ensures d.fired == c.fired && d.live == c.live && d.closed == c.closed
  {
    match op {
      case OpenHead => OpeningLeaves(call, c, d, out);
      case CloseSend => ClosingLeaves(call, c, d, out);
      case Recv => ReceivingLeaves(call, c, d, out);
      case Send(m) => SendKeeps(call, c, d, m, out);
      case _ => QuietKeeps(call, c, op, out, d);
    }
  }

  /** Once fired, only `recv` changes what the call has come to. */
  lemma LaterKeeps<Req, Resp(!new)>(
      call: Call<Req, Resp>, c: Client<Resp>, op: Op<Req>, out: Out<Resp>, d: Client<Resp>)
    requires Performs(call, c, op, out, d) && !c.phase.NotFired? && !op.Recv?
    ensures d.phase == c.phase && d.fired == c.fired && (out == Unit || out.Error?)
  {
    match op {
      case OpenHead =>
      case CloseSend => CloseKeeps(call, c, d, out);
      case Send(m) => SendKeeps(call, c, d, m, out);
      case _ => QuietKeeps(call, c, op, out, d);
    }
  }

  lemma StepFromNotFired<Req, Resp(!new)>(
      call: Call<Req, Resp>, c: Client<Resp>, op: Op<Req>, out: Out<Resp>, d: Client<Resp>)
    requires Performs(call, c, op, out, d) && Sound(c) && c.phase.NotFired?
    ensures Sound(d)
    ensures d.phase.Failed? ==> out == Error(d.phase.status)
  {
    if d.phase.NotFired? {
      GatheringKeeps(call, c, op, out, d);
    } else {
      var b, mid, o := FiringFactors(call, c, op, out, d);
      OpeningLifecycle(call, b, mid, o);
      if mid.phase.Live? && Reads(call, mid, d, out) {
        ReadsLifecycle(call, mid, d, out);
      }
    }
  }

  /** What every single operation keeps. */
  lemma StepLifecycle<Req, Resp(!new)>(
      call: Call<Req, Resp>, c: Client<Resp>, op: Op<Req>, out: Out<Resp>, d: Client<Resp>)
    requires Performs(call, c, op, out, d) && Sound(c)
    ensures Sound(d) && (c.fired == [] || d.fired == c.fired)
    ensures !c.phase.NotFired? ==> !d.phase.NotFired? && d.fired == c.fired
    ensures c.phase.Over? ==> d.phase == c.phase && (op.Recv? ==> out == EndOfStream)
    ensures !c.phase.Failed? && d.phase.Failed? ==> c.phase.NotFired? && out == Error(d.phase.status)
    ensures c.phase.Failed? ==>
              if op.Recv? then out == Error(c.phase.status) && d.phase == Over(map[], map[]) else d.phase == c.phase
    ensures HeadersOf(c.phase).Some? ==> HeadersOf(d.phase) == HeadersOf(c.phase)
    ensures TrailersOf(c.phase).Some? ==> TrailersOf(d.phase) == TrailersOf(c.phase)
  {
    if c.phase.NotFired? {
      StepFromNotFired(call, c, op, out, d);
    } else if !op.Recv? {
      LaterKeeps(call, c, op, out, d);
    } else if c.phase.Live? {
      ReadsLifecycle(call, c, d, out);
    }
  }

  lemma LifecycleAt<Req, Resp(!new)>(
      call: Call<Req, Resp>, states: seq<Client<Resp>>, events: seq<Event<Req, Resp>>, i: nat)
    requires Run(call, states, events) && i < |events| && Sound(states[i])
    ensures Sound(states[i + 1])
    ensures KeepsLife(states[i], events[i], states[i + 1])
  {
    assert PerformsAt(call, states, events, i);
    StepLifecycle(call, states[i], events[i].op, events[i].out, states[i + 1]);
  }

  /** What every single operation keeps, as one predicate. */
  ghost predicate KeepsLife<Req, Resp>(c: Client<Resp>, e: Event<Req, Resp>, d: Client<Resp>) {
    && (c.fired == [] || d.fired == c.fired)
    && (!c.phase.NotFired? ==> !d.phase.NotFired? && d.fired == c.fired)
    && (c.phase.Over? ==> d.phase == c.phase && (e.op.Recv? ==> e.out == EndOfStream))
    && (!c.phase.Failed? && d.phase.Failed? ==> c.phase.NotFired? && e.out == Error(d.phase.status))
    && (c.phase.Failed? ==>
          if e.op.Recv? then e.out == Error(c.phase.status) && d.phase == Over(map[], map[]) else d.phase == c.phase)
    && (HeadersOf(c.phase).Some? ==> HeadersOf(d.phase) == HeadersOf(c.phase))
    && (TrailersOf(c.phase).Some? ==> TrailersOf(d.phase) == TrailersOf(c.phase))
  }

  /** At most one request is ever made; a call that left `NotFired` never comes back to it; the
      initial and trailing metadata, once there, never vanish or change. */
  lemma {:induction false} Lifecycle<Req, Resp(!new)>(
      call: Call<Req, Resp>, states: seq<Client<Resp>>, events: seq<Event<Req, Resp>>, i: nat, j: nat)
    requires Run(call, states, events) && i <= j <= |events|
    ensures Sound(states[i]) && Sound(states[j]) && (states[i].fired == [] || states[j].fired == states[i].fired)
    ensures !states[i].phase.NotFired? ==> !states[j].phase.NotFired? && states[j].fired == states[i].fired
    ensures HeadersOf(states[i].phase).Some? ==> HeadersOf(states[j].phase) == HeadersOf(states[i].phase)
    ensures TrailersOf(states[i].phase).Some? ==> TrailersOf(states[j].phase) == TrailersOf(states[i].phase)
    decreases j
  {
    if j > 0 {
      Lifecycle(call, states, events, if i < j then i else j - 1, j - 1);
      LifecycleAt(call, states, events, j - 1);
    }
  }

  /** The results of the `recv` calls between two points of a run. */
  function RecvOuts<Req, Resp>(events: seq<Event<Req, Resp>>, i: nat, j: nat): seq<Out<Resp>>
    requires i <= j <= |events|
    decreases j
  {
    if i == j then []
    else RecvOuts(events, i, j - 1) + (if events[j - 1].op.Recv? then [events[j - 1].out] else [])
  }

  predicate AllEnd<T>(outs: seq<Out<T>>) {
    forall k :: 0 <= k < |outs| ==> outs[k] == EndOfStream
  }

  /** The end of a call is absorbing. */
  lemma OverIsAbsorbing<Req, Resp(!new)>(
      call: Call<Req, Resp>, states: seq<Client<Resp>>, events: seq<Event<Req, Resp>>, i: nat, j: nat)
    requires Run(call, states, events) && i <= j <= |events| && states[i].phase.Over?
    ensures states[j].phase == states[i].phase && AllEnd(RecvOuts(events, i, j))
  {
    for k := i to j
      invariant states[k].phase == states[i].phase && AllEnd(RecvOuts(events, i, k))
    {
      OverAt(call, states, events, i, k);
    }
  }

  lemma OverAt<Req, Resp(!new)>(
      call: Call<Req, Resp>, states: seq<Client<Resp>>, events: seq<Event<Req, Resp>>, i: nat, k: nat)
    requires Run(call, states, events) && i <= k < |events| && states[k].phase.Over?
    requires AllEnd(RecvOuts(events, i, k))
    ensures states[k + 1].phase == states[k].phase && AllEnd(RecvOuts(events, i, k + 1))
  {
    Lifecycle(call, states, events, 0, k);
    LifecycleAt(call, states, events, k);
  }

  /** A failed open: the operation that fired the call returned the error, the next `recv` returns
      it once more, and every later one reports the end of the stream. */
  lemma {:induction false} FailureDeliveredTwice<Req, Resp(!new)>(
      call: Call<Req, Resp>, states: seq<Client<Resp>>, events: seq<Event<Req, Resp>>, i: nat, j: nat)
    requires Run(call, states, events) && i < j <= |events|
    requires !states[i].phase.Failed? && states[i + 1].phase.Failed?
    ensures events[i].out == Error(states[i + 1].phase.status)
    ensures var outs := RecvOuts(events, i + 1, j);
            if outs == [] then states[j].phase == states[i + 1].phase
            else && outs[0] == Error(states[i + 1].phase.status) && AllEnd(outs[1..])
                 && states[j].phase == Over(map[], map[])
    decreases j
  {
    Lifecycle(call, states, events, i, j - 1);
    LifecycleAt(call, states, events, j - 1);
    if i + 1 < j {
      FailureDeliveredTwice(call, states, events, i, j - 1);
      var outs := RecvOuts(events, i + 1, j - 1);
      assert outs != [] && events[j - 1].op.Recv? ==>
               (outs + [events[j - 1].out])[1..] == outs[1..] + [events[j - 1].out];
    }
  }

  // ---- what recv answers ----

  /** The answers of a live call: its messages, then one verdict. A message under a Trailers-Only
      head, or a reading error, ends the call in place of the verdict. */
  function Answers<Req, Resp>(
      call: Call<Req, Resp>, headStatus: Option<Verdict>, todo: seq<Result<Resp, Status>>): (outs: seq<Out<Resp>>)
    ensures outs != []
  {
    if todo == [] then [VerdictOut(FinalVerdict(headStatus, WireTrailers(call)))]
    else
      match todo[0]
      case Err(s) => [Error(s)]
      case Ok(m) =>
        if headStatus.Some? then [Error(TrailersOnlyViolation())]
        else [Received(m)] + Answers(call, headStatus, todo[1..])
  }

  /** The answers of a call as a pure function of the response: head, body and trailers. */
  function CallAnswers<Req, Resp>(call: Call<Req, Resp>): seq<Out<Resp>> {
    match Opened(call)
    case Err(_) => []
    case Ok(p) => match p case Live(_, _, headStatus, todo) => Answers(call, headStatus, todo) case _ => []
  }

  /** The answers still to come. */
  function Left<Req, Resp>(call: Call<Req, Resp>, p: Phase<Resp>): seq<Out<Resp>> {
    match p
    case NotFired(_, _, _) => CallAnswers(call)
    case Live(_, _, headStatus, todo) => Answers(call, headStatus, todo)
    case _ => []
  }

  /** Whether a step took an answer, rather than being interrupted before it. */
  predicate TakesAnswer<Req, Resp>(call: Call<Req, Resp>, c: Client<Resp>, d: Client<Resp>) {
    !d.phase.Failed? && |Left(call, d.phase)| < |Left(call, c.phase)|
  }

  function Heard<Req, Resp>(
      call: Call<Req, Resp>, states: seq<Client<Resp>>, events: seq<Event<Req, Resp>>, n: nat): seq<Out<Resp>>
    requires n <= |events| && |states| == |events| + 1
  {
    if n == 0 then []
    else Heard(call, states, events, n - 1)
         + (if TakesAnswer(call, states[n - 1], states[n]) then [events[n - 1].out] else [])
  }

  lemma ReadsAnswer<Req, Resp>(call: Call<Req, Resp>, c: Client<Resp>, d: Client<Resp>, out: Out<Resp>)
    requires c.phase.Live? && Reads(call, c, d, out)
    ensures !d.phase.Failed? && !d.phase.NotFired?
    ensures Left(call, c.phase) ==
              if TakesAnswer(call, c, d) then [out] + Left(call, d.phase) else Left(call, d.phase)
    ensures TakesAnswer(call, c, d) || (out.Error? && Stops(d, out.status))
  {
  }

  lemma OpeningAnswers<Req, Resp>(call: Call<Req, Resp>, c: Client<Resp>, d: Client<Resp>, out: Out<Resp>)
    requires c.phase.NotFired? && Opening(call, c, d, out)
    ensures d.phase.Live? ==> out == Unit && Left(call, d.phase) == CallAnswers(call)
    ensures !d.phase.Live? ==> d.phase.Failed? && out.Error?
  {
    OpeningOpens(call, c, d, out);
    if d.phase.Live? {
      OpenedLeft(call, d.phase);
    }
  }

  lemma OpeningOpens<Req, Resp>(call: Call<Req, Resp>, c: Client<Resp>, d: Client<Resp>, out: Out<Resp>)
    requires c.phase.NotFired? && Opening(call, c, d, out)
    ensures if d.phase.Live? then out == Unit && Opened(call) == Ok(d.phase) else d.phase.Failed? && out.Error?
  {
  }

  lemma OpenedLeft<Req, Resp>(call: Call<Req, Resp>, p: Phase<Resp>)
    requires p.Live? && Opened(call) == Ok(p)
    ensures Left(call, p) == CallAnswers(call)
  {
  }

  /** Each step takes at most one answer off the front, it is a `recv` that does, and a `recv` that
      does not was interrupted. */
  lemma StepAnswers<Req, Resp(!new)>(
      call: Call<Req, Resp>, c: Client<Resp>, op: Op<Req>, out: Out<Resp>, d: Client<Resp>)
    requires Performs(call, c, op, out, d) && !c.phase.Failed? && !d.phase.Failed?
    ensures Left(call, c.phase) ==
              if TakesAnswer(call, c, d) then [out] + Left(call, d.phase) else Left(call, d.phase)
    ensures TakesAnswer(call, c, d) ==> op.Recv?
    ensures op.Recv? && !c.phase.Over? && !TakesAnswer(call, c, d) ==> out.Error? && Stops(d, out.status)
  {
    if c.phase.NotFired? && d.phase.NotFired? {
      GatheringKeeps(call, c, op, out, d);
    } else if c.phase.NotFired? {
      FiringAnswers(call, c, op, out, d);
    } else if !op.Recv? {
      LaterKeeps(call, c, op, out, d);
    } else if c.phase.Live? {
      ReadsAnswer(call, c, d, out);
    }
  }

  lemma FiringAnswers<Req, Resp(!new)>(
      call: Call<Req, Resp>, c: Client<Resp>, op: Op<Req>, out: Out<Resp>, d: Client<Resp>)
    requires Performs(call, c, op, out, d) && c.phase.NotFired? && !d.phase.NotFired? && !d.phase.Failed?
    ensures Left(call, c.phase) ==
              if TakesAnswer(call, c, d) then [out] + Left(call, d.phase) else Left(call, d.phase)
    ensures TakesAnswer(call, c, d) ==> op.Recv?
    ensures op.Recv? && !TakesAnswer(call, c, d) ==> out.Error? && Stops(d, out.status)
  {
    var b, mid, o := FiringFactors(call, c, op, out, d);
    OpeningAnswers(call, b, mid, o);
    if op.Recv? {
      ReadsAnswer(call, mid, d, out);
    } else {
      assert d.phase == mid.phase;
    }
  }

  lemma AnswersAt<Req, Resp(!new)>(
      call: Call<Req, Resp>, states: seq<Client<Resp>>, events: seq<Event<Req, Resp>>, i: nat)
    requires Run(call, states, events) && i < |events| && !states[i].phase.Failed? && !states[i + 1].phase.Failed?
    ensures Left(call, states[i].phase) ==
              if TakesAnswer(call, states[i], states[i + 1]) then [events[i].out] + Left(call, states[i + 1].phase)
              else Left(call, states[i + 1].phase)
  {
    assert PerformsAt(call, states, events, i);
    StepAnswers(call, states[i], events[i].op, events[i].out, states[i + 1]);
  }

  lemma TakeOne<T>(heard: seq<T>, before: seq<T>, took: bool, out: T, after: seq<T>)
    requires before == if took then [out] + after else after
    ensures heard + (if took then [out] else []) + after == heard + before
  {
  }

  /** What was heard up to a point, followed by what is left at that point. */
  function Account<Req, Resp>(
      call: Call<Req, Resp>, states: seq<Client<Resp>>, events: seq<Event<Req, Resp>>, n: nat): seq<Out<Resp>>
    requires n <= |events| && |states| == |events| + 1
  {
    Heard(call, states, events, n) + Left(call, states[n].phase)
  }

  lemma FreshAccount<Req, Resp(!new)>(
      call: Call<Req, Resp>, states: seq<Client<Resp>>, events: seq<Event<Req, Resp>>)
    requires Run(call, states, events)
    ensures Account(call, states, events, 0) == CallAnswers(call)
  {
    assert Heard(call, states, events, 0) == [];
    assert [] + CallAnswers(call) == CallAnswers(call);
  }

  /** No open failed up to here. */
  ghost predicate Unfailed<T>(states: seq<Client<T>>, n: nat)
    requires n < |states|
  {
    forall k :: 0 <= k <= n ==> !states[k].phase.Failed?
  }

  lemma HeardAt<Req, Resp(!new)>(
      call: Call<Req, Resp>, states: seq<Client<Resp>>, events: seq<Event<Req, Resp>>, n: nat)
    requires Run(call, states, events) && 0 < n <= |events| && !states[n - 1].phase.Failed? && !states[n].phase.Failed?
    ensures Account(call, states, events, n) == Account(call, states, events, n - 1)
  {
    AnswersAt(call, states, events, n - 1);
    TakeOne(Heard(call, states, events, n - 1), Left(call, states[n - 1].phase),
            TakesAnswer(call, states[n - 1], states[n]), events[n - 1].out, Left(call, states[n].phase));
  }

  lemma AccountKept<Req, Resp(!new)>(
      call: Call<Req, Resp>, states: seq<Client<Resp>>, events: seq<Event<Req, Resp>>, i: nat, n: nat)
    requires Run(call, states, events) && 0 < i <= n <= |events| && Unfailed(states, n)
    requires Account(call, states, events, i - 1) == CallAnswers(call)
    ensures Account(call, states, events, i) == CallAnswers(call)
  {
    HeardAt(call, states, events, i);
  }

  /** The receive sequence refines a pure function of the response: however sends, accessors,
      interruptions and waiting are mixed in, what was heard followed by what is left is always
      the same list of answers. */
  lemma {:induction false} RecvRefines<Req, Resp(!new)>(
      call: Call<Req, Resp>, states: seq<Client<Resp>>, events: seq<Event<Req, Resp>>, n: nat)
    requires Run(call, states, events) && n <= |events| && Unfailed(states, n)
    ensures Account(call, states, events, n) == CallAnswers(call)
  {
    FreshAccount(call, states, events);
    for i := 0 to n
      invariant Account(call, states, events, i) == CallAnswers(call)
    {
      AccountKept(call, states, events, i + 1, n);
    }
  }

  /** A run that reached the end without a failed open has heard all the answers, once each. */
  lemma HeardAll<Req, Resp(!new)>(
      call: Call<Req, Resp>, states: seq<Client<Resp>>, events: seq<Event<Req, Resp>>, n: nat)
    requires Run(call, states, events) && n <= |events| && states[n].phase.Over? && Unfailed(states, n)
    ensures Heard(call, states, events, n) == CallAnswers(call)
  {
    RecvRefines(call, states, events, n);
  }

  /** The call is not cancelled, and its deadline, if it has one, has not come. */
  predicate Calm<T>(c: Client<T>) {
    !c.cancelled && (c.deadline.None? || c.now < c.deadline.value)
  }

  /** So it was in every state up to here. */
  ghost predicate Undisturbed<T>(states: seq<Client<T>>, n: nat)
    requires n < |states|
  {
    forall k :: 0 <= k <= n ==> Calm(states[k])
  }

  /** In an undisturbed run `recv` returns nothing else: what was heard is what the `recv`s returned,
      and once the call is over they add only ends of the stream. */
  lemma RecvsReturnAnswers<Req, Resp(!new)>(
      call: Call<Req, Resp>, states: seq<Client<Resp>>, events: seq<Event<Req, Resp>>, n: nat)
    requires Run(call, states, events) && n <= |events| && Unfailed(states, n) && Undisturbed(states, n)
    ensures var heard, outs := Heard(call, states, events, n), RecvOuts(events, 0, n);
            && heard <= outs && AllEnd(outs[|heard|..])
            && (!states[n].phase.Over? ==> heard == outs)
  {
    for k := 0 to n
      invariant Followed(Heard(call, states, events, k), RecvOuts(events, 0, k), states[k].phase.Over?)
    {
      ReturnAt(call, states, events, k);
      FollowedOn(Heard(call, states, events, k), RecvOuts(events, 0, k), states[k].phase.Over?,
                 TakesAnswer(call, states[k], states[k + 1]), events[k].op.Recv?, events[k].out,
                 states[k + 1].phase.Over?);
    }
  }

  /** `outs` is `heard`, followed by ends of the stream once the call is over. */
  predicate Followed<T(==)>(heard: seq<Out<T>>, outs: seq<Out<T>>, over: bool) {
    heard <= outs && AllEnd(outs[|heard|..]) && (!over ==> heard == outs)
  }

  lemma FollowedOn<T>(
      heard: seq<Out<T>>, outs: seq<Out<T>>, over: bool, took: bool, recv: bool, out: Out<T>, later: bool)
    requires Followed(heard, outs, over) && (over ==> later)
    requires if over then !took && (recv ==> out == EndOfStream) else took == recv
    ensures Followed(heard + (if took then [out] else []), outs + (if recv then [out] else []), later)
  {
  }

  lemma ReturnAt<Req, Resp(!new)>(
      call: Call<Req, Resp>, states: seq<Client<Resp>>, events: seq<Event<Req, Resp>>, i: nat)
    requires Run(call, states, events) && i < |events|
    requires !states[i].phase.Failed? && !states[i + 1].phase.Failed?
    requires Calm(states[i + 1])
    ensures var took, recv := TakesAnswer(call, states[i], states[i + 1]), events[i].op.Recv?;
            if states[i].phase.Over? then
              !took && (recv ==> events[i].out == EndOfStream) && states[i + 1].phase.Over?
            else
              took == recv
  {
    assert PerformsAt(call, states, events, i);
    StepAnswers(call, states[i], events[i].op, events[i].out, states[i + 1]);
    Lifecycle(call, states, events, 0, i);
    LifecycleAt(call, states, events, i);
  }

  /** Opening fails only because of a recorded construction error, an interruption, or the transport
      or the head. */
  lemma FailedBecause<Req, Resp(!new)>(
      call: Call<Req, Resp>, c: Client<Resp>, op: Op<Req>, out: Out<Resp>, d: Client<Resp>)
    requires Performs(call, c, op, out, d) && Sound(c) && !c.phase.Failed? && d.phase.Failed?
    ensures c.initError == Some(d.phase.status) || Stops(d, d.phase.status) || Opened(call) == Err(d.phase.status)
  {
    StepLifecycle(call, c, op, out, d);
    var b, mid, o := FiringFactors(call, c, op, out, d);
    if mid.phase.Live? && Reads(call, mid, d, out) {
      ReadsLifecycle(call, mid, d, out);
    }
    OpeningFails(call, b, mid, o);
  }

  lemma OpeningFails<Req, Resp>(call: Call<Req, Resp>, c: Client<Resp>, d: Client<Resp>, out: Out<Resp>)
    requires c.phase.NotFired? && Opening(call, c, d, out) && d.phase.Failed?
    ensures c.initError == Some(d.phase.status) || Stops(d, d.phase.status) || Opened(call) == Err(d.phase.status)
  {
  }

  /** So an undisturbed run in which nothing wrong was put into the request, against a server that
      answers as it should, has no failed open. */
  lemma NothingFails<Req, Resp(!new)>(
      call: Call<Req, Resp>, states: seq<Client<Resp>>, events: seq<Event<Req, Resp>>, n: nat)
    requires Run(call, states, events) && n <= |events| && Undisturbed(states, n) && Opened(call).Ok?
    requires forall k :: 0 <= k <= n ==> states[k].initError.None?
    ensures Unfailed(states, n)
  {
    for k := 0 to n
      invariant forall i :: 0 <= i <= k ==> !states[i].phase.Failed?
    {
      Lifecycle(call, states, events, 0, k);
      if states[k + 1].phase.Failed? {
        assert PerformsAt(call, states, events, k);
        FailedBecause(call, states[k], events[k].op, events[k].out, states[k + 1]);
      }
    }
  }

  /** The precedence of the verdict: whatever the head announced, a status in the trailers is the one
      that counts, any status that a peer sends and in particular one that a server wrote; without
      one the head's does; without either it is Unknown. */
  lemma VerdictPrecedence(headStatus: Option<Verdict>, s: Status, preset: Headers, trailers: Headers)
    requires Proper(s)
    ensures FinalVerdict(headStatus, WriteInto(s, preset)) == Delivered(s, preset)
    ensures GetStr(trailers, "grpc-status").Some? ==>
              FinalVerdict(headStatus, trailers) == FinalVerdict(None, trailers) == FromTrailers(trailers)
    ensures GetStr(trailers, "grpc-status").None? && headStatus.Some? ==>
              FinalVerdict(headStatus, trailers) == headStatus.value
    ensures GetStr(trailers, "grpc-status").None? && headStatus.None? ==>
              FinalVerdict(headStatus, trailers).Err? && FinalVerdict(headStatus, trailers).error.code == Unknown
  {
    TrailersDeliver(s, preset);
  }

  function Receiveds<T>(ms: seq<T>): seq<Out<T>> {
    seq(|ms|, i requires 0 <= i < |ms| => Received(ms[i]))
  }

  /** Good messages are answered in order; what follows them is answered after them. */
  lemma {:induction false} AnswersOfMessages<Req, Resp>(
      call: Call<Req, Resp>, ms: seq<Resp>, rest: seq<Result<Resp, Status>>)
    ensures Answers(call, None, Oks(ms) + rest) == Receiveds(ms) + Answers(call, None, rest)
  {
    if ms == [] {
      assert Oks(ms) + rest == rest;
      assert Receiveds(ms) + Answers(call, None, rest) == Answers(call, None, rest);
    } else {
      OksCons(ms, rest);
      var all := Oks(ms) + rest;
      assert all[0] == Ok(ms[0]) && all[1..] == Oks(ms[1..]) + rest;
      AnswersOfMessages(call, ms[1..], rest);
      assert Receiveds(ms) == [Received(ms[0])] + Receiveds(ms[1..]);
    }
  }

  /** The first bad item ends the answers: its error stands in place of the verdict, whatever follows. */
  lemma AnswersUpToError<Req, Resp>(
      call: Call<Req, Resp>, ms: seq<Resp>, s: Status, rest: seq<Result<Resp, Status>>)
    ensures Answers(call, None, Oks(ms) + ([Err(s)] + rest)) == Receiveds(ms) + [Error(s)]
  {
    AnswersOfMessages(call, ms, [Err(s)] + rest);
  }

  // ---- conservation of requests ----

  /** The message that an event put into the request, if it did. */
  function Accepted<Req, Resp>(call: Call<Req, Resp>, c: Client<Resp>, e: Event<Req, Resp>): Option<Req> {
    match e.op
    case Send(m) => if e.out == Unit then Some(m) else None
    case Buffer(m) => if c.phase.NotFired? && EncodeFrame(call.outb, m).Ok? then Some(m) else None
    case _ => None
  }

  function AcceptedUpTo<Req, Resp>(
      call: Call<Req, Resp>, states: seq<Client<Resp>>, events: seq<Event<Req, Resp>>, n: nat): seq<Req>
    requires n <= |events| && |states| == |events| + 1
  {
    if n == 0 then []
    else
      var before := AcceptedUpTo(call, states, events, n - 1);
      match Accepted(call, states[n - 1], events[n - 1])
      case None => before
      case Some(m) => before + [m]
  }

  /** No send was interrupted after part of its frame was written. */
  ghost predicate Intact<Req, Resp>(states: seq<Client<Resp>>, events: seq<Event<Req, Resp>>, n: nat)
    requires n <= |events| && |states| == |events| + 1
  {
    forall i :: 0 <= i < n && events[i].op.Send? && events[i].out.Error? ==> states[i + 1].live == states[i].live
  }

  /** Everything the call holds or has put on the wire: the buffered body, or the body of the
      request followed by the live writes. `None` once a call failed to fire. */
  function Carried<T>(c: Client<T>): Option<Str> {
    if c.phase.NotFired? then Some(c.phase.body)
    else if c.fired == [] then None
    else Some(c.fired[0].body + c.live)
  }

  lemma StepCarries<Req, Resp(!new)>(
      call: Call<Req, Resp>, c: Client<Resp>, e: Event<Req, Resp>, d: Client<Resp>)
    requires Performs(call, c, e.op, e.out, d) && Sound(c) && Carried(d).Some?
    requires e.op.Send? && e.out.Error? ==> d.live == c.live
    ensures Carried(c).Some?
    ensures match Accepted(call, c, e)
            case None => Carried(d) == Carried(c)
            case Some(m) =>
              EncodeFrame(call.outb, m).Ok? && Carried(d).value == Carried(c).value + EncodeFrame(call.outb, m).value
  {
    if !c.phase.NotFired? {
      StepLifecycle(call, c, e.op, e.out, d);
      FiredCarries(call, c, e, d);
      var m := Accepted(call, c, e);
      if m.Some? {
        var frame := EncodeFrame(call.outb, m.value).value;
        assert c.fired[0].body + (c.live + frame) == c.fired[0].body + c.live + frame;
      }
    } else if !d.phase.NotFired? {
      FiringCarries(call, c, e, d);
      assert d.fired[0].body + d.live == c.phase.body;
    } else {
      GatheringKeeps(call, c, e.op, e.out, d);
    }
  }

  lemma FiredCarries<Req, Resp(!new)>(
      call: Call<Req, Resp>, c: Client<Resp>, e: Event<Req, Resp>, d: Client<Resp>)
    requires Performs(call, c, e.op, e.out, d) && !c.phase.NotFired? && !d.phase.NotFired? && d.fired == c.fired
    requires e.op.Send? && e.out.Error? ==> d.live == c.live
    ensures match Accepted(call, c, e)
            case None => d.live == c.live
            case Some(m) => EncodeFrame(call.outb, m).Ok? && d.live == c.live + EncodeFrame(call.outb, m).value
  {
  }

  lemma OpeningCarries<Req, Resp>(call: Call<Req, Resp>, c: Client<Resp>, d: Client<Resp>, out: Out<Resp>)
    requires c.phase.NotFired? && Opening(call, c, d, out) && Sound(c)
    ensures d.live == [] && (d.fired == [] || (|d.fired| == 1 && d.fired[0].body == c.phase.body))
  {
  }

  lemma FiringCarries<Req, Resp(!new)>(
      call: Call<Req, Resp>, c: Client<Resp>, e: Event<Req, Resp>, d: Client<Resp>)
    requires Performs(call, c, e.op, e.out, d) && Sound(c)
    requires c.phase.NotFired? && !d.phase.NotFired? && d.fired != []
    ensures d.live == [] && d.fired[0].body == c.phase.body && Accepted(call, c, e) == None
  {
    var b, mid, o := FiringFactors(call, c, e.op, e.out, d);
    OpeningCarries(call, b, mid, o);
    assert d.live == mid.live && d.fired == mid.fired by {
      if mid.phase.Live? && Reads(call, mid, d, e.out) {
        ReadsLifecycle(call, mid, d, e.out);
      }
    }
  }

  lemma CarriesAt<Req, Resp(!new)>(
      call: Call<Req, Resp>, states: seq<Client<Resp>>, events: seq<Event<Req, Resp>>, i: nat)
    requires Run(call, states, events) && i < |events| && Sound(states[i]) && Carried(states[i + 1]).Some?
    requires events[i].op.Send? && events[i].out.Error? ==> states[i + 1].live == states[i].live
    ensures Carried(states[i]).Some?
    ensures match Accepted(call, states[i], events[i])
            case None => Carried(states[i + 1]) == Carried(states[i])
            case Some(m) =>
              && EncodeFrame(call.outb, m).Ok?
              && Carried(states[i + 1]).value == Carried(states[i]).value + EncodeFrame(call.outb, m).value
  {
    assert PerformsAt(call, states, events, i);
    StepCarries(call, states[i], events[i], states[i + 1]);
  }

  /** Once fired, the wire holds exactly the frames of every buffered or successfully sent message,
      in call order, as prelude followed by live writes. */
  lemma RequestsConserved<Req, Resp(!new)>(
      call: Call<Req, Resp>, states: seq<Client<Resp>>, events: seq<Event<Req, Resp>>, n: nat)
    requires Run(call, states, events) && n <= |events| && Intact(states, events, n)
    requires Carried(states[n]).Some?
    ensures Encodable(call.outb, AcceptedUpTo(call, states, events, n))
    ensures Carried(states[n]).value == WireOf(call.outb, AcceptedUpTo(call, states, events, n))
  {
    for k := 0 to n
      invariant Encodable(call.outb, AcceptedUpTo(call, states, events, k))
      invariant Carried(states[k]) == Some(WireOf(call.outb, AcceptedUpTo(call, states, events, k)))
    {
      CarriedBefore(call, states, events, k + 1, n);
      ConservedAt(call, states, events, k);
    }
  }

  /** A call that carries something has always done so. */
  lemma CarriedBefore<Req, Resp(!new)>(
      call: Call<Req, Resp>, states: seq<Client<Resp>>, events: seq<Event<Req, Resp>>, k: nat, n: nat)
    requires Run(call, states, events) && k <= n <= |events| && Carried(states[n]).Some?
    ensures Carried(states[k]).Some?
  {
    Lifecycle(call, states, events, k, n);
  }

  lemma ConservedAt<Req, Resp(!new)>(
      call: Call<Req, Resp>, states: seq<Client<Resp>>, events: seq<Event<Req, Resp>>, i: nat)
    requires Run(call, states, events) && i < |events| && Carried(states[i + 1]).Some?
    requires events[i].op.Send? && events[i].out.Error? ==> states[i + 1].live == states[i].live
    requires Encodable(call.outb, AcceptedUpTo(call, states, events, i))
    requires Carried(states[i]) == Some(WireOf(call.outb, AcceptedUpTo(call, states, events, i)))
    ensures Encodable(call.outb, AcceptedUpTo(call, states, events, i + 1))
    ensures Carried(states[i + 1]) == Some(WireOf(call.outb, AcceptedUpTo(call, states, events, i + 1)))
  {
    Lifecycle(call, states, events, 0, i);
    CarriesAt(call, states, events, i);
    AcceptedNext(call, states, events, i);
  }

  /** How one event extends the frames of the accepted messages. */
  lemma AcceptedNext<Req, Resp>(
      call: Call<Req, Resp>, states: seq<Client<Resp>>, events: seq<Event<Req, Resp>>, i: nat)
    requires i < |events| && |states| == |events| + 1 && Encodable(call.outb, AcceptedUpTo(call, states, events, i))
    requires var m := Accepted(call, states[i], events[i]); m.Some? ==> EncodeFrame(call.outb, m.value).Ok?
    ensures Encodable(call.outb, AcceptedUpTo(call, states, events, i + 1))
    ensures var m := Accepted(call, states[i], events[i]);
            WireOf(call.outb, AcceptedUpTo(call, states, events, i + 1))
            == WireOf(call.outb, AcceptedUpTo(call, states, events, i))
               + (if m.Some? then EncodeFrame(call.outb, m.value).value else [])
  {
    var m := Accepted(call, states[i], events[i]);
    if m.Some? {
      WireSnoc(call.outb, AcceptedUpTo(call, states, events, i), m.value);
    }
  }

  /** A live send is all or nothing when it succeeds; when it fails it leaves some part of its own
      frame behind and nothing else. */
  lemma LiveSendExtends<Req, Resp(!new)>(
      call: Call<Req, Resp>, c: Client<Resp>, m: Req, out: Out<Resp>, d: Client<Resp>)
    requires Performs(call, c, Send(m), out, d) && c.phase.Live?
    ensures c.live <= d.live
    ensures EncodeFrame(call.outb, m).Ok? ==> d.live <= c.live + EncodeFrame(call.outb, m).value
    ensures out == Unit ==>
              EncodeFrame(call.outb, m).Ok? && c.phase.duplex && d.live == c.live + EncodeFrame(call.outb, m).value
    ensures EncodeFrame(call.outb, m).Err? || !c.phase.duplex ==> d == c && out.Error?
  {
    if EncodeFrame(call.outb, m).Ok? { assert c.live <= c.live + EncodeFrame(call.outb, m).value; }
  }

  /** The bytes of its own frame that a failed send left on the wire. */
  function Stray<Req, Resp>(c: Client<Resp>, e: Event<Req, Resp>, d: Client<Resp>): nat {
    if e.op.Send? && e.out.Error? && |c.live| < |d.live| then |d.live| - |c.live| else 0
  }

  function Strays<Req, Resp>(states: seq<Client<Resp>>, events: seq<Event<Req, Resp>>, n: nat): nat
    requires n <= |events| && |states| == |events| + 1
  {
    if n == 0 then 0 else Strays(states, events, n - 1) + Stray(states[n - 1], events[n - 1], states[n])
  }

  lemma StepStrays<Req, Resp(!new)>(
      call: Call<Req, Resp>, c: Client<Resp>, e: Event<Req, Resp>, d: Client<Resp>)
    requires Performs(call, c, e.op, e.out, d) && e.op.Send? && e.out.Error?
    ensures Accepted(call, c, e) == None && d.phase == c.phase && d.fired == c.fired && c.live <= d.live
  {
    if c.phase.Live? {
      LiveSendExtends(call, c, e.op.m, e.out, d);
    }
  }

  lemma StraysAt<Req, Resp(!new)>(
      call: Call<Req, Resp>, states: seq<Client<Resp>>, events: seq<Event<Req, Resp>>, i: nat)
    requires Run(call, states, events) && i < |events| && events[i].op.Send? && events[i].out.Error?
    ensures Accepted(call, states[i], events[i]) == None && states[i].live <= states[i + 1].live
    ensures states[i + 1].phase == states[i].phase && states[i + 1].fired == states[i].fired
    ensures Stray(states[i], events[i], states[i + 1]) == 0 <==> states[i + 1].live == states[i].live
  {
    assert PerformsAt(call, states, events, i);
    StepStrays(call, states[i], events[i], states[i + 1]);
  }

  lemma {:induction false} IntactWithoutStrays<Req, Resp(!new)>(
      call: Call<Req, Resp>, states: seq<Client<Resp>>, events: seq<Event<Req, Resp>>, n: nat)
    requires Run(call, states, events) && n <= |events|
    ensures Intact(states, events, n) <==> Strays(states, events, n) == 0
  {
    if n > 0 {
      IntactWithoutStrays(call, states, events, n - 1);
      if events[n - 1].op.Send? && events[n - 1].out.Error? {
        StraysAt(call, states, events, n - 1);
      }
    }
  }

  /** The length of what is carried: the frames of the accepted messages, and the strays. */
  lemma CarriedLength<Req, Resp(!new)>(
      call: Call<Req, Resp>, states: seq<Client<Resp>>, events: seq<Event<Req, Resp>>, n: nat)
    requires Run(call, states, events) && n <= |events| && Carried(states[n]).Some?
    ensures Encodable(call.outb, AcceptedUpTo(call, states, events, n))
    ensures |Carried(states[n]).value|
            == |WireOf(call.outb, AcceptedUpTo(call, states, events, n))| + Strays(states, events, n)
  {
    CarriedBefore(call, states, events, 0, n);
    for k := 0 to n
      invariant Encodable(call.outb, AcceptedUpTo(call, states, events, k)) && Carried(states[k]).Some?
      invariant |Carried(states[k]).value|
                == |WireOf(call.outb, AcceptedUpTo(call, states, events, k))| + Strays(states, events, k)
    {
      CarriedBefore(call, states, events, k + 1, n);
      LengthAt(call, states, events, k);
      AcceptedNext(call, states, events, k);
    }
  }

  lemma LengthAt<Req, Resp(!new)>(
      call: Call<Req, Resp>, states: seq<Client<Resp>>, events: seq<Event<Req, Resp>>, i: nat)
    requires Run(call, states, events) && i < |events| && Carried(states[i + 1]).Some?
    ensures Carried(states[i]).Some?
    ensures var m := Accepted(call, states[i], events[i]);
            && (m.Some? ==> EncodeFrame(call.outb, m.value).Ok?)
            && |Carried(states[i + 1]).value| == |Carried(states[i]).value| + Stray(states[i], events[i], states[i + 1])
                 + (if m.Some? then |EncodeFrame(call.outb, m.value).value| else 0)
  {
    Lifecycle(call, states, events, i, i + 1);
    if events[i].op.Send? && events[i].out.Error? {
      StraysAt(call, states, events, i);
    } else {
      CarriesAt(call, states, events, i);
    }
  }

  /** The conservation law holds exactly when no failed send left bytes behind. */
  lemma ConservedExactly<Req, Resp(!new)>(
      call: Call<Req, Resp>, states: seq<Client<Resp>>, events: seq<Event<Req, Resp>>, n: nat)
    requires Run(call, states, events) && n <= |events| && Carried(states[n]).Some?
    ensures Encodable(call.outb, AcceptedUpTo(call, states, events, n))
    ensures Carried(states[n]).value == WireOf(call.outb, AcceptedUpTo(call, states, events, n))
            <==> Intact(states, events, n)
  {
    CarriedLength(call, states, events, n);
    IntactWithoutStrays(call, states, events, n);
    if Intact(states, events, n) {
      RequestsConserved(call, states, events, n);
    }
  }

  /** A live `send` of a message that can be framed returned an error. */
  predicate Broke<Req, Resp>(call: Call<Req, Resp>, c: Client<Resp>, e: Event<Req, Resp>) {
    e.op.Send? && e.out.Error? && c.phase.Live? && EncodeFrame(call.outb, e.op.m).Ok?
  }

  ghost predicate NoneBroke<Req, Resp>(
      call: Call<Req, Resp>, states: seq<Client<Resp>>, events: seq<Event<Req, Resp>>, n: nat)
    requires n <= |events| && |states| == |events| + 1
  {
    forall i :: 0 <= i < n ==> !Broke(call, states[i], events[i])
  }

  /** What a caller can tell from the answers: as long as every live `send` of a message that can be
      framed returned Ok, the wire is exactly the accepted frames. */
  lemma ConservedWhileSendsSucceed<Req, Resp(!new)>(
      call: Call<Req, Resp>, states: seq<Client<Resp>>, events: seq<Event<Req, Resp>>, n: nat)
    requires Run(call, states, events) && n <= |events| && Carried(states[n]).Some?
    requires NoneBroke(call, states, events, n)
    ensures Encodable(call.outb, AcceptedUpTo(call, states, events, n))
    ensures Carried(states[n]).value == WireOf(call.outb, AcceptedUpTo(call, states, events, n))
  {
    forall i | 0 <= i < n && events[i].op.Send? && events[i].out.Error? ensures states[i + 1].live == states[i].live {
      UnbrokenAt(call, states, events, i);
    }
    RequestsConserved(call, states, events, n);
  }

  lemma UnbrokenAt<Req, Resp(!new)>(
      call: Call<Req, Resp>, states: seq<Client<Resp>>, events: seq<Event<Req, Resp>>, i: nat)
    requires Run(call, states, events) && i < |events| && events[i].op.Send? && events[i].out.Error?
    requires !Broke(call, states[i], events[i])
    ensures states[i + 1].live == states[i].live
  {
    assert PerformsAt(call, states, events, i);
  }

  /** After the first such error the wire is the accepted frames, then a front part of the frame
      whose `send` failed. */
  lemma FirstBrokenSend<Req, Resp(!new)>(
      call: Call<Req, Resp>, states: seq<Client<Resp>>, events: seq<Event<Req, Resp>>, n: nat)
    requires Run(call, states, events) && n < |events| && Carried(states[n]).Some?
    requires NoneBroke(call, states, events, n) && Broke(call, states[n], events[n])
    ensures Encodable(call.outb, AcceptedUpTo(call, states, events, n + 1))
    ensures Carried(states[n + 1]).Some?
    ensures var wire, frame := WireOf(call.outb, AcceptedUpTo(call, states, events, n + 1)),
                               EncodeFrame(call.outb, events[n].op.m).value;
            wire <= Carried(states[n + 1]).value <= wire + frame
  {
    ConservedWhileSendsSucceed(call, states, events, n);
    StraysAt(call, states, events, n);
    BrokenAt(call, states, events, n);
    var frame := EncodeFrame(call.outb, events[n].op.m).value;
    var head, before, after := states[n].fired[0].body, states[n].live, states[n + 1].live;
    PrefixUnder(head, before, after, frame);
  }

  lemma BrokenAt<Req, Resp(!new)>(
      call: Call<Req, Resp>, states: seq<Client<Resp>>, events: seq<Event<Req, Resp>>, i: nat)
    requires Run(call, states, events) && i < |events| && Broke(call, states[i], events[i])
    ensures states[i].live <= states[i + 1].live <= states[i].live + EncodeFrame(call.outb, events[i].op.m).value
    ensures !states[i].phase.NotFired?
  {
    assert PerformsAt(call, states, events, i);
    LiveSendExtends(call, states[i], events[i].op.m, events[i].out, states[i + 1]);
  }

  lemma PrefixUnder(head: Str, before: Str, after: Str, frame: Str)
    requires before <= after <= before + frame
    ensures head + before <= head + after <= head + before + frame
  {
    var n := |after|;
    assert after == (before + frame)[..n];
    assert head + before + frame == head + (before + frame);
    assert (head + (before + frame))[..|head| + n] == head + after;
    assert before == after[..|before|];
    assert (head + after)[..|head| + |before|] == head + before;
  }

  /** A failed live send may indeed leave the first byte of its frame behind. */
  lemma FailedSendMayStray<Req, Resp(!new)>(call: Call<Req, Resp>, c: Client<Resp>, m: Req, e: Str)
    requires c.phase.Live? && c.phase.duplex && !Barred(c) && EncodeFrame(call.outb, m).Ok?
    ensures var frame := EncodeFrame(call.outb, m).value;
            && |frame| > 0
            && Performs(call, c, Send(m), Error(WriteError(e)), c.(live := c.live + frame[..1]))
  {
    var frame := EncodeFrame(call.outb, m).value;
    assert |frame| >= 5;
    assert c.live + frame[..1] <= c.live + frame;
  }

  /** A call with a recorded construction error never fires: whatever happens, no request is made,
      the first recorded error is the one kept, and the operation that would have fired returns it. */
  lemma {:induction false} DoomedCall<Req, Resp(!new)>(
      call: Call<Req, Resp>, states: seq<Client<Resp>>, events: seq<Event<Req, Resp>>, i: nat, j: nat)
    requires Run(call, states, events) && i <= j <= |events|
    requires states[i].phase.NotFired? && states[i].initError.Some?
    ensures var e := states[i].initError.value;
            && states[j].fired == [] && states[j].live == []
            && (|| (states[j].phase.NotFired? && states[j].initError == Some(e))
                || states[j].phase == Failed(e)
                || states[j].phase == Over(map[], map[]))
    decreases j
  {
    Lifecycle(call, states, events, 0, i);
    if i < j {
      DoomedCall(call, states, events, i, j - 1);
      Lifecycle(call, states, events, 0, j - 1);
      LifecycleAt(call, states, events, j - 1);
      DoomedAt(call, states, events, j - 1);
    }
  }

  lemma DoomedAt<Req, Resp(!new)>(
      call: Call<Req, Resp>, states: seq<Client<Resp>>, events: seq<Event<Req, Resp>>, i: nat)
    requires Run(call, states, events) && i < |events| && Sound(states[i])
    requires states[i].fired == [] && states[i].live == []
    requires || (states[i].phase.NotFired? && states[i].initError.Some?)
             || states[i].phase.Failed? || states[i].phase.Over?
    ensures states[i + 1].fired == [] && states[i + 1].live == []
    ensures states[i].phase.NotFired? && states[i + 1].phase.NotFired? ==>
              states[i + 1].initError == states[i].initError
    ensures states[i].phase.NotFired? && !states[i + 1].phase.NotFired? ==>
              && states[i + 1].phase == Failed(states[i].initError.value)
              && events[i].out == Error(states[i].initError.value)
  {
    assert PerformsAt(call, states, events, i);
    if states[i].phase.NotFired? && !states[i + 1].phase.NotFired? {
      DoomedStep(call, states[i], events[i].op, events[i].out, states[i + 1]);
    }
  }

  /** The operations that record a construction error on a call that has not fired. */
  ghost predicate Dooms<Req, Resp>(call: Call<Req, Resp>, op: Op<Req>, e: Status) {
    match op
    case Buffer(m) => EncodeFrame(call.outb, m) == Err(e)
    case AddAscii(key, text) => M.CheckAscii(key, text).Some? && e == InvalidMetadata(M.CheckAscii(key, text).value)
    case AddBinary(key, _) => M.CheckBinary(key).Some? && e == InvalidMetadata(M.CheckBinary(key).value)
    case _ => false
  }

  /** What dooms a call: a message that cannot be framed, or metadata that is rejected, before the
      call fired. The first such error is the one that later surfaces. */
  lemma FirstErrorSurfaces<Req, Resp(!new)>(
      call: Call<Req, Resp>, states: seq<Client<Resp>>, events: seq<Event<Req, Resp>>, i: nat, j: nat, e: Status)
    requires Run(call, states, events) && i < j < |events|
    requires states[i].phase.NotFired? && states[i].initError.None?
    requires Dooms(call, events[i].op, e)
    ensures events[i].op.Buffer? || e.code == InvalidArgument
    ensures states[j].fired == []
    ensures states[j].phase.NotFired? && !states[j + 1].phase.NotFired? ==>
              events[j].out == Error(e) && states[j + 1].phase == Failed(e)
  {
    DoomAt(call, states, events, i, e);
    DoomedCall(call, states, events, i + 1, j);
    Lifecycle(call, states, events, 0, j);
    DoomedAt(call, states, events, j);
  }

  lemma DoomAt<Req, Resp(!new)>(
      call: Call<Req, Resp>, states: seq<Client<Resp>>, events: seq<Event<Req, Resp>>, i: nat, e: Status)
    requires Run(call, states, events) && i < |events| && states[i].phase.NotFired? && states[i].initError.None?
    requires Dooms(call, events[i].op, e)
    ensures states[i + 1].phase.NotFired? && states[i + 1].initError == Some(e)
  {
    assert PerformsAt(call, states, events, i);
  }

  lemma DoomedStep<Req, Resp(!new)>(
      call: Call<Req, Resp>, c: Client<Resp>, op: Op<Req>, out: Out<Resp>, d: Client<Resp>)
    requires Performs(call, c, op, out, d) && c.phase.NotFired? && c.initError.Some? && !d.phase.NotFired?
    ensures d.phase == Failed(c.initError.value) && out == Error(c.initError.value)
  {
    var b, mid, o := FiringFactors(call, c, op, out, d);
    DoomedOpening(call, b, mid, o);
  }

  lemma DoomedOpening<Req, Resp>(call: Call<Req, Resp>, c: Client<Resp>, d: Client<Resp>, out: Out<Resp>)
    requires c.phase.NotFired? && c.initError.Some? && Opening(call, c, d, out)
    ensures d.phase == Failed(c.initError.value) && out == Error(c.initError.value)
  {
  }

  // ---- cancellation ----

  lemma StepBarred<Req, Resp(!new)>(
      call: Call<Req, Resp>, c: Client<Resp>, op: Op<Req>, out: Out<Resp>, d: Client<Resp>)
    requires Performs(call, c, op, out, d) && Barred(c)
    ensures d.fired == c.fired && d.live == c.live && !out.Received?
    ensures c.cancelled ==> d.cancelled
    ensures !op.SetDeadline? ==> Barred(d)
  {
    if c.phase.NotFired? && !d.phase.NotFired? {
      var b, mid, o := FiringFactors(call, c, op, out, d);
      OpeningBarred(call, b, mid, o);
    } else if Quiet(op) {
      QuietKeeps(call, c, op, out, d);
    } else if op.Send? {
      SendsBarred(call, c, d, op.m, out);
    } else if c.phase.NotFired? {
      GatheringKeeps(call, c, op, out, d);
    } else if op.CloseSend? {
      CloseKeeps(call, c, d, out);
    } else if op.Recv? && c.phase.Live? {
      ReadsBarred(call, c, d, out);
    }
  }

  lemma SendsBarred<Req, Resp>(call: Call<Req, Resp>, c: Client<Resp>, d: Client<Resp>, m: Req, out: Out<Resp>)
    requires Barred(c) && Sends(call, c, d, m, out)
    ensures d.fired == c.fired && d.live == c.live && Barred(d) && (c.cancelled ==> d.cancelled)
    ensures if c.phase.NotFired? then !out.Received? else out.Error?
  {
  }

  lemma ReadsBarred<Req, Resp>(call: Call<Req, Resp>, c: Client<Resp>, d: Client<Resp>, out: Out<Resp>)
    requires c.phase.Live? && Barred(c) && Reads(call, c, d, out)
    ensures d.fired == c.fired && d.live == c.live && out.Error? && Barred(d) && (c.cancelled ==> d.cancelled)
  {
  }

  lemma OpeningBarred<Req, Resp>(call: Call<Req, Resp>, c: Client<Resp>, d: Client<Resp>, out: Out<Resp>)
    requires c.phase.NotFired? && Barred(c) && Opening(call, c, d, out)
    ensures d.phase.Failed? && d.fired == c.fired && d.live == c.live && Barred(d) && out.Error?
    ensures c.cancelled ==> d.cancelled
  {
  }

  lemma BarredAt<Req, Resp(!new)>(
      call: Call<Req, Resp>, states: seq<Client<Resp>>, events: seq<Event<Req, Resp>>, i: nat)
    requires Run(call, states, events) && i < |events| && Barred(states[i])
    ensures states[i + 1].fired == states[i].fired && states[i + 1].live == states[i].live && !events[i].out.Received?
    ensures states[i].cancelled ==> states[i + 1].cancelled
    ensures !events[i].op.SetDeadline? ==> Barred(states[i + 1])
  {
    assert PerformsAt(call, states, events, i);
    StepBarred(call, states[i], events[i].op, events[i].out, states[i + 1]);
  }

  /** After `cancel()`, or strictly past the deadline as long as nobody sets a new one, no `recv`
      yields a message, nothing more is written, and a call that had not fired never fires. */
  lemma {:induction false} BarredIsSticky<Req, Resp(!new)>(
      call: Call<Req, Resp>, states: seq<Client<Resp>>, events: seq<Event<Req, Resp>>, i: nat, j: nat)
    requires Run(call, states, events) && i <= j <= |events| && Barred(states[i])
    requires forall k :: i <= k < j ==> !events[k].op.SetDeadline?
    ensures Barred(states[j]) && states[j].fired == states[i].fired && states[j].live == states[i].live
    ensures forall k :: i <= k < j ==> !events[k].out.Received?
    decreases j
  {
    if i < j {
      BarredIsSticky(call, states, events, i, j - 1);
      BarredAt(call, states, events, j - 1);
    }
  }

  /** Cancellation alone is final, new deadlines or not. */
  lemma {:induction false} CancelIsFinal<Req, Resp(!new)>(
      call: Call<Req, Resp>, states: seq<Client<Resp>>, events: seq<Event<Req, Resp>>, i: nat, j: nat)
    requires Run(call, states, events) && i <= j <= |events| && states[i].cancelled
    ensures states[j].cancelled && states[j].fired == states[i].fired && states[j].live == states[i].live
    ensures forall k :: i <= k < j ==> !events[k].out.Received?
    decreases j
  {
    if i < j {
      CancelIsFinal(call, states, events, i, j - 1);
      BarredAt(call, states, events, j - 1);
    }
  }

  /** A new deadline can lift a deadline that has passed: the stickiness above needs its guard. */
  lemma NewDeadlineLifts<Req, Resp(!new)>(call: Call<Req, Resp>, c: Client<Resp>, timeout: nat)
    requires Barred(c) && !c.cancelled
    ensures Performs(call, c, SetDeadline(timeout), Unit, c.(deadline := Some(c.now + timeout)))
    ensures !Barred(c.(deadline := Some(c.now + timeout)))
  {
  }

  /** One step lifts the bar exactly when it sets a deadline on a call that is not cancelled. */
  lemma LiftsExactly<Req, Resp(!new)>(
      call: Call<Req, Resp>, c: Client<Resp>, op: Op<Req>, out: Out<Resp>, d: Client<Resp>)
    requires Performs(call, c, op, out, d) && Barred(c)
    ensures !Barred(d) <==> op.SetDeadline? && !c.cancelled
  {
    StepBarred(call, c, op, out, d);
  }

  // ---- request headers ----

  lemma FrameworkNames()
    ensures !M.CustomKey("content-type") && !M.CustomKey("te") && !M.CustomKey("grpc-accept-encoding")
    ensures !M.CustomKey("grpc-encoding") && !M.CustomKey("grpc-timeout")
  {
    assert "grpc-accept-encoding"[..5] == "grpc-" && "grpc-encoding"[..5] == "grpc-" && "grpc-timeout"[..5] == "grpc-";
  }

  /** Custom metadata can neither hide nor change what the framework puts on a request. */
  lemma FrameworkHeadersSurvive<Req, Resp>(call: Call<Req, Resp>, c: Client<Resp>, name: string)
    requires c.phase.NotFired? && M.WellFormed(c.phase.metadata)
    requires name in ["content-type", "te", "grpc-accept-encoding", "grpc-encoding", "grpc-timeout"]
    ensures GetStr(RequestOf(call, c).headers, name) == GetStr(FrameworkHeaders(call, c.deadline, c.now), name)
  {
    FrameworkNames();
    M.ReservedUntouched(c.phase.metadata, FrameworkHeaders(call, c.deadline, c.now), name);
  }
}
