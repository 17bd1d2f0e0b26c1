/** What the caller's request amounts to on the wire: its metadata, its own headers, and its end. */
module ClientRequests {
  import opened Bytes
  import opened HeaderMap
  import opened Statuses
  import opened Encodings
  import opened Frames
  import opened Timeout
  import opened ClientSpec
  import opened ClientRuns
  import Utf8
  import M = CustomMetadata

  // ---- metadata ----

  /** The entry that an operation puts into the metadata, if it is a legal one. */
  function EntryOf<Req>(op: Op<Req>): Option<(string, M.Value)> {
    match op
    case AddAscii(key, text) =>
      if M.CustomKey(key) && !M.EndsInBin(key) && M.PrintableText(text) then Some((key, M.Ascii(text))) else None
    case AddBinary(key, bytes) =>
      if M.CustomKey(key) && M.EndsInBin(key) then Some((key, M.Binary(bytes))) else None
    case _ => None
  }

  /** The values that legal entries put under a key before the call fired, in call order. */
  function Noted<Req, Resp>(
      states: seq<Client<Resp>>, events: seq<Event<Req, Resp>>, n: nat, key: string): seq<M.Value>
    requires n <= |events| && |states| == |events| + 1
  {
    if n == 0 then []
    else
      var entry := EntryOf(events[n - 1].op);
      Noted(states, events, n - 1, key)
      + (if states[n - 1].phase.NotFired? && entry.Some? && entry.value.0 == key then [entry.value.1] else [])
  }

  /** What a call is going to send, or has sent, as metadata. */
  ghost predicate SendsMetadata<T>(c: Client<T>, bag: M.Bag) {
    && M.WellFormed(bag)
    && if c.phase.NotFired? then c.phase.metadata == bag
       else c.fired != [] ==> M.FromHeaders(c.fired[0].headers) == bag
  }

  function Noting(bag: M.Bag, entry: Option<(string, M.Value)>): M.Bag {
    match entry case None => bag case Some((key, value)) => M.Add(bag, key, value)
  }

  /** The metadata of a request, as any peer reads it off its headers. */
  lemma RequestMetadata<Req, Resp>(call: Call<Req, Resp>, c: Client<Resp>)
    requires c.phase.NotFired? && M.WellFormed(c.phase.metadata)
    ensures M.FromHeaders(RequestOf(call, c).headers) == c.phase.metadata
  {
    var own := FrameworkHeaders(call, c.deadline, c.now);
    M.FromHeadersOfWriteInto(c.phase.metadata, own);
    OwnHeadersHoldNone(call, c.deadline, c.now);
    M.MergeEmpty(c.phase.metadata);
  }

  lemma OwnHeadersHoldNone<Req, Resp>(call: Call<Req, Resp>, deadline: Option<nat>, now: nat)
    ensures M.FromHeaders(FrameworkHeaders(call, deadline, now)) == map[]
  {
    ClientRuns.FrameworkNames();
  }

  lemma NotingKeeps(bag: M.Bag, key: string, value: M.Value)
    requires M.WellFormed(bag) && M.CustomKey(key) && M.Fits(key, value)
    ensures M.WellFormed(M.Add(bag, key, value))
  {
    forall k | k in M.Add(bag, key, value)
      ensures forall i :: 0 <= i < |M.Add(bag, key, value)[k]| ==> M.Fits(k, M.Add(bag, key, value)[k][i])
    {
      M.AddAt(bag, key, value, k);
    }
  }

  lemma EntryFits<Req>(op: Op<Req>, bag: M.Bag)
    requires M.WellFormed(bag)
    ensures M.WellFormed(Noting(bag, EntryOf(op)))
  {
    var entry := EntryOf(op);
    if entry.Some? {
      if op.AddAscii? { Utf8.AsciiValid(op.text); }
      NotingKeeps(bag, entry.value.0, entry.value.1);
    }
  }

  /** An operation that leaves the call gathering notes its entry, if it has one. */
  lemma GatheringNotes<Req, Resp(!new)>(
      call: Call<Req, Resp>, c: Client<Resp>, op: Op<Req>, out: Out<Resp>, d: Client<Resp>)
    requires Performs(call, c, op, out, d) && c.phase.NotFired? && d.phase.NotFired?
    ensures d.phase.metadata == Noting(c.phase.metadata, EntryOf(op)) && d.fired == c.fired
  {
    GatheringKeeps(call, c, op, out, d);
  }

  lemma OpeningSends<Req, Resp>(call: Call<Req, Resp>, c: Client<Resp>, d: Client<Resp>, out: Out<Resp>)
    requires c.phase.NotFired? && M.WellFormed(c.phase.metadata) && Opening(call, c, d, out)
    ensures d.fired == c.fired || (d.fired == c.fired + [RequestOf(call, c)] && c.initError.None? && !Barred(c))
    ensures d.closed == c.closed && d.live == c.live
    ensures d.phase.Live? ==> d.fired == c.fired + [RequestOf(call, c)] && d.phase.duplex == call.fullDuplex
    ensures d.phase.Live? || d.phase.Failed?
  {
  }

  /** What a step that fires the call has done by its end. */
  lemma Fires<Req, Resp(!new)>(
      call: Call<Req, Resp>, c: Client<Resp>, op: Op<Req>, out: Out<Resp>, d: Client<Resp>)
    returns (b: Client<Resp>)
    requires Performs(call, c, op, out, d) && Sound(c) && c.phase.NotFired? && !d.phase.NotFired?
    requires M.WellFormed(c.phase.metadata)
    ensures b == c || b == c.(phase := c.phase.(sendClosed := true))
    ensures d.fired == [] || (d.fired == [RequestOf(call, b)] && c.initError.None? && !Barred(c))
    ensures d.phase.Live? ==> d.fired != [] && d.phase.duplex == call.fullDuplex
    ensures d.closed ==> op.CloseSend? && out == Unit && d.phase.Live? && call.fullDuplex
    ensures d.live == []
    ensures op.OpenHead? || op.CloseSend? || op.Recv?
  {
    var mid, o;
    b, mid, o := FiringFactors(call, c, op, out, d);
    OpeningSends(call, b, mid, o);
    AfterOpening(call, mid, o, op, out, d);
  }

  /** What may follow the opening within the same operation touches the wire only to close it. */
  lemma AfterOpening<Req, Resp>(
      call: Call<Req, Resp>, mid: Client<Resp>, o: Out<Resp>, op: Op<Req>, out: Out<Resp>, d: Client<Resp>)
    requires || (d == mid && out == o)
             || (op.Recv? && mid.phase.Live? && Reads(call, mid, d, out))
             || (op.CloseSend? && call.fullDuplex && mid.phase.Live? && Closes(mid, d, out))
    ensures d.fired == mid.fired && d.live == mid.live
    ensures d.phase.Live? ==> mid.phase.Live? && d.phase.duplex == mid.phase.duplex
    ensures d.closed ==> mid.closed || (op.CloseSend? && out == Unit && d.phase.Live? && call.fullDuplex)
  {
    if mid.phase.Live? && Reads(call, mid, d, out) {
      ReadsLifecycle(call, mid, d, out);
    }
  }

  lemma StepMetadata<Req, Resp(!new)>(
      call: Call<Req, Resp>, c: Client<Resp>, op: Op<Req>, out: Out<Resp>, d: Client<Resp>, bag: M.Bag)
    requires Performs(call, c, op, out, d) && Sound(c) && SendsMetadata(c, bag)
    ensures SendsMetadata(d, if c.phase.NotFired? then Noting(bag, EntryOf(op)) else bag)
  {
    EntryFits(op, bag);
    if !c.phase.NotFired? {
      StepLifecycle(call, c, op, out, d);
    } else if d.phase.NotFired? {
      GatheringNotes(call, c, op, out, d);
    } else {
      var b := Fires(call, c, op, out, d);
      RequestMetadata(call, b);
    }
  }

  /** The metadata of all the legal entries before a point, on top of what was given at first. */
  function Gathered<Req, Resp>(
      states: seq<Client<Resp>>, events: seq<Event<Req, Resp>>, n: nat, bag: M.Bag): M.Bag
    requires n <= |events| && |states| == |events| + 1
  {
    if n == 0 then bag
    else
      var before := Gathered(states, events, n - 1, bag);
      if states[n - 1].phase.NotFired? then Noting(before, EntryOf(events[n - 1].op)) else before
  }

  lemma {:induction false} GatheredUnder<Req, Resp>(
      states: seq<Client<Resp>>, events: seq<Event<Req, Resp>>, n: nat, bag: M.Bag, key: string)
    requires n <= |events| && |states| == |events| + 1
    ensures M.Under(Gathered(states, events, n, bag), key) == M.Under(bag, key) + Noted(states, events, n, key)
  {
    if n > 0 {
      GatheredUnder(states, events, n - 1, bag, key);
    }
  }

  lemma RunMetadata<Req, Resp(!new)>(
      call: Call<Req, Resp>, states: seq<Client<Resp>>, events: seq<Event<Req, Resp>>, n: nat)
    requires Run(call, states, events) && n <= |events| && M.WellFormed(states[0].phase.metadata)
    ensures SendsMetadata(states[n], Gathered(states, events, n, states[0].phase.metadata))
  {
    var bag := states[0].phase.metadata;
    for k := 0 to n
      invariant SendsMetadata(states[k], Gathered(states, events, k, bag))
    {
      Lifecycle(call, states, events, 0, k);
      assert PerformsAt(call, states, events, k);
      StepMetadata(call, states[k], events[k].op, events[k].out, states[k + 1], Gathered(states, events, k, bag));
    }
  }

  /** The caller's metadata arrives: in every run, the request once made carries under each key the
      values given at first, then those of every legal entry added before the call fired, in call
      order, and nothing else. */
  lemma MetadataArrives<Req, Resp(!new)>(
      call: Call<Req, Resp>, states: seq<Client<Resp>>, events: seq<Event<Req, Resp>>, n: nat, key: string)
    requires Run(call, states, events) && n <= |events| && M.WellFormed(states[0].phase.metadata)
    requires states[n].fired != []
    ensures M.Under(M.FromHeaders(states[n].fired[0].headers), key)
            == M.Under(states[0].phase.metadata, key) + Noted(states, events, n, key)
  {
    RunMetadata(call, states, events, n);
    Lifecycle(call, states, events, 0, n);
    GatheredUnder(states, events, n, states[0].phase.metadata, key);
  }

  // ---- the whole request ----

  /** A request made from a state of the call: what was gathered, the headers of the protocol with
      their texts, and the time that is left. */
  ghost predicate MadeFrom<Req, Resp>(call: Call<Req, Resp>, c: Client<Resp>, r: Request) {
    && c.phase.NotFired? && r.body == c.phase.body && r.upgrade == call.fullDuplex
    && M.FromHeaders(r.headers) == c.phase.metadata
    && ValuesOf(r.headers, "content-type") == [call.contentType]
    && ValuesOf(r.headers, "te") == [Text("trailers")]
    && ValuesOf(r.headers, "grpc-accept-encoding") == [AcceptedEncodings(call.features)]
    && ValuesOf(r.headers, "grpc-encoding")
       == (if call.outb.encoding == Identity then [] else [Token(call.outb.encoding)])
    && match c.deadline
       case None => ValuesOf(r.headers, "grpc-timeout") == []
       case Some(t) => c.now <= t && ValuesOf(r.headers, "grpc-timeout") == [Format(t - c.now)]
  }

  lemma OwnHeaders<Req, Resp>(call: Call<Req, Resp>, deadline: Option<nat>, now: nat)
    ensures var own := FrameworkHeaders(call, deadline, now);
            && ValuesOf(own, "content-type") == [call.contentType]
            && ValuesOf(own, "te") == [Text("trailers")]
            && ValuesOf(own, "grpc-accept-encoding") == [AcceptedEncodings(call.features)]
            && ValuesOf(own, "grpc-encoding")
               == (if call.outb.encoding == Identity then [] else [Token(call.outb.encoding)])
            && ValuesOf(own, "grpc-timeout")
               == if deadline.None? then [] else [Format(Remaining(deadline.value, now))]
  {
  }

  lemma RequestMade<Req, Resp>(call: Call<Req, Resp>, c: Client<Resp>)
    requires c.phase.NotFired? && M.WellFormed(c.phase.metadata) && !Barred(c)
    ensures MadeFrom(call, c, RequestOf(call, c))
  {
    ClientRuns.FrameworkNames();
    RequestMetadata(call, c);
    var own := FrameworkHeaders(call, c.deadline, c.now);
    M.ReservedUntouched(c.phase.metadata, own, "content-type");
    M.ReservedUntouched(c.phase.metadata, own, "te");
    M.ReservedUntouched(c.phase.metadata, own, "grpc-accept-encoding");
    M.ReservedUntouched(c.phase.metadata, own, "grpc-encoding");
    M.ReservedUntouched(c.phase.metadata, own, "grpc-timeout");
    OwnHeaders(call, c.deadline, c.now);
  }

  lemma RequestFiredAt<Req, Resp(!new)>(
      call: Call<Req, Resp>, states: seq<Client<Resp>>, events: seq<Event<Req, Resp>>, i: nat)
    requires Run(call, states, events) && i < |events| && M.WellFormed(states[0].phase.metadata)
    requires states[i].fired == [] && states[i + 1].fired != []
    ensures states[i].phase.NotFired? && !states[i + 1].phase.NotFired?
    ensures events[i].op.OpenHead? || events[i].op.CloseSend? || events[i].op.Recv?
    ensures |states[i + 1].fired| == 1 && MadeFrom(call, states[i], states[i + 1].fired[0])
  {
    Lifecycle(call, states, events, 0, i);
    Lifecycle(call, states, events, i, i + 1);
    RunMetadata(call, states, events, i);
    assert PerformsAt(call, states, events, i);
    var b := Fires(call, states[i], events[i].op, events[i].out, states[i + 1]);
    RequestMade(call, b);
  }

  /** The request of a run was made by the operation that fired it, from the state before it. */
  lemma RequestFired<Req, Resp(!new)>(
      call: Call<Req, Resp>, states: seq<Client<Resp>>, events: seq<Event<Req, Resp>>, n: nat) returns (i: nat)
    requires Run(call, states, events) && n <= |events| && M.WellFormed(states[0].phase.metadata)
    requires states[n].fired != []
    ensures i < n && states[i].phase.NotFired? && !states[i + 1].phase.NotFired?
    ensures events[i].op.OpenHead? || events[i].op.CloseSend? || events[i].op.Recv?
    ensures |states[n].fired| == 1 && MadeFrom(call, states[i], states[n].fired[0])
  {
    i := 0;
    while states[i + 1].fired == []
      invariant i < n && states[0].fired == [] && states[i].fired == []
      decreases n - i
    {
      i := i + 1;
    }
    RequestFiredAt(call, states, events, i);
    Lifecycle(call, states, events, i + 1, n);
  }

  // ---- the end of the request ----

  /** The server has been told that no more requests come: with the request itself, or by closing the
      sending half of an upgraded call. */
  predicate Sealed<T>(c: Client<T>) {
    c.fired != [] && (c.fired[0].upgrade ==> c.closed)
  }

  /** A live call has made its one request, and is of the kind that was asked for; only an upgraded
      call can have been closed. */
  ghost predicate Settled<Req, Resp>(call: Call<Req, Resp>, c: Client<Resp>) {
    && Sound(c) && (c.fired != [] ==> c.fired[0].upgrade == call.fullDuplex)
    && (c.phase.Live? ==> c.fired != [] && c.phase.duplex == call.fullDuplex)
    && (c.closed ==> c.fired != [] && call.fullDuplex)
  }

  lemma StepSettles<Req, Resp(!new)>(
      call: Call<Req, Resp>, c: Client<Resp>, op: Op<Req>, out: Out<Resp>, d: Client<Resp>)
    requires Performs(call, c, op, out, d) && Settled(call, c)
    requires c.phase.NotFired? ==> M.WellFormed(c.phase.metadata)
    ensures Settled(call, d) && (c.closed ==> d.closed)
    ensures !c.closed && d.closed ==> op.CloseSend? && out == Unit
  {
    StepLifecycle(call, c, op, out, d);
    if c.phase.NotFired? && !d.phase.NotFired? {
      var b := Fires(call, c, op, out, d);
    } else if !c.phase.NotFired? {
      LaterSettles(call, c, op, out, d);
    }
  }

  lemma LaterSettles<Req, Resp(!new)>(
      call: Call<Req, Resp>, c: Client<Resp>, op: Op<Req>, out: Out<Resp>, d: Client<Resp>)
    requires Performs(call, c, op, out, d) && !c.phase.NotFired?
    ensures c.closed ==> d.closed
    ensures !c.closed && d.closed ==> op.CloseSend? && out == Unit && c.phase.Live? && c.phase.duplex
    ensures d.phase.Live? ==> c.phase.Live? && d.phase.duplex == c.phase.duplex
  {
    if op.Recv? {
      if c.phase.Live? { ReadsLifecycle(call, c, d, out); }
    } else {
      LaterKeeps(call, c, op, out, d);
      if op.CloseSend? {
      } else if op.Send? {
        SendKeeps(call, c, d, op.m, out);
      } else if Quiet(op) {
        QuietKeeps(call, c, op, out, d);
      }
    }
  }

  /** `close_send` that succeeds ends the request: a gathering call is fired, an upgraded one closed,
      its reading half stays open. With a recorded error it fails with that. */
  lemma CloseSeals<Req, Resp(!new)>(call: Call<Req, Resp>, c: Client<Resp>, out: Out<Resp>, d: Client<Resp>)
    requires Performs(call, c, CloseSend, out, d) && Settled(call, c) && (c.phase.NotFired? || c.phase.Live?)
    requires c.phase.NotFired? ==> M.WellFormed(c.phase.metadata)
    ensures out == Unit ==> Sealed(d) && d.phase.Live? && (call.fullDuplex ==> d.closed)
    ensures c.phase.NotFired? && c.initError.Some? ==> out == Error(c.initError.value)
    ensures out == Unit || out.Error?
    ensures c.phase.Live? && out.Error? ==> out.status.code == Unavailable && d == c
  {
    StepSettles(call, c, CloseSend, out, d);
    if c.phase.NotFired? {
      ClosingLeaves(call, c, d, out);
      var b, mid, o := FiringFactors(call, c, CloseSend, out, d);
      OpeningOpens(call, b, mid, o);
      if c.initError.Some? { DoomedOpening(call, b, mid, o); }
    }
  }

  lemma RunSettles<Req, Resp(!new)>(
      call: Call<Req, Resp>, states: seq<Client<Resp>>, events: seq<Event<Req, Resp>>, n: nat)
    requires Run(call, states, events) && n <= |events| && M.WellFormed(states[0].phase.metadata)
    ensures Settled(call, states[n])
  {
    for k := 0 to n
      invariant Settled(call, states[k])
    {
      RunMetadata(call, states, events, k);
      assert PerformsAt(call, states, events, k);
      StepSettles(call, states[k], events[k].op, events[k].out, states[k + 1]);
    }
  }

  lemma SettlesAt<Req, Resp(!new)>(
      call: Call<Req, Resp>, states: seq<Client<Resp>>, events: seq<Event<Req, Resp>>, i: nat)
    requires Run(call, states, events) && i < |events| && M.WellFormed(states[0].phase.metadata)
    ensures states[i].closed ==> states[i + 1].closed
    ensures !states[i].closed && states[i + 1].closed ==> events[i].op.CloseSend? && events[i].out == Unit
  {
    RunSettles(call, states, events, i);
    RunMetadata(call, states, events, i);
    assert PerformsAt(call, states, events, i);
    StepSettles(call, states[i], events[i].op, events[i].out, states[i + 1]);
  }

  /** The sending half, once closed, stays closed, and in every run it was a `close_send` answering Ok
      that closed it. */
  lemma {:induction false} ClosedByCloseSend<Req, Resp(!new)>(
      call: Call<Req, Resp>, states: seq<Client<Resp>>, events: seq<Event<Req, Resp>>, i: nat, j: nat)
    requires Run(call, states, events) && i <= j <= |events| && M.WellFormed(states[0].phase.metadata)
    ensures states[i].closed ==> states[j].closed
    ensures !states[i].closed && states[j].closed ==>
              call.fullDuplex && exists k :: i <= k < j && events[k].op.CloseSend? && events[k].out == Unit
    decreases j
  {
    if i < j {
      ClosedByCloseSend(call, states, events, i, j - 1);
      SettlesAt(call, states, events, j - 1);
    }
    RunSettles(call, states, events, j);
  }

  /** In every run, once `close_send` has answered Ok on a call that was gathering or live, the server
      has been told that the request is complete. */
  lemma ClosedArrives<Req, Resp(!new)>(
      call: Call<Req, Resp>, states: seq<Client<Resp>>, events: seq<Event<Req, Resp>>, i: nat, n: nat)
    requires Run(call, states, events) && i < n <= |events| && M.WellFormed(states[0].phase.metadata)
    requires events[i].op.CloseSend? && events[i].out == Unit && (states[i].phase.NotFired? || states[i].phase.Live?)
    ensures Sealed(states[n])
  {
    SealedAt(call, states, events, i);
    SealedStays(call, states, events, i + 1, n);
  }

  lemma SealedAt<Req, Resp(!new)>(
      call: Call<Req, Resp>, states: seq<Client<Resp>>, events: seq<Event<Req, Resp>>, i: nat)
    requires Run(call, states, events) && i < |events| && M.WellFormed(states[0].phase.metadata)
    requires events[i].op.CloseSend? && events[i].out == Unit && (states[i].phase.NotFired? || states[i].phase.Live?)
    ensures Sealed(states[i + 1])
  {
    RunSettles(call, states, events, i);
    RunMetadata(call, states, events, i);
    assert PerformsAt(call, states, events, i);
    CloseSeals(call, states[i], events[i].out, states[i + 1]);
  }

  lemma SealedStays<Req, Resp(!new)>(
      call: Call<Req, Resp>, states: seq<Client<Resp>>, events: seq<Event<Req, Resp>>, i: nat, n: nat)
    requires Run(call, states, events) && i <= n <= |events| && M.WellFormed(states[0].phase.metadata)
    requires Sealed(states[i])
    ensures Sealed(states[n])
  {
    Lifecycle(call, states, events, i, n);
    ClosedByCloseSend(call, states, events, i, n);
  }

  /** The operations that need a response fire the call: none of them leaves it gathering, and one that
      succeeds has made the request; with a recorded error they fail with that. */
  lemma FiringOps<Req, Resp(!new)>(
      call: Call<Req, Resp>, c: Client<Resp>, op: Op<Req>, out: Out<Resp>, d: Client<Resp>)
    requires Performs(call, c, op, out, d) && Settled(call, c) && c.phase.NotFired?
    requires M.WellFormed(c.phase.metadata) && (op.OpenHead? || op.CloseSend? || op.Recv?)
    ensures !d.phase.NotFired?
    ensures c.initError.Some? ==> out == Error(c.initError.value)
    ensures !out.Error? ==> |d.fired| == 1 && Opened(call).Ok?
  {
    match op {
      case OpenHead => OpeningLeaves(call, c, d, out);
      case CloseSend => ClosingLeaves(call, c, d, out);
      case Recv => ReceivingLeaves(call, c, d, out);
    }
    StepSettles(call, c, op, out, d);
    var b, mid, o := FiringFactors(call, c, op, out, d);
    if c.initError.Some? { DoomedOpening(call, b, mid, o); }
    OpeningOpens(call, b, mid, o);
    OpeningSends(call, b, mid, o);
    AfterOpening(call, mid, o, op, out, d);
  }

  /** Sending is over once it was closed or the call has fired, unless it is live and upgraded: the
      message is refused and nothing happens. */
  lemma LateSendRefused<Req, Resp(!new)>(
      call: Call<Req, Resp>, c: Client<Resp>, m: Req, out: Out<Resp>, d: Client<Resp>)
    requires Performs(call, c, Send(m), out, d)
    requires if c.phase.NotFired? then c.phase.sendClosed else !(c.phase.Live? && c.phase.duplex)
    ensures d == c && out.Error?
    ensures EncodeFrame(call.outb, m).Ok? ==> out.status.code == Internal
  {
  }

  /** A send that a live call does not carry through fails as cancelled, as late or as unavailable. */
  lemma LiveSendErrors<Req, Resp(!new)>(
      call: Call<Req, Resp>, c: Client<Resp>, m: Req, out: Out<Resp>, d: Client<Resp>)
    requires Performs(call, c, Send(m), out, d) && c.phase.Live? && c.phase.duplex && EncodeFrame(call.outb, m).Ok?
    ensures out == Unit || out.Error?
    ensures out.Error? ==> || (out.status.code == Cancelled && d.cancelled)
                           || (out.status.code == DeadlineExceeded && d.deadline.Some? && d.now >= d.deadline.value)
                           || out.status.code == Unavailable
  {
  }

  /** Metadata is for the request alone: once the call has fired, adding some does nothing. */
  lemma LateMetadataIgnored<Req, Resp(!new)>(
      call: Call<Req, Resp>, c: Client<Resp>, op: Op<Req>, out: Out<Resp>, d: Client<Resp>)
    requires Performs(call, c, op, out, d) && !c.phase.NotFired? && (op.AddAscii? || op.AddBinary?)
    ensures d == c && out == Unit
  {
  }

  /** From `cancel` on, in every run: no message is received, nothing is written, no request is made,
      and every `recv` before the end of the call fails or the call had ended. */
  lemma CancelStops<Req, Resp(!new)>(
      call: Call<Req, Resp>, states: seq<Client<Resp>>, events: seq<Event<Req, Resp>>, i: nat, j: nat)
    requires Run(call, states, events) && i < j < |events| && events[i].op.Cancel?
    ensures states[j].cancelled && states[j].live == states[i].live && states[j].fired == states[i].fired
    ensures events[j].op.Recv? && !states[j].phase.Over? ==> events[j].out.Error?
    ensures !events[j].out.Received?
  {
    assert PerformsAt(call, states, events, i);
    CancelIsFinal(call, states, events, i + 1, j);
    BarredAt(call, states, events, j);
    if events[j].op.Recv? && !states[j].phase.Over? {
      assert PerformsAt(call, states, events, j);
      RecvFails(call, states[j], events[j].out, states[j + 1]);
    }
  }

  lemma RecvFails<Req, Resp(!new)>(call: Call<Req, Resp>, c: Client<Resp>, out: Out<Resp>, d: Client<Resp>)
    requires Performs(call, c, Recv, out, d) && Barred(c) && !c.phase.Over?
    ensures out.Error?
  {
    if c.phase.Live? {
      BarredRecv(call, c, out, d);
    } else if c.phase.NotFired? {
      var mid, o := ReceivingFactors(call, c, out, d);
      OpeningOpens(call, c, mid, o);
      OpeningBarred(call, c, mid, o);
    }
  }

  /** Nor can a call that was cancelled, or is past its deadline, be read: each `recv` on it fails, as
      cancelled or as late, and takes no item of a live one. */
  lemma BarredRecv<Req, Resp(!new)>(
      call: Call<Req, Resp>, c: Client<Resp>, out: Out<Resp>, d: Client<Resp>)
    requires Performs(call, c, Recv, out, d) && Barred(c)
    requires c.phase.Live? || (c.phase.NotFired? && c.initError.None?)
    ensures out.Error? && d.phase == if c.phase.Live? then c.phase else Phase.Failed(out.status)
    ensures || (out.status.code == Cancelled && d.cancelled)
            || (out.status.code == DeadlineExceeded && d.deadline.Some? && d.now >= d.deadline.value)
  {
    if c.phase.NotFired? {
      var mid, o := ReceivingFactors(call, c, out, d);
      OpeningBarred(call, c, mid, o);
    }
  }
}
