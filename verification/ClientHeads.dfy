/** What the client makes of a response head: the refusals, the Trailers-Only responses, and the
    initial and trailing metadata it shows. */
module ClientHeads {
  import opened Bytes
  import opened HeaderMap
  import opened Statuses
  import opened Encodings
  import opened Frames
  import opened ClientSpec
  import opened ClientRuns

  // ---- refusals ----

  /** The table of the document "HTTP to gRPC Status Code Mapping". */
  const HTTP_CODES: map<nat, Code> := map[
    400 := Internal, 401 := Unauthenticated, 403 := PermissionDenied, 404 := Unimplemented,
    429 := Unavailable, 502 := Unavailable, 503 := Unavailable, 504 := Unavailable]

  predicate GrpcHead(h: Headers) {
    GetStr(h, "content-type").Some? && ContentSuffix(GetStr(h, "content-type").value).Some?
  }

  /** The encoding of the messages under a head, if the build knows it. */
  function HeadEncoding(f: Features, h: Headers): Option<Encoding> {
    match GetStr(h, "grpc-encoding")
    case None => Some(Identity)
    case Some(token) => FromToken(f, token)
  }

  /** Which heads are refused, and as what: by their HTTP status, then as no gRPC response, then for
      an encoding the build does not have. */
  lemma HeadRefused(f: Features, http: Option<nat>, h: Headers)
    ensures var r := ProcessHead(f, http, h);
            && (r.Ok? <==> http == Some(200) && GrpcHead(h) && HeadEncoding(f, h).Some?)
            && (http != Some(200) ==>
                  r.error.code == if http.Some? && http.value in HTTP_CODES then HTTP_CODES[http.value] else Unknown)
            && (http == Some(200) && !GrpcHead(h) ==> r.error.code == Unknown)
            && (http == Some(200) && GrpcHead(h) && r.Err? ==> r.error.code == Internal)
  {
  }

  /** What such a head, or a transport that failed, means to the caller: whatever operation fired the
      call returns an error with that code, unless it was interrupted, and the call has failed. */
  lemma RefusedCall<Req, Resp(!new)>(
      call: Call<Req, Resp>, c: Client<Resp>, op: Op<Req>, out: Out<Resp>, d: Client<Resp>)
    requires Performs(call, c, op, out, d) && c.phase.NotFired? && c.initError.None? && !d.phase.NotFired?
    requires call.reply.Response? ==> ProcessHead(call.features, call.reply.http, call.reply.headers).Err?
    ensures out.Error? && d.phase == Failed(out.status)
    ensures || Stops(d, out.status)
            || out.status.code == match call.reply
                                  case Unreachable(_) => Unavailable
                                  case Response(http, h, _, _, _) => ProcessHead(call.features, http, h).error.code
  {
    var b, mid, o := FiringFactors(call, c, op, out, d);
    OpeningOpens(call, b, mid, o);
    OpeningFails(call, b, mid, o);
    OpeningTells(call, b, mid, o);
  }

  lemma OpeningTells<Req, Resp>(call: Call<Req, Resp>, c: Client<Resp>, d: Client<Resp>, out: Out<Resp>)
    requires c.phase.NotFired? && Opening(call, c, d, out) && d.phase.Failed?
    ensures out == Error(d.phase.status)
  {
  }

  // ---- Trailers-Only responses ----

  /** The response to a call has a head that is accepted. */
  predicate Accepted<Req, Resp>(call: Call<Req, Resp>) {
    && call.reply.Response? && call.reply.http == Some(200) && GrpcHead(call.reply.headers)
    && HeadEncoding(call.features, call.reply.headers).Some?
  }

  /** Such a head announces a status, which no trailers take the place of. */
  predicate TrailersOnly<Req, Resp>(call: Call<Req, Resp>) {
    && Accepted(call)
    && GetStr(call.reply.headers, "grpc-status").Some? && GetStr(WireTrailers(call), "grpc-status").None?
  }

  /** Everything a reader makes of the body of the response. */
  function BodyItems<Req, Resp>(call: Call<Req, Resp>): seq<Result<Resp, Status>>
    requires Accepted(call)
  {
    Items(Reading(call, HeadEncoding(call.features, call.reply.headers).value), call.reply.body, call.reply.ending)
  }

  /** What an accepted head leads to. */
  lemma AcceptedOpens<Req, Resp>(call: Call<Req, Resp>)
    requires Accepted(call)
    ensures Opened(call) == Ok(LiveOf(call))
  {
  }

  /** The call as it is then: the items of the body are still to come, and a status in the head is kept
      for the end. */
  function LiveOf<Req, Resp>(call: Call<Req, Resp>): Phase<Resp>
    requires Accepted(call)
  {
    var h := call.reply.headers;
    Live(call.fullDuplex, h, if GetStr(h, "grpc-status").Some? then Some(FromTrailers(h)) else None, BodyItems(call))
  }

  /** The single answer of a Trailers-Only response: the status in its head if there is no body; a
      message under such a head is a violation, and what cannot be read is an error of its own. */
  lemma TrailersOnlyAnswers<Req, Resp>(call: Call<Req, Resp>)
    requires TrailersOnly(call)
    ensures Opened(call).Ok? && Opened(call).value.Live?
    ensures var items := BodyItems(call);
            && (items == [] <==> call.reply.body == [] && call.reply.ending == Eof)
            && (items == [] ==> CallAnswers(call) == [VerdictOut(FromTrailers(call.reply.headers))])
            && (items != [] && items[0].Err? ==> CallAnswers(call) == [Error(items[0].error)])
            && (items != [] && items[0].Ok? ==>
                  CallAnswers(call) == [Error(TrailersOnlyViolation())] && TrailersOnlyViolation().code == Internal)
  {
    var inb := Reading(call, HeadEncoding(call.features, call.reply.headers).value);
    ItemsEmpty(inb, call.reply.body, call.reply.ending);
  }

  // ---- what headers() and trailers() show ----

  /** No item ends the call before its trailers are asked for: there is no error, and no message under a
      head with a status. */
  predicate Untroubled<T>(headStatus: Option<Verdict>, todo: seq<Result<T, Status>>) {
    (forall i :: 0 <= i < |todo| ==> todo[i].Ok?) && (headStatus.None? || todo == [])
  }

  /** The head is that of the response, and at the end the trailers are those on the wire, unless they
      lack the status that the head had; a call that ended early may not know them. */
  ghost predicate Shows<Req, Resp>(call: Call<Req, Resp>, p: Phase<Resp>) {
    match p
    case Live(_, head, headStatus, todo) =>
      && Opened(call).Ok? && Opened(call).value.Live?
      && head == Opened(call).value.head && headStatus == Opened(call).value.headStatus
      && (Untroubled(headStatus, Opened(call).value.todo) ==> Untroubled(headStatus, todo))
    case Over(head, trailers) =>
      && Opened(call).Ok? && Opened(call).value.Live? && head == Opened(call).value.head
      && var headStatus := Opened(call).value.headStatus;
      || trailers == FinalTrailers(head, headStatus, WireTrailers(call))
      || (!Untroubled(headStatus, Opened(call).value.todo) && trailers == FinalTrailers(head, headStatus, map[]))
    case _ => true
  }

  lemma OpeningShows<Req, Resp>(call: Call<Req, Resp>, c: Client<Resp>, d: Client<Resp>, out: Out<Resp>)
    requires c.phase.NotFired? && Opening(call, c, d, out)
    ensures Shows(call, d.phase)
  {
    OpeningOpens(call, c, d, out);
  }

  lemma ReadsShow<Req, Resp>(call: Call<Req, Resp>, c: Client<Resp>, d: Client<Resp>, out: Out<Resp>)
    requires c.phase.Live? && Reads(call, c, d, out) && Shows(call, c.phase)
    ensures Shows(call, d.phase)
  {
    var todo := c.phase.todo;
    if todo != [] {
      assert forall i :: 0 <= i < |todo| - 1 ==> todo[1..][i] == todo[i + 1];
    }
  }

  lemma StepShows<Req, Resp(!new)>(
      call: Call<Req, Resp>, c: Client<Resp>, op: Op<Req>, out: Out<Resp>, d: Client<Resp>)
    requires Performs(call, c, op, out, d) && Shows(call, c.phase) && !c.phase.Failed?
    ensures Shows(call, d.phase)
  {
    if c.phase.NotFired? && d.phase.NotFired? {
    } else if c.phase.NotFired? {
      var b, mid, o := FiringFactors(call, c, op, out, d);
      OpeningShows(call, b, mid, o);
      if mid.phase.Live? && Reads(call, mid, d, out) {
        ReadsShow(call, mid, d, out);
      }
    } else if !op.Recv? {
      LaterKeeps(call, c, op, out, d);
    } else if c.phase.Live? {
      ReadsShow(call, c, d, out);
    }
  }

  /** So it is throughout any run in which no open failed. */
  lemma MetadataShown<Req, Resp(!new)>(
      call: Call<Req, Resp>, states: seq<Client<Resp>>, events: seq<Event<Req, Resp>>, n: nat)
    requires Run(call, states, events) && n <= |events| && Unfailed(states, n)
    ensures Shows(call, states[n].phase)
  {
    for k := 0 to n
      invariant Shows(call, states[k].phase)
    {
      assert PerformsAt(call, states, events, k);
      StepShows(call, states[k], events[k].op, events[k].out, states[k + 1]);
    }
  }

  /** In such a run, `headers()` is the head of the response as soon as there is one, and stays so. */
  lemma HeadersAreTheHead<Req, Resp(!new)>(
      call: Call<Req, Resp>, states: seq<Client<Resp>>, events: seq<Event<Req, Resp>>, n: nat)
    requires Run(call, states, events) && n <= |events| && Unfailed(states, n) && !states[n].phase.NotFired?
    ensures call.reply.Response? && HeadersOf(states[n].phase) == Some(call.reply.headers)
  {
    MetadataShown(call, states, events, n);
    Lifecycle(call, states, events, 0, n);
  }

  /** `trailers()` at the end of a normal response, all of whose messages were good: the trailers on
      the wire, whatever they hold. */
  lemma TrailersAreTheWires<Req, Resp(!new)>(
      call: Call<Req, Resp>, states: seq<Client<Resp>>, events: seq<Event<Req, Resp>>, n: nat)
    requires Run(call, states, events) && n <= |events| && Unfailed(states, n) && states[n].phase.Over?
    requires Accepted(call) && GetStr(call.reply.headers, "grpc-status").None?
    requires forall i :: 0 <= i < |BodyItems(call)| ==> BodyItems(call)[i].Ok?
    ensures TrailersOf(states[n].phase) == Some(WireTrailers(call))
  {
    AcceptedOpens(call);
    MetadataShown(call, states, events, n);
  }

  /** A Trailers-Only response is heard as its one answer, and then `trailers()` is its head. */
  lemma TrailersOnlyHeard<Req, Resp(!new)>(
      call: Call<Req, Resp>, states: seq<Client<Resp>>, events: seq<Event<Req, Resp>>, n: nat)
    requires Run(call, states, events) && n <= |events| && Unfailed(states, n) && states[n].phase.Over?
    requires TrailersOnly(call)
    ensures Heard(call, states, events, n) == CallAnswers(call) && |CallAnswers(call)| == 1
    ensures TrailersOf(states[n].phase) == HeadersOf(states[n].phase) == Some(call.reply.headers)
  {
    MetadataShown(call, states, events, n);
    HeardAll(call, states, events, n);
    TrailersOnlyAnswers(call);
  }
}
