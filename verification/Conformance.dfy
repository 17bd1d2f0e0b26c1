/** The conformance service's bidi method: a prologue that reads the first request, and a responder
    that echoes requests back in a half-duplex or a full-duplex manner. */
module Conformance {
  import opened Bytes
  import opened HeaderMap
  import opened Statuses
  import opened Frames
  import opened FrameReader
  import opened Bidi
  import Base64
  import Utf8
  import M = CustomMetadata

  /** The `Error` of a response definition. */
  datatype ErrorDef = ErrorDef(code: int, message: Str)

  datatype Definition = Definition(data: seq<Str>, error: Option<ErrorDef>)

  /** What the server observed: request headers and timeout (only once), and echoed requests. */
  datatype Info<Req> = Info(observed: Option<Str>, requests: seq<Req>)

  datatype Reply<Req> = Reply(data: Str, info: Option<Info<Req>>)

  /** What the service does with a request message besides echoing it, and how it serialises error
      details; the message types themselves are generated code. */
  datatype Service<!Req> = Service(
    definition: Req -> Option<Definition>, fullDuplex: Req -> bool, trailers: Req -> Headers,
    details: (ErrorDef, Option<Info<Req>>) -> Str)

  /** `status_from_error`: the code is cast to a byte before it is looked up. */
  function StatusOf(e: ErrorDef): Status {
    Fail(match CodeOf(e.code % 256) case Some(c) => c case None => Unknown, Plain(e.message))
  }

  // ---- the responses, in closed form ----

  /** The `i`-th response. Half duplex: the first one echoes everything. Full duplex: the `i`-th
      one echoes the `i`-th request; surplus responses echo nothing. */
  function NthReply<Req>(def: Definition, full: bool, observed: Str, reqs: seq<Req>, i: nat): Reply<Req>
    requires i < |def.data|
  {
    var who := if i == 0 then Some(observed) else None;
    Reply(def.data[i],
          if full && i < |reqs| then Some(Info(who, [reqs[i]]))
          else if i == 0 then Some(Info(who, if full then [] else reqs))
          else None)
  }

  function AllReplies<Req>(def: Definition, full: bool, observed: Str, reqs: seq<Req>): seq<Reply<Req>> {
    seq(|def.data|, i requires 0 <= i < |def.data| => NthReply(def, full, observed, reqs, i))
  }

  /** The good requests at the front of a request stream, and what ends them. */
  function Good<Req>(items: seq<Result<Req, Status>>): seq<Req> {
    if items == [] || items[0].Err? then [] else [items[0].value] + Good(items[1..])
  }

  function Bad<Req>(items: seq<Result<Req, Status>>): Option<Status> {
    if items == [] then None
    else match items[0] case Err(s) => Some(s) case Ok(_) => Bad(items[1..])
  }

  /** How many requests a full-duplex responder reads before it stops reading. */
  function Appetite(def: Option<Definition>): nat {
    match def case None => 1 case Some(d) => |d.data| + 1
  }

  /** The error of a request stream that the responder runs into, if it does. */
  function Hits<Req>(def: Option<Definition>, full: bool, items: seq<Result<Req, Status>>): Option<Status> {
    if full && |Good(items)| >= Appetite(def) then None else Bad(items)
  }

  /** Everything the responder sends for a request stream. */
  function Sent<Req>(
      def: Option<Definition>, full: bool, observed: Str, items: seq<Result<Req, Status>>): seq<Reply<Req>>
  {
    var reqs := Good(items);
    match def
    case None => []
    case Some(d) =>
      if Hits(def, full, items).None? then AllReplies(d, full, observed, reqs)
      else if full && |reqs| <= |d.data| then AllReplies(d, full, observed, reqs)[..|reqs|]
      else []
  }

  /** How the call ends. */
  function EndResult<Req>(def: Option<Definition>, full: bool, items: seq<Result<Req, Status>>): Result<(), Status> {
    match Hits(def, full, items)
    case Some(s) => Err(s)
    case None =>
      match def
      case None => Ok(())
      case Some(d) => match d.error case None => Ok(()) case Some(e) => Err(StatusOf(e))
  }

  /** The requests that no response had echoed when the responses ran out. */
  function Leftover<Req>(def: Definition, full: bool, reqs: seq<Req>): seq<Req> {
    if !full then (if def.data == [] then reqs else [])
    else if |reqs| > |def.data| then [reqs[|def.data|]]
    else []
  }

  /** The handler's trailers at the end: a call that ends with the defined error carries its
      details, with the observations no response had a chance to report. */
  function EndTrailers<Req>(
      service: Service<Req>, def: Option<Definition>, full: bool, observed: Str, items: seq<Result<Req, Status>>,
      preset: Headers): Headers
  {
    if Hits(def, full, items).Some? || def.None? || def.value.error.None? then preset
    else
      var info := if def.value.data != [] then None
                  else Some(Info(Some(observed), Leftover(def.value, full, Good(items))));
      Insert(preset, "grpc-status-details-bin", Base64.Encode(service.details(def.value.error.value, info)))
  }

  function Echoed<Req>(replies: seq<Reply<Req>>): seq<Req> {
    if replies == [] then []
    else Echoed(replies[..|replies| - 1])
         + (match replies[|replies| - 1].info case None => [] case Some(info) => info.requests)
  }

  function DataOf<Req>(replies: seq<Reply<Req>>): seq<Str> {
    seq(|replies|, i requires 0 <= i < |replies| => replies[i].data)
  }

  lemma RepliesSnoc<Req>(def: Definition, full: bool, observed: Str, reqs: seq<Req>, n: nat)
    requires n < |def.data|
    ensures AllReplies(def, full, observed, reqs)[..n + 1]
            == AllReplies(def, full, observed, reqs)[..n] + [NthReply(def, full, observed, reqs, n)]
  {
  }

  lemma {:induction false} EchoedFull<Req>(def: Definition, observed: Str, reqs: seq<Req>, n: nat)
    requires n <= |def.data|
    ensures Echoed(AllReplies(def, true, observed, reqs)[..n]) == reqs[..if n <= |reqs| then n else |reqs|]
  {
    if n > 0 {
      var front := AllReplies(def, true, observed, reqs)[..n];
      assert front[..n - 1] == AllReplies(def, true, observed, reqs)[..n - 1];
      EchoedFull(def, observed, reqs, n - 1);
      if n <= |reqs| {
        assert reqs[..n] == reqs[..n - 1] + [reqs[n - 1]];
      }
    }
  }

  lemma {:induction false} EchoedHalf<Req>(def: Definition, observed: Str, reqs: seq<Req>, n: nat)
    requires n <= |def.data|
    ensures Echoed(AllReplies(def, false, observed, reqs)[..n]) == if n == 0 then [] else reqs
  {
    if n > 0 {
      var front := AllReplies(def, false, observed, reqs)[..n];
      assert front[..n - 1] == AllReplies(def, false, observed, reqs)[..n - 1];
      EchoedHalf(def, observed, reqs, n - 1);
    }
  }

  /** Conservation. Absent errors, the responses carry exactly the response data in order, and the
      echoes and the leftover add up to every request read: all of them in half duplex, and in full
      duplex all that were read, of which at most the last one goes unechoed. */
  lemma ResponsesConserved<Req>(def: Definition, full: bool, observed: Str, items: seq<Result<Req, Status>>)
    requires Hits(Some(def), full, items).None?
    ensures var replies, reqs := Sent(Some(def), full, observed, items), Good(items);
            var read := if full && |reqs| > |def.data| + 1 then reqs[..|def.data| + 1] else reqs;
            && DataOf(replies) == def.data
            && Echoed(replies) + Leftover(def, full, reqs) == read
            && (!full && def.data != [] ==> Echoed(replies) == reqs)
            && (full ==> |Leftover(def, full, reqs)| <= 1)
  {
    var reqs, replies, n := Good(items), Sent(Some(def), full, observed, items), |def.data|;
    assert replies == AllReplies(def, full, observed, reqs);
    assert replies[..n] == replies;
    assert DataOf(replies) == def.data;
    if full {
      EchoedFull(def, observed, reqs, n);
      if |reqs| > n {
        assert reqs[..n + 1] == reqs[..n] + [reqs[n]];
        assert |reqs| == n + 1 ==> reqs[..n + 1] == reqs;
      } else {
        assert reqs[..|reqs|] == reqs;
      }
    } else {
      EchoedHalf(def, observed, reqs, n);
    }
  }

  /** What the server observed goes out once: with the first response and no other; if there is none,
      with the details of the error. */
  lemma ObservedOnce<Req>(
      service: Service<Req>, def: Definition, full: bool, observed: Str, items: seq<Result<Req, Status>>, i: nat)
    requires i < |Sent(Some(def), full, observed, items)|
    ensures var info := Sent(Some(def), full, observed, items)[i].info;
            if i == 0 then info.Some? && info.value.observed == Some(observed)
            else info.Some? ==> info.value.observed == None
  {
  }

  /** A request error costs half duplex all its responses, and full duplex none of those owed by then:
      every good request before it was echoed. */
  lemma AnsweredBeforeError<Req>(
      def: Definition, full: bool, observed: Str, items: seq<Result<Req, Status>>)
    requires Hits(Some(def), full, items).Some?
    ensures var replies := Sent(Some(def), full, observed, items);
            if full then |replies| == |Good(items)| && Echoed(replies) == Good(items) && DataOf(replies) <= def.data
            else replies == []
  {
    var reqs := Good(items);
    if full {
      EchoedFull(def, observed, reqs, |reqs|);
      assert reqs[..|reqs|] == reqs;
    }
  }

  // ---- how the call ends ----

  /** The code with this number, as far as a byte can tell it, or Unknown if no code has it. */
  predicate IsDefinedCode(e: ErrorDef, c: Code) {
    Number(c) == e.code % 256 || (c == Unknown && forall d: Code :: Number(d) != e.code % 256)
  }

  /** A request error that was met is the result. Otherwise the call fails exactly when the definition
      has an error, with its code and its message. */
  ghost predicate Concludes<Req>(
      def: Option<Definition>, full: bool, items: seq<Result<Req, Status>>, r: Result<(), Status>)
  {
    match Hits(def, full, items)
    case Some(s) => r == Err(s)
    case None =>
      if def.None? || def.value.error.None? then r == Ok(())
      else
        && r.Err? && IsDefinedCode(def.value.error.value, r.error.code)
        && Wording(r.error.message) == def.value.error.value.message && r.error.metadata == map[]
  }

  /** The definition's error, if the call is to end with it. */
  function DefinedError<Req>(
      def: Option<Definition>, full: bool, items: seq<Result<Req, Status>>): Option<ErrorDef>
  {
    if Hits(def, full, items).None? && def.Some? then def.value.error else None
  }

  /** The details of that error are in the trailers, in Base64: with what was observed and the requests
      that were read, if no response reported them. */
  ghost predicate HoldsDetails<Req>(
      service: Service<Req>, def: Option<Definition>, full: bool, observed: Str, items: seq<Result<Req, Status>>,
      h: Headers)
  {
    var reqs := Good(items);
    var info := if def.Some? && def.value.data != [] then None
                else Some(Info(Some(observed), if full && reqs != [] then [reqs[0]] else reqs));
    match DefinedError(def, full, items)
    case None => true
    case Some(e) =>
      var values := ValuesOf(h, "grpc-status-details-bin");
      |values| == 1 && Base64.Decode(values[0]) == Some(service.details(e, info))
  }

  lemma EndsAsDefined<Req>(
      service: Service<Req>, def: Option<Definition>, full: bool, observed: Str, items: seq<Result<Req, Status>>,
      preset: Headers)
    ensures Concludes(def, full, items, EndResult(def, full, items))
    ensures HoldsDetails(service, def, full, observed, items,
                         EndTrailers(service, def, full, observed, items, preset))
  {
    if def.Some? && def.value.error.Some? {
      var e, reqs := def.value.error.value, Good(items);
      StatusDefined(e);
      if def.value.data == [] { LeftoverOfNone(def.value, full, reqs); }
      Base64.DecodeOfEncode(service.details(e, if def.value.data != [] then None
                                               else Some(Info(Some(observed), Leftover(def.value, full, reqs)))));
    }
  }

  lemma LeftoverOfNone<Req>(def: Definition, full: bool, reqs: seq<Req>)
    requires def.data == []
    ensures Leftover(def, full, reqs) == if full && reqs != [] then [reqs[0]] else reqs
  {
  }

  lemma StatusDefined(e: ErrorDef)
    ensures IsDefinedCode(e, StatusOf(e).code)
    ensures Wording(StatusOf(e).message) == e.message && StatusOf(e).metadata == map[]
  {
    var n := e.code % 256;
    if n < |CODES| {
      CodesDistinct(n);
    }
  }

  // ---- the responder ----

  /** How a turn of the receive loop ends: read on, leave the loop, or give up. */
  datatype Turn = GoOn | Stop | GaveUp(status: Status)

  /** How many responses at the front can be framed. */
  function Frameable<T>(outb: Outbound<T>, replies: seq<T>): (n: nat)
    ensures n <= |replies|
  {
    if replies == [] || EncodeFrame(outb, replies[0]).Err? then 0 else 1 + Frameable(outb, replies[1..])
  }

  predicate AllFramed<T>(outb: Outbound<T>, replies: seq<T>) {
    Frameable(outb, replies) == |replies|
  }

  lemma {:induction false} FrameableIs<T>(outb: Outbound<T>, replies: seq<T>, n: nat)
    requires n <= |replies| && Encodable(outb, replies[..n])
    requires n == |replies| || EncodeFrame(outb, replies[n]).Err?
    ensures Frameable(outb, replies) == n
  {
    if n > 0 {
      assert replies[0] == replies[..n][0];
      assert replies[1..][..n - 1] == replies[..n][1..];
      FrameableIs(outb, replies[1..], n - 1);
    }
  }

  /** The responder was stopped at a response that could not be framed. */
  predicate CutShort<T(==)>(outb: Outbound<T>, replies: seq<T>, sent: seq<T>, s: Status) {
    |sent| < |replies| && sent == replies[..|sent|] && EncodeFrame(outb, replies[|sent|]) == Err(s)
  }

  /** The requests still ahead of the responder: the replayed first one, then the channel's. */
  function Ahead<Req>(first: Option<Req>, todo: seq<Result<Req, Status>>): seq<Result<Req, Status>> {
    (match first case None => [] case Some(m) => [Ok(m)]) + todo
  }

  lemma AheadOfNothing<Req>(todo: seq<Result<Req, Status>>)
    ensures Ahead(None, todo) == todo
  {
  }

  lemma GoodNext<Req>(items: seq<Result<Req, Status>>, got: nat, m: Req, ahead: seq<Result<Req, Status>>)
    requires got <= |Good(items)|
    requires Good([Ok(m)] + ahead) == Good(items)[got..] && Bad([Ok(m)] + ahead) == Bad(items)
    ensures got < |Good(items)| && Good(items)[got] == m
    ensures Good(ahead) == Good(items)[got + 1..] && Bad(ahead) == Bad(items)
  {
    assert ([Ok(m)] + ahead)[1..] == ahead;
    assert Good(items)[got..] == [m] + Good(ahead);
    assert Good(items)[got..][0] == m;
    assert Good(items)[got + 1..] == Good(items)[got..][1..];
  }

  class Responder<Req(!new)> {
    const service: Service<Req>
    const def: Option<Definition>
    const full: bool
    const observed: Str
    var first: Option<Req>
    var requests: seq<Req>
    var respNum: nat

    constructor (service: Service<Req>, def: Option<Definition>, full: bool, observed: Str, first: Option<Req>)
      ensures this.service == service && this.def == def && this.full == full && this.observed == observed
      ensures this.first == first && requests == [] && respNum == 0
    {
      this.service, this.def, this.full, this.observed := service, def, full, observed;
      this.first, requests, respNum := first, [], 0;
    }

    /** Between two receives: in half duplex nothing was sent and everything read is pending; in
        full duplex each request read so far was answered by its response. */
    ghost predicate InStep(channel: Channel<Req, Reply<Req>>, got: nat, all: seq<Req>)
      reads this, channel, channel.sink
    {
      && got <= |all|
      && if full then
           && requests == [] && respNum == got
           && match def
              case None => got == 0 && channel.sent == []
              case Some(d) => got <= |d.data| && channel.sent == AllReplies(d, full, observed, all)[..got]
         else respNum == 0 && requests == all[..got] && channel.sent == []
    }

    /** After the receive loop. */
    ghost predicate ReadingDone(channel: Channel<Req, Reply<Req>>, items: seq<Result<Req, Status>>)
      reads this, channel, channel.sink
    {
      var all := Good(items);
      && Hits(def, full, items).None?
      && match def
         case None => channel.sent == []
         case Some(d) =>
           && respNum <= |d.data| && channel.sent == AllReplies(d, full, observed, all)[..respNum]
           && (respNum == 0 && d.data != [] ==> requests == if full then [] else all)
           && (if full then respNum == if |all| <= |d.data| then |all| else |d.data| else respNum == 0)
           && (d.data == [] ==> requests == Leftover(d, full, all))
    }

    /** Why the responder gave up, absent transport failures: a request error it ran into, or a
        response that could not be framed. */
    ghost predicate GivesUp(channel: Channel<Req, Reply<Req>>, items: seq<Result<Req, Status>>, s: Status)
      reads channel
    {
      var replies := Sent(def, full, observed, items);
      || (Hits(def, full, items) == Some(s) && channel.sent == replies)
      || CutShort(channel.outb, replies, channel.sent, s)
    }

    /** The receive loop: replay the first request, then read the channel. */
    method ReadRequests(channel: Channel<Req, Reply<Req>>) returns (r: Result<(), Status>)
      requires channel.Valid() && this !in channel.Repr && channel.sent == [] && channel.Intact()
      requires requests == [] && respNum == 0
      modifies this, channel.Repr
      ensures channel.Valid() && fresh(channel.Repr - old(channel.Repr))
      ensures channel.responseTrailers == old(channel.responseTrailers)
      ensures channel.sink.trailers == old(channel.sink.trailers)
      ensures r.Ok? ==> channel.Intact() && ReadingDone(channel, old(Ahead(first, channel.Todo())))
      ensures channel.Intact() ==>
                r.Ok? || GivesUp(channel, old(Ahead(first, channel.Todo())), r.error)
    {
      ghost var items, got := Ahead(first, channel.Todo()), 0;
      ghost var all := Good(items);
      var turn := GoOn;
      while turn == GoOn
        invariant channel.Valid() && this !in channel.Repr && fresh(channel.Repr - old(channel.Repr))
        invariant channel.responseTrailers == old(channel.responseTrailers)
        invariant channel.sink.trailers == old(channel.sink.trailers)
        invariant turn == GoOn ==> channel.Intact() && InStep(channel, got, all) && Facing(channel, got, items)
        invariant turn == Stop ==> channel.Intact() && ReadingDone(channel, items)
        invariant turn.GaveUp? && channel.Intact() ==> GivesUp(channel, items, turn.status)
        decreases if turn == GoOn then |Ahead(first, channel.Todo())| + 1 else 0
      {
        turn := Advance(channel, got, items);
        got := got + 1;
      }
      return match turn case GaveUp(s) => Err(s) case _ => Ok(());
    }

    /** `got` requests were read; the rest of the stream is still ahead. */
    ghost predicate Facing(channel: Channel<Req, Reply<Req>>, got: nat, items: seq<Result<Req, Status>>)
      requires channel.Valid()
      reads this, channel, channel.Repr
    {
      var ahead := Ahead(first, channel.Todo());
      got <= |Good(items)| && Good(ahead) == Good(items)[got..] && Bad(ahead) == Bad(items)
    }

    /** One turn of the receive loop. */
    method Advance(channel: Channel<Req, Reply<Req>>, ghost got: nat, ghost items: seq<Result<Req, Status>>)
      returns (turn: Turn)
      requires channel.Valid() && this !in channel.Repr && channel.Intact()
      requires InStep(channel, got, Good(items)) && Facing(channel, got, items)
      modifies this, channel.Repr
      ensures channel.Valid() && fresh(channel.Repr - old(channel.Repr))
      ensures channel.responseTrailers == old(channel.responseTrailers)
      ensures channel.sink.trailers == old(channel.sink.trailers)
      ensures turn == GoOn ==>
                && channel.Intact() && InStep(channel, got + 1, Good(items)) && Facing(channel, got + 1, items)
                && |Ahead(first, channel.Todo())| < |Ahead(old(first), old(channel.Todo()))|
      ensures turn == Stop ==> channel.Intact() && ReadingDone(channel, items)
      ensures turn.GaveUp? && channel.Intact() ==> GivesUp(channel, items, turn.status)
    {
      ghost var all := Good(items);
      var next := Take(channel);
      if next.None? {
        assert all[..got] == all;
        return Stop;
      }
      if next.value.Err? {
        assert all[got..] == [];
        return GaveUp(next.value.error);
      }
      GoodNext(items, got, next.value.value, Ahead(first, channel.Todo()));
      turn := Accept(channel, next.value.value, got, items);
    }

    /** A good request: keep it, and in full duplex answer it at once while responses last. */
    method Accept(channel: Channel<Req, Reply<Req>>, m: Req, ghost got: nat, ghost items: seq<Result<Req, Status>>)
      returns (turn: Turn)
      requires channel.Valid() && this !in channel.Repr && channel.Intact()
      requires InStep(channel, got, Good(items)) && got < |Good(items)| && Good(items)[got] == m
      modifies this, channel, channel.sink
      ensures channel.Valid() && channel.Repr == old(channel.Repr) && channel.Todo() == old(channel.Todo())
      ensures channel.responseTrailers == old(channel.responseTrailers)
      ensures channel.sink.trailers == old(channel.sink.trailers) && first == old(first)
      ensures turn == GoOn ==> channel.Intact() && InStep(channel, got + 1, Good(items))
      ensures turn == Stop ==> channel.Intact() && ReadingDone(channel, items)
      ensures turn.GaveUp? && channel.Intact() ==>
                CutShort(channel.outb, Sent(def, full, observed, items), channel.sent, turn.status)
    {
      ghost var all := Good(items);
      assert all[..got + 1] == all[..got] + [m];
      requests := requests + [m];
      if full {
        if def.None? || respNum >= |def.value.data| {
          return Stop;
        }
        var r := Echo(channel, got, all);
        if r.Err? {
          return GaveUp(r.error);
        }
      }
      return GoOn;
    }

    /** A full-duplex answer to the request just read. */
    method Echo(channel: Channel<Req, Reply<Req>>, ghost got: nat, ghost all: seq<Req>) returns (r: Result<(), Status>)
      requires channel.Valid() && this !in channel.Repr && channel.Intact()
      requires full && def.Some? && got < |all| && got < |def.value.data| && respNum == got
      requires requests == [all[got]] && channel.sent == AllReplies(def.value, full, observed, all)[..got]
      modifies this, channel, channel.sink
      ensures channel.Valid() && channel.Repr == old(channel.Repr) && channel.Todo() == old(channel.Todo())
      ensures channel.responseTrailers == old(channel.responseTrailers)
      ensures channel.sink.trailers == old(channel.sink.trailers) && first == old(first)
      ensures r.Err? && channel.Intact() ==>
                && channel.sent == old(channel.sent)
                && EncodeFrame(channel.outb, NthReply(def.value, full, observed, all, got)) == Err(r.error)
      ensures r.Ok? ==> channel.Intact() && InStep(channel, got + 1, all)
    {
      RepliesSnoc(def.value, full, observed, all, got);
      r := Answer(channel, Some(requests));
    }

    method Take(channel: Channel<Req, Reply<Req>>) returns (r: Option<Result<Req, Status>>)
      requires channel.Valid() && this !in channel.Repr
      modifies this, channel.Repr
      ensures channel.Valid() && fresh(channel.Repr - old(channel.Repr))
      ensures channel.sent == old(channel.sent) && channel.Intact() == old(channel.Intact())
      ensures channel.responseTrailers == old(channel.responseTrailers)
      ensures channel.sink.trailers == old(channel.sink.trailers)
      ensures requests == old(requests) && respNum == old(respNum)
      ensures Ahead(old(first), old(channel.Todo())) ==
                if r.Some? then [r.value] + Ahead(first, channel.Todo()) else []
    {
      if first.Some? {
        r := Some(Ok(first.value));
        first := None;
        AheadOfNothing(channel.Todo());
      } else {
        AheadOfNothing(channel.Todo());
        r := channel.Recv();
        AheadOfNothing(channel.Todo());
      }
    }

    function NextReply(i: nat, echo: Option<seq<Req>>): Reply<Req>
      requires def.Some? && i < |def.value.data|
    {
      Reply(def.value.data[i],
            if echo.None? then None else Some(Info(if i == 0 then Some(observed) else None, echo.value)))
    }

    /** Send the next response; `echo` carries the pending requests, which it uses up. */
    method Answer(channel: Channel<Req, Reply<Req>>, echo: Option<seq<Req>>) returns (r: Result<(), Status>)
      requires channel.Valid() && this !in channel.Repr && def.Some? && respNum < |def.value.data|
      modifies this, channel, channel.sink
      ensures channel.Valid() && channel.Repr == old(channel.Repr) && channel.Todo() == old(channel.Todo())
      ensures channel.responseTrailers == old(channel.responseTrailers)
      ensures channel.sink.trailers == old(channel.sink.trailers) && first == old(first)
      ensures r.Err? && channel.Intact() ==>
                && channel.sent == old(channel.sent)
                && EncodeFrame(channel.outb, NextReply(old(respNum), echo)) == Err(r.error)
      ensures r.Ok? ==>
                && channel.Intact() == old(channel.Intact()) && respNum == old(respNum) + 1
                && requests == (if echo.Some? then [] else old(requests))
                && channel.sent == old(channel.sent) + [NextReply(old(respNum), echo)]
    {
      if echo.Some? {
        requests := [];
      }
      r := channel.Send(NextReply(respNum, echo));
      if r.Ok? {
        respNum := respNum + 1;
      }
    }

    /** Flush the responses still owed. */
    method Flush(channel: Channel<Req, Reply<Req>>, ghost items: seq<Result<Req, Status>>)
      returns (r: Result<(), Status>)
      requires channel.Valid() && this !in channel.Repr && channel.Intact() && def.Some?
      requires ReadingDone(channel, items)
      modifies this, channel, channel.sink
      ensures channel.Valid() && channel.responseTrailers == old(channel.responseTrailers)
      ensures channel.Repr == old(channel.Repr) && channel.sink.trailers == old(channel.sink.trailers)
      ensures r.Err? && channel.Intact() ==>
                CutShort(channel.outb, Sent(def, full, observed, items), channel.sent, r.error)
      ensures r.Ok? ==> channel.Intact() && channel.sent == Sent(def, full, observed, items)
                        && respNum == |def.value.data|
                        && (respNum == 0 ==> requests == Leftover(def.value, full, Good(items)))
    {
      ghost var d, all := def.value, Good(items);
      while respNum < |def.value.data|
        invariant channel.Valid() && this !in channel.Repr && channel.Intact() && channel.Repr == old(channel.Repr)
        invariant channel.responseTrailers == old(channel.responseTrailers)
        invariant channel.sink.trailers == old(channel.sink.trailers)
        invariant respNum <= |d.data| && channel.sent == AllReplies(d, full, observed, all)[..respNum]
        invariant respNum == 0 && d.data != [] ==> requests == if full then [] else all
        invariant full ==> respNum >= if |all| <= |d.data| then |all| else |d.data|
        invariant d.data == [] ==> requests == Leftover(d, full, all)
      {
        var echo := if respNum == 0 then Some(requests) else None;
        ghost var i := respNum;
        r := Answer(channel, echo);
        if r.Err? {
          return;
        }
        RepliesSnoc(d, full, observed, all, i);
      }
      assert AllReplies(d, full, observed, all)[..|d.data|] == AllReplies(d, full, observed, all);
      return Ok(());
    }

    /** `respond`: absent transport failures, what is sent and how the call ends are the closed
        forms above, for every request stream, erroneous ones included. */
    method Respond(channel: Channel<Req, Reply<Req>>) returns (r: Result<(), Status>)
      requires channel.Valid() && this !in channel.Repr && channel.sent == [] && channel.Intact()
      requires requests == [] && respNum == 0
      modifies this, channel.Repr
      ensures channel.Valid() && fresh(channel.Repr - old(channel.Repr))
      ensures channel.sink.trailers == old(channel.sink.trailers)
      ensures channel.Intact() ==>
                Responds(service, def, full, observed, old(Ahead(first, channel.Todo())), old(channel.responseTrailers),
                         channel.outb, channel.sent, r, channel.responseTrailers)
      ensures && channel.Intact()
              && AllFramed(channel.outb, Sent(def, full, observed, old(Ahead(first, channel.Todo())))) ==>
                && Concludes(def, full, old(Ahead(first, channel.Todo())), r)
                && HoldsDetails(service, def, full, observed, old(Ahead(first, channel.Todo())),
                                channel.responseTrailers)
    {
      EndsAsDefined(service, def, full, observed, Ahead(first, channel.Todo()), channel.responseTrailers);
      ghost var items, replies := Ahead(first, channel.Todo()), Sent(def, full, observed, Ahead(first, channel.Todo()));
      r := ReadRequests(channel);
      if r.Err? {
        AllOrCut(channel.outb, replies, channel.sent);
        return;
      }
      if def.Some? {
        r := Flush(channel, items);
        AllOrCut(channel.outb, replies, channel.sent);
        if r.Err? {
          return;
        }
        if def.value.error.Some? {
          var e := def.value.error.value;
          var info := if respNum == 0 then Some(Info(Some(observed), requests)) else None;
          channel.InsertTrailer("grpc-status-details-bin", Base64.Encode(service.details(e, info)));
          return Err(StatusOf(e));
        }
      }
      return Ok(());
    }
  }

  /** What responding to a request stream comes to, absent transport failures: every response of the
      closed form as long as they can be framed; the first one that cannot ends the call. */
  ghost predicate Responds<Req>(
      service: Service<Req>, def: Option<Definition>, full: bool, observed: Str, items: seq<Result<Req, Status>>,
      preset: Headers, outb: Outbound<Reply<Req>>, sent: seq<Reply<Req>>, r: Result<(), Status>, trailers: Headers)
  {
    var replies := Sent(def, full, observed, items);
    var n := Frameable(outb, replies);
    && sent == replies[..n]
    && if n < |replies| then
         && EncodeFrame(outb, replies[n]).Err? && r == Err(EncodeFrame(outb, replies[n]).error)
         && trailers == preset
       else
         r == EndResult(def, full, items) && trailers == EndTrailers(service, def, full, observed, items, preset)
  }

  lemma AllOrCut<T>(outb: Outbound<T>, replies: seq<T>, sent: seq<T>)
    requires Encodable(outb, sent)
    ensures sent == replies ==> Frameable(outb, replies) == |replies| && sent == replies[..|replies|]
    ensures forall s :: CutShort(outb, replies, sent, s) ==> Frameable(outb, replies) == |sent|
  {
    if sent == replies {
      assert replies[..|replies|] == replies;
      FrameableIs(outb, replies, |replies|);
    }
    if |sent| < |replies| && sent == replies[..|sent|] && EncodeFrame(outb, replies[|sent|]).Err? {
      FrameableIs(outb, replies, |sent|);
    }
  }

  // ---- prologue and responder, across the seam ----

  function ReasonOf(r: Result<(), Status>): Status {
    match r case Ok(_) => Done() case Err(s) => s
  }

  /** What goes on the wire for a request stream: the frames of the closed-form responses, and
      trailers that carry the end result over the handler's own. */
  ghost predicate Answered<Req(!new)>(
      service: Service<Req>, def: Option<Definition>, full: bool, observed: Str, items: seq<Result<Req, Status>>,
      preset: Headers, outb: Outbound<Reply<Req>>, written: Str, trailers: Headers)
  {
    exists sent: seq<Reply<Req>>, r: Result<(), Status>, h: Headers ::
      && Responds(service, def, full, observed, items, preset, outb, sent, r, h)
      && Encodable(outb, sent) && written == WireOf(outb, sent) && trailers == WriteInto(ReasonOf(r), h)
  }

  /** The trailers as the client reads them: the code of the request error that was met, or of the
      definition's error with its message and details, or success. */
  ghost predicate EndsOnWire<Req>(
      service: Service<Req>, def: Option<Definition>, full: bool, observed: Str, items: seq<Result<Req, Status>>,
      preset: Headers, trailers: Headers)
  {
    && (Hits(def, full, items).Some? && M.WellFormed(Hits(def, full, items).value.metadata) ==>
          ReadCode(trailers) == Hits(def, full, items).value.code)
    && (Hits(def, full, items).None? ==> M.FromHeaders(trailers) == M.FromHeaders(preset))
    && (Hits(def, full, items).None? ==>
          match DefinedError(def, full, items)
          case None => ReadCode(trailers) == Success
          case Some(e) =>
            && IsDefinedCode(e, ReadCode(trailers)) && HoldsDetails(service, def, full, observed, items, trailers)
            && (e.message != [] && Utf8.Valid(e.message) ==> ReadMessage(trailers) == e.message))
  }

  lemma AnsweredEnds<Req(!new)>(
      service: Service<Req>, def: Option<Definition>, full: bool, observed: Str, items: seq<Result<Req, Status>>,
      preset: Headers, outb: Outbound<Reply<Req>>, written: Str, trailers: Headers)
    requires Answered(service, def, full, observed, items, preset, outb, written, trailers)
    requires AllFramed(outb, Sent(def, full, observed, items))
    ensures EndsOnWire(service, def, full, observed, items, preset, trailers)
  {
    var sent: seq<Reply<Req>>, r: Result<(), Status>, h: Headers :|
      && Responds(service, def, full, observed, items, preset, outb, sent, r, h)
      && Encodable(outb, sent) && written == WireOf(outb, sent) && trailers == WriteInto(ReasonOf(r), h);
    EndsAsDefined(service, def, full, observed, items, preset);
    EndKeepsMetadata(service, def, full, observed, items, preset);
    EndRead(service, def, full, observed, items, preset, r, h);
  }

  lemma EndRead<Req>(
      service: Service<Req>, def: Option<Definition>, full: bool, observed: Str, items: seq<Result<Req, Status>>,
      preset: Headers, r: Result<(), Status>, h: Headers)
    requires Concludes(def, full, items, r) && HoldsDetails(service, def, full, observed, items, h)
    requires M.FromHeaders(h) == M.FromHeaders(preset)
    ensures EndsOnWire(service, def, full, observed, items, preset, WriteInto(ReasonOf(r), h))
  {
    ReasonRead(ReasonOf(r), h);
    M.MergeEmpty(M.FromHeaders(h));
  }

  lemma EndKeepsMetadata<Req>(
      service: Service<Req>, def: Option<Definition>, full: bool, observed: Str, items: seq<Result<Req, Status>>,
      preset: Headers)
    ensures M.FromHeaders(EndTrailers(service, def, full, observed, items, preset)) == M.FromHeaders(preset)
  {
    var name := "grpc-status-details-bin";
    assert name[..5] == "grpc-";
    var own := EndTrailers(service, def, full, observed, items, preset);
    if own != preset { M.InsertReserved(preset, name, own[name][0]); }
  }

  /** What of a status and of the handler's own trailers is read back. */
  lemma ReasonRead(s: Status, h: Headers)
    ensures M.WellFormed(s.metadata) ==>
              && ReadCode(WriteInto(s, h)) == s.code
              && ValuesOf(WriteInto(s, h), "grpc-status-details-bin") == ValuesOf(h, "grpc-status-details-bin")
              && M.FromHeaders(WriteInto(s, h)) == M.Merge(M.FromHeaders(h), s.metadata)
    ensures Proper(s) && Wording(s.message) != [] ==> ReadMessage(WriteInto(s, h)) == Wording(s.message)
  {
    if M.WellFormed(s.metadata) {
      CodeDelivered(s, h);
      DetailsKept(s, h);
      MetadataDelivered(s, h);
    }
    if Proper(s) {
      MessageDelivered(s, h);
    }
  }

  lemma DetailsKept(s: Status, h: Headers)
    requires M.WellFormed(s.metadata)
    ensures ValuesOf(WriteInto(s, h), "grpc-status-details-bin") == ValuesOf(h, "grpc-status-details-bin")
  {
    var name := "grpc-status-details-bin";
    assert name[..5] == "grpc-";
    assert |name| != |"grpc-status"| && |name| != |"grpc-message"|;
    M.ReservedUntouched(s.metadata, Framework(s, h), name);
  }

  /** A whole bidi call on the server. The prologue reads the first request with a reader of its
      own and drops it; the responder reads on with a fresh reader over the same bytes. For every
      byte stream, what goes on the wire is the closed form for the items of that stream, followed
      once by trailers that carry the end result. */
  method ServeBidi<Req(!new)>(
      service: Service<Req>, source: ByteSource, sink: Sink, inb: Inbound<Req>, outb: Outbound<Reply<Req>>,
      observed: Str)
    returns (rejected: Option<Status>)
    requires sink.written == [] && sink.trailers == [] && !sink.failed
    modifies source, sink
    ensures var items := Items(inb, old(source.rest), source.ending);
            if items != [] && items[0].Err? then
              rejected == Some(items[0].error) && sink.written == [] && sink.trailers == []
            else
              var first := if items == [] then None else Some(items[0].value);
              var def := if first.None? then None else service.definition(first.value);
              var full := first.Some? && service.fullDuplex(first.value);
              var preset := if first.None? then map[] else service.trailers(first.value);
              && rejected.None? && |sink.trailers| == 1
              && (!sink.failed ==>
                    Answered(service, def, full, observed, items, preset, outb, sink.written, sink.trailers[0]))
              && (!sink.failed && AllFramed(outb, Sent(def, full, observed, items)) ==>
                    EndsOnWire(service, def, full, observed, items, preset, sink.trailers[0]))
  {
    rejected := None;
    var first := ReadFirst(source, inb);
    if first.Some? && first.value.Err? {
      rejected := Some(first.value.error);
      return;
    }
    var request := match first case None => None case Some(Ok(m)) => Some(m);
    var def := match request case None => None case Some(m) => service.definition(m);
    var full := match request case None => false case Some(m) => service.fullDuplex(m);
    var trailers := match request case None => map[] case Some(m) => service.trailers(m);
    var responder := new Responder(service, def, full, observed, request);
    ghost var items := Ahead(request, Items(inb, source.rest, source.ending));
    RunResponder(responder, source, sink, inb, outb, trailers);
    if !sink.failed && AllFramed(outb, Sent(def, full, observed, items)) {
      AnsweredEnds(service, def, full, observed, items, trailers, outb, sink.written, sink.trailers[0]);
    }
  }

  /** The prologue's read, with a reader that is then dropped. */
  method ReadFirst<Req>(source: ByteSource, inb: Inbound<Req>) returns (first: Option<Result<Req, Status>>)
    modifies source
    ensures var items := Items(inb, old(source.rest), source.ending);
            match first
            case None => items == [] && Items(inb, source.rest, source.ending) == []
            case Some(Err(s)) => items != [] && items[0] == Err(s)
            case Some(Ok(m)) => items == [Ok(m)] + Items(inb, source.rest, source.ending)
  {
    ItemsEmpty(inb, source.rest, source.ending);
    var early := new MessageStream(source, inb);
    ghost var inStep;
    first, inStep := early.Take();
  }

  /** The upgrade phase: a fresh reader over the retained bytes, the responder, the trailers. */
  method RunResponder<Req(!new)>(
      responder: Responder<Req>, source: ByteSource, sink: Sink, inb: Inbound<Req>, outb: Outbound<Reply<Req>>,
      trailers: Headers)
    requires sink.written == [] && sink.trailers == [] && !sink.failed
    requires responder.requests == [] && responder.respNum == 0
    modifies responder, source, sink
    ensures |sink.trailers| == 1
    ensures var items := Ahead(old(responder.first), Items(inb, old(source.rest), source.ending));
            !sink.failed ==>
              Answered(responder.service, responder.def, responder.full, responder.observed, items, trailers, outb,
                       sink.written, sink.trailers[0])
  {
    var late := new MessageStream(source, inb);
    var channel := new Channel(late, sink, outb, trailers);
    var result := responder.Respond(channel);
    channel.Conclude(result);
  }
}
