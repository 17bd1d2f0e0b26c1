/** The outbound response bodies: `StreamBody`, a lazy producer of frames whose trailers say how
    the stream ended, and `OneShotBody`, a response known up front. */
module ResponseBody {
  import opened Bytes
  import opened HeaderMap
  import opened Statuses
  import opened Frames

  /** The user's response stream: a script of items, delivered after any waiting. A stream that
      has ended must not be polled again. */
  class ItemStream<T> {
    const script: seq<Result<T, Status>>
    var pulled: nat
    var ended: bool
    var patience: nat
    ghost var polls: nat

    ghost predicate Valid() reads this { pulled <= |script| && (ended ==> pulled == |script|) }

    constructor (script: seq<Result<T, Status>>, patience: nat)
      ensures Valid() && this.script == script && pulled == 0 && !ended
    {
      this.script, this.patience, pulled, ended, polls := script, patience, 0, false, 0;
    }

    method PollNext() returns (r: Poll<Option<Result<T, Status>>>)
      requires Valid() && !ended
      modifies this
      ensures Valid() && polls == old(polls) + 1
      ensures r.Pending? ==> patience < old(patience) && pulled == old(pulled) && !ended
      ensures r == Ready(None) ==> ended && pulled == old(pulled) == |script|
      ensures r.Ready? && r.value.Some? ==>
                !ended && old(pulled) < |script| && r.value.value == script[old(pulled)] && pulled == old(pulled) + 1
    {
      polls := polls + 1;
      var wait: bool := *;
      if wait && patience > 0 {
        patience := patience - 1;
        return Pending;
      }
      if pulled == |script| {
        ended := true;
        return Ready(None);
      }
      pulled := pulled + 1;
      return Ready(Some(script[pulled - 1]));
    }
  }

  /** A cancellation future: pending until it resolves, at any moment, to its status. A resolved
      future must not be polled again. */
  class CancelSignal {
    const status: Status
    var resolved: bool
    ghost var polls: nat

    constructor (status: Status)
      ensures this.status == status && !resolved
    {
      this.status, resolved, polls := status, false, 0;
    }

    method PollSignal() returns (r: Poll<Status>)
      requires !resolved
      modifies this
      ensures polls == old(polls) + 1
      ensures resolved <==> r.Ready?
      ensures r.Ready? ==> r.value == status
    {
      polls := polls + 1;
      var fires: bool := *;
      if fires {
        resolved := true;
        return Ready(status);
      }
      return Pending;
    }
  }

  /** A cut of a response stream: the call is cancelled once `after` more items were sent. */
  datatype Cut = Cut(after: nat, status: Status)

  /** What a response stream amounts to: the messages that go out, and the status that ends the
      call. A cancellation falls between frames. */
  function Play<T>(outb: Outbound<T>, script: seq<Result<T, Status>>, cut: Option<Cut>): (seq<T>, Status)
    decreases |script|
  {
    if cut.Some? && cut.value.after == 0 then ([], cut.value.status)
    else if script == [] then ([], Done())
    else
      match script[0]
      case Err(s) => ([], s)
      case Ok(m) =>
        match EncodeFrame(outb, m)
        case Err(s) => ([], s)
        case Ok(_) =>
          var cut' := if cut.None? then None else Some(cut.value.(after := cut.value.after - 1));
          var (sent, status) := Play(outb, script[1..], cut');
          ([m] + sent, status)
  }

  /** `sent` is a front part of the script, and all of it can be framed. */
  ghost predicate Sending<T>(outb: Outbound<T>, script: seq<Result<T, Status>>, sent: seq<T>) {
    Encodable(outb, sent) && |sent| <= |script| && script[..|sent|] == Oks(sent)
  }

  /** The status of an item that ends the stream, if it does. */
  function Refusal<T>(outb: Outbound<T>, item: Result<T, Status>): Option<Status> {
    match item
    case Err(s) => Some(s)
    case Ok(m) => match EncodeFrame(outb, m) case Err(s) => Some(s) case Ok(_) => None
  }

  /** After `sent`, the stream ends with `s`: by a cut there, at the end of the script, or at an
      item that cannot be sent. */
  predicate StopsWith<T>(outb: Outbound<T>, script: seq<Result<T, Status>>, n: nat, cut: Option<Cut>, s: Status)
    requires n <= |script|
  {
    match cut
    case Some(c) => c == Cut(n, s)
    case None => if n == |script| then s == Done() else Refusal(outb, script[n]) == Some(s)
  }

  lemma {:induction false} PlayStops<T>(
      outb: Outbound<T>, script: seq<Result<T, Status>>, sent: seq<T>, cut: Option<Cut>, s: Status)
    requires Sending(outb, script, sent) && StopsWith(outb, script, |sent|, cut, s)
    ensures Play(outb, script, cut) == (sent, s)
  {
    if sent != [] {
      assert script[0] == script[..|sent|][0] == Ok(sent[0]);
      assert script[1..][..|sent| - 1] == script[..|sent|][1..] == Oks(sent[1..]);
      var cut' := if cut.None? then None else Some(cut.value.(after := cut.value.after - 1));
      PlayStops(outb, script[1..], sent[1..], cut', s);
      assert sent == [sent[0]] + sent[1..];
    }
  }

  lemma SendsOneMore<T>(outb: Outbound<T>, script: seq<Result<T, Status>>, sent: seq<T>)
    requires Sending(outb, script, sent) && |sent| < |script| && Refusal(outb, script[|sent|]) == None
    ensures var m := script[|sent|].value;
            && Sending(outb, script, sent + [m]) && |EncodeFrame(outb, m).value| > 0
            && WireOf(outb, sent + [m]) == WireOf(outb, sent) + EncodeFrame(outb, m).value
  {
    var m := script[|sent|].value;
    assert script[..|sent| + 1] == script[..|sent|] + [Ok(m)];
    assert Oks<T, Status>(sent + [m]) == Oks(sent) + [Ok(m)];
    WireSnoc(outb, sent, m);
  }

  class StreamBody<T> {
    const stream: ItemStream<T>
    const outb: Outbound<T>
    const cancel: CancelSignal?
    var baseTrailers: Headers
    var pending: Str
    var pos: nat
    var status: Option<Status>
    var finished: bool
    /** What the transport has read so far, and the messages framed so far. */
    ghost var emitted: Str
    ghost var sent: seq<T>

    ghost function Repr(): set<object> {
      {this, stream} + (if cancel == null then {} else {cancel})
    }

    ghost predicate Valid()
      reads Repr()
    {
      && stream.Valid() && pos <= |pending|
      && Sending(outb, stream.script, sent) && emitted + pending[pos..] == WireOf(outb, sent)
      && (!finished ==> status == None && stream.pulled == |sent| && !stream.ended && !Cancelled())
    }

    /** It was the cancel future that ended the stream. */
    ghost predicate Cancelled()
      reads cancel
    {
      cancel != null && cancel.resolved
    }

    /** The cut that cancellation made, if it did. */
    ghost function TheCut(): Option<Cut>
      reads this, cancel
    {
      if Cancelled() then Some(Cut(|sent|, cancel.status)) else None
    }

    constructor (stream: ItemStream<T>, outb: Outbound<T>, baseTrailers: Headers, cancel: CancelSignal?)
      requires stream.Valid() && stream.pulled == 0 && !stream.ended
      requires cancel != null ==> !cancel.resolved
      ensures Valid() && !finished && emitted == [] && sent == []
      ensures this.stream == stream && this.outb == outb && this.cancel == cancel && this.baseTrailers == baseTrailers
    {
      this.stream, this.outb, this.baseTrailers, this.cancel := stream, outb, baseTrailers, cancel;
      pending, pos, status, finished := [], 0, None, false;
      emitted, sent := [], [];
      new;
      assert stream.script[..0] == Oks<T, Status>([]);
    }

    /** `poll_read`: hand out at most a buffer full of the current frame, framing the next item
        only when the current frame is used up. */
    method PollRead(buf: array<Byte>) returns (r: Poll<nat>)
      requires Valid()
      modifies Repr(), buf
      ensures Valid() && baseTrailers == old(baseTrailers)
      ensures r.Pending? ==> emitted == old(emitted) && !finished && stream.patience < old(stream.patience)
                             && stream.pulled == old(stream.pulled) && buf[..] == old(buf[..])
      ensures r.Ready? ==> r.value <= buf.Length && emitted == old(emitted) + buf[..r.value]
                           && buf[r.value..] == old(buf[r.value..])
      ensures r.Ready? && r.value > 0 ==>
                (stream.pulled > old(stream.pulled)
                 || (stream.pulled == old(stream.pulled) && stream.patience == old(stream.patience)
                     && |pending| - pos < old(|pending| - pos)))
      // EOF falls only on a frame boundary, after the status was decided
      ensures r == Ready(0) && buf.Length > 0 ==> finished && emitted == WireOf(outb, sent)
      ensures r == Ready(0) && buf.Length > 0 && !old(finished) ==>
                status.Some? && Play(outb, stream.script, TheCut()) == (sent, status.value)
      ensures old(finished) ==> finished && r.Ready? && status == old(status) && sent == old(sent)
                                && Cancelled() == old(Cancelled())
                                && stream.polls == old(stream.polls)
                                && (cancel != null ==> cancel.polls == old(cancel.polls))
      ensures finished && !old(finished) ==> r == Ready(0)
    {
      if pos == |pending| && !finished {
        var stopped;
        r, stopped := NextFrame();
        if stopped {
          assert buf[..0] == [];
          return;
        }
      }
      if pos < |pending| {
        var n := HandOut(buf);
        return Ready(n);
      }
      assert buf[..0] == [];
      return Ready(0);
    }

    method HandOut(buf: array<Byte>) returns (n: nat)
      requires Valid() && pos < |pending|
      modifies this, buf
      ensures Valid() && baseTrailers == old(baseTrailers) && status == old(status) && finished == old(finished)
      ensures sent == old(sent) && Cancelled() == old(Cancelled()) && pending == old(pending)
      ensures n <= buf.Length && (buf.Length > 0 ==> n > 0) && pos == old(pos) + n
      ensures emitted == old(emitted) + buf[..n] && buf[n..] == old(buf[n..])
    {
      n := if |pending| - pos < buf.Length then |pending| - pos else buf.Length;
      forall i | 0 <= i < n {
        buf[i] := pending[pos + i];
      }
      assert buf[..n] == pending[pos..pos + n];
      assert pending[pos..] == pending[pos..pos + n] + pending[pos + n..];
      emitted := emitted + buf[..n];
      pos := pos + n;
    }

    /** The rest of the polling loop: cancellation first, then one item of the user's stream. It
        either puts a new frame in place or stops with the answer of this poll. */
    method NextFrame() returns (r: Poll<nat>, stopped: bool)
      requires Valid() && !finished && pos == |pending|
      modifies Repr()
      ensures Valid() && emitted == old(emitted) && baseTrailers == old(baseTrailers)
      // cancellation is polled first, and what follows it only while it waits
      ensures cancel != null ==> cancel.polls == old(cancel.polls) + 1
      ensures stream.polls == old(stream.polls) + (if Cancelled() then 0 else 1)
      ensures Cancelled() ==> stream.pulled == old(stream.pulled) && status == Some(cancel.status)
      ensures !stopped ==> !finished && pos < |pending| && stream.pulled == old(stream.pulled) + 1
      ensures stopped && r.Pending? ==> !finished && stream.patience < old(stream.patience)
                                        && stream.pulled == old(stream.pulled)
      ensures stopped && r.Ready? ==>
                && r.value == 0 && finished && pos == |pending|
                && status.Some? && Play(outb, stream.script, TheCut()) == (sent, status.value)
    {
      if cancel != null {
        var signal := cancel.PollSignal();
        if signal.Ready? {
          finished, status := true, Some(signal.value);
          PlayStops(outb, stream.script, sent, Some(Cut(|sent|, signal.value)), signal.value);
          return Ready(0), true;
        }
      }
      var next := stream.PollNext();
      match next {
        case Pending => return Pending, true;
        case Ready(None) =>
          finished := true;
          if status.None? {
            status := Some(Done());
          }
        case Ready(Some(Err(s))) =>
          finished, status := true, Some(s);
        case Ready(Some(Ok(m))) =>
          var refused := PutFrame(m);
          if refused.None? {
            return Pending, false;
          }
          finished, status := true, refused;
      }
      PlayStops(outb, stream.script, sent, None, status.value);
      return Ready(0), true;
    }

    /** Encode the item just pulled and put its frame in place, unless it cannot be encoded. */
    method PutFrame(m: T) returns (refused: Option<Status>)
      requires |sent| < |stream.script| && stream.script[|sent|] == Ok(m)
      requires Sending(outb, stream.script, sent) && emitted == WireOf(outb, sent)
      modifies this
      ensures emitted == old(emitted) && baseTrailers == old(baseTrailers)
      ensures finished == old(finished) && status == old(status) && Cancelled() == old(Cancelled())
      ensures refused == Refusal(outb, Ok(m))
      ensures refused.Some? ==> sent == old(sent) && pending == old(pending) && pos == old(pos)
      ensures refused.None? ==>
                && sent == old(sent) + [m] && Sending(outb, stream.script, sent)
                && pos == 0 < |pending| && emitted + pending[pos..] == WireOf(outb, sent)
    {
      var framed := EncodeFrame(outb, m);
      match framed {
        case Err(s) => refused := Some(s);
        case Ok(frame) =>
          SendsOneMore(outb, stream.script, sent);
          pending, pos, sent, refused := frame, 0, sent + [m], None;
      }
    }

    /** `trailers`: the status that ended the stream, written over the handler's own trailers. It
        gives both away: a second call, or one before the end, reports success. */
    method Trailers() returns (out: Headers)
      requires Valid()
      modifies this
      ensures Valid() && finished == old(finished) && sent == old(sent) && emitted == old(emitted)
      ensures Cancelled() == old(Cancelled())
      ensures out == WriteInto(match old(status) case Some(s) => s case None => Done(), old(baseTrailers))
      ensures status == None && baseTrailers == map[]
    {
      var taken := match status case Some(s) => s case None => Done();
      out := WriteInto(taken, baseTrailers);
      status, baseTrailers := None, map[];
    }

    /** The transport: read with buffers of any non-zero size until EOF, then take the trailers.
        The wire carries the frames of the messages that the stream amounts to, and the trailers
        the status that it ends with. */
    method Serve() returns (wire: Str, trailers: Headers)
      requires Valid() && !finished && emitted == []
      modifies Repr()
      ensures Valid() && wire == WireOf(outb, sent)
      ensures var (messages, reason) := Play(outb, stream.script, TheCut());
              messages == sent && trailers == WriteInto(reason, old(baseTrailers))
    {
      wire := [];
      var eof := false;
      while !eof
        invariant Valid() && wire == emitted && baseTrailers == old(baseTrailers)
        invariant eof <==> finished
        invariant eof ==> emitted == WireOf(outb, sent) && status.Some?
                          && Play(outb, stream.script, TheCut()) == (sent, status.value)
        decreases !eof, |stream.script| - stream.pulled, stream.patience, |pending| - pos
      {
        var size: nat :| size > 0;
        var buf := new Byte[size](_ => 0);
        var r := PollRead(buf);
        if r.Ready? {
          wire := wire + buf[..r.value];
          eof := r.value == 0;
        }
      }
      trailers := Trailers();
    }
  }

  /** A response known up front: a framed message or nothing, and its trailers. */
  class OneShotBody {
    const bytes: Str
    var pos: nat
    var trailers: Option<Headers>
    ghost var emitted: Str

    ghost predicate Valid() reads this { pos <= |bytes| && emitted == bytes[..pos] }

    constructor (bytes: Str, trailers: Headers)
      ensures Valid() && this.bytes == bytes && pos == 0 && this.trailers == Some(trailers)
    {
      this.bytes, pos, this.trailers, emitted := bytes, 0, Some(trailers), [];
    }

    method PollRead(buf: array<Byte>) returns (n: nat)
      requires Valid()
      modifies this, buf
      ensures Valid() && trailers == old(trailers) && n <= buf.Length
      ensures emitted == old(emitted) + buf[..n] && buf[n..] == old(buf[n..])
      ensures pos == old(pos) + n
      ensures n == 0 && buf.Length > 0 ==> emitted == bytes
    {
      n := if |bytes| - pos < buf.Length then |bytes| - pos else buf.Length;
      forall i | 0 <= i < n {
        buf[i] := bytes[pos + i];
      }
      assert bytes[..pos + n] == bytes[..pos] + bytes[pos..pos + n];
      emitted := emitted + buf[..n];
      pos := pos + n;
    }

    method Serve() returns (wire: Str, out: Headers)
      requires Valid() && pos == 0 && trailers.Some?
      modifies this
      ensures wire == bytes && Some(out) == old(trailers) && trailers == None
    {
      wire := [];
      var eof := false;
      while !eof
        invariant Valid() && wire == emitted && trailers == old(trailers)
        invariant eof ==> emitted == bytes
        decreases !eof, |bytes| - pos
      {
        var size: nat :| size > 0;
        var buf := new Byte[size](_ => 0);
        var n := PollRead(buf);
        wire := wire + buf[..n];
        eof := n == 0;
      }
      out := trailers.value;
      trailers := None;
    }
  }
}
