/** Bidirectional streaming on the server: the channel over the upgraded transport, and the end of
    the call. */
module Bidi {
  import opened Bytes
  import opened HeaderMap
  import opened Statuses
  import opened Frames
  import opened FrameReader

  /** The writing half of an upgraded transport. */
  class Sink {
    var written: Str
    var trailers: seq<Headers>
    var failed: bool

    constructor ()
      ensures written == [] && trailers == [] && !failed
    {
      written, trailers, failed := [], [], false;
    }

    /** `write_all`: all of the data, or an error after some part of it. */
    method WriteAll(data: Str) returns (r: Result<(), Str>)
      modifies this
      ensures trailers == old(trailers) && failed == (old(failed) || r.Err?)
      ensures if r.Ok? then written == old(written) + data
              else old(written) <= written <= old(written) + data
    {
      var fails: bool := *;
      if fails {
        var n: nat :| n <= |data|;
        var e: Str := *;
        written, failed := written + data[..n], true;
        return Err(e);
      }
      written := written + data;
      return Ok(());
    }

    method SendTrailers(h: Headers)
      modifies this
      ensures written == old(written) && failed == old(failed) && trailers == old(trailers) + [h]
    {
      trailers := trailers + [h];
    }
  }

  /** `Channel`: read decoded requests, write framed responses. */
  class Channel<Req, Resp> {
    const stream: MessageStream<Req>
    const sink: Sink
    const outb: Outbound<Resp>
    var responseTrailers: Headers
    /** The responses sent. */
    ghost var sent: seq<Resp>
    ghost var Repr: set<object>

    ghost predicate Valid()
      reads this, Repr
      ensures Valid() ==> this in Repr
    {
      && {this, sink, stream} <= Repr && stream.Repr <= Repr && {this, sink} !! stream.Repr && stream.Valid()
      && Encodable(outb, sent) && (Intact() ==> sink.written == WireOf(outb, sent))
    }

    /** No write has failed so far. */
    ghost predicate Intact()
      reads sink
    {
      !sink.failed
    }

    ghost function Todo(): seq<Result<Req, Status>>
      requires Valid()
      reads this, Repr
    {
      stream.Todo()
    }

    /** A fresh reader over the retained body, a fresh write side, the prologue's trailers. */
    constructor (stream: MessageStream<Req>, sink: Sink, outb: Outbound<Resp>, trailers: Headers)
      requires stream.Valid() && sink !in stream.Repr && sink.written == [] && !sink.failed
      ensures Valid() && fresh(Repr - stream.Repr - {sink})
      ensures this.stream == stream && this.sink == sink && this.outb == outb && responseTrailers == trailers
      ensures sent == [] && Intact() && Todo() == old(stream.Todo())
    {
      this.stream, this.sink, this.outb, responseTrailers := stream, sink, outb, trailers;
      sent := [];
      Repr := {this, sink} + stream.Repr;
    }

    method Recv() returns (r: Option<Result<Req, Status>>)
      requires Valid()
      modifies Repr
      ensures Valid() && fresh(Repr - old(Repr))
      ensures sent == old(sent) && Intact() == old(Intact()) && responseTrailers == old(responseTrailers)
      ensures sink.trailers == old(sink.trailers)
      ensures old(Todo()) == if r.Some? then [r.value] + Todo() else []
      ensures r.None? ==> Todo() == []
    {
      r := stream.Receive();
      Repr := Repr + stream.Repr;
    }

    method Send(value: Resp) returns (r: Result<(), Status>)
      requires Valid()
      modifies this, sink
      ensures Valid() && Repr == old(Repr) && Todo() == old(Todo())
      ensures responseTrailers == old(responseTrailers) && sink.trailers == old(sink.trailers)
      ensures r.Ok? ==> sent == old(sent) + [value] && Intact() == old(Intact())
      ensures r.Err? ==> sent == old(sent) && (Intact() ==> EncodeFrame(outb, value) == Err(r.error))
      ensures r.Err? && EncodeFrame(outb, value).Ok? ==> !Intact() && r.error.code == Unavailable
      ensures !old(Intact()) ==> !Intact()
    {
      var frame := EncodeFrame(outb, value);
      if frame.Err? {
        return Err(frame.error);
      }
      var w := sink.WriteAll(frame.value);
      match w {
        case Err(e) =>
          return Err(Fail(Unavailable, WriteFailed(e)));
        case Ok(_) =>
          forall i | 0 <= i < |sent + [value]| ensures EncodeFrame(outb, (sent + [value])[i]).Ok? {
          }
          WireSnoc(outb, sent, value);
          sent := sent + [value];
          return Ok(());
      }
    }

    method InsertTrailer(name: string, value: Str)
      requires Valid()
      modifies this
      ensures Valid() && Repr == old(Repr) && Todo() == old(Todo())
      ensures sent == old(sent) && Intact() == old(Intact())
      ensures responseTrailers == Insert(old(responseTrailers), name, value)
    {
      responseTrailers := Insert(responseTrailers, name, value);
    }

    /** The end of `drive`: the result's status over the trailing metadata, sent once. */
    method Conclude(result: Result<(), Status>)
      requires Valid()
      modifies this, sink
      ensures Valid() && sent == old(sent) && Intact() == old(Intact()) && sink.written == old(sink.written)
      ensures sink.trailers == old(sink.trailers)
                + [WriteInto(match result case Ok(_) => Done() case Err(s) => s, old(responseTrailers))]
    {
      var reason := match result case Ok(_) => Done() case Err(s) => s;
      responseTrailers := WriteInto(reason, responseTrailers);
      sink.SendTrailers(responseTrailers);
    }
  }
}
