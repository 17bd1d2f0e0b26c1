/** The resumable frame reader: a state machine over a byte source that may give short reads,
    make the caller wait, fail, or end at any point. */
module FrameReader {
  import opened Bytes
  import opened Statuses
  import opened Frames

  /** An `AsyncRead`: some bytes, then EOF or an I/O error. How the bytes are cut up, and when the
      caller has to wait, is up to the source; `patience` bounds how often it still makes the
      caller wait, so that a caller who keeps polling gets on. */
  class ByteSource {
    var rest: Str
    const ending: Ending
    var patience: nat

    constructor (bytes: Str, ending: Ending, patience: nat)
      ensures rest == bytes && this.ending == ending && this.patience == patience
    {
      rest, this.ending, this.patience := bytes, ending, patience;
    }

    /** Fill part of `dst[at..]`. Zero bytes mean EOF, unless no room was offered. */
    method PollRead(dst: array<Byte>, at: nat) returns (r: Poll<Result<nat, Str>>)
      requires at <= dst.Length
      modifies this, dst
      ensures r.Pending? ==> patience < old(patience) && rest == old(rest) && dst[..] == old(dst[..])
      ensures r.Ready? ==> patience == old(patience)
      ensures r.Ready? && r.value.Err? ==>
                rest == old(rest) == [] && ending == Broken(r.value.error) && dst[..] == old(dst[..])
      ensures r.Ready? && r.value.Ok? ==>
                var n := r.value.value;
                && at + n <= dst.Length && n <= |old(rest)|
                && (n == 0 <==> at == dst.Length || (old(rest) == [] && ending == Eof))
                && dst[..at] == old(dst[..at]) && dst[at..at + n] == old(rest)[..n]
                && dst[at + n..] == old(dst[at + n..]) && rest == old(rest)[n..]
    {
      var wait: bool := *;
      if wait && patience > 0 {
        patience := patience - 1;
        return Pending;
      }
      if at == dst.Length {
        return Ready(Ok(0));
      }
      if rest == [] {
        match ending {
          case Eof => return Ready(Ok(0));
          case Broken(e) => return Ready(Err(e));
        }
      }
      var n: nat :| 1 <= n <= |rest| && at + n <= dst.Length;
      forall i | 0 <= i < n {
        dst[at + i] := rest[i];
      }
      rest := rest[n..];
      return Ready(Ok(n));
    }
  }

  datatype ReadState =
    | ReadingPrefix(buf: array<Byte>, filled: nat)
    | ReadingPayload(compressed: bool, payload: array<Byte>, filled: nat)
    | Finished

  /** Why filling a buffer stopped. */
  datatype FillEnd = Full | Waiting | Failed(error: Str) | AtEof

  /** A reader over a byte source: `MessageStream`, `RequestStream` and the reading half of
      `Channel` and of the client's live connection. */
  class MessageStream<T> {
    const source: ByteSource
    const inb: Inbound<T>
    var state: ReadState
    ghost var Repr: set<object>

    ghost predicate Valid()
      reads this, Repr
      ensures Valid() ==> this in Repr
    {
      && this in Repr && source in Repr
      && match state
         case ReadingPrefix(buf, filled) => buf in Repr && buf.Length == PREFIX_LEN && filled <= PREFIX_LEN
         case ReadingPayload(_, payload, filled) =>
           payload in Repr && filled <= payload.Length <= inb.max
         case Finished => true
    }

    /** The reader stands between two frames. */
    ghost predicate AtBoundary()
      reads this
    {
      state.ReadingPrefix? && state.filled == 0
    }

    /** What the reader is going to answer next, whatever the schedule. */
    ghost function Next(): Step<T>
      requires Valid()
      reads this, Repr
    {
      match state
      case ReadingPrefix(buf, filled) => ParseOne(inb, buf[..filled] + source.rest, source.ending)
      case ReadingPayload(compressed, payload, filled) =>
        ParsePayload(inb, compressed, payload.Length, payload[..filled] + source.rest, source.ending)
      case Finished => End
    }

    /** Every item still to come. */
    ghost function Todo(): seq<Result<T, Status>>
      requires Valid()
      reads this, Repr
    {
      Unroll(inb, Next(), source.ending)
    }

    constructor (source: ByteSource, inb: Inbound<T>)
      ensures Valid() && fresh(Repr - {source})
      ensures this.source == source && this.inb == inb && AtBoundary()
      ensures Todo() == Items(inb, source.rest, source.ending)
    {
      var buf := new Byte[PREFIX_LEN](_ => 0);
      this.source, this.inb := source, inb;
      state := ReadingPrefix(buf, 0);
      Repr := {this, source, buf};
      new;
      assert buf[..0] + source.rest == source.rest;
    }

    /** `while *filled < len { poll_read(..) }`: fill a buffer from where the last poll left off. */
    method Fill(dst: array<Byte>, from: nat) returns (filled: nat, end: FillEnd)
      requires from <= dst.Length
      modifies source, dst
      ensures from <= filled <= dst.Length
      ensures dst[..filled] + source.rest == old(dst[..from] + source.rest)
      ensures end.Full? <==> filled == dst.Length
      ensures if end.Waiting? then source.patience < old(source.patience) else source.patience == old(source.patience)
      ensures end.Failed? ==> source.rest == [] && source.ending == Broken(end.error)
      ensures end.AtEof? ==> source.rest == [] && source.ending == Eof
    {
      filled := from;
      ghost var whole := dst[..from] + source.rest;
      while filled < dst.Length
        invariant from <= filled <= dst.Length
        invariant dst[..filled] + source.rest == whole
        invariant source.patience == old(source.patience)
      {
        label before:
        var r := source.PollRead(dst, filled);
        match r {
          case Pending =>
            assert dst[..filled] == old@before(dst[..filled]);
            return filled, Waiting;
          case Ready(Err(e)) =>
            assert dst[..filled] == old@before(dst[..filled]);
            return filled, Failed(e);
          case Ready(Ok(n)) =>
            assert dst[..filled + n] == old@before(dst[..filled]) + old@before(source.rest)[..n];
            if n == 0 {
              return filled, AtEof;
            }
            filled := filled + n;
        }
      }
      return filled, Full;
    }

    /** `poll_read_message`: resume reading. A waiting poll changes nothing about what is going to
        be answered; an answered poll gives the next item of the pure parse, leaves exactly the
        bytes after it unread, and keeps reading unless the item was the last. */
    method PollNext() returns (r: Poll<Option<Result<T, Status>>>)
      requires Valid()
      modifies Repr
      ensures Valid() && fresh(Repr - old(Repr))
      ensures r.Pending? ==> Next() == old(Next()) && source.patience < old(source.patience)
      ensures r.Ready? ==> source.patience == old(source.patience)
      ensures old(Next()).End? ==> source.rest == old(source.rest)
      ensures r.Ready? ==>
                match old(Next())
                case End => r.value == None && state.Finished?
                case Item(item, last, left) =>
                  r.value == Some(item) && source.rest == left && (if last then state.Finished? else AtBoundary())
      ensures r.Pending? ==> Todo() == old(Todo())
      ensures r.Ready? ==> old(Todo()) == if r.value.Some? then [r.value.value] + Todo() else []
      ensures r.Ready? && r.value.None? ==> Todo() == []
      ensures r.Ready? && r.value.Some? && r.value.value.Ok? ==> AtBoundary()
      ensures r.Pending? && !old(state).Finished? ==> !state.Finished?
    {
      if state.Finished? {
        return Ready(None);
      }
      if state.ReadingPrefix? {
        StepConsumesOneFrame(inb, state.buf[..state.filled] + source.rest, source.ending);
      }
      if state.ReadingPrefix? {
        var answered;
        r, answered := FinishPrefix();
        if answered {
          return;
        }
      }
      r := FinishPayload();
      if r.Ready? && AtBoundary() {
        TodoAtBoundary();
      }
    }

    lemma TodoAtBoundary()
      requires Valid() && AtBoundary()
      ensures Todo() == Items(inb, source.rest, source.ending)
    {
      assert state.buf[..0] + source.rest == source.rest;
    }

    /** The prefix phase. Unless it answers, it leads into the payload phase. */
    method FinishPrefix() returns (r: Poll<Option<Result<T, Status>>>, answered: bool)
      requires Valid() && state.ReadingPrefix?
      modifies Repr
      ensures Valid() && fresh(Repr - old(Repr))
      ensures !answered ==>
                state.ReadingPayload? && Next() == old(Next()) && source.patience == old(source.patience)
      ensures answered && r.Pending? ==>
                Next() == old(Next()) && source.patience < old(source.patience) && !state.Finished?
      ensures answered && r.Ready? ==> source.patience == old(source.patience) && state.Finished?
      ensures old(Next()).End? ==> answered && source.rest == old(source.rest)
      ensures answered && r.Ready? ==>
                match old(Next())
                case End => r.value == None && source.rest == old(source.rest)
                case Item(item, last, left) => last && r.value == Some(item) && source.rest == left
    {
      var buf := state.buf;
      ghost var whole := buf[..state.filled] + source.rest;
      ghost var rest0 := source.rest;
      var filled, end := Fill(buf, state.filled);
      state := ReadingPrefix(buf, filled);
      match end {
        case Waiting => return Pending, true;
        case Failed(e) =>
          state := Finished;
          assert whole == buf[..filled] && |whole| < PREFIX_LEN;
          return Ready(Some(Err(ReadError(e)))), true;
        case AtEof =>
          assert whole == buf[..filled] && |whole| < PREFIX_LEN;
          state := Finished;
          if filled == 0 {
            assert whole == [];
            return Ready(None), true;
          }
          return Ready(Some(Err(Fail(Internal, EofInPrefix)))), true;
        case Full =>
      }
      assert buf[..filled] == buf[..];
      assert whole[1..5] == buf[1..5] && whole[0] == buf[0] && whole[5..] == source.rest;
      var compressed := buf[0] != 0;
      var len := LengthOf(buf[1..5]);
      if len > inb.max {
        state := Finished;
        return Ready(Some(Err(TooLong(len, inb.max)))), true;
      }
      var payload := new Byte[len](_ => 0);
      state := ReadingPayload(compressed, payload, 0);
      Repr := Repr + {payload};
      assert payload[..0] + source.rest == source.rest;
      return Pending, false;
    }

    /** The payload phase. */
    method FinishPayload() returns (r: Poll<Option<Result<T, Status>>>)
      requires Valid() && state.ReadingPayload?
      modifies Repr
      ensures Valid() && fresh(Repr - old(Repr))
      ensures r.Pending? ==> Next() == old(Next()) && source.patience < old(source.patience) && !state.Finished?
      ensures r.Ready? ==>
                && source.patience == old(source.patience) && old(Next()).Item? && r.value == Some(old(Next()).item)
                && source.rest == old(Next()).left
                && (if old(Next()).last then state.Finished? else AtBoundary())
    {
      var payload, compressed := state.payload, state.compressed;
      ghost var whole := payload[..state.filled] + source.rest;
      var filled, end := Fill(payload, state.filled);
      state := ReadingPayload(compressed, payload, filled);
      match end {
        case Waiting => return Pending;
        case Failed(e) =>
          state := Finished;
          assert whole == payload[..filled] && |whole| < payload.Length;
          return Ready(Some(Err(ReadError(e))));
        case AtEof =>
          state := Finished;
          assert whole == payload[..filled] && |whole| < payload.Length;
          return Ready(Some(Err(Fail(Internal, EofInPayload))));
        case Full =>
      }
      var bytes := payload[..];
      assert payload[..filled] == bytes;
      assert whole[..payload.Length] == bytes && whole[payload.Length..] == source.rest;
      var buf := new Byte[PREFIX_LEN](_ => 0);
      state := ReadingPrefix(buf, 0);
      Repr := Repr + {buf};
      var input := CodecInput(inb, compressed, bytes);
      if input.Err? {
        return Ready(Some(Err(input.error)));
      }
      return Ready(Some(inb.decode(input.value)));
    }

    /** Poll until answered: one `recv().await` that runs to completion. */
    method Receive() returns (r: Option<Result<T, Status>>)
      requires Valid()
      modifies Repr
      ensures Valid() && fresh(Repr - old(Repr))
      ensures match old(Next())
              case End => r == None && state.Finished? && source.rest == old(source.rest)
              case Item(item, last, left) =>
                r == Some(item) && source.rest == left && (if last then state.Finished? else AtBoundary())
      ensures old(Todo()) == if r.Some? then [r.value] + Todo() else []
      ensures r.None? ==> Todo() == []
    {
      var p := PollNext();
      while p.Pending?
        invariant Valid() && fresh(Repr - old(Repr))
        invariant p.Pending? ==> Next() == old(Next()) && Todo() == old(Todo())
        invariant old(Next()).End? ==> source.rest == old(source.rest)
        invariant p.Ready? ==>
                match old(Next())
                case End => p.value == None && state.Finished? && Todo() == []
                case Item(item, last, left) =>
                  && p.value == Some(item) && source.rest == left && (if last then state.Finished? else AtBoundary())
        invariant p.Ready? ==> old(Todo()) == if p.value.Some? then [p.value.value] + Todo() else []
        decreases if p.Pending? then source.patience + 1 else 0
      {
        p := PollNext();
      }
      r := p.value;
    }

    /** One received item, and whether it left the reader in step with the frames. */
    method Take() returns (r: Option<Result<T, Status>>, ghost inStep: bool)
      requires Valid()
      modifies Repr
      ensures Valid() && fresh(Repr - old(Repr))
      ensures old(Todo()) == if r.Some? then [r.value] + Todo() else []
      ensures r.None? ==> Todo() == [] && source.rest == old(source.rest)
      ensures r.Some? && inStep ==> Todo() == Items(inb, source.rest, source.ending)
      ensures r.Some? && !inStep ==> r.value.Err? && Todo() == []
    {
      ghost var step := Next();
      if state.ReadingPrefix? {
        StepConsumesOneFrame(inb, state.buf[..state.filled] + source.rest, source.ending);
      }
      r := Receive();
      inStep := step.Item? && !step.last;
      if inStep {
        TodoAtBoundary();
      }
    }

    /** Any number of polls, with any schedule: the items answered so far followed by the items
        still to come are always the pure parse of the whole byte stream. Until the stream has ended
        every poll answers or waits, and only as often as the source makes it. */
    method PollMany(polls: nat) returns (items: seq<Result<T, Status>>, waits: nat, ended: bool)
      requires Valid()
      modifies Repr
      ensures Valid() && fresh(Repr - old(Repr))
      ensures items + Todo() == old(Todo())
      ensures ended ==> items == old(Todo())
      ensures waits + source.patience <= old(source.patience)
      ensures |items| + waits <= polls && (!ended ==> |items| + waits == polls)
    {
      items, waits, ended := [], 0, false;
      for i := 0 to polls
        invariant Valid() && fresh(Repr - old(Repr))
        invariant items + Todo() == old(Todo())
        invariant ended ==> Todo() == []
        invariant waits + source.patience <= old(source.patience)
        invariant |items| + waits <= i && (!ended ==> |items| + waits == i)
      {
        var p := PollTodo();
        match p {
          case Pending => waits := waits + 1;
          case Ready(None) => ended := true;
          case Ready(Some(item)) =>
            MoveOver(items, item, Todo());
            items := items + [item];
        }
      }
    }

    /** One poll, seen only through the items still to come. */
    method PollTodo() returns (r: Poll<Option<Result<T, Status>>>)
      requires Valid()
      modifies Repr
      ensures Valid() && fresh(Repr - old(Repr))
      ensures r.Pending? ==> Todo() == old(Todo()) && source.patience < old(source.patience)
      ensures r.Ready? ==> source.patience == old(source.patience)
      ensures r == Ready(None) ==> Todo() == old(Todo()) == []
      ensures r.Ready? && r.value.Some? ==> old(Todo()) == [r.value.value] + Todo()
    {
      r := PollNext();
    }
  }

  /** The seam between two phases of a call: up to `k` messages are read with one reader, the
      reader is dropped, and a fresh reader goes on over the same byte source. Together they read
      what a single reader would have read, unless the first one ended with an error. */
  method HandOver<T>(source: ByteSource, inb: Inbound<T>, k: nat)
    returns (early: seq<Result<T, Status>>, second: MessageStream<T>, ghost inStep: bool)
    modifies source
    ensures second.Valid() && fresh(second.Repr - {source}) && second.source == source
    ensures |early| <= k
    ensures inStep ==> early + second.Todo() == Items(inb, old(source.rest), source.ending)
    ensures !inStep ==> early == Items(inb, old(source.rest), source.ending) && early != []
                        && early[|early| - 1].Err?
  {
    var first := new MessageStream(source, inb);
    early, inStep := [], true;
    ghost var all := first.Todo();
    var i := 0;
    while i < k
      invariant first.Valid() && fresh(first.Repr - {source}) && first.source == source && first.inb == inb
      invariant |early| <= i <= k
      invariant early + first.Todo() == all
      invariant inStep ==> first.Todo() == Items(inb, source.rest, source.ending)
      invariant !inStep ==> first.Todo() == [] && early != [] && early[|early| - 1].Err?
      decreases k - i
    {
      ghost var was := inStep;
      var r;
      r, inStep := first.Take();
      if r.None? {
        inStep := was;
        break;
      }
      MoveOver(early, r.value, first.Todo());
      early := early + [r.value];
      i := i + 1;
    }
    second := new MessageStream(source, inb);
  }
}
