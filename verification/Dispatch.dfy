/** The server's half-duplex dispatch: preflight and response head, reading exactly one request,
    and the response of the single-response shapes. */
module Dispatch {
  import opened Bytes
  import opened HeaderMap
  import opened Statuses
  import opened Encodings
  import opened Frames
  import opened FrameReader
  import opened Timeout
  import ClientSpec
  import Utf8

  // ---- preflight ----

  predicate NamesTrailers(values: seq<Str>) {
    exists i, j :: 0 <= i < |values| && 0 <= j < |Split(values[i])| && Utf8.Valid(values[i])
                   && ClientSpec.Lower(Trim(Split(values[i])[j])) == Text("trailers")
  }

  /** The response headers of a gRPC response. */
  function ResponseHead(f: Features, suffix: Str, accept: Option<Str>): Headers {
    var h := map["content-type" := [Text("application/grpc+") + suffix],
                 "grpc-accept-encoding" := [AcceptedEncodings(f)]];
    var e := Negotiate(f, accept);
    if e == Identity then h else Insert(h, "grpc-encoding", Token(e))
  }

  /** `prepare_grpc_conn`: the response head, or the HTTP status of a refusal. */
  function Prepare(f: Features, suffix: Str, request: Headers): Result<Headers, nat> {
    var ct := GetStr(request, "content-type");
    if ct.None? || ClientSpec.ContentSuffix(ct.value) != Some(suffix) then Err(415)
    else if !NamesTrailers(ValuesOf(request, "te")) then Err(400)
    else Ok(ResponseHead(f, suffix, GetStr(request, "grpc-accept-encoding")))
  }

  /** `Cancellation::from_conn`: the timeout of the request, if any; a malformed one is refused. */
  function RequestTimeout(request: Headers): Result<Option<nat>, Status> {
    match GetStr(request, "grpc-timeout")
    case None => Ok(None)
    case Some(text) =>
      match Parse(text)
      case Some(d) => Ok(Some(d))
      case None => Err(Fail(InvalidArgument, BadTimeout))
  }

  /** Which requests are let through, and how the others are turned away: 415 unless the content type
      names this very codec, then 400 unless some `te` token is `trailers`. */
  lemma PrepareExactly(f: Features, suffix: Str, request: Headers)
    ensures var ct, r := GetStr(request, "content-type"), Prepare(f, suffix, request);
            var named := ct.Some? && ClientSpec.ContentSuffix(ct.value) == Some(suffix);
            && (r.Ok? <==> named && NamesTrailers(ValuesOf(request, "te")))
            && (!named ==> r == Err(415)) && (named && r.Err? ==> r == Err(400))
            && (r.Ok? ==> ValuesOf(r.value, "content-type") == [Text("application/grpc+") + suffix]
                          && ValuesOf(r.value, "grpc-accept-encoding") == [AcceptedEncodings(f)]
                          && ValuesOf(r.value, "grpc-status") == [])
  {
  }

  /** A timeout that cannot be read is the caller's fault; none at all is no timeout. */
  lemma TimeoutRefused(request: Headers)
    ensures var header, r := GetStr(request, "grpc-timeout"), RequestTimeout(request);
            && (header.None? ==> r == Ok(None))
            && (header.Some? && Parse(header.value).Some? ==> r == Ok(Parse(header.value)))
            && (header.Some? && Parse(header.value).None? ==> r.Err? && r.error.code == InvalidArgument)
  {
  }

  // ---- one request ----

  function EmptyStream(): Status {
    Fail(Unimplemented, NoRequest)
  }

  function MoreThanOne(): Status {
    Fail(Unimplemented, ManyRequests)
  }

  /** What reading exactly one request makes of a body's items. */
  function OneRequest<T>(items: seq<Result<T, Status>>): Result<T, Status> {
    if items == [] then Err(EmptyStream())
    else if items[0].Err? || |items| == 1 then items[0]
    else if items[1].Err? then Err(items[1].error)
    else Err(MoreThanOne())
  }

  /** The server accepts a request exactly when the body holds one good message and ends cleanly. A
      bad item among the first two is the error; no message and two good ones are Unimplemented. */
  lemma OneRequestExact<T>(items: seq<Result<T, Status>>, m: T)
    ensures OneRequest(items) == Ok(m) <==> items == [Ok(m)]
    ensures forall i :: 0 <= i < |items| && i < 2 && items[i].Err? && (i == 1 ==> items[0].Ok?) ==>
              OneRequest(items) == items[i]
    ensures items == [] || (|items| >= 2 && items[0].Ok? && items[1].Ok?) ==>
              OneRequest(items).Err? && OneRequest(items).error.code == Unimplemented
  {
    if items != [] && |items| == 1 { assert items == [items[0]]; }
  }

  /** `read_one`. */
  method ReadOne<T>(requests: MessageStream<T>) returns (r: Result<T, Status>)
    requires requests.Valid()
    modifies requests.Repr
    ensures requests.Valid() && r == OneRequest(old(requests.Todo()))
  {
    var first, _ := requests.Take();
    if first.None? {
      return Err(EmptyStream());
    }
    if first.value.Err? {
      return first.value;
    }
    var second, _ := requests.Take();
    return match second
           case None => first.value
           case Some(Err(s)) => Err(s)
           case Some(Ok(_)) => Err(MoreThanOne());
  }

  // ---- one response ----

  /** `finish_unary`: the body and the trailers of a single-response call. */
  function FinishUnary<T>(outb: Outbound<T>, result: Result<T, Status>, preset: Headers): (Str, Headers) {
    match result
    case Err(s) => ([], WriteInto(s, preset))
    case Ok(m) =>
      match EncodeFrame(outb, m)
      case Ok(frame) => (frame, WriteInto(Done(), preset))
      case Err(s) => ([], WriteInto(s, preset))
  }
}
