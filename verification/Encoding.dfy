/** Per-message compression: the codecs of a build, their header tokens, the size-capped
    decompressor, and the choice of a response encoding. */
module Encodings {
  import opened Bytes
  import opened Statuses

  datatype Encoding = Identity | Gzip | Deflate | Zstd

  /** The Cargo features a build was compiled with. */
  datatype Features = Features(gzip: bool, deflate: bool, zstd: bool)

  /** `Encoding::ALL`: the compiled-in codecs in the order they are announced. */
  function All(f: Features): seq<Encoding> {
    [Identity]
    + (if f.gzip then [Gzip] else [])
    + (if f.deflate then [Deflate] else [])
    + (if f.zstd then [Zstd] else [])
  }

  function Token(e: Encoding): Str {
    match e
    case Identity => Text("identity")
    case Gzip => Text("gzip")
    case Deflate => Text("deflate")
    case Zstd => Text("zstd")
  }

  function FromToken(f: Features, s: Str): Option<Encoding> {
    if s == Text("identity") then Some(Identity)
    else if f.gzip && s == Text("gzip") then Some(Gzip)
    else if f.deflate && s == Text("deflate") then Some(Deflate)
    else if f.zstd && s == Text("zstd") then Some(Zstd)
    else None
  }

  lemma TokensDiffer(a: Encoding, b: Encoding)
    ensures Token(a) == Token(b) ==> a == b
  {
    assert |Token(Identity)| == 8 && |Token(Gzip)| == 4 && |Token(Deflate)| == 7 && |Token(Zstd)| == 4;
    assert Token(Gzip)[0] == 'g' as int && Token(Zstd)[0] == 'z' as int;
  }

  /** The token maps are inverse to each other on the codecs of the build, and only there. */
  lemma TokenRoundTrip(f: Features, s: Str, e: Encoding)
    ensures FromToken(f, s) == Some(e) <==> s == Token(e) && e in All(f)
  {
    TokensDiffer(Identity, e);
    TokensDiffer(Gzip, e);
    TokensDiffer(Deflate, e);
    TokensDiffer(Zstd, e);
  }

  // ---- compression ----

  /** What a foreign streaming decompressor yields: the bytes it can produce, then either the
      end of its data or a failure. */
  datatype RawStream = RawStream(bytes: Str, failure: Option<Str>)

  /** The foreign compression libraries. */
  datatype Library = Library(
    compress: (Encoding, Str) -> Result<Str, Status>,
    decoder: (Encoding, Str) -> RawStream)

  /** The libraries undo their own output. */
  ghost predicate Lossless(lib: Library) {
    forall e: Encoding, data: Str, packed: Str ::
      lib.compress(e, data) == Ok(packed) ==> lib.decoder(e, packed) == RawStream(data, None)
  }

  function Compress(lib: Library, e: Encoding, data: Str): Result<Str, Status> {
    if e == Identity then Ok(data) else lib.compress(e, data)
  }

  function Oversize(max: nat): Status {
    Fail(ResourceExhausted, Inflated(max))
  }

  /** `read_capped`: read at most `max + 1` bytes; seeing the extra byte means the cap was blown,
      and a failure that lies beyond it is never noticed. */
  function ReadCapped(raw: RawStream, max: nat): Result<Str, Status> {
    if |raw.bytes| > max then Err(Oversize(max))
    else match raw.failure
         case Some(e) => Err(Fail(Internal, Plain(e)))
         case None => Ok(raw.bytes)
  }

  function Decompress(lib: Library, e: Encoding, data: Str, max: nat): Result<Str, Status> {
    if e == Identity then (if |data| > max then Err(Oversize(max)) else Ok(data))
    else ReadCapped(lib.decoder(e, data), max)
  }

  /** A decompressed message comes back exactly when it is within the cap. */
  lemma DecompressOfCompress(lib: Library, e: Encoding, data: Str, packed: Str, max: nat)
    requires Lossless(lib) && Compress(lib, e, data) == Ok(packed)
    ensures Decompress(lib, e, packed, max) == if |data| <= max then Ok(data) else Err(Oversize(max))
    ensures |data| > max ==> Decompress(lib, e, packed, max).error.code == ResourceExhausted
  {
    if e != Identity {
      assert lib.compress(e, data) == Ok(packed);
    }
  }

  /** Foreign data under any codec: it is refused as oversize exactly when more than the cap comes out
      of it, and as broken exactly when it fails before that. */
  lemma DecompressRefuses(lib: Library, e: Encoding, packed: Str, max: nat)
    requires e != Identity
    ensures var raw, r := lib.decoder(e, packed), Decompress(lib, e, packed, max);
            && (r.Ok? <==> |raw.bytes| <= max && raw.failure.None?) && (r.Ok? ==> r.value == raw.bytes)
            && (|raw.bytes| > max ==> r.error.code == ResourceExhausted)
            && (|raw.bytes| <= max && raw.failure.Some? ==> r.error.code == Internal)
  {
  }

  // ---- negotiation ----

  const COMMA: Byte := 44

  /** `join(",")`. */
  function Join(parts: seq<Str>): Str {
    if parts == [] then []
    else if |parts| == 1 then parts[0]
    else parts[0] + [COMMA] + Join(parts[1..])
  }

  /** `split(',')`: always at least one piece. */
  function Split(s: Str): (pieces: seq<Str>)
    ensures pieces != []
  {
    if s == [] then [[]]
    else
      var rest := Split(s[1..]);
      if s[0] == COMMA then [[]] + rest
      else [[s[0]] + rest[0]] + rest[1..]
  }

  predicate IsSpace(b: Byte) { b == 32 || 9 <= b <= 13 }

  function TrimStart(s: Str): Str {
    if s != [] && IsSpace(s[0]) then TrimStart(s[1..]) else s
  }

  function TrimEnd(s: Str): Str {
    if s != [] && IsSpace(s[|s| - 1]) then TrimEnd(s[..|s| - 1]) else s
  }

  function Trim(s: Str): Str { TrimEnd(TrimStart(s)) }

  function MapTokens(es: seq<Encoding>): seq<Str> {
    seq(|es|, i requires 0 <= i < |es| => Token(es[i]))
  }

  /** `accepted_encodings`: the value of `grpc-accept-encoding`. */
  function AcceptedEncodings(f: Features): Str {
    Join(MapTokens(All(f)))
  }

  predicate Lists(header: Str, e: Encoding) {
    exists i :: 0 <= i < |Split(header)| && Trim(Split(header)[i]) == Token(e)
  }

  /** `find` over the server's codecs. */
  function FirstListed(es: seq<Encoding>, header: Str): Encoding {
    if es == [] then Identity
    else if es[0] != Identity && Lists(header, es[0]) then es[0]
    else FirstListed(es[1..], header)
  }

  /** `negotiate_response_encoding`, given the `grpc-accept-encoding` header if there is one. */
  function Negotiate(f: Features, accept: Option<Str>): Encoding {
    match accept
    case None => Identity
    case Some(header) => FirstListed(All(f), header)
  }

  /** `extract_request_encoding`, given the `grpc-encoding` header if there is one. */
  function RequestEncoding(f: Features, header: Option<Str>): Result<Encoding, Status> {
    match header
    case None => Ok(Identity)
    case Some(s) =>
      match FromToken(f, s)
      case Some(e) => Ok(e)
      case None => Err(Fail(Unimplemented, BadEncoding))
  }

  lemma {:induction false} SplitPrefix(piece: Str, tail: Str)
    requires COMMA !in piece
    ensures Split(piece + [COMMA] + tail) == [piece] + Split(tail)
    ensures Split(piece) == [piece]
  {
    var s := piece + [COMMA] + tail;
    if piece == [] {
      assert s[1..] == tail;
    } else {
      assert s[1..] == piece[1..] + [COMMA] + tail;
      assert piece == [piece[0]] + piece[1..];
      SplitPrefix(piece[1..], tail);
    }
  }

  /** Splitting at commas undoes joining with commas. */
  lemma {:induction false} SplitOfJoin(parts: seq<Str>)
    requires parts != [] && forall i :: 0 <= i < |parts| ==> COMMA !in parts[i]
    ensures Split(Join(parts)) == parts
  {
    if |parts| == 1 {
      SplitPrefix(parts[0], []);
      assert parts == [parts[0]];
    } else {
      SplitPrefix(parts[0], Join(parts[1..]));
      SplitOfJoin(parts[1..]);
    }
  }

  lemma TokenLetters(e: Encoding)
    ensures LowerLetters(Token(e))
  {
    match e
    case Identity => TextLower("identity");
    case Gzip => TextLower("gzip");
    case Deflate => TextLower("deflate");
    case Zstd => TextLower("zstd");
  }

  lemma LettersAreClean(t: Str)
    requires LowerLetters(t)
    ensures COMMA !in t && Trim(t) == t
  {
    assert TrimStart(t) == t && TrimEnd(t) == t;
  }

  /** What a peer reads out of an announced list is exactly the list of codecs announced. */
  lemma AcceptedListsExactly(f: Features, e: Encoding)
    ensures Lists(AcceptedEncodings(f), e) <==> e in All(f)
  {
    var tokens := MapTokens(All(f));
    forall i | 0 <= i < |tokens| ensures COMMA !in tokens[i] && Trim(tokens[i]) == tokens[i] {
      TokenLetters(All(f)[i]);
      LettersAreClean(tokens[i]);
    }
    SplitOfJoin(tokens);
    var pieces := Split(AcceptedEncodings(f));
    if e in All(f) {
      var i :| 0 <= i < |All(f)| && All(f)[i] == e;
      assert Trim(pieces[i]) == Token(e);
    }
    if Lists(AcceptedEncodings(f), e) {
      var i :| 0 <= i < |pieces| && Trim(pieces[i]) == Token(e);
      assert Token(All(f)[i]) == Token(e);
      TokensDiffer(All(f)[i], e);
    }
  }

  /** The first codec other than Identity, in the server's order, that the header lists. */
  ghost predicate FirstMatch(es: seq<Encoding>, header: Str, e: Encoding) {
    exists i :: 0 <= i < |es| && es[i] == e && e != Identity && Lists(header, e)
                && forall j :: 0 <= j < i ==> es[j] == Identity || !Lists(header, es[j])
  }

  lemma {:induction false} FirstListedSpec(es: seq<Encoding>, header: Str)
    ensures var e := FirstListed(es, header);
            if e == Identity then forall i :: 0 <= i < |es| ==> es[i] == Identity || !Lists(header, es[i])
            else FirstMatch(es, header, e)
  {
    if es != [] && !(es[0] != Identity && Lists(header, es[0])) {
      FirstListedSpec(es[1..], header);
      var e := FirstListed(es[1..], header);
      if e != Identity {
        var i :| 0 <= i < |es[1..]| && es[1..][i] == e
              && forall j :: 0 <= j < i ==> es[1..][j] == Identity || !Lists(header, es[1..][j]);
        assert es[i + 1] == e;
        forall j | 0 <= j < i + 1 ensures es[j] == Identity || !Lists(header, es[j]) {
          if j > 0 { assert es[1..][j - 1] == es[j]; }
        }
      } else {
        forall i | 0 <= i < |es| ensures es[i] == Identity || !Lists(header, es[i]) {
          if i > 0 { assert es[1..][i - 1] == es[i]; }
        }
      }
    } else if es != [] {
      assert es[0] == FirstListed(es, header);
    }
  }

  /** The negotiated encoding, for any accept header: a codec of the server's build which is
      Identity or the first of the server's codecs that the client listed. */
  lemma NegotiateSpec(f: Features, accept: Option<Str>)
    ensures var e := Negotiate(f, accept);
            && e in All(f)
            && (e != Identity ==> accept.Some? && FirstMatch(All(f), accept.value, e))
            && (e == Identity ==> forall c :: c in All(f) && c != Identity ==> accept.None? || !Lists(accept.value, c))
  {
    if accept.Some? {
      FirstListedSpec(All(f), accept.value);
    }
  }

  /** Between any two builds: the server picks a codec both sides have, and the client maps the
      announced token back to the very codec the frames are compressed with. The server picks
      Identity only when the builds share nothing else. */
  lemma BuildsAgree(client: Features, server: Features)
    ensures var e := Negotiate(server, Some(AcceptedEncodings(client)));
            && e in All(server) && e in All(client)
            && FromToken(client, Token(e)) == Some(e)
            && (e == Identity <==> forall c :: c in All(client) && c in All(server) ==> c == Identity)
  {
    var header := AcceptedEncodings(client);
    var e := Negotiate(server, Some(header));
    NegotiateSpec(server, Some(header));
    AcceptedListsExactly(client, e);
    TokenRoundTrip(client, Token(e), e);
    forall c ensures Lists(header, c) <==> c in All(client) { AcceptedListsExactly(client, c); }
  }
}
