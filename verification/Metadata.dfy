/** Custom gRPC metadata: the validated multi-map, and its passage through HTTP headers. */
module CustomMetadata {
  import opened Bytes
  import opened HeaderMap
  import Base64
  import Utf8

  datatype Value = Ascii(text: Str) | Binary(bytes: Str)

  /** Metadata as the protocol sees it: the sequence of values under each key. The order between
      different keys is not part of it. */
  type Bag = map<string, seq<Value>>

  datatype Error = InvalidKey | ReservedKey | AsciiKeyHasBinSuffix | BinaryKeyMissingBinSuffix | InvalidAsciiValue

  predicate ValidKeyChar(c: char) {
    '0' <= c <= '9' || 'a' <= c <= 'z' || c == '_' || c == '-' || c == '.'
  }

  predicate ValidKey(key: string) {
    key != "" && forall i :: 0 <= i < |key| ==> ValidKeyChar(key[i])
  }

  predicate Reserved(key: string) {
    || (|key| >= 5 && key[..5] == "grpc-")
    || key == "te" || key == "content-type" || key == "user-agent" || key == "host" || key == "connection"
  }

  predicate EndsInBin(key: string) {
    |key| >= 4 && key[|key| - 4..] == "-bin"
  }

  predicate PrintableText(s: Str) {
    forall i :: 0 <= i < |s| ==> 0x20 <= s[i] <= 0x7E
  }

  /** A key that user metadata may use. */
  predicate CustomKey(key: string) { ValidKey(key) && !Reserved(key) }

  /** A value that may be stored under a key: binary exactly under `-bin` keys, text in UTF-8. */
  predicate Fits(key: string, value: Value) {
    && (value.Binary? <==> EndsInBin(key))
    && (value.Ascii? ==> Utf8.Valid(value.text))
  }

  ghost predicate WellFormed(bag: Bag) {
    forall key :: key in bag ==>
      CustomKey(key) && bag[key] != [] && forall i :: 0 <= i < |bag[key]| ==> Fits(key, bag[key][i])
  }

  function Under(bag: Bag, key: string): seq<Value> {
    if key in bag then bag[key] else []
  }

  function Add(bag: Bag, key: string, value: Value): Bag {
    bag[key := Under(bag, key) + [value]]
  }

  /** Key by key concatenation. */
  function Merge(a: Bag, b: Bag): Bag {
    map key | key in a.Keys + b.Keys :: Under(a, key) + Under(b, key)
  }

  function Collect(entries: seq<(string, Value)>): Bag {
    if entries == [] then map[]
    else
      var last := entries[|entries| - 1];
      Add(Collect(entries[..|entries| - 1]), last.0, last.1)
  }

  // ---- insertion ----

  function CheckAscii(key: string, value: Str): Option<Error> {
    if !ValidKey(key) then Some(InvalidKey)
    else if Reserved(key) then Some(ReservedKey)
    else if EndsInBin(key) then Some(AsciiKeyHasBinSuffix)
    else if !PrintableText(value) then Some(InvalidAsciiValue)
    else None
  }

  function CheckBinary(key: string): Option<Error> {
    if !ValidKey(key) then Some(InvalidKey)
    else if Reserved(key) then Some(ReservedKey)
    else if !EndsInBin(key) then Some(BinaryKeyMissingBinSuffix)
    else None
  }

  // ---- through headers ----

  function EncodeValue(value: Value): Str {
    match value
    case Ascii(text) => text
    case Binary(bytes) => Base64.Encode(bytes)
  }

  function EncodeAll(values: seq<Value>): seq<Str> {
    seq(|values|, i requires 0 <= i < |values| => EncodeValue(values[i]))
  }

  /** One header value read under a key, or nothing when it cannot be read. */
  function DecodeValue(key: string, raw: Str): Option<Value> {
    if EndsInBin(key) then
      match Base64.Decode(raw)
      case Some(bytes) => Some(Binary(bytes))
      case None => None
    else if Utf8.Valid(raw) then Some(Ascii(raw))
    else None
  }

  function DecodeAll(key: string, raws: seq<Str>): seq<Value> {
    if raws == [] then []
    else
      var front := DecodeAll(key, raws[..|raws| - 1]);
      match DecodeValue(key, raws[|raws| - 1])
      case Some(v) => front + [v]
      case None => front
  }

  /** The custom metadata contained in a header block; what cannot be read is dropped. */
  function FromHeaders(h: Headers): Bag {
    map key | key in h && CustomKey(key) && DecodeAll(key, h[key]) != [] :: DecodeAll(key, h[key])
  }

  /** The header block after appending every entry of a bag. */
  function WriteInto(bag: Bag, h: Headers): Headers {
    map name | name in h.Keys + bag.Keys :: ValuesOf(h, name) + EncodeAll(Under(bag, name))
  }

  lemma {:induction false} DecodeAllAppend(key: string, a: seq<Str>, b: seq<Str>)
    ensures DecodeAll(key, a + b) == DecodeAll(key, a) + DecodeAll(key, b)
  {
    if b == [] {
      assert a + b == a;
    } else {
      assert (a + b)[..|a + b| - 1] == a + b[..|b| - 1];
      DecodeAllAppend(key, a, b[..|b| - 1]);
    }
  }

  lemma {:induction false} DecodeAllOfEncodeAll(key: string, values: seq<Value>)
    requires forall i :: 0 <= i < |values| ==> Fits(key, values[i])
    ensures DecodeAll(key, EncodeAll(values)) == values
  {
    if values != [] {
      var front, last := values[..|values| - 1], values[|values| - 1];
      DecodeAllOfEncodeAll(key, front);
      DecodeOfEncodeValue(key, last);
      EncodeOneMore(front, last);
      DecodeOneMore(key, EncodeAll(front), EncodeValue(last));
      assert values == front + [last];
    }
  }

  lemma DecodeOneMore(key: string, raws: seq<Str>, raw: Str)
    requires DecodeValue(key, raw).Some?
    ensures DecodeAll(key, raws + [raw]) == DecodeAll(key, raws) + [DecodeValue(key, raw).value]
  {
    assert (raws + [raw])[..|raws|] == raws;
  }

  lemma DecodeOfEncodeValue(key: string, value: Value)
    requires Fits(key, value)
    ensures DecodeValue(key, EncodeValue(value)) == Some(value)
  {
    if value.Binary? { Base64.DecodeOfEncode(value.bytes); }
  }

  lemma {:induction false} DecodeAllFits(key: string, raws: seq<Str>)
    ensures forall i :: 0 <= i < |DecodeAll(key, raws)| ==> Fits(key, DecodeAll(key, raws)[i])
  {
    if raws != [] { DecodeAllFits(key, raws[..|raws| - 1]); }
  }

  /** Whatever headers a peer sends, the metadata read from them is well-formed. */
  lemma FromHeadersWellFormed(h: Headers)
    ensures WellFormed(FromHeaders(h))
  {
    forall key | key in FromHeaders(h)
      ensures forall i :: 0 <= i < |FromHeaders(h)[key]| ==> Fits(key, FromHeaders(h)[key][i])
    {
      DecodeAllFits(key, h[key]);
    }
  }

  /** Metadata written onto any header block is read back, key by key, after what the block
      already carried. */
  lemma FromHeadersOfWriteInto(bag: Bag, h: Headers)
    requires WellFormed(bag)
    ensures FromHeaders(WriteInto(bag, h)) == Merge(FromHeaders(h), bag)
  {
    var l, r := FromHeaders(WriteInto(bag, h)), Merge(FromHeaders(h), bag);
    forall key ensures key in l <==> key in r {
      ReadBack(bag, h, key);
    }
    forall key | key in l ensures l[key] == r[key] {
      ReadBack(bag, h, key);
    }
    SameMap(l, r);
  }

  lemma WriteAt(bag: Bag, h: Headers, name: string)
    ensures name in WriteInto(bag, h) <==> name in h || name in bag
    ensures ValuesOf(WriteInto(bag, h), name) == ValuesOf(h, name) + EncodeAll(Under(bag, name))
  {
  }

  lemma ReadBack(bag: Bag, h: Headers, key: string)
    requires WellFormed(bag)
    ensures Under(FromHeaders(WriteInto(bag, h)), key) == Under(FromHeaders(h), key) + Under(bag, key)
    ensures key in FromHeaders(WriteInto(bag, h)) <==> key in FromHeaders(h) || key in bag
  {
    DecodeAllAppend(key, ValuesOf(h, key), EncodeAll(Under(bag, key)));
    DecodeAllOfEncodeAll(key, Under(bag, key));
  }

  lemma EmptyHeaders()
    ensures FromHeaders(map[]) == map[]
  {
  }

  lemma MergeEmpty(bag: Bag)
    ensures Merge(map[], bag) == bag && Merge(bag, map[]) == bag
  {
    assert forall key :: key in bag ==> [] + bag[key] == bag[key] + [] == bag[key];
  }

  /** A well-formed bag survives the trip through fresh headers unchanged. */
  lemma RoundTrip(bag: Bag)
    requires WellFormed(bag)
    ensures FromHeaders(WriteInto(bag, map[])) == bag
  {
    FromHeadersOfWriteInto(bag, map[]);
    EmptyHeaders();
    MergeEmpty(bag);
  }

  /** Normalising a header block (reading its metadata and writing it afresh) twice is the same
      as doing it once. */
  lemma NormaliseIdempotent(h: Headers)
    ensures var once := WriteInto(FromHeaders(h), map[]);
            FromHeaders(once) == FromHeaders(h) && WriteInto(FromHeaders(once), map[]) == once
  {
    FromHeadersWellFormed(h);
    RoundTrip(FromHeaders(h));
  }

  /** Metadata never touches a header the framework owns. */
  lemma ReservedUntouched(bag: Bag, h: Headers, name: string)
    requires WellFormed(bag) && !CustomKey(name)
    ensures ValuesOf(WriteInto(bag, h), name) == ValuesOf(h, name)
  {
    if name in h { assert EncodeAll(Under(bag, name)) == []; }
  }

  /** Every text in it is printable ASCII: what inserting alone can build. */
  ghost predicate Printable(bag: Bag) {
    forall key, i :: key in bag && 0 <= i < |bag[key]| && bag[key][i].Ascii? ==> PrintableText(bag[key][i].text)
  }

  /** The header values that inserted metadata turns into are printable ASCII, binary ones included. */
  lemma WrittenPrintable(bag: Bag, h: Headers, name: string, k: nat)
    requires Printable(bag) && |ValuesOf(h, name)| <= k < |ValuesOf(WriteInto(bag, h), name)|
    ensures PrintableText(ValuesOf(WriteInto(bag, h), name)[k])
  {
    WriteAt(bag, h, name);
    var value := Under(bag, name)[k - |ValuesOf(h, name)|];
    if value.Binary? { Base64.EncodePrintable(value.bytes); }
  }

  lemma AddPrintable(bag: Bag, key: string, value: Value)
    requires Printable(bag) && (value.Ascii? ==> PrintableText(value.text))
    ensures Printable(Add(bag, key, value))
  {
    forall k, i | k in Add(bag, key, value) && 0 <= i < |Add(bag, key, value)[k]| && Add(bag, key, value)[k][i].Ascii?
      ensures PrintableText(Add(bag, key, value)[k][i].text)
    {
      AddAt(bag, key, value, k);
      if k == key && i < |Under(bag, key)| { assert bag[key][i].Ascii?; }
    }
  }

  lemma InsertReserved(h: Headers, name: string, value: Str)
    requires !CustomKey(name)
    ensures FromHeaders(Insert(h, name, value)) == FromHeaders(h)
  {
    var h2 := Insert(h, name, value);
    assert forall key :: key != name ==> (key in h2 <==> key in h) && (key in h ==> h2[key] == h[key]);
    assert FromHeaders(h2).Keys == FromHeaders(h).Keys;
  }

  // ---- the mutable map ----

  class Metadata {
    var entries: seq<(string, Value)>

    ghost function Contents(): Bag reads this { Collect(entries) }

    ghost predicate Valid() reads this { WellFormed(Contents()) }

    constructor ()
      ensures Valid() && Contents() == map[] && Printable(Contents())
    {
      entries := [];
    }

    method InsertAscii(key: string, value: Str) returns (r: Result<(), Error>)
      requires Valid()
      modifies this
      ensures Valid()
      ensures r.Ok? <==> CustomKey(key) && !EndsInBin(key) && PrintableText(value)
      ensures r.Err? ==> Some(r.error) == CheckAscii(key, value)
      ensures r.Err? ==> r.error == if !ValidKey(key) then InvalidKey else if Reserved(key) then ReservedKey
                                    else if EndsInBin(key) then AsciiKeyHasBinSuffix else InvalidAsciiValue
      ensures Contents() == if r.Ok? then Add(old(Contents()), key, Ascii(value)) else old(Contents())
      ensures old(Printable(Contents())) ==> Printable(Contents())
    {
      var problem := CheckAscii(key, value);
      if problem.Some? {
        return Err(problem.value);
      }
      Utf8.AsciiValid(value);
      if Printable(Contents()) { AddPrintable(Contents(), key, Ascii(value)); }
      Push(key, Ascii(value));
      return Ok(());
    }

    method InsertBinary(key: string, value: Str) returns (r: Result<(), Error>)
      requires Valid()
      modifies this
      ensures Valid()
      ensures r.Ok? <==> CustomKey(key) && EndsInBin(key)
      ensures r.Err? ==> Some(r.error) == CheckBinary(key)
      ensures r.Err? ==> r.error == if !ValidKey(key) then InvalidKey else if Reserved(key) then ReservedKey
                                    else BinaryKeyMissingBinSuffix
      ensures Contents() == if r.Ok? then Add(old(Contents()), key, Binary(value)) else old(Contents())
      ensures old(Printable(Contents())) ==> Printable(Contents())
    {
      var problem := CheckBinary(key);
      if problem.Some? {
        return Err(problem.value);
      }
      if Printable(Contents()) { AddPrintable(Contents(), key, Binary(value)); }
      Push(key, Binary(value));
      return Ok(());
    }

    method Push(key: string, value: Value)
      requires Valid() && CustomKey(key) && Fits(key, value)
      modifies this
      ensures Valid() && Contents() == Add(old(Contents()), key, value)
      ensures entries == old(entries) + [(key, value)]
    {
      entries := entries + [(key, value)];
      assert entries[..|entries| - 1] == old(entries);
    }

    /** Append every entry, in insertion order. */
    method WriteTo(headers: Headers) returns (out: Headers)
      ensures out == WriteInto(Contents(), headers)
    {
      out := headers;
      var i := 0;
      WriteNothing(headers);
      while i < |entries|
        invariant 0 <= i <= |entries|
        invariant out == WriteInto(Collect(entries[..i]), headers)
      {
        var (key, value) := entries[i];
        out := Append(out, key, EncodeValue(value));
        assert entries[..i + 1][..i] == entries[..i];
        WriteOneMore(Collect(entries[..i]), headers, key, value);
        i := i + 1;
      }
      assert entries[..|entries|] == entries;
    }

    /** Read the custom metadata out of a header block, visiting the names in any order. */
    static method ReadFrom(headers: Headers) returns (m: Metadata)
      ensures fresh(m) && m.Valid() && m.Contents() == FromHeaders(headers)
    {
      m := new Metadata();
      var names := headers.Keys;
      EmptyHeaders();
      assert headers - names == map[];
      while names != {}
        invariant fresh(m) && m.Valid() && names <= headers.Keys
        invariant m.Contents() == FromHeaders(headers - names)
        decreases |names|
      {
        var name :| name in names;
        ReadOneMore(headers, names, name);
        if CustomKey(name) {
          m.ReadValues(name, headers[name]);
        }
        names := names - {name};
      }
      assert headers - {} == headers;
    }

    method ReadValues(name: string, values: seq<Str>)
      requires Valid() && CustomKey(name) && name !in Contents()
      modifies this
      ensures Valid()
      ensures Contents() == Read(old(Contents()), name, values)
    {
      ghost var before := Contents();
      var i := 0;
      while i < |values|
        invariant 0 <= i <= |values| && Valid()
        invariant Contents() == Read(before, name, values[..i])
      {
        assert values[..i + 1][..i] == values[..i];
        var decoded := DecodeValue(name, values[i]);
        if decoded.Some? {
          Push(name, decoded.value);
        }
        i := i + 1;
      }
      assert values[..|values|] == values;
    }
  }

  /** A bag after the readable values found under a fresh name were stored. */
  function Read(bag: Bag, name: string, values: seq<Str>): Bag {
    if DecodeAll(name, values) == [] then bag else bag[name := DecodeAll(name, values)]
  }

  lemma WriteNothing(h: Headers)
    ensures WriteInto(map[], h) == h
  {
    assert forall name :: name in h ==> h[name] + [] == h[name];
  }

  lemma ReadOneMore(headers: Headers, names: set<string>, name: string)
    requires name in names && names <= headers.Keys
    ensures name !in FromHeaders(headers - names)
    ensures FromHeaders(headers - (names - {name})) ==
              if CustomKey(name) then Read(FromHeaders(headers - names), name, headers[name])
              else FromHeaders(headers - names)
  {
    var l, r := FromHeaders(headers - (names - {name})), FromHeaders(headers - names);
    assert forall key :: key != name ==> (key in l <==> key in r) && (key in l ==> l[key] == r[key]);
  }

  lemma WriteOneMore(bag: Bag, h: Headers, key: string, value: Value)
    ensures WriteInto(Add(bag, key, value), h) == Append(WriteInto(bag, h), key, EncodeValue(value))
  {
    var l, r := WriteInto(Add(bag, key, value), h), Append(WriteInto(bag, h), key, EncodeValue(value));
    forall name
      ensures name in l <==> name in r
      ensures ValuesOf(l, name) == ValuesOf(r, name)
    {
      WriteAt(Add(bag, key, value), h, name);
      WriteAt(bag, h, name);
      AddAt(bag, key, value, name);
      EncodeOneMore(Under(bag, key), value);
    }
    forall name | name in l ensures l[name] == r[name] {
      assert ValuesOf(l, name) == l[name] && ValuesOf(r, name) == r[name];
    }
    SameMap(l, r);
  }

  lemma AddAt(bag: Bag, key: string, value: Value, name: string)
    ensures Under(Add(bag, key, value), name) == if name == key then Under(bag, key) + [value] else Under(bag, name)
    ensures name in Add(bag, key, value) <==> name == key || name in bag
  {
  }

  lemma EncodeOneMore(values: seq<Value>, value: Value)
    ensures EncodeAll(values + [value]) == EncodeAll(values) + [EncodeValue(value)]
  {
  }
}
