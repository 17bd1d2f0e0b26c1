/** The content types that name gRPC and its codec, on requests and responses. */
module ContentTypes {
  import opened Bytes
  import opened Encodings
  import opened ClientSpec
  import opened Wire
  import Dispatch
  import Utf8

  /** `value` is a media type between blanks, and any parameters behind it. */
  ghost predicate Parts(value: Str, media: Str, left: Str, right: Str, parameters: Str) {
    && value == left + media + right + parameters
    && media != [] && Compact(media) && ';' as int !in media && Blank(left) && Blank(right)
    && (parameters != [] ==> parameters[0] == ';' as int)
  }

  /** `s` spells `word` in letters of either case. */
  predicate AnyCase(s: Str, word: string) {
    && |s| == |word|
    && forall i :: 0 <= i < |s| ==> SameLetter(s[i], word[i])
  }

  predicate SameLetter(b: Byte, c: char) {
    b == c as int || ('a' <= c <= 'z' && b == c as int - 'a' as int + 'A' as int)
  }

  predicate NoCapitals(word: string) {
    forall i :: 0 <= i < |word| ==> word[i] as int < 128 && !('A' <= word[i] <= 'Z')
  }

  lemma LowerSpells(s: Str, word: string)
    requires NoCapitals(word)
    ensures Lower(s) == Text(word) <==> AnyCase(s, word)
  {
    assert |Lower(s)| == |s| && |Text(word)| == |word|;
    if |s| == |word| {
      forall i | 0 <= i < |s| ensures Lower(s)[i] == Text(word)[i] <==> SameLetter(s[i], word[i]) {
        assert Text(word)[i] == word[i] as int;
      }
    }
  }

  /** The codec that a media type names: `application/grpc` in letters of any case, with a plus sign
      and the codec behind it or, for `proto`, nothing. */
  predicate NamesCodec(media: Str, codec: Str) {
    && |media| >= 16 && AnyCase(media[..16], "application/grpc")
    && if |media| == 16 then codec == Text("proto") else media[16] == '+' as int && codec == media[17..]
  }

  ghost predicate HasType(value: Str, media: Str) {
    exists left, right, parameters :: Parts(value, media, left, right, parameters)
  }

  /** These are the content types that are taken for gRPC, each for its codec. */
  lemma ContentTypeExactly(value: Str, codec: Str)
    ensures ContentSuffix(value) == Some(codec) <==> exists media :: HasType(value, media) && NamesCodec(media, codec)
  {
    if |Media(value)| >= 16 {
      MediaFramed(value);
      LowerSpells(Media(value)[..16], "application/grpc");
    }
    forall media | HasType(value, media) ensures Media(value) == media {
      var left, right, parameters :| Parts(value, media, left, right, parameters);
      MediaOfFrame(value, media, left, right, parameters);
    }
  }

  function Media(value: Str): Str {
    Trim(UpTo(Trim(value), SEMICOLON))
  }

  lemma MediaFramed(value: Str)
    requires Media(value) != []
    ensures HasType(value, Media(value))
  {
    var whole := Trim(value);
    var front := UpTo(whole, SEMICOLON);
    var media := Trim(front);
    var left, end := TrimCuts(value);
    var rest := UpToCuts(whole);
    var none, right := TrimCuts(front);
    assert none == [];
    if rest == [] {
      assert Parts(value, media, left, right + end, []);
    } else {
      assert Parts(value, media, left, right, rest + end);
    }
  }

  lemma MediaOfFrame(value: Str, media: Str, left: Str, right: Str, parameters: Str)
    requires Parts(value, media, left, right, parameters)
    ensures Media(value) == media
  {
    var core, end := media, right;
    if parameters != [] {
      var none, last := TrimCuts(parameters);
      assert none == [];
      assert Trim(parameters) != [];
      core, end := media + right + Trim(parameters), last;
      UpToStops(media + right, Trim(parameters));
    } else {
      UpToStops(media, []);
      assert media + [] == media;
    }
    assert value == left + core + end;
    TrimExactly(left, core, end);
    var tail := if parameters == [] then [] else right;
    TrimExactly([], media, tail);
    assert UpTo(core, SEMICOLON) == [] + media + tail;
  }

  lemma TrimCuts(s: Str) returns (left: Str, right: Str)
    ensures s == left + Trim(s) + right && Blank(left) && Blank(right) && Compact(Trim(s))
  {
    var t := TrimStart(s);
    left := StartCuts(s);
    right := EndCuts(t);
    if Trim(s) != [] {
      BlankByte(t[0]);
      BlankByte(Trim(s)[|Trim(s)| - 1]);
      assert Trim(s)[0] == t[0];
    }
  }

  lemma {:induction false} StartCuts(s: Str) returns (left: Str)
    ensures s == left + TrimStart(s) && Blank(left) && (TrimStart(s) != [] ==> !IsSpace(TrimStart(s)[0]))
  {
    if s != [] && IsSpace(s[0]) {
      BlankByte(s[0]);
      assert [s[0]][0] == s[0];
      left := StartCuts(s[1..]);
      left := [s[0]] + left;
    } else {
      left := [];
    }
  }

  lemma {:induction false} EndCuts(s: Str) returns (right: Str)
    ensures s == TrimEnd(s) + right && Blank(right)
    ensures TrimEnd(s) != [] ==> !IsSpace(TrimEnd(s)[|TrimEnd(s)| - 1])
  {
    if s != [] && IsSpace(s[|s| - 1]) {
      BlankByte(s[|s| - 1]);
      assert [s[|s| - 1]][0] == s[|s| - 1];
      right := EndCuts(s[..|s| - 1]);
      right := right + [s[|s| - 1]];
    } else {
      right := [];
    }
  }

  lemma {:induction false} UpToCuts(s: Str) returns (rest: Str)
    ensures s == UpTo(s, SEMICOLON) + rest && SEMICOLON !in UpTo(s, SEMICOLON)
    ensures rest != [] ==> rest[0] == SEMICOLON
  {
    if s == [] || s[0] == SEMICOLON {
      rest := s;
    } else {
      rest := UpToCuts(s[1..]);
    }
  }

  lemma {:induction false} UpToStops(front: Str, rest: Str)
    requires SEMICOLON !in front && (rest != [] ==> rest[0] == SEMICOLON)
    ensures UpTo(front + rest, SEMICOLON) == front
  {
    if front == [] {
      assert front + rest == rest;
    } else {
      assert (front + rest)[1..] == front[1..] + rest;
      UpToStops(front[1..], rest);
    }
  }

  /** A `te` header lets gRPC through when one of the names it lists is `trailers`, in letters of any
      case and with any blanks around it. */
  lemma TeExactly(lefts: seq<Str>, cores: seq<Str>, rights: seq<Str>)
    requires |lefts| == |cores| == |rights| > 0
    requires forall i :: 0 <= i < |cores| ==>
               Blank(lefts[i]) && Blank(rights[i]) && Compact(cores[i]) && ',' as int !in cores[i]
    requires Utf8.Valid(Join(Padded(lefts, cores, rights)))
    ensures Dispatch.NamesTrailers([Join(Padded(lefts, cores, rights))])
            <==> exists i :: 0 <= i < |cores| && AnyCase(cores[i], "trailers")
  {
    var parts := Padded(lefts, cores, rights);
    var values := [Join(parts)];
    forall i | 0 <= i < |parts| ensures COMMA !in parts[i] && Trim(parts[i]) == cores[i] {
      TrimExactly(lefts[i], cores[i], rights[i]);
    }
    SplitOfJoin(parts);
    forall i | 0 <= i < |cores| ensures Lower(Trim(parts[i])) == Text("trailers") <==> AnyCase(cores[i], "trailers") {
      LowerSpells(cores[i], "trailers");
    }
    assert Split(values[0]) == parts;
  }
}
