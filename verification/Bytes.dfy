/** Bytes, text and the result types shared by every component.
    A Rust `String` is modelled by its UTF-8 bytes; header names are ASCII, so they stay Dafny strings. */
module Bytes {
  type Byte = x: int | 0 <= x < 256
  type Str = seq<Byte>

  datatype Option<+T> = None | Some(value: T)

  datatype Result<+T, +E> = Ok(value: T) | Err(error: E)

  /** `std::task::Poll`. */
  datatype Poll<+T> = Pending | Ready(value: T)

  /** The bytes of an ASCII literal. */
  function Text(s: string): Str {
    seq(|s|, i requires 0 <= i < |s| => s[i] as int % 256)
  }

  lemma MoveOver<T>(done: seq<T>, x: T, todo: seq<T>)
    ensures done + ([x] + todo) == done + [x] + todo
  {
  }

  lemma TakeSnoc<T>(s: seq<T>, n: nat)
    requires n < |s|
    ensures s[..n + 1] == s[..n] + [s[n]]
  {
  }

  lemma SameMap<K, V>(a: map<K, V>, b: map<K, V>)
    requires a.Keys == b.Keys && forall k :: k in a ==> a[k] == b[k]
    ensures a == b
  {
  }

  /** Lower-case literals, whose bytes are lower-case letters. */
  predicate LowerLetters(s: Str) {
    s != [] && forall i :: 0 <= i < |s| ==> 97 <= s[i] <= 122
  }

  lemma TextLower(s: string)
    requires s != "" && forall i :: 0 <= i < |s| ==> 'a' <= s[i] <= 'z'
    ensures LowerLetters(Text(s))
  {
  }
}
