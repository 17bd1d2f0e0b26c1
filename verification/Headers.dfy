/** HTTP header and trailer blocks: a case-insensitive map from a name (held in lower case) to the
    values received or set under it, in order. */
module HeaderMap {
  import opened Bytes
  import Utf8

  type Headers = map<string, seq<Str>>

  function ValuesOf(h: Headers, name: string): seq<Str> {
    if name in h then h[name] else []
  }

  /** `insert`: replaces every value held under the name. */
  function Insert(h: Headers, name: string, value: Str): Headers {
    h[name := [value]]
  }

  /** `append`: adds one more value under the name. */
  function Append(h: Headers, name: string, value: Str): Headers {
    h[name := ValuesOf(h, name) + [value]]
  }

  /** `get_str`: the value of a header that occurs exactly once and is UTF-8. */
  function GetStr(h: Headers, name: string): Option<Str> {
    var values := ValuesOf(h, name);
    if |values| == 1 && Utf8.Valid(values[0]) then Some(values[0]) else None
  }
}
