/** The argument parsers of `helpers.rs` that do not touch the OS or a library. */
module Helpers {
  import opened Types
  import opened Wrappers
  import Str
  import Utf8

  datatype IoErrorKind = Other

  datatype IoError = IoError(kind: IoErrorKind, message: string)

  /** The one error `try_parse_key_value` returns. */
  const KeyValueParseFailed: IoError := IoError(Other, "key:value pair parsing failed")

  /**
   * Splits a `key:value` argument at its colon. Exactly one colon is accepted;
   * no colon (the empty input included) or two or more colons is the error.
   */
  function TryParseKeyValue(from: string): (r: Result<(string, string), IoError>)
    ensures r.Success? <==> multiset(from)[':'] == 1
    ensures r.Success? ==> r.value.0 + ":" + r.value.1 == from
    ensures r.Success? ==> ':' !in r.value.0 && ':' !in r.value.1
    ensures r.Failure? ==> r.error == KeyValueParseFailed
  {
    var split := Str.Split(from, ':');
    if |split| != 2 then
      Failure(IoError(Other, "key:value pair parsing failed"))
    else
      Str.JoinSplit(from, ':');
      Success((split[0], split[1]))
  }

  /** Any key and value free of colons, empty ones included, survive a round trip. */
  lemma KeyValueRoundTrip(k: string, v: string)
    requires ':' !in k && ':' !in v
    ensures TryParseKeyValue(k + ":" + v) == Success((k, v))
  {
    Str.SplitJoin([k, v], ':');
    assert Str.Join([k, v], ':') == k + ":" + v;
  }

  /** The bytes of `s`: its UTF-8 encoding, so its length is the byte length of `s`. */
  function DataFromStr(s: string): (r: seq<byte>)
    ensures Utf8.Decode(r) == Some(s)
    ensures |s| <= |r| <= 4 * |s|
  {
    Utf8.DecodeEncode(s);
    Utf8.Encode(s)
  }

  /** Two strings have the same bytes only if they are the same string. */
  lemma DataFromStrInjective(s: string, t: string)
    requires DataFromStr(s) == DataFromStr(t)
    ensures s == t
  {
    assert Utf8.Decode(DataFromStr(s)) == Some(s);
  }
}
