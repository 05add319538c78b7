/**
 * The crate root: the request/response envelope, the service identifier,
 * the crate's own `Body`, and its copy of the `key:value` parser.
 */
module Lib {
  import opened Types
  import opened Wrappers
  import Str
  import Helpers

  /**
   * A request to the daemon. `K` stands for the `RequestKind` catalogue.
   * The id is chosen by the caller at random; here it is a parameter.
   */
  datatype Request<K> = Request(reqId: u64, kind: K) {

    static function New(reqId: u64, kind: K): (r: Request<K>)
      ensures r.ReqId() == reqId && r.Kind() == kind
    {
      Request(reqId, kind)
    }

    function ReqId(): (r: u64)
      ensures Request(r, kind) == this
    {
      reqId
    }

    /** A clone of the kind: a value equal to the stored one. */
    function Kind(): (k: K)
      ensures Request(reqId, k) == this
    {
      kind
    }
  }

  /** A reply from the daemon. `K` stands for the `ResponseKind` catalogue. */
  datatype Response<K> = Response(reqId: u64, kind: K) {

    /** The correlation id is carried through unchanged. */
    static function New(reqId: u64, kind: K): (r: Response<K>)
      ensures r.ReqId() == reqId && r.Kind() == kind
    {
      Response(reqId, kind)
    }

    function ReqId(): (r: u64)
      ensures Response(r, kind) == this
    {
      reqId
    }

    function Kind(): (k: K)
      ensures Response(reqId, k) == this
    {
      kind
    }
  }

  /** Selects a service (or peer) by global id or by local index. */
  datatype ServiceIdentifier = ServiceIdentifier(id: Option<Id>, index: Option<usize>) {

    /** Exactly one of the two selectors is present. */
    predicate SelectsOne() {
      id.Some? != index.Some?
    }

    static function ById(id: Id): (r: ServiceIdentifier)
      ensures r.id == Some(id) && r.index == None
      ensures r.SelectsOne()
    {
      ServiceIdentifier(Some(id), None)
    }

    static function ByIndex(index: usize): (r: ServiceIdentifier)
      ensures r.id == None && r.index == Some(index)
      ensures r.SelectsOne()
    {
      ServiceIdentifier(None, Some(index))
    }
  }

  /** A page body as raw bytes. */
  datatype Body = Body(data: seq<byte>)

  /** The crate root's copy of the `key:value` parser; same split and same check. */
  function TryParseKv(from: string): (r: Result<(string, string), Helpers.IoError>)
    ensures r == Helpers.TryParseKeyValue(from)
  {
    var split := Str.Split(from, ':');
    if |split| != 2 then
      Failure(Helpers.IoError(Helpers.Other, "key:value pair parsing failed"))
    else
      Success((split[0], split[1]))
  }
}
