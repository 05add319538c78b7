/** Data publishing options of `data.rs`. */
module Data {
  import opened Types
  import opened Wrappers
  import Lib
  import Helpers
  import Utf8

  /** Options for publishing data to a service. */
  datatype PublishOptions = PublishOptions(
    service: Lib.ServiceIdentifier,
    kind: Option<DataKind>,
    data: Option<seq<byte>>,
    dataFile: Option<string>)
  {
    /** Publish to the service with global id `id`, everything else unset. */
    static function New(id: Id): (r: PublishOptions)
      ensures r.service.id == Some(id) && r.service.index == None
      ensures r.kind == None && r.data == None && r.dataFile == None
    {
      PublishOptions(Lib.ServiceIdentifier(Some(id), None), None, None, None)
    }
  }

  /** This file's private copy of the string-to-bytes conversion. */
  function DataFromStr(s: string): (r: seq<byte>)
    ensures Utf8.Decode(r) == Some(s)
    ensures r == Helpers.DataFromStr(s)
  {
    Utf8.DecodeEncode(s);
    Utf8.Encode(s)
  }
}
