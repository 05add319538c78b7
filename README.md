# dsf-rpc: the client/daemon contract, modelled in Dafny

dsf-rpc is the RPC vocabulary between a DSF client and the DSF daemon. Most of
the crate declares data: request and response kinds, and option structures for
the command line. The logic among those declarations is what this project
models and proves things about:

- **Peer records** (`src/peer.rs`). `PeerInfo` is a class whose fields the
  daemon updates in place. `update_address` reconciles a newly observed address
  with the stored one. An `Explicit` address, one requested by the operator,
  always replaces the stored one. An `Implicit` address, one inferred from
  traffic, replaces only an `Implicit` one. The merge rule is the pure
  function `Reconcile`. `ReconcileAll` folds it over a run of observations.
  `Authoritative` is an independent description of the outcome, and the two
  are proved equal. From that follows the invariant: once Explicit, always
  Explicit. `set_state` and `set_seen` overwrite their field unconditionally.
- **The `key:value` parser** (`src/helpers.rs`, copied in `src/lib.rs`). `str::split`
  followed by `collect` is modelled as `Str.Split`. It is proved to be inverse
  to `Str.Join` in both directions. The parser accepts exactly the inputs with
  one colon. It returns the two sides, and every uncoloned key and value pair
  survives a round trip.
- **String bytes** (`data_from_str` in `src/helpers.rs` and `src/data.rs`). A
  Rust `&str` is a sequence of Unicode scalar values, stored as UTF-8.
  `Utf8.Encode` is that encoding. `Utf8.Decode` is a strict decoder, proved to
  be its exact inverse. So the contract "decodes back to `s`" fixes the
  result uniquely.
- **Envelopes, identifiers and option builders** (`src/lib.rs`,
  `src/service.rs`, `src/data.rs`). These are record constructors whose
  fields are stated exactly. The accessors give back what was stored.

Modules: `Wrappers` (Option, Result), `Types` (fixed-width integers and the
opaque primitives), `Utf8`, `Str`, `Helpers`, `Lib`, `Peer`, `Service`, `Data`.
There is one module per core source file, plus four foundations.

Integer widths: `u16` and `u64` are newtypes with their exact ranges.
`usize` is taken as `u64`, as on a 64-bit target. No operation of the core
does arithmetic on them.

The code does not do the following, and the model does not promise it:

- `set_seen` overwrites the stored time even with an earlier one. It is not monotone.
- `set_state` overwrites a learned key. No key-mismatch event exists.
- The code has no service lifecycle transitions, no identifier resolution, no
  pagination and no correlation table. `ServiceState` is only a tag in `ServiceInfo`.

## Model

| member | source | states |
|---|---|---|
| `Peer.Reconcile` | src/peer.rs:61-69 | incoming Explicit always wins; Implicit replaces Implicit; Implicit over Explicit keeps the current address |
| `Peer.ReconcileIdempotent` | src/peer.rs:61-69 | applying the same observation twice equals applying it once |
| `Peer.ReconcileAllIsAuthoritative` | src/peer.rs:61-69 | after any run of observations the address is the last Explicit one; failing that an Explicit start; failing that the last Implicit observation, or the start if there was none |
| `Peer.ReconcileAllSnoc` | src/peer.rs:61-69 | one more observation is one more merge of the running address |
| `Peer.LastExplicit` | src/peer.rs:65 | the index found is Explicit and every later observation is Implicit |
| `Peer.ExplicitIsSticky` | src/peer.rs:61-69 | once the address is Explicit, every further sequence of updates leaves it Explicit |
| `Peer.ExplicitIff` | src/peer.rs:61-69 | the address ends Explicit if and only if it started Explicit or some observation was Explicit |
| `Peer.ExplicitWinsOverLaterImplicit` | src/peer.rs:61-69 | Implicit(A), then Explicit(B), then Implicit(C) yields Explicit(B) |
| `Peer.PeerInfo.constructor` | src/peer.rs:49-51 | stores id, address, state and seen as given, with sent and received zero |
| `Peer.PeerInfo.Endpoint` | src/peer.rs:54-59 | the endpoint inside the stored address, whichever its tag |
| `Peer.PeerInfo.UpdateAddress` | src/peer.rs:61-69 | the new address is the merge of the old one with the observation; an Explicit address stays Explicit; every other field is unchanged |
| `Peer.PeerInfo.State` | src/peer.rs:72-74 | returns the stored state |
| `Peer.PeerInfo.SetState` | src/peer.rs:77-79 | the state becomes the argument unconditionally; every other field is unchanged |
| `Peer.PeerInfo.Seen` | src/peer.rs:81-83 | returns the stored last-seen time |
| `Peer.PeerInfo.SetSeen` | src/peer.rs:85-87 | seen becomes Some(t) unconditionally, even for an earlier t; every other field is unchanged |
| `Peer.ExplicitWinsScenario` | src/peer.rs:49-69 | a record created Implicit(A), updated with Explicit(B) then Implicit(C), reports address B, tagged Explicit |
| `Str.Split` | src/helpers.rs:29 | split-and-collect yields one more part than there are separators, and no part contains a separator |
| `Str.JoinSplit` | src/helpers.rs:29 | joining the parts with the separator gives back the input |
| `Str.SplitJoin` | src/helpers.rs:29 | separator-free parts are recovered exactly by splitting their join |
| `Str.SplitWithoutSep` | src/helpers.rs:29 | an input without the separator splits into itself alone |
| `Str.SplitAfterPart` | src/helpers.rs:29 | a separator-free first part followed by the separator splits off as the first part |
| `Helpers.TryParseKeyValue` | src/helpers.rs:28-38 | succeeds if and only if the input has exactly one colon; then key, colon and value rebuild the input and neither side has a colon; otherwise the error is the "key:value pair parsing failed" error of kind Other |
| `Helpers.KeyValueRoundTrip` | src/helpers.rs:28-38 | for colon-free key and value, empty ones included, parsing key:value returns that pair |
| `Helpers.DataFromStr` | src/helpers.rs:45-47 | the result is the UTF-8 byte representation of s: it decodes back to s, and it is between one and four bytes per character |
| `Helpers.DataFromStrInjective` | src/helpers.rs:45-47 | distinct strings have distinct bytes |
| `Utf8.Encode` | src/helpers.rs:46 | a string takes at least one byte and at most four bytes per character |
| `Utf8.EncodeAscii` | src/helpers.rs:46 | an ASCII string takes exactly one byte per character, each byte the character's code |
| `Utf8.EncodeChar` | src/helpers.rs:46 | one character's bytes: a leading byte announcing the length, then continuation bytes |
| `Utf8.DecodeEncodeChar` | src/helpers.rs:46 | the strict decoder reads back the character from its own bytes |
| `Utf8.EncodeCharOfDecoded` | src/helpers.rs:46 | a well-formed byte group is the encoding of the character it decodes to |
| `Utf8.DecodeEncode` | src/helpers.rs:46 | the bytes of a string decode back to that string |
| `Utf8.EncodeDecode` | src/helpers.rs:46 | any bytes that decode to s are exactly the bytes of s |
| `Utf8.EncodeAppend` | src/helpers.rs:46 | the bytes of a concatenation are the concatenation of the bytes |
| `Lib.Request.New` | src/lib.rs:63-68 | the request carries the given id and kind; the random id is taken as a parameter |
| `Lib.Request.ReqId` | src/lib.rs:70-72 | returns the stored correlation id |
| `Lib.Request.Kind` | src/lib.rs:74-76 | returns a value equal to the stored kind |
| `Lib.Response.New` | src/lib.rs:146-151 | the response carries the given correlation id and kind unchanged |
| `Lib.Response.ReqId` | src/lib.rs:153-155 | returns the stored correlation id |
| `Lib.Response.Kind` | src/lib.rs:157-159 | returns a value equal to the stored kind |
| `Lib.ServiceIdentifier.ById` | src/lib.rs:91-93 | id is Some(x) and index is None, so exactly one selector is set |
| `Lib.ServiceIdentifier.ByIndex` | src/lib.rs:95-97 | id is None and index is Some(n), so exactly one selector is set |
| `Lib.TryParseKv` | src/lib.rs:224-231 | agrees with the helpers parser on every input |
| `Service.CreateOptions.Default` | src/service.rs:112-124 | application id 0; no page kind and no body; no addresses and no metadata; not public and not registering |
| `Service.CreateOptions.AndRegister` | src/service.rs:127-130 | the register flag is set and every other field is as before |
| `Service.AndRegisterIdempotent` | src/service.rs:127-130 | asking for registration twice equals asking once |
| `Service.RegisterCommand.New` | src/service.rs:149-154 | selects the service by id alone (no index) and keeps replication on |
| `Data.PublishOptions.New` | src/data.rs:74-76 | selects the service by id alone; kind, data and data file are all unset |
| `Data.DataFromStr` | src/data.rs:69-71 | returns the UTF-8 bytes of s, equal to the helpers conversion on every input |

## Left out

- `try_parse_sock_addr` (src/helpers.rs:11-21, src/lib.rs:202-209): it resolves names through the operating system's resolver.
- `try_load_file` (src/helpers.rs:23-26, src/lib.rs:217-220): it reads the filesystem.
- `parse_duration` (src/helpers.rs:40-43, src/lib.rs:234-237): it wraps the `humantime` library, which is not part of this model.
- The `Rpc` trait and the actix `Message` implementation (src/lib.rs:45-60): they are asynchronous futures on an actor runtime.
- `Request::new`: `rand::random()` is an input here. The model takes the id as an arbitrary `u64` parameter and does not model the random source.
- `RequestKind` and `ResponseKind`: the envelope is generic over its kind. The catalogues of variants and the command and option structures they carry are declarations without logic. These include `PeerCommands`, `ConnectOptions`, `ServiceCommands`, `DataCommands`, the list, locate and subscribe options, and the info records.
- Command-line parsing (StructOpt), serialisation (serde) and `Display`/`EnumString` (strum) come from derives in external libraries.
- `Id`, `PublicKey`, `PrivateKey`, `SecretKey`, `Signature`, `Address`, `SystemTime`, `DataKind`: these are opaque values, compared for equality only.
- src/display.rs: terminal formatting with colours and relative times, for presentation only.
- src/config.rs, src/page.rs, src/debug.rs, src/replica.rs, src/delegation.rs, src/subscriber.rs, src/name.rs: declarations only.
- The following are not in the code, so the model does not promise them: identifier resolution and its precedence, a monotone `seen`, key-mismatch detection, service lifecycle transitions, pagination and time bounds, and a correlation table.
