/** Service records and the option builders of `service.rs`. */
module Service {
  import opened Types
  import opened Wrappers
  import Lib

  datatype ServiceState = Created | Registered | Located | Subscribed

  /** The daemon's view of one service, as reported to clients. */
  datatype ServiceInfo = ServiceInfo(
    id: Id,
    index: usize,
    state: ServiceState,
    publicKey: PublicKey,
    privateKey: Option<PrivateKey>,
    secretKey: Option<SecretKey>,
    lastUpdated: Option<SystemTime>,
    primaryPage: Option<Signature>,
    replicaPage: Option<Signature>,
    subscribers: usize,
    replicas: usize,
    origin: bool)

  /** Options for creating a service. */
  datatype CreateOptions = CreateOptions(
    applicationId: u16,
    pageKind: Option<u16>,
    body: Option<Lib.Body>,
    addresses: seq<Address>,
    metadata: seq<(string, string)>,
    public: bool,
    register: bool)
  {
    static function Default(): (r: CreateOptions)
      ensures r.applicationId == 0
      ensures r.pageKind == None && r.body == None
      ensures r.addresses == [] && r.metadata == []
      ensures !r.public && !r.register
    {
      CreateOptions(0, None, None, [], [], false, false)
    }

    /** The same options, asking for registration after creation. */
    function AndRegister(): (r: CreateOptions)
      ensures r.register
      ensures r.(register := register) == this
    {
      this.(register := true)
    }
  }

  lemma AndRegisterIdempotent(o: CreateOptions)
    ensures o.AndRegister().AndRegister() == o.AndRegister()
  {
  }

  datatype RegisterOptions = RegisterOptions(noReplica: bool)

  /** A request to register a service. */
  datatype RegisterCommand = RegisterCommand(service: Lib.ServiceIdentifier, options: RegisterOptions) {

    /** Register the service with global id `id`, becoming a replica. */
    static function New(id: Id): (r: RegisterCommand)
      ensures r.service.id == Some(id) && r.service.index == None
      ensures !r.options.noReplica
    {
      RegisterCommand(Lib.ServiceIdentifier(Some(id), None), RegisterOptions(false))
    }
  }
}
