/** `handle_request` of src/handlers.rs and `handle_stream` of src/main.rs, from request bytes to reply bytes. */
module Dispatch {
  import opened Results
  import opened WireFormat
  import opened Addresses
  import opened Protocol
  import opened ResolverBridge
  import UserReply
  import GroupReply
  import InitgroupsReply
  import HostReply
  import AddrInfoReply

  /** An entry of getaddrinfo's result list; entries that are errors are `None`. */
  datatype AiEntry = AiEntry(canonName: Option<seq<Byte>>, addr: IpAddr)

  /** What a name service call comes back with; `Err` is its error. */
  type Lookup<T> = Result<T, ()>

  /** The system calls and library parsers the handlers rely on, with arbitrary answers. */
  datatype Backend = Backend(
    userByUid: U32 -> Lookup<Option<UserReply.User>>,
    userByName: seq<Byte> -> Lookup<Option<UserReply.User>>,
    groupByGid: U32 -> Lookup<Option<GroupReply.Group>>,
    groupByName: seq<Byte> -> Lookup<Option<GroupReply.Group>>,
    groupList: (seq<Byte>, U32) -> Lookup<seq<U32>>,
    addrInfo: seq<Byte> -> Lookup<seq<Option<AiEntry>>>,
    hostByAddr: IpAddr -> Outcome,
    hostByName: (seq<Byte>, int) -> Outcome,
    utf8: seq<Byte> -> bool,
    atoi: seq<Byte> -> Option<U32>)

  /** The errors of `handle_request`; `NoReturn` stands for a lookup that runs out of memory instead of returning. */
  datatype HandleError = BadKey | LookupFailed | Unserializable(error: SerializeError) | NoReturn

  // ---------- keys ----------

  /** `CStr::from_bytes_with_nul`: one NUL, at the end. */
  function CStrKey(key: seq<Byte>): Option<CStr> {
    if key != [] && key[|key| - 1] == 0 && 0 !in key[..|key| - 1] then Some(key[..|key| - 1]) else None
  }

  /** ... followed by `to_str`. */
  function StrKey(b: Backend, key: seq<Byte>): Option<CStr> {
    match CStrKey(key)
    case None => None
    case Some(s) => if b.utf8(s) then Some(s) else None
  }

  // ---------- one kind of lookup each ----------

  function Sent(bytes: Result<seq<Byte>, SerializeError>): Result<seq<Byte>, HandleError> {
    match bytes
    case Ok(value) => Ok(value)
    case Err(error) => Err(Unserializable(error))
  }

  function SendUser(found: Lookup<Option<UserReply.User>>): Result<seq<Byte>, HandleError> {
    match found
    case Err(_) => Err(LookupFailed)
    case Ok(user) => Sent(UserReply.Response(user))
  }

  function SendGroup(found: Lookup<Option<GroupReply.Group>>): Result<seq<Byte>, HandleError> {
    match found
    case Err(_) => Err(LookupFailed)
    case Ok(group) => Sent(GroupReply.Response(group))
  }

  /** The groups of a user; a missing user and a failing getgrouplist have none. */
  function GroupsOf(b: Backend, name: CStr, user: Option<UserReply.User>): seq<U32> {
    match user
    case None => []
    case Some(u) =>
      match b.groupList(name, u.gid)
      case Ok(gids) => gids
      case Err(_) => []
  }

  function SendGroupList(b: Backend, name: CStr, user: Option<UserReply.User>): Result<seq<Byte>, HandleError> {
    Sent(InitgroupsReply.Response(GroupsOf(b, name, user)))
  }

  function GoodEntries(entries: seq<Option<AiEntry>>): seq<AiEntry> {
    if entries == [] then []
    else (match entries[0] case Some(e) => [e] case None => []) + GoodEntries(entries[1..])
  }

  function AddrsOf(entries: seq<AiEntry>): seq<IpAddr> {
    seq(|entries|, k requires 0 <= k < |entries| => entries[k].addr)
  }

  /** The canonical name comes from the first good entry, and is the requested name if that has none. */
  function AiResponseOf(hostname: CStr, found: Lookup<seq<Option<AiEntry>>>): AddrInfoReply.AiResponse {
    match found
    case Err(_) => AddrInfoReply.AiResponse([], hostname)
    case Ok(entries) =>
      var good := GoodEntries(entries);
      var name := if good != [] && good[0].canonName.Some? then good[0].canonName.value else hostname;
      AddrInfoReply.AiResponse(AddrsOf(good), name)
  }

  function SendAddrInfo(b: Backend, hostname: CStr): Result<seq<Byte>, HandleError> {
    Sent(AddrInfoReply.Response(AiResponseOf(hostname, b.addrInfo(hostname))))
  }

  /** A resolver error code is answered; any other failure is not. */
  function SendHost(found: Outcome): Result<seq<Byte>, HandleError> {
    match found
    case Returned(Ok(hostent)) => Sent(HostReply.Response(hostent))
    case Returned(Err(HError(herrno))) => Sent(HostReply.Response(ErrorValue(herrno)))
    case Returned(Err(Other(_))) => Err(LookupFailed)
    case OutOfMemory => Err(NoReturn)
  }

  function HandleRequest(ignored: set<RequestType>, b: Backend, r: Request): Result<seq<Byte>, HandleError> {
    if r.ty in ignored then Ok([])
    else
      match r.ty
      case GETPWBYUID =>
        (match CStrKey(r.key)
         case None => Err(BadKey)
         case Some(s) =>
           match b.atoi(s)
           case None => Err(BadKey)
           case Some(uid) => SendUser(b.userByUid(uid)))
      case GETPWBYNAME =>
        (match StrKey(b, r.key)
         case None => Err(BadKey)
         case Some(name) => SendUser(b.userByName(name)))
      case GETGRBYGID =>
        (match CStrKey(r.key)
         case None => Err(BadKey)
         case Some(s) =>
           match b.atoi(s)
           case None => Err(BadKey)
           case Some(gid) => SendGroup(b.groupByGid(gid)))
      case GETGRBYNAME =>
        (match StrKey(b, r.key)
         case None => Err(BadKey)
         case Some(name) => SendGroup(b.groupByName(name)))
      case INITGROUPS =>
        (match StrKey(b, r.key)
         case None => Err(BadKey)
         case Some(name) =>
           match b.userByName(name)
           case Err(_) => Err(LookupFailed)
           case Ok(user) => SendGroupList(b, name, user))
      case GETAI =>
        (match StrKey(b, r.key)
         case None => Err(BadKey)
         case Some(hostname) => SendAddrInfo(b, hostname))
      case GETHOSTBYADDR =>
        if |r.key| != 4 then Err(BadKey) else SendHost(b.hostByAddr(V4(r.key)))
      case GETHOSTBYADDRv6 =>
        if |r.key| != 16 then Err(BadKey) else SendHost(b.hostByAddr(V6(r.key)))
      case GETHOSTBYNAME =>
        (match StrKey(b, r.key)
         case None => Err(BadKey)
         case Some(hostname) => SendHost(b.hostByName(hostname, AF_INET)))
      case GETHOSTBYNAMEv6 =>
        (match StrKey(b, r.key)
         case None => Err(BadKey)
         case Some(hostname) => SendHost(b.hostByName(hostname, AF_INET6)))
      case INVALIDATE => Ok([])
      case SHUTDOWN => Ok([])
      case GETFDPW => Ok([])
      case GETFDGR => Ok([])
      case GETFDHST => Ok([])
      case GETFDSERV => Ok([])
      case GETFDNETGR => Ok([])
      case GETSTAT => Ok([])
      case GETSERVBYNAME => Ok([])
      case GETSERVBYPORT => Ok([])
      case GETNETGRENT => Ok([])
      case INNETGR => Ok([])
      case LASTREQ => Ok([])
  }

  // ---------- one connection ----------

  const BUFFER_SIZE := 4096

  /** What one read of the stream delivers: no more than the buffer holds. */
  function Received(sent: seq<Byte>): seq<Byte> {
    if |sent| <= BUFFER_SIZE then sent else sent[..BUFFER_SIZE]
  }

  /**
   `Panics` unwinds the worker thread; `Silent` closes the connection without a byte;
   `Dies` is the allocator giving up, which aborts the process or unwinds the thread.
   */
  datatype Reaction = Replies(bytes: seq<Byte>) | Silent | Panics | Dies

  function ReactionTo(handled: Result<seq<Byte>, HandleError>): Reaction {
    match handled
    case Ok(bytes) => Replies(bytes)
    case Err(NoReturn) => Dies
    case Err(_) => Silent
  }

  /** `handle_stream`, for a client that sent these bytes at once. */
  function HandleStream(ignored: set<RequestType>, b: Backend, sent: seq<Byte>, overflowChecks: bool): Reaction {
    match Parse(Received(sent), overflowChecks)
    case Aborts => Panics
    case Rejected(_) => Silent
    case Parsed(request) => ReactionTo(HandleRequest(ignored, b, request))
  }
}
