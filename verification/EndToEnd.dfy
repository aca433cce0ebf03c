/**
 From a client's request to what the client reads back: parsing, the ignore rule,
 the lookup, serializing and decoding in one statement for each kind of request.
 */
module EndToEnd {
  import opened Results
  import opened WireFormat
  import opened Addresses
  import opened Protocol
  import opened ResolverBridge
  import opened Dispatch
  import Config
  import ConfigMeaning
  import UserReply
  import GroupReply
  import InitgroupsReply
  import HostReply
  import AddrInfoReply

  // ---------- the ignore rule ----------

  /**
   A request whose type belongs to a database set to true gets the empty reply,
   whatever its key and whatever the lookups would answer; any other request is
   handled as if nothing were configured.
   */
  lemma IgnoreRule(vars: seq<Config.Var>, parse: string -> Option<nat>, b: Backend, r: Request)
    requires Config.Settle(vars, parse).Some?
    ensures HandleRequest(Config.Settle(vars, parse).value.ignored, b, r)
         == if ConfigMeaning.TurnedOff(vars, r.ty) then Ok([]) else HandleRequest({}, b, r)
  {
    var settings := Config.Settle(vars, parse).value;
    ConfigMeaning.SettleMeaning(vars, parse, settings);
    IgnoredOrNot(settings.ignored, b, r);
  }

  lemma IgnoredOrNot(ignored: set<RequestType>, b: Backend, r: Request)
    ensures HandleRequest(ignored, b, r) == if r.ty in ignored then Ok([]) else HandleRequest({}, b, r)
  {
  }

  // ---------- which requests get through ----------

  /** A well-formed request is understood iff header and key fit the read buffer; otherwise it is rejected. */
  lemma RequestFitsBuffer(r: Request, rest: seq<Byte>, overflowChecks: bool)
    requires |r.key| < KEY_LIMIT
    ensures Parse(Received(Encode(r) + rest), overflowChecks)
         == if 12 + |r.key| <= 4096 then Parsed(r) else Rejected(TooSmall)
  {
    var sent := Encode(r) + rest;
    if 12 + |r.key| <= BUFFER_SIZE {
      assert Encode(r) <= Received(sent);
      ParseInvertsEncode(Received(sent), r, overflowChecks);
    } else {
      TooLongIsRejected(r, Received(sent), sent[BUFFER_SIZE..], rest, overflowChecks);
    }
  }

  lemma TooLongIsRejected(r: Request, seen: seq<Byte>, unseen: seq<Byte>, rest: seq<Byte>, overflowChecks: bool)
    requires |r.key| < KEY_LIMIT && 12 <= |seen| < 12 + |r.key| && seen + unseen == Encode(r) + rest
    ensures Parse(seen, overflowChecks) == Rejected(TooSmall)
  {
    Regroup(Words([VERSION, Code(r.ty), |r.key|]), r.key, rest);
    HeaderFields(seen + unseen, Code(r.ty), |r.key|, r.key + rest);
    SameFields(seen, unseen);
    ShortIsRejected(r, seen, overflowChecks);
  }

  /** The header of a request is there, but not all of its key. */
  lemma ShortIsRejected(r: Request, seen: seq<Byte>, overflowChecks: bool)
    requires |r.key| < KEY_LIMIT && 12 <= |seen| < 12 + |r.key|
    requires Field(seen, 0) == VERSION && Field(seen, 4) == Code(r.ty) && Field(seen, 8) == |r.key|
    ensures Parse(seen, overflowChecks) == Rejected(TooSmall)
  {
    CodeExact(r.ty, Code(r.ty));
    AddTwelve(|r.key|);
  }

  lemma SameFields(seen: seq<Byte>, unseen: seq<Byte>)
    requires |seen| >= 12
    ensures Field(seen, 0) == Field(seen + unseen, 0)
    ensures Field(seen, 4) == Field(seen + unseen, 4)
    ensures Field(seen, 8) == Field(seen + unseen, 8)
  {
    assert seen[0..4] == (seen + unseen)[0..4];
    assert seen[4..8] == (seen + unseen)[4..8];
    assert seen[8..12] == (seen + unseen)[8..12];
  }

  /** A connection makes its worker panic exactly when parsing does. */
  lemma WhenWorkersPanic(ignored: set<RequestType>, b: Backend, sent: seq<Byte>, overflowChecks: bool)
    ensures HandleStream(ignored, b, sent, overflowChecks).Panics?
       <==> && |sent| >= 12 && Field(sent, 0) == 2 && 0 <= Field(sent, 4) <= 22
            && (-12 <= Field(sent, 8) <= -1 || (overflowChecks && Field(sent, 8) > 0x7FFF_FFF3))
  {
    ParseAborts(Received(sent), overflowChecks);
    if |sent| > BUFFER_SIZE {
      assert sent == Received(sent) + sent[BUFFER_SIZE..];
      SameFields(Received(sent), sent[BUFFER_SIZE..]);
    }
  }

  lemma Answered(ignored: set<RequestType>, b: Backend, r: Request, rest: seq<Byte>, overflowChecks: bool)
    requires 12 + |r.key| <= 4096
    ensures HandleStream(ignored, b, Encode(r) + rest, overflowChecks) == ReactionTo(HandleRequest(ignored, b, r))
  {
    RequestFitsBuffer(r, rest, overflowChecks);
  }

  // ---------- requests that are not looked up ----------

  /** The empty reply: the client falls back to its own lookups. */
  predicate Unserved(ty: RequestType) {
    match ty
    case SHUTDOWN | GETSTAT | INVALIDATE | LASTREQ => true
    case GETFDPW | GETFDGR | GETFDHST | GETFDSERV | GETFDNETGR => true
    case GETSERVBYNAME | GETSERVBYPORT | GETNETGRENT | INNETGR => true
    case _ => false
  }

  lemma EmptyReplies(ignored: set<RequestType>, b: Backend, r: Request, rest: seq<Byte>, overflowChecks: bool)
    requires 12 + |r.key| <= 4096 && (r.ty in ignored || Unserved(r.ty))
    ensures HandleStream(ignored, b, Encode(r) + rest, overflowChecks) == Replies([])
  {
    Answered(ignored, b, r, rest, overflowChecks);
  }

  /** What a key must look like: an address of the right size, or a string with its only NUL at the end. */
  ghost predicate GoodKey(ty: RequestType, key: seq<Byte>) {
    match ty
    case GETHOSTBYADDR => |key| == 4
    case GETHOSTBYADDRv6 => |key| == 16
    case _ => exists s: CStr :: key == s + [0]
  }

  lemma CStrKeyExact(key: seq<Byte>, s: CStr)
    ensures CStrKey(key) == Some(s) <==> key == s + [0]
  {
    if key == s + [0] {
      assert key[..|key| - 1] == s;
    }
  }

  /** A lookup with a malformed key gets no reply, and so does a request longer than the buffer. */
  lemma MalformedKeys(ignored: set<RequestType>, b: Backend, r: Request, rest: seq<Byte>, overflowChecks: bool)
    requires |r.key| < KEY_LIMIT && r.ty !in ignored && !Unserved(r.ty)
    requires 12 + |r.key| > 4096 || !GoodKey(r.ty, r.key)
    ensures HandleStream(ignored, b, Encode(r) + rest, overflowChecks) == Silent
  {
    if 12 + |r.key| <= 4096 {
      Answered(ignored, b, r, rest, overflowChecks);
      BadKeyRequest(ignored, b, r);
    } else {
      RequestFitsBuffer(r, rest, overflowChecks);
    }
  }

  lemma BadKeyRequest(ignored: set<RequestType>, b: Backend, r: Request)
    requires r.ty !in ignored && !Unserved(r.ty) && !GoodKey(r.ty, r.key)
    ensures HandleRequest(ignored, b, r) == Err(BadKey)
  {
    if CStrKey(r.key).Some? {
      CStrKeyExact(r.key, CStrKey(r.key).value);
    }
  }

  /** A name as clients send it. */
  function NameRequest(ty: RequestType, name: CStr): Request {
    Request(ty, name + [0])
  }

  lemma NameKey(ty: RequestType, b: Backend, name: CStr)
    ensures CStrKey(NameRequest(ty, name).key) == Some(name)
    ensures StrKey(b, NameRequest(ty, name).key) == if b.utf8(name) then Some(name) else None
  {
    CStrKeyExact(name + [0], name);
  }

  // ---------- what each kind of request is handled as ----------

  lemma UserNameRequest(ignored: set<RequestType>, b: Backend, name: CStr)
    requires GETPWBYNAME !in ignored
    ensures HandleRequest(ignored, b, NameRequest(GETPWBYNAME, name))
         == if b.utf8(name) then SendUser(b.userByName(name)) else Err(BadKey)
  {
    NameKey(GETPWBYNAME, b, name);
  }

  lemma UidRequest(ignored: set<RequestType>, b: Backend, text: CStr)
    requires GETPWBYUID !in ignored
    ensures HandleRequest(ignored, b, NameRequest(GETPWBYUID, text))
         == match b.atoi(text) case Some(uid) => SendUser(b.userByUid(uid)) case None => Err(BadKey)
  {
    NameKey(GETPWBYUID, b, text);
  }

  lemma GroupNameRequest(ignored: set<RequestType>, b: Backend, name: CStr)
    requires GETGRBYNAME !in ignored
    ensures HandleRequest(ignored, b, NameRequest(GETGRBYNAME, name))
         == if b.utf8(name) then SendGroup(b.groupByName(name)) else Err(BadKey)
  {
    NameKey(GETGRBYNAME, b, name);
  }

  lemma GidRequest(ignored: set<RequestType>, b: Backend, text: CStr)
    requires GETGRBYGID !in ignored
    ensures HandleRequest(ignored, b, NameRequest(GETGRBYGID, text))
         == match b.atoi(text) case Some(gid) => SendGroup(b.groupByGid(gid)) case None => Err(BadKey)
  {
    NameKey(GETGRBYGID, b, text);
  }

  lemma GroupListRequest(ignored: set<RequestType>, b: Backend, name: CStr)
    requires INITGROUPS !in ignored && b.utf8(name) && b.userByName(name).Ok?
    ensures HandleRequest(ignored, b, NameRequest(INITGROUPS, name))
         == Sent(InitgroupsReply.Response(GroupsOf(b, name, b.userByName(name).value)))
  {
    NameKey(INITGROUPS, b, name);
  }

  lemma NoGroupListRequest(ignored: set<RequestType>, b: Backend, name: CStr)
    requires INITGROUPS !in ignored && (!b.utf8(name) || b.userByName(name).Err?)
    ensures ReactionTo(HandleRequest(ignored, b, NameRequest(INITGROUPS, name))) == Silent
  {
    NameKey(INITGROUPS, b, name);
  }

  lemma AddressInfoRequest(ignored: set<RequestType>, b: Backend, hostname: CStr)
    requires GETAI !in ignored && b.utf8(hostname)
    ensures HandleRequest(ignored, b, NameRequest(GETAI, hostname))
         == Sent(AddrInfoReply.Response(AiResponseOf(hostname, b.addrInfo(hostname))))
  {
    NameKey(GETAI, b, hostname);
  }

  function NameType(v6: bool): RequestType {
    if v6 then GETHOSTBYNAMEv6 else GETHOSTBYNAME
  }

  function AddrRequest(ip: IpAddr): Request {
    match ip
    case V4(octets) => Request(GETHOSTBYADDR, octets)
    case V6(octets) => Request(GETHOSTBYADDRv6, octets)
  }

  lemma HostAddrRequest(ignored: set<RequestType>, b: Backend, ip: IpAddr)
    requires AddrRequest(ip).ty !in ignored
    ensures HandleRequest(ignored, b, AddrRequest(ip)) == SendHost(b.hostByAddr(ip))
  {
  }

  lemma HostNameRequest(ignored: set<RequestType>, b: Backend, v6: bool, name: CStr)
    requires NameType(v6) !in ignored && b.utf8(name)
    ensures HandleRequest(ignored, b, NameRequest(NameType(v6), name))
         == SendHost(b.hostByName(name, if v6 then 10 else 2))
  {
    NameKey(NameType(v6), b, name);
  }

  /** A name that is not UTF-8 gets no reply. */
  lemma NotUtf8(ignored: set<RequestType>, b: Backend, ty: RequestType, name: CStr,
                rest: seq<Byte>, overflowChecks: bool)
    requires ty in {GETPWBYNAME, GETGRBYNAME, INITGROUPS, GETAI, GETHOSTBYNAME, GETHOSTBYNAMEv6}
    requires ty !in ignored && !b.utf8(name) && |name| + 13 <= 4096
    ensures HandleStream(ignored, b, Encode(NameRequest(ty, name)) + rest, overflowChecks) == Silent
  {
    Answered(ignored, b, NameRequest(ty, name), rest, overflowChecks);
    NotUtf8Request(ignored, b, ty, name);
  }

  lemma NotUtf8Request(ignored: set<RequestType>, b: Backend, ty: RequestType, name: CStr)
    requires ty in {GETPWBYNAME, GETGRBYNAME, INITGROUPS, GETAI, GETHOSTBYNAME, GETHOSTBYNAMEv6}
    requires ty !in ignored && !b.utf8(name)
    ensures HandleRequest(ignored, b, NameRequest(ty, name)) == Err(BadKey)
  {
    NameKey(ty, b, name);
  }

  // ---------- users, groups, group lists ----------

  /**
   A failing lookup gets no reply, and neither does a user that cannot be sent;
   otherwise the client reads exactly the user that was found, or that there is none.
   */
  ghost predicate TellsUser(reaction: Reaction, found: Lookup<Option<UserReply.User>>) {
    match found
    case Err(_) => reaction == Silent
    case Ok(user) =>
      if user.None? || UserReply.Sendable(user.value)
      then reaction.Replies? && UserReply.Decode(reaction.bytes) == Some((user, []))
      else reaction == Silent
  }

  ghost predicate TellsGroup(reaction: Reaction, found: Lookup<Option<GroupReply.Group>>) {
    match found
    case Err(_) => reaction == Silent
    case Ok(group) =>
      if group.None? || GroupReply.Sendable(group.value)
      then reaction.Replies? && GroupReply.Decode(reaction.bytes) == Some((group, []))
      else reaction == Silent
  }

  lemma UserBytes(found: Lookup<Option<UserReply.User>>)
    ensures TellsUser(ReactionTo(SendUser(found)), found)
  {
    if found.Ok? {
      var user := found.value;
      UserReply.UserRoundTrip([], user, []);
      if UserReply.Response(user).Ok? {
        var bytes := UserReply.Response(user).value;
        assert bytes + [] == bytes;
        UserReply.UserRoundTrip(bytes, user, []);
      }
    }
  }

  lemma GroupBytes(found: Lookup<Option<GroupReply.Group>>)
    ensures TellsGroup(ReactionTo(SendGroup(found)), found)
  {
    if found.Ok? {
      var group := found.value;
      GroupReply.GroupRoundTrip([], group, []);
      if GroupReply.Response(group).Ok? {
        var bytes := GroupReply.Response(group).value;
        assert bytes + [] == bytes;
        GroupReply.GroupRoundTrip(bytes, group, []);
      }
    }
  }

  /** The client reads back exactly the user the lookup found, or no reply if it cannot be sent. */
  lemma UserByName(ignored: set<RequestType>, b: Backend, name: CStr, rest: seq<Byte>, overflowChecks: bool)
    requires GETPWBYNAME !in ignored && b.utf8(name) && |name| + 13 <= 4096
    ensures TellsUser(HandleStream(ignored, b, Encode(NameRequest(GETPWBYNAME, name)) + rest, overflowChecks),
                      b.userByName(name))
  {
    Answered(ignored, b, NameRequest(GETPWBYNAME, name), rest, overflowChecks);
    UserNameRequest(ignored, b, name);
    UserBytes(b.userByName(name));
  }

  /** The same by uid; a text that is no number gets no reply. */
  lemma UserByUid(ignored: set<RequestType>, b: Backend, text: CStr, rest: seq<Byte>, overflowChecks: bool)
    requires GETPWBYUID !in ignored && |text| + 13 <= 4096
    ensures
      var reaction := HandleStream(ignored, b, Encode(NameRequest(GETPWBYUID, text)) + rest, overflowChecks);
      match b.atoi(text) case Some(uid) => TellsUser(reaction, b.userByUid(uid)) case None => reaction == Silent
  {
    Answered(ignored, b, NameRequest(GETPWBYUID, text), rest, overflowChecks);
    UidRequest(ignored, b, text);
    match b.atoi(text)
    case Some(uid) => UserBytes(b.userByUid(uid));
    case None =>
  }

  lemma GroupByName(ignored: set<RequestType>, b: Backend, name: CStr, rest: seq<Byte>, overflowChecks: bool)
    requires GETGRBYNAME !in ignored && b.utf8(name) && |name| + 13 <= 4096
    ensures TellsGroup(HandleStream(ignored, b, Encode(NameRequest(GETGRBYNAME, name)) + rest, overflowChecks),
                       b.groupByName(name))
  {
    Answered(ignored, b, NameRequest(GETGRBYNAME, name), rest, overflowChecks);
    GroupNameRequest(ignored, b, name);
    GroupBytes(b.groupByName(name));
  }

  lemma GroupByGid(ignored: set<RequestType>, b: Backend, text: CStr, rest: seq<Byte>, overflowChecks: bool)
    requires GETGRBYGID !in ignored && |text| + 13 <= 4096
    ensures
      var reaction := HandleStream(ignored, b, Encode(NameRequest(GETGRBYGID, text)) + rest, overflowChecks);
      match b.atoi(text) case Some(gid) => TellsGroup(reaction, b.groupByGid(gid)) case None => reaction == Silent
  {
    Answered(ignored, b, NameRequest(GETGRBYGID, text), rest, overflowChecks);
    GidRequest(ignored, b, text);
    match b.atoi(text)
    case Some(gid) => GroupBytes(b.groupByGid(gid));
    case None =>
  }

  ghost predicate TellsGids(reaction: Reaction, gids: seq<U32>) {
    if InitgroupsReply.Sendable(gids)
    then reaction.Replies? && InitgroupsReply.Decode(reaction.bytes) == Some((gids, []))
    else reaction == Silent
  }

  lemma GidsBytes(gids: seq<U32>)
    ensures TellsGids(ReactionTo(Sent(InitgroupsReply.Response(gids))), gids)
  {
    InitgroupsReply.InitgroupsRoundTrip([], gids, []);
    if InitgroupsReply.Response(gids).Ok? {
      var bytes := InitgroupsReply.Response(gids).value;
      assert bytes + [] == bytes;
      InitgroupsReply.InitgroupsRoundTrip(bytes, gids, []);
    }
  }

  /**
   Asking for the groups of a user is answered with what getgrouplist finds for the
   user's own gid, and with no groups for a missing user or a failing getgrouplist;
   only a failing user lookup gets no reply.
   */
  lemma GroupListOf(ignored: set<RequestType>, b: Backend, name: CStr, rest: seq<Byte>, overflowChecks: bool)
    requires INITGROUPS !in ignored && b.utf8(name) && |name| + 13 <= 4096
    ensures
      var reaction := HandleStream(ignored, b, Encode(NameRequest(INITGROUPS, name)) + rest, overflowChecks);
      match b.userByName(name)
      case Err(_) => reaction == Silent
      case Ok(None) => TellsGids(reaction, [])
      case Ok(Some(u)) =>
        match b.groupList(name, u.gid)
        case Ok(gids) => TellsGids(reaction, gids)
        case Err(_) => TellsGids(reaction, [])
  {
    Answered(ignored, b, NameRequest(INITGROUPS, name), rest, overflowChecks);
    match b.userByName(name)
    case Err(_) => NoGroupListRequest(ignored, b, name);
    case Ok(user) =>
      GroupListRequest(ignored, b, name);
      GidsBytes(GroupsOf(b, name, user));
  }

  // ---------- address info ----------

  /** The positions, from one on, of the entries that are not errors, in order. */
  ghost predicate PicksFrom(picks: seq<nat>, entries: seq<Option<AiEntry>>, from: nat) {
    && (forall j, k :: 0 <= j < k < |picks| ==> picks[j] < picks[k])
    && (forall k :: 0 <= k < |picks| ==> from <= picks[k] < |entries| && entries[picks[k]].Some?)
    && (forall i: nat :: from <= i < |entries| && entries[i].Some? ==> i in picks)
  }

  /** The addresses at those positions, and the first one's name or else the requested one. */
  function Picked(hostname: CStr, entries: seq<Option<AiEntry>>, picks: seq<nat>): AddrInfoReply.AiResponse
    requires forall k :: 0 <= k < |picks| ==> picks[k] < |entries| && entries[picks[k]].Some?
  {
    AddrInfoReply.AiResponse(
      seq(|picks|, k requires 0 <= k < |picks| => entries[picks[k]].value.addr),
      if picks != [] && entries[picks[0]].value.canonName.Some? then entries[picks[0]].value.canonName.value
      else hostname)
  }

  lemma PicksStep(later: seq<nat>, entries: seq<Option<AiEntry>>, from: nat)
    requires from < |entries| && PicksFrom(later, entries, from + 1)
    ensures PicksFrom(if entries[from].Some? then [from] + later else later, entries, from)
  {
    var picks := if entries[from].Some? then [from] + later else later;
    forall i: nat | from <= i < |entries| && entries[i].Some?
      ensures i in picks
    {
      assert i == from || i in later;
    }
  }

  /** The k-th good entry is the one at the k-th position. */
  ghost predicate Located(good: seq<AiEntry>, picks: seq<nat>, entries: seq<Option<AiEntry>>) {
    |good| == |picks| && forall k :: 0 <= k < |picks| ==> picks[k] < |entries| && entries[picks[k]] == Some(good[k])
  }

  lemma LocatedStep(good: seq<AiEntry>, later: seq<nat>, entries: seq<Option<AiEntry>>, from: nat)
    requires from < |entries| && entries[from].Some? && Located(good, later, entries)
    ensures Located([entries[from].value] + good, [from] + later, entries)
  {
  }

  lemma {:induction false} GoodPicks(entries: seq<Option<AiEntry>>, from: nat) returns (picks: seq<nat>)
    requires from <= |entries|
    ensures PicksFrom(picks, entries, from)
    ensures Located(GoodEntries(entries[from..]), picks, entries)
    decreases |entries| - from
  {
    if from == |entries| {
      return [];
    }
    var later := GoodPicks(entries, from + 1);
    PicksStep(later, entries, from);
    GoodEntriesStep(entries, from);
    if entries[from].Some? {
      picks := [from] + later;
      LocatedStep(GoodEntries(entries[from + 1..]), later, entries, from);
    } else {
      picks := later;
    }
  }

  lemma GoodEntriesStep(entries: seq<Option<AiEntry>>, from: nat)
    requires from < |entries|
    ensures
      var later := GoodEntries(entries[from + 1..]);
      GoodEntries(entries[from..]) == if entries[from].Some? then [entries[from].value] + later else later
  {
    var later := GoodEntries(entries[from + 1..]);
    assert entries[from..][0] == entries[from] && entries[from..][1..] == entries[from + 1..];
    assert [] + later == later;
  }

  /**
   No reply when there are addresses and the name has a NUL; otherwise a reply, from
   which the client reads these addresses and this name iff no length was cut off.
   */
  ghost predicate TellsAddresses(reaction: Reaction, ai: AddrInfoReply.AiResponse) {
    if ai.addrs != [] && 0 in ai.canonName then reaction == Silent
    else
      && reaction.Replies?
      && (AddrInfoReply.Decode(reaction.bytes) == Some((if ai.addrs == [] then None else Some(ai), []))
          <==> ai.addrs == [] || AddrInfoReply.Fits(ai))
  }

  /**
   The client reads back the addresses of the entries that are not errors, one to one
   and in order, with the first one's canonical name or else the requested one. A
   failing lookup is answered with the not-found reply.
   */
  lemma AddressInfo(ignored: set<RequestType>, b: Backend, hostname: CStr, rest: seq<Byte>, overflowChecks: bool)
    returns (picks: seq<nat>)
    requires GETAI !in ignored && b.utf8(hostname) && |hostname| + 13 <= 4096
    ensures
      var reaction := HandleStream(ignored, b, Encode(NameRequest(GETAI, hostname)) + rest, overflowChecks);
      match b.addrInfo(hostname)
      case Err(_) => reaction == Replies(Words([2, 0, 0, 0, 0, 0]))
      case Ok(entries) => PicksFrom(picks, entries, 0) && TellsAddresses(reaction, Picked(hostname, entries, picks))
  {
    Answered(ignored, b, NameRequest(GETAI, hostname), rest, overflowChecks);
    AddressInfoRequest(ignored, b, hostname);
    match b.addrInfo(hostname)
    case Err(_) =>
      AddrInfoReply.AddrInfoMissLayout(hostname);
      picks := [];
    case Ok(entries) =>
      picks := GoodPicks(entries, 0);
      assert entries[0..] == entries;
      PickedIsResponse(b, hostname, entries, picks);
      AiBytes(Picked(hostname, entries, picks));
  }

  lemma PickedIsResponse(b: Backend, hostname: CStr, entries: seq<Option<AiEntry>>, picks: seq<nat>)
    requires PicksFrom(picks, entries, 0) && Located(GoodEntries(entries), picks, entries)
    ensures AiResponseOf(hostname, Ok(entries)) == Picked(hostname, entries, picks)
  {
    assert AddrsOf(GoodEntries(entries)) == Picked(hostname, entries, picks).addrs;
  }

  lemma AiBytes(ai: AddrInfoReply.AiResponse)
    ensures TellsAddresses(ReactionTo(Sent(AddrInfoReply.Response(ai))), ai)
  {
    if AddrInfoReply.Response(ai).Ok? {
      var bytes := AddrInfoReply.Response(ai).value;
      assert bytes + [] == bytes;
      if ai.addrs == [] {
        AddrInfoReply.Decodes(ai, []);
      } else {
        AddrInfoReply.AddrInfoRoundTrip(bytes, ai, []);
      }
    }
  }

  // ---------- hosts ----------

  /** An accepted C hostent has one family, so it serializes, and its family and width go out unchanged. */
  lemma HostentSerializes(c: CHostent, h: HostReply.Hostent)
    requires Usable(c) && Mirrors(c, h)
    ensures HostReply.Response(h).Ok?
    ensures h.addrs != [] ==>
      && |HostReply.Response(h).value| >= 32
      && WordAt(HostReply.Response(h).value, 4) == c.addrType && WordAt(HostReply.Response(h).value, 5) == c.length
  {
    MirrorsOneFamily(c, h);
    if h.addrs != [] {
      assert IsAddr(h.addrs[0], c.addrType, c.addrs[0]);
      HostReply.HostHeaderLayout(h);
    }
  }

  lemma MirrorsOneFamily(c: CHostent, h: HostReply.Hostent)
    requires Mirrors(c, h)
    ensures OneFamily(h.addrs)
  {
    forall j, k | 0 <= j < |h.addrs| && 0 <= k < |h.addrs|
      ensures h.addrs[j].V4? == h.addrs[k].V4?
    {
      assert IsAddr(h.addrs[j], c.addrType, c.addrs[j]) && IsAddr(h.addrs[k], c.addrType, c.addrs[k]);
    }
  }

  /** A reply, read as this host iff no length or count was cut off; a host without addresses reads as error code 0. */
  ghost predicate TellsFound(reaction: Reaction, h: HostReply.Hostent) {
    && reaction.Replies?
    && if h.addrs == [] then HostReply.Decode(reaction.bytes) == Some((HostReply.NoHost(0), []))
       else HostReply.Decode(reaction.bytes) == Some((HostReply.Host(h.name, h.aliases, h.addrs, 0), []))
            <==> HostReply.Fits(h)
  }

  /** The resolver's error code when there is no host, no reply when it is unusable, otherwise what mirrors it. */
  ghost predicate TellsHost(reaction: Reaction, reply: CReply) {
    match reply.hostent
    case None => reaction.Replies? && HostReply.Decode(reaction.bytes) == Some((HostReply.NoHost(reply.herrno), []))
    case Some(c) =>
      if !Usable(c) then reaction == Silent
      else exists h :: Mirrors(c, h) && TellsFound(reaction, h)
  }

  lemma AnswerBytes(h: HostReply.Hostent)
    requires OneFamily(h.addrs)
    ensures
      var reaction := ReactionTo(Sent(HostReply.Response(h)));
      && reaction.Replies?
      && (HostReply.Decode(reaction.bytes) == Some((HostReply.AnswerOf(h), [])) <==> h.addrs == [] || HostReply.Fits(h))
  {
    var bytes := HostReply.Response(h).value;
    assert bytes + [] == bytes;
    HostReply.HostRoundTrip(bytes, h, []);
  }

  lemma NoHostBytes(reply: CReply)
    requires reply.hostent.None?
    ensures TellsHost(ReactionTo(SendHost(Returned(Unmarshal(reply)))), reply)
  {
    AnswerBytes(ErrorValue(reply.herrno));
  }

  lemma FoundHostBytes(reply: CReply)
    requires ReadableReply(reply) && reply.hostent.Some?
    ensures TellsHost(ReactionTo(SendHost(Returned(Unmarshal(reply)))), reply)
  {
    var c := reply.hostent.value;
    HostentExact(c);
    if Usable(c) {
      var h := HostentOf(c).value;
      MirrorsOneFamily(c, h);
      AnswerBytes(h);
      assert TellsFound(ReactionTo(Sent(HostReply.Response(h))), h);
    }
  }

  lemma HostBytes(reply: CReply)
    requires ReadableReply(reply)
    ensures TellsHost(ReactionTo(SendHost(Returned(Unmarshal(reply)))), reply)
  {
    if reply.hostent.None? {
      NoHostBytes(reply);
    } else {
      FoundHostBytes(reply);
    }
  }

  /** What the client learns from the last reply; no reply when memory runs out before there is one. */
  ghost predicate TellsLast(reaction: Reaction, resolver: Resolver, slack: nat -> nat, last: Option<nat>) {
    match last
    case None => reaction == Dies
    case Some(call) => TellsHost(reaction, ReplyAt(resolver, slack, call))
  }

  lemma LookupBytes(resolver: Resolver, slack: nat -> nat, limit: Option<nat>, memory: nat)
    requires AllReadable(resolver)
    ensures TellsLast(ReactionTo(SendHost(OutcomeOf(resolver, slack, limit, memory))), resolver, slack,
                      LastCall(resolver, slack, limit, memory))
  {
    var last := LastCall(resolver, slack, limit, memory);
    if last.Some? {
      HostBytes(ReplyAt(resolver, slack, last.value));
    }
  }

  /**
   A reverse lookup, through the loop that asks the resolver again: from the last
   reply the client reads the host's name, aliases and addresses, or without a host
   exactly the resolver's error code; and an unusable hostent gets no reply.
   */
  lemma HostByAddr(ignored: set<RequestType>, b: Backend, ip: IpAddr, resolver: Resolver, slack: nat -> nat,
                   memory: nat, rest: seq<Byte>, overflowChecks: bool) returns (last: Option<nat>)
    requires AllReadable(resolver) && b.hostByAddr(ip) == OutcomeOf(resolver, slack, ADDR_LIMIT, memory)
    requires AddrRequest(ip).ty !in ignored
    ensures match last
            case Some(call) => LastAddrCall(resolver, slack, memory, call)
            case None => AddrRunsOut(resolver, slack, memory)
    ensures TellsLast(HandleStream(ignored, b, Encode(AddrRequest(ip)) + rest, overflowChecks), resolver, slack, last)
  {
    last := LastCall(resolver, slack, ADDR_LIMIT, memory);
    AddrCallExact(resolver, slack, memory);
    Answered(ignored, b, AddrRequest(ip), rest, overflowChecks);
    HostAddrRequest(ignored, b, ip);
    LookupBytes(resolver, slack, ADDR_LIMIT, memory);
  }

  /** The same for a lookup by name, in either family, where the loop has no limit but memory. */
  lemma HostByName(ignored: set<RequestType>, b: Backend, v6: bool, name: CStr, resolver: Resolver, slack: nat -> nat,
                   memory: nat, rest: seq<Byte>, overflowChecks: bool) returns (last: Option<nat>)
    requires AllReadable(resolver)
    requires b.hostByName(name, if v6 then 10 else 2) == OutcomeOf(resolver, slack, NAME_LIMIT, memory)
    requires NameType(v6) !in ignored && b.utf8(name) && |name| + 13 <= 4096
    ensures match last
            case Some(call) => LastNameCall(resolver, slack, memory, call)
            case None => NameRunsOut(resolver, slack, memory)
    ensures TellsLast(HandleStream(ignored, b, Encode(NameRequest(NameType(v6), name)) + rest, overflowChecks),
                      resolver, slack, last)
  {
    last := LastCall(resolver, slack, NAME_LIMIT, memory);
    NameCallExact(resolver, slack, memory);
    Answered(ignored, b, NameRequest(NameType(v6), name), rest, overflowChecks);
    HostNameRequest(ignored, b, v6, name);
    LookupBytes(resolver, slack, NAME_LIMIT, memory);
  }
}
