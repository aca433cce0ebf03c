/**
 The bridge to the C resolver, src/ffi.rs: walking a C hostent, and calling the
 resolver again with a larger buffer while it answers ERANGE.

 A null-terminated array of pointers is a sequence of optional pointees; a resolver
 is a function of the call number and the buffer capacity, so it may answer
 differently every time.
 */
module ResolverBridge {
  import opened Results
  import opened WireFormat
  import opened Addresses
  import HostReply

  // ---------- a C hostent ----------

  datatype CHostent = CHostent(
    name: Option<CStr>, aliases: seq<Option<CStr>>, addrType: I32, length: I32, addrs: seq<Option<seq<Byte>>>)

  datatype Reason = UnsupportedType | UnsupportedLength | NullName

  datatype HostentError = HError(herrno: I32) | Other(reason: Reason)

  /** How many entries come before the null pointer. */
  function BeforeNull<T>(list: seq<Option<T>>): (n: nat)
    ensures n <= |list|
    ensures forall k :: 0 <= k < n ==> list[k].Some?
    ensures n < |list| ==> list[n].None?
  {
    if list == [] || list[0].None? then 0 else 1 + BeforeNull(list[1..])
  }

  function Entries<T>(list: seq<Option<T>>): (values: seq<T>)
    ensures |values| == BeforeNull(list)
  {
    seq(BeforeNull(list), k requires 0 <= k < BeforeNull(list) => list[k].value)
  }

  function Checks(c: CHostent): Result<(), Reason> {
    if c.addrType != AF_INET && c.addrType != AF_INET6 then Err(UnsupportedType)
    else if c.length != Width(c.addrType) then Err(UnsupportedLength)
    else if c.name.None? then Err(NullName)
    else Ok(())
  }

  /** What C promises about the memory behind a hostent: both lists end, and addresses have h_length bytes. */
  predicate Readable(c: CHostent) {
    Checks(c).Ok? ==>
      && BeforeNull(c.aliases) < |c.aliases| && BeforeNull(c.addrs) < |c.addrs|
      && forall k :: 0 <= k < BeforeNull(c.addrs) ==> |c.addrs[k].value| >= c.length
  }

  function ReadAddr(c: CHostent, memory: seq<Byte>): IpAddr
    requires Checks(c).Ok? && |memory| >= c.length
  {
    if c.addrType == AF_INET then V4(memory[..4]) else V6(memory[..16])
  }

  function ReadAddrs(c: CHostent): seq<IpAddr>
    requires Checks(c).Ok? && Readable(c)
  {
    seq(BeforeNull(c.addrs), k requires 0 <= k < BeforeNull(c.addrs) => ReadAddr(c, c.addrs[k].value))
  }

  function HostentOf(c: CHostent): Result<HostReply.Hostent, HostentError>
    requires Readable(c)
  {
    match Checks(c)
    case Err(reason) => Err(Other(reason))
    case Ok(_) => Ok(HostReply.Hostent(c.name.value, Entries(c.aliases), c.addrType, ReadAddrs(c), 0))
  }

  /** An IPv4 hostent has addresses of 4 bytes, an IPv6 one of 16, and it has a name. */
  predicate Usable(c: CHostent) {
    ((c.addrType == 2 && c.length == 4) || (c.addrType == 10 && c.length == 16)) && c.name.Some?
  }

  /** The values are the list's entries up to its first null pointer. */
  ghost predicate Copies<T>(list: seq<Option<T>>, values: seq<T>) {
    && |values| < |list| && list[|values|].None?
    && forall k :: 0 <= k < |values| ==> list[k] == Some(values[k])
  }

  /** The address with the bytes that a pointer of a C hostent leads to, in their order. */
  predicate IsAddr(a: IpAddr, addrType: I32, pointee: Option<seq<Byte>>) {
    match pointee
    case None => false
    case Some(memory) =>
      if addrType == 2 then |memory| >= 4 && a == V4(memory[..4]) else |memory| >= 16 && a == V6(memory[..16])
  }

  /** Everything in a usable C hostent is in the host, in the same order, and nothing else. */
  ghost predicate Mirrors(c: CHostent, h: HostReply.Hostent) {
    && c.name == Some(h.name) && h.addrType == c.addrType && h.herrno == 0
    && Copies(c.aliases, h.aliases)
    && |h.addrs| < |c.addrs| && c.addrs[|h.addrs|].None?
    && forall k :: 0 <= k < |h.addrs| ==> IsAddr(h.addrs[k], c.addrType, c.addrs[k])
  }

  lemma HostentExact(c: CHostent)
    requires Readable(c)
    ensures HostentOf(c).Ok? <==> Usable(c)
    ensures HostentOf(c).Ok? ==> Mirrors(c, HostentOf(c).value)
    ensures c.addrType != 2 && c.addrType != 10 ==> HostentOf(c) == Err(Other(UnsupportedType))
  {
  }

  /** There is only one such host. */
  lemma MirrorsOnce(c: CHostent, g: HostReply.Hostent, h: HostReply.Hostent)
    requires Mirrors(c, g) && Mirrors(c, h)
    ensures g == h
  {
    assert |g.aliases| == |h.aliases| && forall k :: 0 <= k < |g.aliases| ==> g.aliases[k] == h.aliases[k];
    assert |g.addrs| == |h.addrs| && forall k :: 0 <= k < |g.addrs| ==> g.addrs[k] == h.addrs[k];
  }

  /** For example, what C hands over for localhost. */
  lemma LocalhostIsRead(name: CStr)
    ensures
      var c := CHostent(Some(name), [None], 2, 4, [Some([127, 0, 0, 1]), None]);
      && Readable(c) && Usable(c)
      && HostentOf(c) == Ok(HostReply.Hostent(name, [], 2, [V4([127, 0, 0, 1])], 0))
  {
    var c := CHostent(Some(name), [None], 2, 4, [Some([127, 0, 0, 1]), None]);
    assert BeforeNull(c.aliases) == 0 && BeforeNull(c.addrs[1..]) == 0 && BeforeNull(c.addrs) == 1;
    assert [127, 0, 0, 1][..4] == [127, 0, 0, 1];
    HostentExact(c);
    MirrorsOnce(c, HostentOf(c).value, HostReply.Hostent(name, [], 2, [V4([127, 0, 0, 1])], 0));
  }

  /** `from_libc_hostent`. */
  method FromLibcHostent(value: CHostent) returns (r: Result<HostReply.Hostent, HostentError>)
    requires Readable(value)
    ensures r.Ok? <==> Usable(value)
    ensures r.Ok? ==> Mirrors(value, r.value)
    ensures r.Err? ==> r.error.Other?
    ensures r == HostentOf(value)
  {
    if value.addrType != AF_INET && value.addrType != AF_INET6 { return Err(Other(UnsupportedType)); }
    if value.addrType == AF_INET && value.length != 4 { return Err(Other(UnsupportedLength)); }
    if value.addrType == AF_INET6 && value.length != 16 { return Err(Other(UnsupportedLength)); }
    if value.name.None? { return Err(Other(NullName)); }

    var aliases: seq<CStr> := [];
    var ptr := 0;
    while value.aliases[ptr].Some?
      invariant ptr == |aliases| <= BeforeNull(value.aliases)
      invariant aliases == Entries(value.aliases)[..ptr]
      decreases BeforeNull(value.aliases) - ptr
    {
      aliases := aliases + [value.aliases[ptr].value];
      ptr := ptr + 1;
    }

    var addrs: seq<IpAddr> := [];
    ptr := 0;
    while value.addrs[ptr].Some?
      invariant ptr == |addrs| <= BeforeNull(value.addrs)
      invariant addrs == ReadAddrs(value)[..ptr]
      decreases BeforeNull(value.addrs) - ptr
    {
      var memory := value.addrs[ptr].value;
      if value.addrType == AF_INET {
        addrs := addrs + [V4(memory[..4])];
      } else {
        addrs := addrs + [V6(memory[..16])];
      }
      ptr := ptr + 1;
    }
    assert aliases == Entries(value.aliases) && addrs == ReadAddrs(value);
    HostentExact(value);
    r := Ok(HostReply.Hostent(value.name.value, aliases, value.addrType, addrs, 0));
  }

  // ---------- what a call returns ----------

  const ERANGE: I32 := 34

  datatype CReply = CReply(ret: I32, hostent: Option<CHostent>, herrno: I32)

  predicate ReadableReply(reply: CReply) {
    reply.hostent.Some? ==> Readable(reply.hostent.value)
  }

  ghost predicate AllReadable(resolver: (nat, nat) -> CReply) {
    forall call, capacity :: ReadableReply(resolver(call, capacity))
  }

  /** `unmarshal_gethostbyxx`: herrno counts only when there is no hostent; the return code never does. */
  function Unmarshal(reply: CReply): Result<HostReply.Hostent, HostentError>
    requires ReadableReply(reply)
  {
    match reply.hostent
    case None => Err(HError(reply.herrno))
    case Some(c) => HostentOf(c)
  }

  /** `Hostent::error_value`. */
  function ErrorValue(herrno: I32): HostReply.Hostent {
    HostReply.Hostent([], [], -1, [], herrno)
  }

  // ---------- calling again with a larger buffer ----------

  type Resolver = (nat, nat) -> CReply

  /** `gethostbyaddr_r` stops asking for more at this capacity, `gethostbyname2_r` never does. */
  const ADDR_LIMIT: Option<nat> := Some(10_000_000)
  const NAME_LIMIT: Option<nat> := None

  /**
   The buffer's capacity at each call. It starts at 1024 or more; `reserve` on an
   empty Vec makes room for twice the capacity, and the allocator may add slack.
   */
  function Capacity(slack: nat -> nat, call: nat): (capacity: nat)
    ensures capacity >= 1024
  {
    if call == 0 then 1024 + slack(0) else 2 * Capacity(slack, call - 1) + slack(call)
  }

  function ReplyAt(resolver: Resolver, slack: nat -> nat, call: nat): CReply {
    resolver(call, Capacity(slack, call))
  }

  predicate Below(capacity: nat, limit: Option<nat>) {
    limit.Some? ==> capacity < limit.value
  }

  predicate Retries(resolver: Resolver, slack: nat -> nat, limit: Option<nat>, call: nat) {
    ReplyAt(resolver, slack, call).ret == ERANGE && Below(Capacity(slack, call), limit)
  }

  /** The last call made, counting from 0; `None` when a buffer larger than `memory` would be needed first. */
  function LastCall(resolver: Resolver, slack: nat -> nat, limit: Option<nat>, memory: nat, call: nat := 0)
    : Option<nat>
    decreases memory - Capacity(slack, call)
  {
    if Capacity(slack, call) > memory then None
    else if Retries(resolver, slack, limit, call) then LastCall(resolver, slack, limit, memory, call + 1)
    else Some(call)
  }

  /** Every call before this one is retried. */
  ghost predicate Reaches(resolver: Resolver, slack: nat -> nat, limit: Option<nat>, call: nat) {
    forall j :: 0 <= j < call ==> Retries(resolver, slack, limit, j)
  }

  /** A call is the last one iff every call before it is retried, it is not, and its buffer can be had. */
  lemma LastCallExact(resolver: Resolver, slack: nat -> nat, limit: Option<nat>, memory: nat, call: nat)
    ensures LastCall(resolver, slack, limit, memory) == Some(call)
       <==> && Reaches(resolver, slack, limit, call) && !Retries(resolver, slack, limit, call)
            && Capacity(slack, call) <= memory
  {
    if LastCall(resolver, slack, limit, memory) == Some(call) {
      LastCallFrom(resolver, slack, limit, memory, 0, call);
    }
    if Reaches(resolver, slack, limit, call) && Capacity(slack, call) <= memory {
      LastCallSkips(resolver, slack, limit, memory, call);
    }
  }

  lemma {:induction false} LastCallFrom(resolver: Resolver, slack: nat -> nat, limit: Option<nat>, memory: nat,
                                        start: nat, call: nat)
    requires LastCall(resolver, slack, limit, memory, start) == Some(call)
    ensures start <= call && forall j :: start <= j < call ==> Retries(resolver, slack, limit, j)
    ensures !Retries(resolver, slack, limit, call) && Capacity(slack, call) <= memory
    decreases memory - Capacity(slack, start)
  {
    if Retries(resolver, slack, limit, start) {
      LastCallFrom(resolver, slack, limit, memory, start + 1, call);
    }
  }

  lemma {:induction false} LastCallSkips(resolver: Resolver, slack: nat -> nat, limit: Option<nat>, memory: nat,
                                         call: nat)
    requires Reaches(resolver, slack, limit, call) && (call == 0 || Capacity(slack, call - 1) <= memory)
    ensures LastCall(resolver, slack, limit, memory) == LastCall(resolver, slack, limit, memory, call)
  {
    if call > 0 {
      LastCallSkips(resolver, slack, limit, memory, call - 1);
    }
  }

  // ---------- which call is the last, in the source's own numbers ----------

  /** A lookup by name ends with the first reply that is not ERANGE, if its buffer can be had. */
  ghost predicate LastNameCall(resolver: Resolver, slack: nat -> nat, memory: nat, call: nat) {
    && Capacity(slack, call) <= memory && ReplyAt(resolver, slack, call).ret != 34
    && forall j: nat :: j < call ==> ReplyAt(resolver, slack, j).ret == 34
  }

  /** Every reply for which there is memory is ERANGE. */
  ghost predicate NameRunsOut(resolver: Resolver, slack: nat -> nat, memory: nat) {
    forall j: nat :: Capacity(slack, j) <= memory ==> ReplyAt(resolver, slack, j).ret == 34
  }

  /** A reverse lookup ends with the first reply that is not ERANGE, or that had ten million bytes. */
  ghost predicate LastAddrCall(resolver: Resolver, slack: nat -> nat, memory: nat, call: nat) {
    && Capacity(slack, call) <= memory
    && (ReplyAt(resolver, slack, call).ret != 34 || Capacity(slack, call) >= 10_000_000)
    && forall j: nat :: j < call ==> ReplyAt(resolver, slack, j).ret == 34 && Capacity(slack, j) < 10_000_000
  }

  ghost predicate AddrRunsOut(resolver: Resolver, slack: nat -> nat, memory: nat) {
    forall j: nat :: Capacity(slack, j) <= memory ==>
      ReplyAt(resolver, slack, j).ret == 34 && Capacity(slack, j) < 10_000_000
  }

  lemma {:induction false} NoLastCall(resolver: Resolver, slack: nat -> nat, limit: Option<nat>, memory: nat,
                                      start: nat, call: nat)
    requires LastCall(resolver, slack, limit, memory, start).None? && start <= call && Capacity(slack, call) <= memory
    ensures Retries(resolver, slack, limit, call)
    decreases call - start
  {
    CapacityGrows(slack, start, call);
    if start < call {
      NoLastCall(resolver, slack, limit, memory, start + 1, call);
    }
  }

  lemma NameCallExact(resolver: Resolver, slack: nat -> nat, memory: nat)
    ensures match LastCall(resolver, slack, NAME_LIMIT, memory)
            case Some(call) => LastNameCall(resolver, slack, memory, call)
            case None => NameRunsOut(resolver, slack, memory)
  {
    match LastCall(resolver, slack, NAME_LIMIT, memory)
    case Some(call) =>
      LastCallExact(resolver, slack, NAME_LIMIT, memory, call);
      forall j: nat | j < call
        ensures ReplyAt(resolver, slack, j).ret == 34
      {
        assert Retries(resolver, slack, NAME_LIMIT, j);
      }
    case None =>
      forall j: nat | Capacity(slack, j) <= memory
        ensures ReplyAt(resolver, slack, j).ret == 34
      {
        NoLastCall(resolver, slack, NAME_LIMIT, memory, 0, j);
      }
  }

  lemma AddrCallExact(resolver: Resolver, slack: nat -> nat, memory: nat)
    ensures match LastCall(resolver, slack, ADDR_LIMIT, memory)
            case Some(call) => LastAddrCall(resolver, slack, memory, call)
            case None => AddrRunsOut(resolver, slack, memory)
  {
    match LastCall(resolver, slack, ADDR_LIMIT, memory)
    case Some(call) =>
      LastCallExact(resolver, slack, ADDR_LIMIT, memory, call);
      forall j: nat | j < call
        ensures ReplyAt(resolver, slack, j).ret == 34 && Capacity(slack, j) < 10_000_000
      {
        assert Retries(resolver, slack, ADDR_LIMIT, j);
      }
    case None =>
      forall j: nat | Capacity(slack, j) <= memory
        ensures ReplyAt(resolver, slack, j).ret == 34 && Capacity(slack, j) < 10_000_000
      {
        NoLastCall(resolver, slack, ADDR_LIMIT, memory, 0, j);
      }
  }

  /** What the last call's reply unmarshals to; or memory runs out, exactly when it cannot lead to a last call. */
  ghost predicate NameAnswer(resolver: Resolver, slack: nat -> nat, memory: nat, r: Outcome, calls: nat)
    requires AllReadable(resolver)
  {
    && (r.Returned? ==>
          && calls > 0 && LastNameCall(resolver, slack, memory, calls - 1)
          && r.result == Unmarshal(ReplyAt(resolver, slack, calls - 1)))
    && (r.OutOfMemory? <==> NameRunsOut(resolver, slack, memory))
  }

  lemma NameOutcome(resolver: Resolver, slack: nat -> nat, memory: nat, r: Outcome, calls: nat)
    requires AllReadable(resolver) && r == OutcomeOf(resolver, slack, NAME_LIMIT, memory)
    requires r.Returned? ==> calls > 0 && LastCall(resolver, slack, NAME_LIMIT, memory) == Some(calls - 1)
    ensures NameAnswer(resolver, slack, memory, r, calls)
  {
    NameCallExact(resolver, slack, memory);
  }

  /** What the last call's reply unmarshals to; or memory runs out, exactly when it cannot lead to a last call. */
  ghost predicate AddrAnswer(resolver: Resolver, slack: nat -> nat, memory: nat, r: Outcome, calls: nat)
    requires AllReadable(resolver)
  {
    && (r.Returned? ==>
          && calls > 0 && LastAddrCall(resolver, slack, memory, calls - 1)
          && r.result == Unmarshal(ReplyAt(resolver, slack, calls - 1)))
    && (r.OutOfMemory? <==> AddrRunsOut(resolver, slack, memory))
  }

  lemma AddrOutcome(resolver: Resolver, slack: nat -> nat, memory: nat, r: Outcome, calls: nat)
    requires AllReadable(resolver) && r == OutcomeOf(resolver, slack, ADDR_LIMIT, memory)
    requires r.Returned? ==> calls > 0 && LastCall(resolver, slack, ADDR_LIMIT, memory) == Some(calls - 1)
    ensures AddrAnswer(resolver, slack, memory, r, calls)
  {
    AddrCallExact(resolver, slack, memory);
  }

  /** `OutOfMemory`: `reserve` does not return. */
  datatype Outcome = Returned(result: Result<HostReply.Hostent, HostentError>) | OutOfMemory

  function OutcomeOf(resolver: Resolver, slack: nat -> nat, limit: Option<nat>, memory: nat): Outcome
    requires AllReadable(resolver)
  {
    match LastCall(resolver, slack, limit, memory)
    case None => OutOfMemory
    case Some(call) => Returned(Unmarshal(ReplyAt(resolver, slack, call)))
  }

  /** `gethostbyaddr_r`. */
  method GetHostByAddr(resolver: Resolver, slack: nat -> nat, memory: nat) returns (r: Outcome, calls: nat)
    requires AllReadable(resolver)
    ensures calls <= 15
    ensures AddrAnswer(resolver, slack, memory, r, calls)
    ensures r == OutcomeOf(resolver, slack, ADDR_LIMIT, memory)
  {
    var capacity := 1024 + slack(0);
    calls, r := 0, OutOfMemory;
    while capacity <= memory
      invariant capacity == Capacity(slack, calls) && Reaches(resolver, slack, ADDR_LIMIT, calls)
      invariant LastCall(resolver, slack, ADDR_LIMIT, memory)
             == LastCall(resolver, slack, ADDR_LIMIT, memory, calls)
      invariant r == OutOfMemory
      decreases memory - capacity
    {
      var reply := resolver(calls, capacity);
      calls := calls + 1;
      if reply.ret == ERANGE && capacity < 10 * 1000 * 1000 {
        capacity := 2 * capacity + slack(calls);
      } else {
        r := Returned(Unmarshal(reply));
        break;
      }
    }
    if calls > 0 {
      FourteenRetriesAtMost(resolver, slack, calls - 1);
    }
    AddrOutcome(resolver, slack, memory, r, calls);
  }

  /** `gethostbyname2_r`, which goes on doubling for as long as the answer is ERANGE and there is memory. */
  method GetHostByName2(resolver: Resolver, slack: nat -> nat, memory: nat) returns (r: Outcome, calls: nat)
    requires AllReadable(resolver)
    ensures FewCalls(calls, memory)
    ensures NameAnswer(resolver, slack, memory, r, calls)
    ensures r == OutcomeOf(resolver, slack, NAME_LIMIT, memory)
  {
    var capacity := 1024 + slack(0);
    calls, r := 0, OutOfMemory;
    while capacity <= memory
      invariant capacity == Capacity(slack, calls)
      invariant calls > 0 ==> Capacity(slack, calls - 1) <= memory
      invariant LastCall(resolver, slack, NAME_LIMIT, memory)
             == LastCall(resolver, slack, NAME_LIMIT, memory, calls)
      invariant r == OutOfMemory
      decreases memory - capacity
    {
      var reply := resolver(calls, capacity);
      calls := calls + 1;
      if reply.ret == ERANGE {
        capacity := 2 * capacity + slack(calls);
      } else {
        r := Returned(Unmarshal(reply));
        break;
      }
    }
    CallsFitMemory(slack, memory, calls);
    NameOutcome(resolver, slack, memory, r, calls);
  }

  // ---------- how many calls ----------

  function Pow2(n: nat): (p: nat)
    ensures p > 0
  {
    if n == 0 then 1 else 2 * Pow2(n - 1)
  }

  lemma {:induction false} CapacityDoubles(slack: nat -> nat, call: nat)
    ensures Capacity(slack, call) >= 1024 * Pow2(call)
  {
    if call > 0 {
      CapacityDoubles(slack, call - 1);
    }
  }

  lemma {:induction false} Pow2Monotone(m: nat, n: nat)
    requires m <= n
    ensures Pow2(m) <= Pow2(n)
  {
    if m < n {
      Pow2Monotone(m, n - 1);
    }
  }

  lemma PowersOfInterest()
    ensures Pow2(4) == 16 && Pow2(9) == 512 && Pow2(13) == 8192 && Pow2(14) == 16384
  {
    assert Pow2(4) == 16;
    assert Pow2(9) == 32 * Pow2(4);
    assert Pow2(13) == 16 * Pow2(9);
  }

  /** The number of calls is logarithmic in the memory. */
  predicate FewCalls(calls: nat, memory: nat) {
    calls == 0 || 1024 * Pow2(calls - 1) <= memory
  }

  lemma CallsFitMemory(slack: nat -> nat, memory: nat, calls: nat)
    requires calls > 0 ==> Capacity(slack, calls - 1) <= memory
    ensures FewCalls(calls, memory)
  {
    if calls > 0 {
      CapacityDoubles(slack, calls - 1);
    }
  }

  /** From the fifteenth call on the buffer is past the limit, whatever the allocator does. */
  lemma FourteenRetriesAtMost(resolver: Resolver, slack: nat -> nat, calls: nat)
    requires Reaches(resolver, slack, ADDR_LIMIT, calls)
    ensures calls <= 14
  {
    if calls > 14 {
      assert Retries(resolver, slack, ADDR_LIMIT, calls - 1);
      CapacityDoubles(slack, calls - 1);
      Pow2Monotone(14, calls - 1);
      PowersOfInterest();
    }
  }

  /**
   The bound is met: with an exact allocator and memory for it, a resolver that always
   answers ERANGE is called 15 times.
   */
  lemma FifteenCallsHappen(resolver: Resolver, memory: nat)
    requires memory >= 1024 * 16384 && forall i, c :: resolver(i, c).ret == ERANGE
    ensures LastCall(resolver, _ => 0, ADDR_LIMIT, memory) == Some(14)
  {
    var slack: nat -> nat := _ => 0;
    PowersOfInterest();
    forall call: nat | call <= 14
      ensures Capacity(slack, call) == 1024 * Pow2(call) <= 1024 * Pow2(14)
      ensures call < 14 ==> Pow2(call) <= Pow2(13)
    {
      ExactDoubling(slack, call);
      Pow2Monotone(call, 14);
      if call < 14 {
        Pow2Monotone(call, 13);
      }
    }
    LastCallExact(resolver, slack, ADDR_LIMIT, memory, 14);
  }

  lemma {:induction false} ExactDoubling(slack: nat -> nat, call: nat)
    requires forall k :: slack(k) == 0
    ensures Capacity(slack, call) == 1024 * Pow2(call)
  {
    if call > 0 {
      ExactDoubling(slack, call - 1);
    }
  }

  /**
   If some size is always enough for the resolver and a buffer of that size can be
   had, a lookup by name returns, and the number of calls is logarithmic in the size.
   */
  lemma NameLookupIsLogarithmic(resolver: Resolver, slack: nat -> nat, memory: nat, enough: nat, large: nat)
    requires forall i, c :: c >= enough ==> resolver(i, c).ret != ERANGE
    requires enough <= Capacity(slack, large) <= memory
    ensures
      var last := LastCall(resolver, slack, NAME_LIMIT, memory);
      last.Some? && last.value <= large && (last.value > 0 ==> 1024 * Pow2(last.value - 1) < enough)
  {
    assert !Retries(resolver, slack, NAME_LIMIT, large);
    StopsBy(resolver, slack, NAME_LIMIT, memory, 0, large);
    var last := LastCall(resolver, slack, NAME_LIMIT, memory).value;
    LastCallExact(resolver, slack, NAME_LIMIT, memory, last);
    if last > 0 {
      assert Retries(resolver, slack, NAME_LIMIT, last - 1);
      CapacityDoubles(slack, last - 1);
    }
  }

  lemma {:induction false} CapacityGrows(slack: nat -> nat, j: nat, k: nat)
    requires j <= k
    ensures Capacity(slack, j) <= Capacity(slack, k)
  {
    if j < k {
      CapacityGrows(slack, j, k - 1);
    }
  }

  lemma {:induction false} StopsBy(resolver: Resolver, slack: nat -> nat, limit: Option<nat>, memory: nat,
                                   start: nat, stop: nat)
    requires start <= stop && !Retries(resolver, slack, limit, stop) && Capacity(slack, stop) <= memory
    ensures LastCall(resolver, slack, limit, memory, start).Some?
    ensures LastCall(resolver, slack, limit, memory, start).value <= stop
    decreases stop - start
  {
    CapacityGrows(slack, start, stop);
    if start < stop {
      StopsBy(resolver, slack, limit, memory, start + 1, stop);
    }
  }
}
