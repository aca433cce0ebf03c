/** std::net::IpAddr, and the unpadded byte arrays addresses travel in. */
module Addresses {
  import opened Results
  import opened WireFormat

  type Octets4 = s: seq<Byte> | |s| == 4 witness [0, 0, 0, 0]
  type Octets16 = s: seq<Byte> | |s| == 16 witness [0, 0, 0, 0, 0, 0, 0, 0, 0, 0, 0, 0, 0, 0, 0, 0]

  datatype IpAddr = V4(v4: Octets4) | V6(v6: Octets16)

  const AF_INET := 2
  const AF_INET6 := 10

  function Octets(a: IpAddr): seq<Byte> {
    match a
    case V4(o) => o
    case V6(o) => o
  }

  function Family(a: IpAddr): Byte {
    if a.V4? then AF_INET else AF_INET6
  }

  function Width(family: int): nat {
    if family == AF_INET then 4 else 16
  }

  function AddrBytes(addrs: seq<IpAddr>): seq<Byte> {
    if addrs == [] then [] else Octets(addrs[0]) + AddrBytes(addrs[1..])
  }

  function Families(addrs: seq<IpAddr>): (families: seq<Byte>)
    ensures |families| == |addrs|
  {
    seq(|addrs|, k requires 0 <= k < |addrs| => Family(addrs[k]))
  }

  function CountV4(addrs: seq<IpAddr>): nat {
    if addrs == [] then 0 else (if addrs[|addrs| - 1].V4? then 1 else 0) + CountV4(addrs[..|addrs| - 1])
  }

  predicate OneFamily(addrs: seq<IpAddr>) {
    forall j, k :: 0 <= j < |addrs| && 0 <= k < |addrs| ==> addrs[j].V4? == addrs[k].V4?
  }

  /** The next address of a given family. */
  function TakeAddr(buf: seq<Byte>, family: int): Option<(IpAddr, seq<Byte>)> {
    if family == AF_INET && |buf| >= 4 then Some((V4(buf[..4]), buf[4..]))
    else if family == AF_INET6 && |buf| >= 16 then Some((V6(buf[..16]), buf[16..]))
    else None
  }

  /** One address for each listed family, in order. */
  function TakeAddrs(buf: seq<Byte>, families: seq<int>): Option<(seq<IpAddr>, seq<Byte>)> {
    if families == [] then Some(([], buf))
    else
      match TakeAddr(buf, families[0])
      case None => None
      case Some((a, more)) =>
        match TakeAddrs(more, families[1..])
        case None => None
        case Some((addrs, rest)) => Some(([a] + addrs, rest))
  }

  lemma AddrExact(buf: seq<Byte>, family: int, a: IpAddr, tail: seq<Byte>)
    ensures TakeAddr(buf, family) == Some((a, tail)) <==> family == Family(a) && buf == Octets(a) + tail
  {
    if family == Family(a) && buf == Octets(a) + tail {
      assert buf[..|Octets(a)|] == Octets(a) && buf[|Octets(a)|..] == tail;
    }
  }

  lemma FirstFamily(addrs: seq<IpAddr>)
    requires addrs != []
    ensures Families(addrs) == [Family(addrs[0])] + Families(addrs[1..])
  {
    var f, g := Families(addrs), [Family(addrs[0])] + Families(addrs[1..]);
    assert |f| == |g| && forall k :: 0 <= k < |f| ==> f[k] == g[k];
  }

  lemma {:induction false} AddrsExact(buf: seq<Byte>, families: seq<int>, addrs: seq<IpAddr>, rest: seq<Byte>)
    ensures TakeAddrs(buf, families) == Some((addrs, rest))
       <==> families == Families(addrs) && buf == AddrBytes(addrs) + rest
    decreases |families|
  {
    if families == [] || addrs == [] {
      assert AddrBytes([]) + rest == rest;
    } else {
      FirstFamily(addrs);
      Regroup(Octets(addrs[0]), AddrBytes(addrs[1..]), rest);
      AddrExact(buf, families[0], addrs[0], AddrBytes(addrs[1..]) + rest);
      if TakeAddr(buf, families[0]).Some? {
        AddrsExact(TakeAddr(buf, families[0]).value.1, families[1..], addrs[1..], rest);
        assert addrs == [addrs[0]] + addrs[1..];
      }
    }
  }

  lemma {:induction false} AddrBytesAppend(a: seq<IpAddr>, b: seq<IpAddr>)
    ensures AddrBytes(a + b) == AddrBytes(a) + AddrBytes(b)
  {
    if a == [] {
      assert a + b == b;
    } else {
      assert (a + b)[1..] == a[1..] + b;
      AddrBytesAppend(a[1..], b);
    }
  }

  /** Unpadded: 4 bytes for each v4 address, 16 for each v6 one. */
  lemma {:induction false} AddrBytesLength(addrs: seq<IpAddr>)
    ensures CountV4(addrs) <= |addrs|
    ensures |AddrBytes(addrs)| == 4 * CountV4(addrs) + 16 * (|addrs| - CountV4(addrs))
  {
    if addrs != [] {
      var front, last := addrs[..|addrs| - 1], addrs[|addrs| - 1];
      AddrBytesLength(front);
      assert addrs == front + [last];
      AddrBytesAppend(front, [last]);
      assert AddrBytes([last]) == Octets(last) + [];
    }
  }

  lemma OctetsAt(addrs: seq<IpAddr>, k: nat)
    requires k < |addrs|
    ensures
      var at, o := |AddrBytes(addrs[..k])|, Octets(addrs[k]);
      at + |o| <= |AddrBytes(addrs)| && AddrBytes(addrs)[at..at + |o|] == o
  {
    var front, back := addrs[..k], addrs[k..];
    assert addrs == front + back;
    AddrBytesAppend(front, back);
    Middle(AddrBytes(front), Octets(back[0]), AddrBytes(back[1..]));
  }

  /** Where the k-th address is, and which bytes it has. */
  lemma AddrAt(addrs: seq<IpAddr>, k: nat)
    requires k < |addrs|
    ensures CountV4(addrs[..k]) <= k
    ensures
      var at := 4 * CountV4(addrs[..k]) + 16 * (k - CountV4(addrs[..k]));
      match addrs[k]
      case V4(octets) => at + 4 <= |AddrBytes(addrs)| && AddrBytes(addrs)[at..at + 4] == octets
      case V6(octets) => at + 16 <= |AddrBytes(addrs)| && AddrBytes(addrs)[at..at + 16] == octets
  {
    AddrBytesLength(addrs[..k]);
    OctetsAt(addrs, k);
  }

  lemma {:induction false} CountsTell(addrs: seq<IpAddr>)
    ensures CountV4(addrs) <= |addrs|
    ensures CountV4(addrs) == 0 <==> forall k :: 0 <= k < |addrs| ==> addrs[k].V6?
    ensures CountV4(addrs) == |addrs| <==> forall k :: 0 <= k < |addrs| ==> addrs[k].V4?
  {
    if addrs != [] {
      CountsTell(addrs[..|addrs| - 1]);
    }
  }

  lemma OneFamilyByCount(addrs: seq<IpAddr>)
    ensures OneFamily(addrs) <==> CountV4(addrs) == 0 || CountV4(addrs) == |addrs|
  {
    CountsTell(addrs);
  }
}
