/** The reply to GETHOSTBY*: `serialize_hostent` of src/handlers.rs and what its client reads back. */
module HostReply {
  import opened Results
  import opened WireFormat
  import opened Addresses

  datatype Hostent = Hostent(
    name: CStr, aliases: seq<CStr>, addrType: I32, addrs: seq<IpAddr>, herrno: I32)

  /** What a client learns: a host, or the resolver's error code. */
  datatype Answer =
    | Host(name: CStr, aliases: seq<CStr>, addrs: seq<IpAddr>, herrno: I32)
    | NoHost(herrno: I32)

  function MissHeader(herrno: I32): seq<U32> {
    [2, 0, 0, 0, AsBits(-1), AsBits(-1), 0, AsBits(herrno)]
  }

  /** Lengths and counts are written with `as i32`. */
  function Header(h: Hostent): seq<U32>
    requires h.addrs != []
  {
    var family := Family(h.addrs[0]);
    [2, 1, AsBits(Truncate(|h.name| + 1)), AsBits(Truncate(|h.aliases|)), family, Width(family),
     AsBits(Truncate(|h.addrs|)), AsBits(h.herrno)]
  }

  function AliasTable(aliases: seq<CStr>): seq<U32> {
    seq(|aliases|, k requires 0 <= k < |aliases| => AsBits(Truncate(|aliases[k]| + 1)))
  }

  /** Nothing is cut off by the `as i32` conversions. */
  predicate Fits(h: Hostent) {
    && |h.name| + 1 < I32_LIMIT && |h.aliases| < I32_LIMIT && |h.addrs| < I32_LIMIT
    && forall k :: 0 <= k < |h.aliases| ==> |h.aliases[k]| + 1 < I32_LIMIT
  }

  function Body(h: Hostent): seq<Byte> {
    (h.name + [0]) + Words(AliasTable(h.aliases)) + AddrBytes(h.addrs) + Strings(h.aliases)
  }

  function Response(h: Hostent): Result<seq<Byte>, SerializeError> {
    if !OneFamily(h.addrs) then Err(MixedFamilies)
    else if h.addrs == [] then Ok(Words(MissHeader(h.herrno)))
    else Ok(Words(Header(h)) + Body(h))
  }

  method SerializeHostent(hostent: Hostent) returns (r: Result<seq<Byte>, SerializeError>)
    ensures r == Response(hostent)
  {
    var numV4, numV6, bufAddrs := WriteAddrs(hostent.addrs);
    OneFamilyByCount(hostent.addrs);
    if numV4 != 0 && numV6 != 0 { return Err(MixedFamilies); }
    if |hostent.addrs| == 0 {
      return Ok(Words([2, 0, 0, 0, AsBits(-1), AsBits(-1), 0, AsBits(hostent.herrno)]));
    }
    var bufAliasesSize, bufAliases := WriteAliases(hostent.aliases);
    var hostnameBytes := hostent.name + [0];
    CountsTell(hostent.addrs);
    var family := if numV4 != 0 then AF_INET else AF_INET6;
    var header := Words([2, 1, AsBits(Truncate(|hostnameBytes|)), AsBits(Truncate(|hostent.aliases|)),
                         family, if numV4 != 0 then 4 else 16,
                         AsBits(Truncate(|hostent.addrs|)), AsBits(hostent.herrno)]);
    var totalLen := 32 + |hostnameBytes| + |bufAddrs| + |bufAliases| + |bufAliasesSize|;

    var buf: seq<Byte> := [];
    buf := buf + header;
    buf := buf + hostnameBytes;
    buf := buf + bufAliasesSize;
    buf := buf + bufAddrs;
    buf := buf + bufAliases;
    assert |buf| == totalLen;
    InOrder(hostent);
    r := Ok(buf);
  }

  lemma InOrder(h: Hostent)
    requires h.addrs != []
    ensures [] + Words(Header(h)) + (h.name + [0]) + Words(AliasTable(h.aliases)) + AddrBytes(h.addrs)
            + Strings(h.aliases)
         == Words(Header(h)) + Body(h)
  {
  }

  /** The loop over the addresses, counting each family. */
  method WriteAddrs(addrs: seq<IpAddr>) returns (numV4: nat, numV6: nat, bytes: seq<Byte>)
    ensures numV4 == CountV4(addrs) && numV4 + numV6 == |addrs|
    ensures bytes == AddrBytes(addrs)
  {
    numV4, numV6, bytes := 0, 0, [];
    for k := 0 to |addrs|
      invariant numV4 == CountV4(addrs[..k]) && numV4 + numV6 == k
      invariant bytes == AddrBytes(addrs[..k])
    {
      assert addrs[..k + 1][..k] == addrs[..k];
      assert addrs[..k + 1] == addrs[..k] + [addrs[k]];
      AddrBytesAppend(addrs[..k], [addrs[k]]);
      assert AddrBytes([addrs[k]]) == Octets(addrs[k]) + [];
      match addrs[k]
      case V4(octets) =>
        numV4 := numV4 + 1;
        bytes := bytes + octets;
      case V6(octets) =>
        numV6 := numV6 + 1;
        bytes := bytes + octets;
    }
    assert addrs[..|addrs|] == addrs;
  }

  /** The loop over the aliases, filling the table of lengths and the bytes side by side. */
  method WriteAliases(aliases: seq<CStr>) returns (sizes: seq<Byte>, bytes: seq<Byte>)
    ensures sizes == Words(AliasTable(aliases)) && bytes == Strings(aliases)
  {
    sizes, bytes := [], [];
    for k := 0 to |aliases|
      invariant sizes == Words(AliasTable(aliases[..k])) && bytes == Strings(aliases[..k])
    {
      var withNul: seq<Byte> := aliases[k] + [0];
      ghost var size := AsBits(Truncate(|withNul|));
      assert aliases[..k + 1] == aliases[..k] + [aliases[k]];
      assert AliasTable(aliases[..k + 1]) == AliasTable(aliases[..k]) + [size];
      WordsAppend(AliasTable(aliases[..k]), [size]);
      assert Words([size]) == LeBytes(size) + [];
      StringsAppend(aliases[..k], [aliases[k]]);
      assert Strings([aliases[k]]) == aliases[k] + [0] + [];
      sizes := sizes + LeBytes(AsBits(Truncate(|withNul|)));
      bytes := bytes + withNul;
    }
    assert aliases[..|aliases|] == aliases;
  }

  // ---------- the client ----------

  function Signed(ws: seq<U32>): seq<int> {
    seq(|ws|, k requires 0 <= k < |ws| => AsSigned(ws[k]))
  }

  /** What a client makes of a buffer: an answer, and the bytes after the reply. */
  function Decode(buf: seq<Byte>): Option<(Answer, seq<Byte>)> {
    match TakeWords(buf, 8)
    case None => None
    case Some((h, body)) =>
      TakeWordsCount(buf, 8);
      if h == MissHeader(AsSigned(h[7])) then Some((NoHost(AsSigned(h[7])), body))
      else DecodeFound(h, body)
  }

  /** Version, found flag, family with its width, and at least one address. */
  predicate GoodHeader(h: seq<U32>)
    requires |h| == 8
  {
    && h[0] == 2 && h[1] == 1 && AsSigned(h[3]) >= 0 && AsSigned(h[6]) >= 1
    && (h[4] == AF_INET || h[4] == AF_INET6) && h[5] == Width(h[4])
  }

  function SameFamily(n: nat, family: int): seq<int> {
    seq(n, _ => family)
  }

  function DecodeFound(h: seq<U32>, body: seq<Byte>): Option<(Answer, seq<Byte>)>
    requires |h| == 8
  {
    if !GoodHeader(h) then None
    else
      match TakeString(body, AsSigned(h[2]))
      case None => None
      case Some((name, rest1)) =>
        match TakeWords(rest1, h[3])
        case None => None
        case Some((table, rest2)) =>
          match DecodeLists(rest2, SameFamily(h[6], h[4]), Signed(table))
          case None => None
          case Some((addrs, aliases, rest)) => Some((Host(name, aliases, addrs, AsSigned(h[7])), rest))
  }

  function DecodeLists(buf: seq<Byte>, families: seq<int>, lengths: seq<int>)
    : Option<(seq<IpAddr>, seq<CStr>, seq<Byte>)>
  {
    match TakeAddrs(buf, families)
    case None => None
    case Some((addrs, more)) =>
      match TakeStrings(more, lengths)
      case None => None
      case Some((aliases, rest)) => Some((addrs, aliases, rest))
  }

  lemma ListsExact(buf: seq<Byte>, families: seq<int>, lengths: seq<int>,
                   addrs: seq<IpAddr>, aliases: seq<CStr>, rest: seq<Byte>)
    ensures DecodeLists(buf, families, lengths) == Some((addrs, aliases, rest))
       <==> families == Families(addrs) && lengths == Lengths(aliases)
            && buf == AddrBytes(addrs) + (Strings(aliases) + rest)
  {
    AddrsExact(buf, families, addrs, Strings(aliases) + rest);
    StringsExact(Strings(aliases) + rest, lengths, aliases, rest);
    if TakeAddrs(buf, families).Some? {
      var more := TakeAddrs(buf, families).value.1;
      AddrsExact(buf, families, addrs, more);
      StringsExact(more, lengths, aliases, rest);
    }
  }

  function AnswerOf(h: Hostent): Answer {
    if h.addrs == [] then NoHost(h.herrno) else Host(h.name, h.aliases, h.addrs, h.herrno)
  }

  /** A host's bytes after its header, grouped the way a client takes them apart. */
  lemma BodySplit(h: Hostent, rest: seq<Byte>)
    ensures Body(h) + rest
         == h.name + [0] + (Words(AliasTable(h.aliases)) + (AddrBytes(h.addrs) + (Strings(h.aliases) + rest)))
  {
  }

  lemma FoundDecodes(h: Hostent, rest: seq<Byte>)
    requires h.addrs != [] && OneFamily(h.addrs) && Fits(h)
    ensures DecodeFound(Header(h), Body(h) + rest) == Some((AnswerOf(h), rest))
  {
    var rest2 := AddrBytes(h.addrs) + (Strings(h.aliases) + rest);
    var rest1 := Words(AliasTable(h.aliases)) + rest2;
    BodySplit(h, rest);
    StringExact(Body(h) + rest, |h.name| + 1, h.name, rest1);
    WordsExact(rest1, AliasTable(h.aliases), rest2);
    FittingHeader(h);
    ListsExact(rest2, Families(h.addrs), Lengths(h.aliases), h.addrs, h.aliases, rest);
  }

  lemma FittingHeader(h: Hostent)
    requires h.addrs != [] && OneFamily(h.addrs) && Fits(h)
    ensures
      var w := Header(h);
      && GoodHeader(w) && AsSigned(w[2]) == |h.name| + 1 && w[3] == |h.aliases| && AsSigned(w[7]) == h.herrno
      && SameFamily(w[6], w[4]) == Families(h.addrs)
    ensures Signed(AliasTable(h.aliases)) == Lengths(h.aliases)
  {
  }

  lemma FoundDecodesOnly(words: seq<U32>, body: seq<Byte>, h: Hostent, rest: seq<Byte>)
    requires |words| == 8 && h.addrs != [] && DecodeFound(words, body) == Some((AnswerOf(h), rest))
    ensures OneFamily(h.addrs) && Fits(h) && words == Header(h) && body == Body(h) + rest
  {
    var rest1 := TakeString(body, AsSigned(words[2])).value.1;
    StringExact(body, AsSigned(words[2]), h.name, rest1);
    var (table, rest2) := TakeWords(rest1, words[3]).value;
    TakeWordsCount(rest1, words[3]);
    WordsExact(rest1, table, rest2);
    var families := SameFamily(words[6], words[4]);
    ListsExact(rest2, families, Signed(table), h.addrs, h.aliases, rest);
    TableDetermined(table, h.aliases);
    HeaderDetermined(words, h);
    BodySplit(h, rest);
  }

  lemma HeaderDetermined(words: seq<U32>, h: Hostent)
    requires |words| == 8 && GoodHeader(words) && h.addrs != []
    requires SameFamily(words[6], words[4]) == Families(h.addrs)
    requires AsSigned(words[2]) == |h.name| + 1 && words[3] == |h.aliases| && AsSigned(words[7]) == h.herrno
    ensures OneFamily(h.addrs) && words == Header(h)
    ensures |h.name| + 1 < I32_LIMIT && |h.aliases| < I32_LIMIT && |h.addrs| < I32_LIMIT
  {
    var families := SameFamily(words[6], words[4]);
    assert |families| == |h.addrs| == words[6];
    forall k | 0 <= k < |h.addrs|
      ensures Family(h.addrs[k]) == words[4]
    {
      assert families[k] == Families(h.addrs)[k];
    }
    FieldTells(words[2], |h.name| + 1);
    FieldTells(words[3], |h.aliases|);
    FieldTells(words[6], |h.addrs|);
    var header := Header(h);
    assert forall k :: 0 <= k < 8 ==> words[k] == header[k];
  }

  lemma TableDetermined(table: seq<U32>, aliases: seq<CStr>)
    requires Signed(table) == Lengths(aliases)
    ensures table == AliasTable(aliases) && forall k :: 0 <= k < |aliases| ==> |aliases[k]| + 1 < I32_LIMIT
  {
    assert |Signed(table)| == |Lengths(aliases)|;
    forall k | 0 <= k < |aliases|
      ensures table[k] == |aliases[k]| + 1 < I32_LIMIT
    {
      assert Signed(table)[k] == Lengths(aliases)[k];
    }
  }

  lemma Decodes(h: Hostent, rest: seq<Byte>)
    requires OneFamily(h.addrs) && (h.addrs == [] || Fits(h))
    ensures Decode(Response(h).value + rest) == Some((AnswerOf(h), rest))
  {
    var buf := Response(h).value + rest;
    if h.addrs == [] {
      SignedRoundTrip(h.herrno);
      WordsExact(buf, MissHeader(h.herrno), rest);
    } else {
      assert buf == Words(Header(h)) + (Body(h) + rest);
      WordsExact(buf, Header(h), Body(h) + rest);
      FoundDecodes(h, rest);
    }
  }

  lemma DecodesOnly(buf: seq<Byte>, h: Hostent, rest: seq<Byte>)
    requires Decode(buf) == Some((AnswerOf(h), rest))
    ensures OneFamily(h.addrs) && (h.addrs == [] || Fits(h))
    ensures buf == Response(h).value + rest
  {
    var (words, body) := TakeWords(buf, 8).value;
    TakeWordsCount(buf, 8);
    WordsExact(buf, words, body);
    if h.addrs != [] {
      FoundDecodesOnly(words, body, h, rest);
      assert buf == Words(Header(h)) + Body(h) + rest;
    }
  }

  /**
   A buffer reads back as the answer for `h` followed by `rest` exactly when `h` has
   one address family, nothing in it is cut off by an `as i32`, and the buffer is its
   reply followed by `rest`. A host without addresses reads back as its error code.
   */
  lemma HostRoundTrip(buf: seq<Byte>, h: Hostent, rest: seq<Byte>)
    ensures Decode(buf) == Some((AnswerOf(h), rest))
       <==> OneFamily(h.addrs) && (h.addrs == [] || Fits(h)) && buf == Response(h).value + rest
  {
    if OneFamily(h.addrs) && (h.addrs == [] || Fits(h)) && buf == Response(h).value + rest {
      Decodes(h, rest);
    }
    if Decode(buf) == Some((AnswerOf(h), rest)) {
      DecodesOnly(buf, h, rest);
    }
  }

  /** Err iff both families occur; 32 bytes without addresses; otherwise the computed total length. */
  lemma HostClassification(h: Hostent)
    ensures Response(h).Err?
       <==> exists j, k :: 0 <= j < |h.addrs| && 0 <= k < |h.addrs| && h.addrs[j].V4? && h.addrs[k].V6?
    ensures h.addrs == [] ==> Response(h) == Ok(Words([2, 0, 0, 0, 0xFFFF_FFFF, 0xFFFF_FFFF, 0, AsBits(h.herrno)]))
    ensures h.addrs != [] && Response(h).Ok? ==>
      |Response(h).value| == 32 + (|h.name| + 1) + 4 * |h.aliases| + Width(Family(h.addrs[0])) * |h.addrs|
                             + |Strings(h.aliases)|
  {
    if h.addrs != [] && OneFamily(h.addrs) {
      CountsTell(h.addrs);
      AddrBytesLength(h.addrs);
    }
  }

  // ---------- field by field ----------

  /** The eight header fields of a found host; of lengths and counts the low 32 bits go out. */
  lemma HostHeaderLayout(h: Hostent)
    requires h.addrs != [] && OneFamily(h.addrs)
    ensures Response(h).Ok? && |Response(h).value| >= 32
    ensures
      var bytes, v4 := Response(h).value, h.addrs[0].V4?;
      && WordAt(bytes, 0) == 2 && WordAt(bytes, 1) == 1
      && WordAt(bytes, 2) == Low(|h.name| + 1) && WordAt(bytes, 3) == Low(|h.aliases|)
      && WordAt(bytes, 4) == (if v4 then 2 else 10) && WordAt(bytes, 5) == (if v4 then 4 else 16)
      && WordAt(bytes, 6) == Low(|h.addrs|)
      && WordAt(bytes, 7) == (if h.herrno < 0 then h.herrno + 0x1_0000_0000 else h.herrno)
  {
    HeaderNumbers(h);
    FieldsLayout(Header(h), Body(h));
    assert Response(h) == Ok(Words(Header(h)) + Body(h));
  }

  lemma HeaderNumbers(h: Hostent)
    requires h.addrs != []
    ensures
      var w, v4 := Header(h), h.addrs[0].V4?;
      && |w| == 8 && w[0] == 2 && w[1] == 1 && w[2] == Low(|h.name| + 1) && w[3] == Low(|h.aliases|)
      && w[4] == (if v4 then 2 else 10) && w[5] == (if v4 then 4 else 16) && w[6] == Low(|h.addrs|)
      && w[7] == (if h.herrno < 0 then h.herrno + 0x1_0000_0000 else h.herrno)
  {
    TruncatedBits(|h.name| + 1);
    TruncatedBits(|h.aliases|);
    TruncatedBits(|h.addrs|);
  }

  lemma FieldsLayout(h: seq<U32>, body: seq<Byte>)
    requires |h| == 8
    ensures
      var bytes := Words(h) + body;
      && WordAt(bytes, 0) == h[0] && WordAt(bytes, 1) == h[1] && WordAt(bytes, 2) == h[2] && WordAt(bytes, 3) == h[3]
      && WordAt(bytes, 4) == h[4] && WordAt(bytes, 5) == h[5] && WordAt(bytes, 6) == h[6] && WordAt(bytes, 7) == h[7]
      && bytes[32..] == body
  {
    HeaderLayout(h, body);
  }

  /** What follows the header: the name, then the alias lengths, then the addresses and the aliases. */
  lemma HostBodyLayout(h: Hostent)
    requires h.addrs != [] && OneFamily(h.addrs)
    ensures |Response(h).value| >= 32 + (|h.name| + 1) + 4 * |h.aliases|
    ensures
      var body := Response(h).value[32..];
      var table := body[|h.name| + 1..];
      && body[..|h.name| + 1] == h.name + [0]
      && (forall k :: 0 <= k < |h.aliases| ==> WordAt(table, k) == Low(|h.aliases[k]| + 1))
      && IsAddrList(table[4 * |h.aliases|..], h.addrs, Strings(h.aliases))
  {
    var table, list := Words(AliasTable(h.aliases)), AddrBytes(h.addrs) + Strings(h.aliases);
    FieldsLayout(Header(h), Body(h));
    BodyParts(h);
    NameLayout(h.name, table + list);
    TableLayout(h.aliases, list);
    ListLayout(h.addrs, Strings(h.aliases));
  }

  lemma BodyParts(h: Hostent)
    ensures Body(h) == h.name + [0] + (Words(AliasTable(h.aliases)) + (AddrBytes(h.addrs) + Strings(h.aliases)))
  {
  }

  lemma NameLayout(name: seq<Byte>, rest: seq<Byte>)
    ensures (name + [0] + rest)[..|name| + 1] == name + [0] && (name + [0] + rest)[|name| + 1..] == rest
  {
  }

  lemma TableLayout(aliases: seq<CStr>, rest: seq<Byte>)
    ensures
      var bytes := Words(AliasTable(aliases)) + rest;
      && (forall k :: 0 <= k < |aliases| ==> WordAt(bytes, k) == Low(|aliases[k]| + 1))
      && bytes[4 * |aliases|..] == rest
  {
    HeaderLayout(AliasTable(aliases), rest);
    forall k | 0 <= k < |aliases|
      ensures AliasTable(aliases)[k] == Low(|aliases[k]| + 1)
    {
      TruncatedBits(|aliases[k]| + 1);
    }
  }

  /** The octets of each address in turn, 4 or 16 of them, and then the rest. */
  ghost predicate IsAddrList(bytes: seq<Byte>, addrs: seq<IpAddr>, rest: seq<Byte>) {
    && (addrs != [] && addrs[0].V4? ==>
          && |bytes| == 4 * |addrs| + |rest| && bytes[4 * |addrs|..] == rest
          && forall k :: 0 <= k < |addrs| ==> addrs[k].V4? && bytes[4 * k..4 * k + 4] == addrs[k].v4)
    && (addrs != [] && addrs[0].V6? ==>
          && |bytes| == 16 * |addrs| + |rest| && bytes[16 * |addrs|..] == rest
          && forall k :: 0 <= k < |addrs| ==> addrs[k].V6? && bytes[16 * k..16 * k + 16] == addrs[k].v6)
  }

  lemma ListLayout(addrs: seq<IpAddr>, rest: seq<Byte>)
    requires addrs != [] && OneFamily(addrs)
    ensures IsAddrList(AddrBytes(addrs) + rest, addrs, rest)
  {
    CountsTell(addrs);
    AddrBytesLength(addrs);
    forall k | 0 <= k < |addrs|
      ensures addrs[k].V4? == addrs[0].V4?
      ensures addrs[k].V4? ==> (AddrBytes(addrs) + rest)[4 * k..4 * k + 4] == addrs[k].v4
      ensures addrs[k].V6? ==> (AddrBytes(addrs) + rest)[16 * k..16 * k + 16] == addrs[k].v6
    {
      AddrLayout(addrs, k, rest);
    }
  }

  lemma AddrLayout(addrs: seq<IpAddr>, k: nat, rest: seq<Byte>)
    requires k < |addrs| && OneFamily(addrs)
    ensures addrs[k].V4? ==>
      4 * k + 4 <= |AddrBytes(addrs)| && (AddrBytes(addrs) + rest)[4 * k..4 * k + 4] == addrs[k].v4
    ensures addrs[k].V6? ==>
      16 * k + 16 <= |AddrBytes(addrs)| && (AddrBytes(addrs) + rest)[16 * k..16 * k + 16] == addrs[k].v6
  {
    var all := AddrBytes(addrs);
    CountsTell(addrs[..k]);
    assert forall j :: 0 <= j < k ==> addrs[..k][j].V4? == addrs[k].V4?;
    AddrAt(addrs, k);
    if addrs[k].V4? {
      PrefixSlice(all, rest, 4 * k, 4 * k + 4);
    } else {
      PrefixSlice(all, rest, 16 * k, 16 * k + 16);
    }
  }

  lemma PrefixSlice(a: seq<Byte>, b: seq<Byte>, j: nat, k: nat)
    requires j <= k <= |a|
    ensures (a + b)[j..k] == a[j..k]
  {
  }

  // ---------- the reply listed in the source ----------

  /** The host of the listed reply: trantor.alternativebit.fr, alias trantor, at ::1. */
  function ListedHost(): Hostent {
    Hostent(ListedName(), [ListedAlias()], AF_INET6, [V6([0, 0, 0, 0, 0, 0, 0, 0, 0, 0, 0, 0, 0, 0, 0, 1])], 0)
  }

  function ListedName(): CStr {
    [0x74, 0x72, 0x61, 0x6e, 0x74, 0x6f, 0x72, 0x2e, 0x61, 0x6c, 0x74, 0x65, 0x72, 0x6e, 0x61, 0x74,
     0x69, 0x76, 0x65, 0x62, 0x69, 0x74, 0x2e, 0x66, 0x72]
  }

  function ListedAlias(): CStr {
    [0x74, 0x72, 0x61, 0x6e, 0x74, 0x6f, 0x72]
  }

  lemma SmallWords(a: Byte, b: Byte, c: Byte, d: Byte)
    ensures Words([a, b, c, d]) == [a, 0, 0, 0, b, 0, 0, 0, c, 0, 0, 0, d, 0, 0, 0]
  {
    SmallWord(a); SmallWord(b); SmallWord(c); SmallWord(d);
    WordsAppend([a, b, c], [d]);
    WordsAppend([a, b], [c]);
    WordsAppend([a], [b]);
    assert [a, b, c] + [d] == [a, b, c, d] && [a, b] + [c] == [a, b, c] && [a] + [b] == [a, b];
  }

  lemma SmallWord(a: Byte)
    ensures Words([a]) == [a, 0, 0, 0]
  {
    WordBytes(a);
    assert Words([a]) == LeBytes(a) + [];
  }

  function ListedHeader(): seq<Byte> {
    [0x02, 0x00, 0x00, 0x00, 0x01, 0x00, 0x00, 0x00, 0x1a, 0x00, 0x00, 0x00, 0x01, 0x00, 0x00, 0x00]
    + [0x0a, 0x00, 0x00, 0x00, 0x10, 0x00, 0x00, 0x00, 0x01, 0x00, 0x00, 0x00, 0x00, 0x00, 0x00, 0x00]
  }

  lemma ListedHeaderWords()
    ensures Words([2, 1, 26, 1, 10, 16, 1, 0]) == ListedHeader()
  {
    SmallWords(2, 1, 26, 1);
    SmallWords(10, 16, 1, 0);
    WordsAppend([2, 1, 26, 1], [10, 16, 1, 0]);
    assert [2, 1, 26, 1] + [10, 16, 1, 0] == [2, 1, 26, 1, 10, 16, 1, 0];
  }

  lemma ListedWords(h: Hostent)
    requires h == ListedHost()
    ensures Words(Header(h)) == ListedHeader() && Words(AliasTable(h.aliases)) == [8, 0, 0, 0]
  {
    ListedHeaderWords();
    assert Header(h) == [2, 1, 26, 1, 10, 16, 1, 0];
    SmallWord(8);
    assert AliasTable(h.aliases) == [8];
  }

  lemma Pieces(header: seq<Byte>, name: seq<Byte>, table: seq<Byte>, octets: seq<Byte>, alias: seq<Byte>)
    ensures header + ((name + [0]) + table + octets + (alias + [0]))
         == header + name + [0] + table + octets + alias + [0]
  {
  }

  /** The reply to that host is, byte for byte, the one listed at src/handlers.rs:738-746. */
  lemma MatchesListedBytes()
    ensures Response(ListedHost()) == Ok(
      ListedHeader() + ListedName() + [0] + [8, 0, 0, 0]
      + [0, 0, 0, 0, 0, 0, 0, 0, 0, 0, 0, 0, 0, 0, 0, 1] + ListedAlias() + [0])
  {
    var h := ListedHost();
    ListedWords(h);
    assert AddrBytes(h.addrs) == h.addrs[0].v6 + [] == h.addrs[0].v6;
    assert Strings(h.aliases) == ListedAlias() + [0] + [] == ListedAlias() + [0];
    Pieces(ListedHeader(), h.name, [8, 0, 0, 0], h.addrs[0].v6, h.aliases[0]);
  }
}
