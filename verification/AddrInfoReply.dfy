/** The reply to GETAI: `serialize_address_info` of src/handlers.rs and what its client reads back. */
module AddrInfoReply {
  import opened Results
  import opened WireFormat
  import opened Addresses

  datatype AiResponse = AiResponse(addrs: seq<IpAddr>, canonName: seq<Byte>)

  function MissHeader(): seq<U32> {
    [2, 0, 0, 0, 0, 0]
  }

  /** Lengths and counts are written with `as i32`. */
  function Header(ai: AiResponse): seq<U32> {
    [2, 1, AsBits(Truncate(|ai.addrs|)), AsBits(Truncate(|AddrBytes(ai.addrs)|)),
     AsBits(Truncate(|ai.canonName| + 1)), 0]
  }

  /** Nothing is cut off by the `as i32` conversions. */
  predicate Fits(ai: AiResponse) {
    |ai.addrs| < I32_LIMIT && |AddrBytes(ai.addrs)| < I32_LIMIT && |ai.canonName| + 1 < I32_LIMIT
  }

  function Body(ai: AiResponse): seq<Byte> {
    AddrBytes(ai.addrs) + Families(ai.addrs) + (ai.canonName + [0])
  }

  /** Without addresses the name is not looked at. */
  function Response(ai: AiResponse): Result<seq<Byte>, SerializeError> {
    if ai.addrs == [] then Ok(Words(MissHeader()))
    else if 0 in ai.canonName then Err(InteriorNul)
    else Ok(Words(Header(ai)) + Body(ai))
  }

  method SerializeAddressInfo(resp: AiResponse) returns (r: Result<seq<Byte>, SerializeError>)
    ensures r == Response(resp)
  {
    var families, addrBytes := WriteAddrs(resp.addrs);
    AddrBytesLength(resp.addrs);
    var addrslen := |addrBytes|;
    if addrslen > 0 {
      if 0 in resp.canonName { return Err(InteriorNul); }
      var canonName := resp.canonName + [0];
      var header := Words([2, 1, AsBits(Truncate(|resp.addrs|)), AsBits(Truncate(addrslen)),
                           AsBits(Truncate(|canonName|)), 0]);
      var buffer: seq<Byte> := [];
      buffer := buffer + header;
      buffer := buffer + addrBytes;
      buffer := buffer + families;
      buffer := buffer + canonName;
      InOrder(resp);
      r := Ok(buffer);
    } else {
      r := Ok(Words(MissHeader()));
    }
  }

  /** The loop over the addresses, filling the families and the addresses side by side. */
  method WriteAddrs(addrs: seq<IpAddr>) returns (families: seq<Byte>, bytes: seq<Byte>)
    ensures families == Families(addrs) && bytes == AddrBytes(addrs)
  {
    families, bytes := [], [];
    for k := 0 to |addrs|
      invariant families == Families(addrs[..k]) && bytes == AddrBytes(addrs[..k])
    {
      assert addrs[..k + 1] == addrs[..k] + [addrs[k]];
      AddrBytesAppend(addrs[..k], [addrs[k]]);
      assert AddrBytes([addrs[k]]) == Octets(addrs[k]) + [];
      match addrs[k]
      case V4(octets) =>
        families := families + [AF_INET];
        bytes := bytes + octets;
      case V6(octets) =>
        families := families + [AF_INET6];
        bytes := bytes + octets;
    }
    assert addrs[..|addrs|] == addrs;
  }

  lemma InOrder(ai: AiResponse)
    ensures [] + Words(Header(ai)) + AddrBytes(ai.addrs) + Families(ai.addrs) + (ai.canonName + [0])
         == Words(Header(ai)) + Body(ai)
  {
  }

  // ---------- the client ----------

  /** What a client makes of a buffer: addresses and a name, or nothing found, and the bytes after the reply. */
  function Decode(buf: seq<Byte>): Option<(Option<AiResponse>, seq<Byte>)> {
    match TakeWords(buf, 6)
    case None => None
    case Some((h, body)) =>
      TakeWordsCount(buf, 6);
      if h == MissHeader() then Some((None, body))
      else
        match DecodeFound(h, body)
        case None => None
        case Some((ai, rest)) => Some((Some(ai), rest))
  }

  /** Version, found flag, at least one address, and no error. */
  predicate GoodHeader(h: seq<U32>)
    requires |h| == 6
  {
    h[0] == 2 && h[1] == 1 && h[5] == 0 && AsSigned(h[2]) >= 1 && AsSigned(h[3]) >= 0
  }

  /** The families come after the addresses they describe, so the two blocks are cut out first. */
  function DecodeFound(h: seq<U32>, body: seq<Byte>): Option<(AiResponse, seq<Byte>)>
    requires |h| == 6
  {
    var n: int, addrslen: int := AsSigned(h[2]), AsSigned(h[3]);
    if !GoodHeader(h) || |body| < addrslen + n then None
    else DecodeBlocks(body[..addrslen], body[addrslen..addrslen + n], body[addrslen + n..], AsSigned(h[4]))
  }

  function DecodeBlocks(addrBytes: seq<Byte>, families: seq<Byte>, tail: seq<Byte>, nameLen: int)
    : Option<(AiResponse, seq<Byte>)>
  {
    match TakeAddrs(addrBytes, families)
    case None => None
    case Some((addrs, left)) =>
      if left != [] then None
      else
        match TakeString(tail, nameLen)
        case None => None
        case Some((name, rest)) => Some((AiResponse(addrs, name), rest))
  }

  lemma BlocksExact(addrBytes: seq<Byte>, families: seq<Byte>, tail: seq<Byte>, nameLen: int,
                    ai: AiResponse, rest: seq<Byte>)
    ensures DecodeBlocks(addrBytes, families, tail, nameLen) == Some((ai, rest))
       <==> addrBytes == AddrBytes(ai.addrs) && families == Families(ai.addrs)
            && 0 !in ai.canonName && nameLen == |ai.canonName| + 1 && tail == ai.canonName + [0] + rest
  {
    assert AddrBytes(ai.addrs) == AddrBytes(ai.addrs) + [];
    AddrsExact(addrBytes, families, ai.addrs, []);
    StringExact(tail, nameLen, ai.canonName, rest);
  }

  /** The client cuts the body where the three blocks meet. */
  lemma CutsBlocks(h: seq<U32>, a: seq<Byte>, f: seq<Byte>, tail: seq<Byte>)
    requires |h| == 6 && GoodHeader(h) && AsSigned(h[2]) == |f| && AsSigned(h[3]) == |a|
    ensures DecodeFound(h, a + f + tail) == DecodeBlocks(a, f, tail, AsSigned(h[4]))
  {
    var body := a + f + tail;
    assert body[..|a|] == a && body[|a|..|a| + |f|] == f && body[|a| + |f|..] == tail;
  }

  lemma FittingHeader(ai: AiResponse)
    requires ai.addrs != [] && Fits(ai)
    ensures
      var h := Header(ai);
      GoodHeader(h) && AsSigned(h[2]) == |ai.addrs| && AsSigned(h[3]) == |AddrBytes(ai.addrs)|
      && AsSigned(h[4]) == |ai.canonName| + 1
  {
  }

  lemma FoundDecodes(ai: AiResponse, rest: seq<Byte>)
    requires ai.addrs != [] && 0 !in ai.canonName && Fits(ai)
    ensures DecodeFound(Header(ai), Body(ai) + rest) == Some((ai, rest))
  {
    var a, f, tail := AddrBytes(ai.addrs), Families(ai.addrs), ai.canonName + [0] + rest;
    BlocksExact(a, f, tail, |ai.canonName| + 1, ai, rest);
    FittingHeader(ai);
    CutsBlocks(Header(ai), a, f, tail);
    assert Body(ai) + rest == a + f + tail;
  }

  lemma HeaderDetermined(h: seq<U32>, ai: AiResponse)
    requires |h| == 6 && GoodHeader(h) && AsSigned(h[2]) == |ai.addrs| && AsSigned(h[3]) == |AddrBytes(ai.addrs)|
    requires AsSigned(h[4]) == |ai.canonName| + 1
    ensures ai.addrs != [] && Fits(ai) && h == Header(ai)
  {
  }

  lemma FoundDecodesOnly(h: seq<U32>, body: seq<Byte>, ai: AiResponse, rest: seq<Byte>)
    requires |h| == 6 && DecodeFound(h, body) == Some((ai, rest))
    ensures ai.addrs != [] && 0 !in ai.canonName && Fits(ai) && h == Header(ai) && body == Body(ai) + rest
  {
    var n: int, addrslen: int := AsSigned(h[2]), AsSigned(h[3]);
    var a, f, tail := body[..addrslen], body[addrslen..addrslen + n], body[addrslen + n..];
    BlocksExact(a, f, tail, AsSigned(h[4]), ai, rest);
    HeaderDetermined(h, ai);
    Rejoined(body, addrslen, addrslen + n);
    assert a + f + (ai.canonName + [0] + rest) == a + f + (ai.canonName + [0]) + rest;
  }

  lemma Rejoined(body: seq<Byte>, j: nat, k: nat)
    requires j <= k <= |body|
    ensures body == body[..j] + body[j..k] + body[k..]
  {
  }

  lemma Decodes(ai: AiResponse, rest: seq<Byte>)
    requires Response(ai).Ok? && (ai.addrs == [] || Fits(ai))
    ensures Decode(Response(ai).value + rest) == Some((if ai.addrs == [] then None else Some(ai), rest))
  {
    var buf := Response(ai).value + rest;
    if ai.addrs == [] {
      WordsExact(buf, MissHeader(), rest);
    } else {
      assert buf == Words(Header(ai)) + (Body(ai) + rest);
      WordsExact(buf, Header(ai), Body(ai) + rest);
      FoundDecodes(ai, rest);
    }
  }

  lemma DecodesOnly(buf: seq<Byte>, ai: AiResponse, rest: seq<Byte>)
    requires Decode(buf) == Some((Some(ai), rest))
    ensures ai.addrs != [] && Response(ai).Ok? && Fits(ai) && buf == Response(ai).value + rest
  {
    var (h, body) := TakeWords(buf, 6).value;
    TakeWordsCount(buf, 6);
    WordsExact(buf, h, body);
    FoundDecodesOnly(h, body, ai, rest);
    assert buf == Words(Header(ai)) + Body(ai) + rest;
  }

  /**
   A buffer reads back as a non-empty mixed list of addresses with a name, followed
   by `rest`, exactly when the name has no NUL, nothing is cut off by an `as i32`, and
   the buffer is that reply followed by `rest`.
   */
  lemma AddrInfoRoundTrip(buf: seq<Byte>, ai: AiResponse, rest: seq<Byte>)
    ensures Decode(buf) == Some((Some(ai), rest))
       <==> ai.addrs != [] && 0 !in ai.canonName && Fits(ai) && buf == Response(ai).value + rest
  {
    if ai.addrs != [] && 0 !in ai.canonName && Fits(ai) && buf == Response(ai).value + rest {
      Decodes(ai, rest);
    }
    if Decode(buf) == Some((Some(ai), rest)) {
      DecodesOnly(buf, ai, rest);
    }
  }

  /** The six header fields of a found name; of lengths and counts the low 32 bits go out. */
  lemma AddrInfoHeaderLayout(ai: AiResponse)
    requires ai.addrs != [] && Response(ai).Ok?
    ensures |Response(ai).value| >= 24
    ensures
      var bytes := Response(ai).value;
      && WordAt(bytes, 0) == 2 && WordAt(bytes, 1) == 1 && WordAt(bytes, 2) == Low(|ai.addrs|)
      && WordAt(bytes, 3) == Low(|AddrBytes(ai.addrs)|) && WordAt(bytes, 4) == Low(|ai.canonName| + 1)
      && WordAt(bytes, 5) == 0
  {
    HeaderNumbers(ai);
    FieldsLayout(Header(ai), Body(ai));
  }

  /** What follows the header: the addresses, one byte for the family of each, and the name. */
  lemma AddrInfoBodyLayout(ai: AiResponse)
    requires ai.addrs != [] && Response(ai).Ok?
    ensures |Response(ai).value| >= 24
    ensures Response(ai).value[24..] == AddrBytes(ai.addrs) + FamilyNumbers(ai.addrs) + (ai.canonName + [0])
  {
    FieldsLayout(Header(ai), Body(ai));
    assert Families(ai.addrs) == FamilyNumbers(ai.addrs);
  }

  /** Nothing found is answered with six words and no more. */
  lemma AddrInfoMissLayout(canonName: seq<Byte>)
    ensures Response(AiResponse([], canonName)) == Ok(Words([2, 0, 0, 0, 0, 0]))
  {
  }

  /** Linux's numbers of the two families. */
  function FamilyNumbers(addrs: seq<IpAddr>): seq<Byte> {
    seq(|addrs|, k requires 0 <= k < |addrs| => if addrs[k].V4? then 2 else 10)
  }

  lemma HeaderNumbers(ai: AiResponse)
    ensures
      var w := Header(ai);
      && |w| == 6 && w[0] == 2 && w[1] == 1 && w[2] == Low(|ai.addrs|) && w[3] == Low(|AddrBytes(ai.addrs)|)
      && w[4] == Low(|ai.canonName| + 1) && w[5] == 0
  {
    TruncatedBits(|ai.addrs|);
    TruncatedBits(|AddrBytes(ai.addrs)|);
    TruncatedBits(|ai.canonName| + 1);
  }

  lemma FieldsLayout(h: seq<U32>, body: seq<Byte>)
    requires |h| == 6
    ensures
      var bytes := Words(h) + body;
      && WordAt(bytes, 0) == h[0] && WordAt(bytes, 1) == h[1] && WordAt(bytes, 2) == h[2]
      && WordAt(bytes, 3) == h[3] && WordAt(bytes, 4) == h[4] && WordAt(bytes, 5) == h[5]
      && bytes[24..] == body
  {
    HeaderLayout(h, body);
  }

  /** Total and address lengths; the empty reply is the same 24 bytes whatever the name. */
  lemma AddrInfoLengths(ai: AiResponse)
    ensures Response(ai).Err? <==> ai.addrs != [] && 0 in ai.canonName
    ensures ai.addrs == [] ==> |Response(ai).value| == 24
    ensures ai.addrs != [] && Response(ai).Ok? ==>
      |Response(ai).value| == 24 + (4 * CountV4(ai.addrs) + 16 * (|ai.addrs| - CountV4(ai.addrs)))
                              + |ai.addrs| + (|ai.canonName| + 1)
  {
    AddrBytesLength(ai.addrs);
  }
}
