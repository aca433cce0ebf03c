/** The reply to INITGROUPS: `serialize_initgroups` of src/handlers.rs and what its client reads back. */
module InitgroupsReply {
  import opened Results
  import opened WireFormat

  predicate AllSmall(gids: seq<U32>) {
    forall k :: 0 <= k < |gids| ==> gids[k] < I32_LIMIT
  }

  /** Each gid goes out as an i32, so one of 2^31 or more is refused. */
  function Response(gids: seq<U32>): Result<seq<Byte>, SerializeError> {
    if |gids| >= I32_LIMIT || !AllSmall(gids) then Err(LengthOverflow)
    else Ok(Words(Header(gids)) + Words(gids))
  }

  function Header(gids: seq<U32>): (h: seq<U32>)
    requires |gids| < I32_LIMIT
    ensures |h| == 3
  {
    [2, 1, |gids|]
  }

  method SerializeInitgroups(groups: seq<U32>) returns (r: Result<seq<Byte>, SerializeError>)
    ensures r == Response(groups)
  {
    var result: seq<Byte> := [];
    var ngrps := Checked(|groups|);
    if ngrps.Err? { return Err(LengthOverflow); }
    var header := Words([2, 1, AsBits(ngrps.value)]);
    result := result + header;
    assert result == header + Words([]);
    for k := 0 to |groups|
      invariant AllSmall(groups[..k])
      invariant result == header + Words(groups[..k])
    {
      var gid := Checked(groups[k]);
      if gid.Err? { return Err(LengthOverflow); }
      assert groups[..k + 1] == groups[..k] + [groups[k]];
      WordsAppend(groups[..k], [groups[k]]);
      assert Words([groups[k]]) == LeBytes(groups[k]) + [];
      result := result + LeBytes(AsBits(gid.value));
    }
    assert groups[..|groups|] == groups;
    r := Ok(result);
  }

  /** The count and every gid fit an i32. */
  predicate Sendable(gids: seq<U32>) {
    |gids| <= 0x7FFF_FFFF && forall k :: 0 <= k < |gids| ==> gids[k] <= 0x7FFF_FFFF
  }

  /** Version, found flag, count, and then the gids; an empty list counts as found. */
  lemma InitgroupsLayout(gids: seq<U32>)
    requires Response(gids).Ok?
    ensures
      var bytes := Response(gids).value;
      && |bytes| == 12 + 4 * |gids|
      && WordAt(bytes, 0) == 2 && WordAt(bytes, 1) == 1 && WordAt(bytes, 2) == |gids|
      && forall k :: 0 <= k < |gids| ==> WordAt(bytes[12..], k) == gids[k]
  {
    HeaderLayout(Header(gids), Words(gids));
    HeaderLayout(gids, []);
    assert Words(gids) + [] == Words(gids);
  }

  /** What a client makes of a buffer: the gids, and the bytes after the reply. */
  function Decode(buf: seq<Byte>): Option<(seq<U32>, seq<Byte>)> {
    match TakeWords(buf, 3)
    case None => None
    case Some((h, body)) =>
      TakeWordsCount(buf, 3);
      if h[0] != 2 || h[1] != 1 || AsSigned(h[2]) < 0 then None
      else
        match TakeWords(body, h[2])
        case None => None
        case Some((gids, rest)) => if AllSmall(gids) then Some((gids, rest)) else None
  }

  lemma Decodes(gids: seq<U32>, rest: seq<Byte>)
    requires Response(gids).Ok?
    ensures Decode(Response(gids).value + rest) == Some((gids, rest))
  {
    var h := Header(gids);
    Regroup(Words(h), Words(gids), rest);
    WordsExact(Response(gids).value + rest, h, Words(gids) + rest);
    WordsExact(Words(gids) + rest, gids, rest);
  }

  lemma HeaderDetermined(h: seq<U32>, gids: seq<U32>)
    requires |h| == 3 && h[0] == 2 && h[1] == 1 && AsSigned(h[2]) >= 0 && h[2] == |gids|
    ensures |gids| < I32_LIMIT && h == Header(gids)
  {
  }

  lemma DecodesOnly(buf: seq<Byte>, gids: seq<U32>, rest: seq<Byte>)
    requires Decode(buf) == Some((gids, rest))
    ensures Response(gids).Ok? && buf == Response(gids).value + rest
  {
    var (h, body) := TakeWords(buf, 3).value;
    TakeWordsCount(buf, 3);
    WordsExact(buf, h, body);
    TakeWordsCount(body, h[2]);
    WordsExact(body, gids, rest);
    HeaderDetermined(h, gids);
    Regroup(Words(h), Words(gids), rest);
  }

  /**
   A buffer reads back as `gids` followed by `rest` exactly when it is the reply for
   `gids` followed by `rest`. The reply exists iff the count and every gid fit an i32,
   and is 12 bytes and 4 more per gid.
   */
  lemma InitgroupsRoundTrip(buf: seq<Byte>, gids: seq<U32>, rest: seq<Byte>)
    ensures Decode(buf) == Some((gids, rest)) <==> Response(gids).Ok? && buf == Response(gids).value + rest
    ensures Response(gids).Ok? <==> Sendable(gids)
    ensures Response(gids).Ok? ==> |Response(gids).value| == 12 + 4 * |gids|
  {
    if Response(gids).Ok? && buf == Response(gids).value + rest {
      Decodes(gids, rest);
    }
    if Decode(buf) == Some((gids, rest)) {
      DecodesOnly(buf, gids, rest);
    }
  }
}
