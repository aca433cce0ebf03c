/** The reply to GETGRBYNAME and GETGRBYGID: `serialize_group` of src/handlers.rs and what its client reads back. */
module GroupReply {
  import opened Results
  import opened WireFormat

  /** nix's Group; member names are `String`s and may hold a NUL. */
  datatype Group = Group(name: seq<Byte>, passwd: CStr, gid: U32, mem: seq<seq<Byte>>)

  /** The default GrResponseHeader: even its version is zero. */
  function MissHeader(): seq<U32> {
    [0, 0, 0, 0, 0, 0]
  }

  function Body(g: Group): seq<seq<Byte>> {
    [g.name, g.passwd] + g.mem
  }

  predicate LengthsFit(g: Group) {
    && |g.name| + 1 < I32_LIMIT && |g.passwd| + 1 < I32_LIMIT && |g.mem| < I32_LIMIT
    && forall k :: 0 <= k < |g.mem| ==> |g.mem[k]| + 1 < I32_LIMIT
  }

  predicate Fits(g: Group) {
    0 !in g.name && NulFree(g.mem) && LengthsFit(g)
  }

  function Header(g: Group): seq<U32>
    requires LengthsFit(g)
  {
    [2, 1, |g.name| + 1, |g.passwd| + 1, g.gid, |g.mem|]
  }

  /** The table of member lengths that follows the header. */
  function LengthTable(mem: seq<seq<Byte>>): seq<U32>
    requires forall k :: 0 <= k < |mem| ==> |mem[k]| + 1 < I32_LIMIT
  {
    seq(|mem|, k requires 0 <= k < |mem| => |mem[k]| + 1)
  }

  /** The reply: an interior NUL is found before a length that does not fit. */
  function Response(group: Option<Group>): Result<seq<Byte>, SerializeError> {
    match group
    case None => Ok(Words(MissHeader()))
    case Some(g) =>
      if 0 in g.name || !NulFree(g.mem) then Err(InteriorNul)
      else if !LengthsFit(g) then Err(LengthOverflow)
      else Ok(Words(Header(g)) + Words(LengthTable(g.mem)) + Strings(Body(g)))
  }

  method SerializeGroup(group: Option<Group>) returns (r: Result<seq<Byte>, SerializeError>)
    ensures r == Response(group)
  {
    var result: seq<Byte> := [];
    if group.None? {
      result := result + Words(MissHeader());
      assert result == Words(MissHeader());
      return Ok(result);
    }
    var data := group.value;
    if 0 in data.name { return Err(InteriorNul); }
    var nameBytes := data.name + [0];
    var passwdBytes := data.passwd + [0];
    var membersBytes := MembersWithNul(data.mem);
    if membersBytes.Err? { return Err(InteriorNul); }

    var nameLen, passwdLen, memCnt := Checked(|nameBytes|), Checked(|passwdBytes|), Checked(|data.mem|);
    if nameLen.Err? || passwdLen.Err? || memCnt.Err? { return Err(LengthOverflow); }
    result := result + Words([2, 1, AsBits(nameLen.value), AsBits(passwdLen.value), data.gid, AsBits(memCnt.value)]);
    var table := TableBytes(data.mem, membersBytes.value);
    if table.Err? { return Err(LengthOverflow); }
    result := result + table.value;
    result := result + nameBytes;
    result := result + passwdBytes;
    result := AppendAll(result, data.mem, membersBytes.value);
    InOrder(data);
    r := Ok(result);
  }

  /** The loop that appends every member after the rest. */
  method AppendAll(start: seq<Byte>, ghost mem: seq<seq<Byte>>, membersBytes: seq<seq<Byte>>)
    returns (result: seq<Byte>)
    requires |membersBytes| == |mem| && forall k :: 0 <= k < |mem| ==> membersBytes[k] == mem[k] + [0]
    ensures result == start + Strings(mem)
  {
    result := start;
    for k := 0 to |membersBytes|
      invariant result == start + Strings(mem[..k])
    {
      assert mem[..k + 1] == mem[..k] + [mem[k]];
      StringsAppend(mem[..k], [mem[k]]);
      assert Strings([mem[k]]) == mem[k] + [0] + [];
      result := result + membersBytes[k];
    }
    assert mem[..|mem|] == mem;
  }

  /** `data.mem.into_iter().map(CString::new).collect()`, with the terminators. */
  method MembersWithNul(mem: seq<seq<Byte>>) returns (r: Result<seq<seq<Byte>>, SerializeError>)
    ensures r.Ok? <==> NulFree(mem)
    ensures r.Ok? ==> |r.value| == |mem| && forall k :: 0 <= k < |mem| ==> r.value[k] == mem[k] + [0]
  {
    var members: seq<seq<Byte>> := [];
    for k := 0 to |mem|
      invariant NulFree(mem[..k]) && |members| == k
      invariant forall j :: 0 <= j < k ==> members[j] == mem[j] + [0]
    {
      if 0 in mem[k] { return Err(InteriorNul); }
      members := members + [mem[k] + [0]];
    }
    r := Ok(members);
  }

  /** The loop that writes each member's length, stopping at one that does not fit. */
  method TableBytes(ghost mem: seq<seq<Byte>>, membersBytes: seq<seq<Byte>>)
    returns (r: Result<seq<Byte>, SerializeError>)
    requires |membersBytes| == |mem| && forall k :: 0 <= k < |mem| ==> membersBytes[k] == mem[k] + [0]
    ensures r.Ok? <==> forall k :: 0 <= k < |mem| ==> |mem[k]| + 1 < I32_LIMIT
    ensures r.Ok? ==> r.value == Words(LengthTable(mem))
  {
    var bytes: seq<Byte> := [];
    for k := 0 to |membersBytes|
      invariant forall j :: 0 <= j < k ==> |mem[j]| + 1 < I32_LIMIT
      invariant bytes == Words(LengthTable(mem[..k]))
    {
      var length := Checked(|membersBytes[k]|);
      if length.Err? { return Err(LengthOverflow); }
      assert LengthTable(mem[..k + 1]) == LengthTable(mem[..k]) + [length.value];
      WordsAppend(LengthTable(mem[..k]), [length.value]);
      assert Words([length.value]) == LeBytes(length.value) + [];
      bytes := bytes + LeBytes(AsBits(length.value));
    }
    assert mem[..|mem|] == mem;
    r := Ok(bytes);
  }

  lemma NameAndMembers(g: Group)
    ensures Strings(Body(g)) == (g.name + [0]) + (g.passwd + [0]) + Strings(g.mem)
  {
    StringsAppend([g.name, g.passwd], g.mem);
    assert [g.name, g.passwd][1..] == [g.passwd];
    assert Strings([g.passwd]) == g.passwd + [0] + [];
  }

  lemma InOrder(g: Group)
    requires LengthsFit(g)
    ensures [] + Words(Header(g)) + Words(LengthTable(g.mem)) + (g.name + [0]) + (g.passwd + [0]) + Strings(g.mem)
         == Words(Header(g)) + Words(LengthTable(g.mem)) + Strings(Body(g))
  {
    NameAndMembers(g);
  }

  // ---------- the client ----------

  /** The lengths of the strings in the body: name, password, then the members from the table. */
  function LengthFields(h: seq<U32>, table: seq<U32>): seq<int>
    requires |h| == 6
  {
    [AsSigned(h[2]), AsSigned(h[3])] + seq(|table|, k requires 0 <= k < |table| => AsSigned(table[k]))
  }

  /** What a client makes of a buffer: a group, or no such group, and the bytes after the reply. */
  function Decode(buf: seq<Byte>): Option<(Option<Group>, seq<Byte>)> {
    match TakeWords(buf, 6)
    case None => None
    case Some((h, rest0)) =>
      TakeWordsCount(buf, 6);
      if h == MissHeader() then Some((None, rest0))
      else
        match DecodeFound(h, rest0)
        case None => None
        case Some((group, rest)) => Some((Some(group), rest))
  }

  function DecodeFound(h: seq<U32>, rest0: seq<Byte>): Option<(Group, seq<Byte>)>
    requires |h| == 6
  {
    if h[0] != 2 || h[1] != 1 || AsSigned(h[5]) < 0 then None
    else
      match TakeWords(rest0, h[5])
      case None => None
      case Some((table, body)) =>
        match TakeStrings(body, LengthFields(h, table))
        case None => None
        case Some((ss, rest)) => Some((Group(ss[0], ss[1], h[4], ss[2..]), rest))
  }

  lemma FoundDecodes(g: Group, rest: seq<Byte>)
    requires Fits(g)
    ensures DecodeFound(Header(g), Words(LengthTable(g.mem)) + (Strings(Body(g)) + rest)) == Some((g, rest))
  {
    var h, table, ss := Header(g), LengthTable(g.mem), Body(g);
    var body := Strings(ss) + rest;
    WordsExact(Words(table) + body, table, body);
    assert LengthFields(h, table) == Lengths(ss);
    StringsExact(body, Lengths(ss), ss, rest);
    assert ss[2..] == g.mem;
  }

  lemma Decodes(group: Option<Group>, rest: seq<Byte>)
    requires Response(group).Ok?
    ensures Decode(Response(group).value + rest) == Some((group, rest))
  {
    var buf := Response(group).value + rest;
    match group
    case None => WordsExact(buf, MissHeader(), rest);
    case Some(g) =>
      var after := Words(LengthTable(g.mem)) + (Strings(Body(g)) + rest);
      assert buf == Words(Header(g)) + after;
      WordsExact(buf, Header(g), after);
      FoundDecodes(g, rest);
  }

  lemma LengthsDetermined(h: seq<U32>, table: seq<U32>, g: Group)
    requires |h| == 6 && h[0] == 2 && h[1] == 1 && h[4] == g.gid && AsSigned(h[5]) >= 0 && |table| == h[5]
    requires NulFree(Body(g)) && LengthFields(h, table) == Lengths(Body(g))
    ensures Fits(g) && h == Header(g) && table == LengthTable(g.mem)
  {
    var f, l := LengthFields(h, table), Lengths(Body(g));
    assert f[0] == l[0] && f[1] == l[1] && |f| == |l|;
    assert Body(g)[0] == g.name;
    forall k | 0 <= k < |g.mem|
      ensures 0 !in g.mem[k] && table[k] == |g.mem[k]| + 1 < I32_LIMIT
    {
      assert f[k + 2] == l[k + 2] && Body(g)[k + 2] == g.mem[k];
    }
  }

  lemma FoundDecodesOnly(h: seq<U32>, rest0: seq<Byte>, g: Group, rest: seq<Byte>)
    requires |h| == 6 && DecodeFound(h, rest0) == Some((g, rest))
    ensures Fits(g) && h == Header(g)
    ensures rest0 == Words(LengthTable(g.mem)) + Strings(Body(g)) + rest
  {
    var (table, body) := TakeWords(rest0, h[5]).value;
    TakeWordsCount(rest0, h[5]);
    WordsExact(rest0, table, body);
    var ss := TakeStrings(body, LengthFields(h, table)).value.0;
    StringsExact(body, LengthFields(h, table), ss, rest);
    assert ss == Body(g);
    LengthsDetermined(h, table, g);
    Regroup(Words(table), Strings(ss), rest);
  }

  lemma DecodesOnly(buf: seq<Byte>, group: Option<Group>, rest: seq<Byte>)
    requires Decode(buf) == Some((group, rest))
    ensures Response(group).Ok? && buf == Response(group).value + rest
  {
    var (h, rest0) := TakeWords(buf, 6).value;
    TakeWordsCount(buf, 6);
    WordsExact(buf, h, rest0);
    match group
    case None =>
    case Some(g) =>
      FoundDecodesOnly(h, rest0, g, rest);
      Assembled(g, rest);
      assert Response(group) == Ok(Words(Header(g)) + Words(LengthTable(g.mem)) + Strings(Body(g)));
  }

  lemma Assembled(g: Group, rest: seq<Byte>)
    requires LengthsFit(g)
    ensures Words(Header(g)) + (Words(LengthTable(g.mem)) + Strings(Body(g)) + rest)
         == Words(Header(g)) + Words(LengthTable(g.mem)) + Strings(Body(g)) + rest
  {
  }

  /**
   A buffer reads back as `group` followed by `rest` exactly when it is the reply for
   `group` followed by `rest`, where the reply exists unless a name holds a NUL or a
   count or length exceeds an i32.
   */
  lemma GroupRoundTrip(buf: seq<Byte>, group: Option<Group>, rest: seq<Byte>)
    ensures Decode(buf) == Some((group, rest)) <==> Response(group).Ok? && buf == Response(group).value + rest
    ensures Response(group).Ok? <==> group.None? || Sendable(group.value)
  {
    if Response(group).Ok? && buf == Response(group).value + rest {
      Decodes(group, rest);
    }
    if Decode(buf) == Some((group, rest)) {
      DecodesOnly(buf, group, rest);
    }
  }

  /** No NUL in the names, and every count, and every length with its terminator, fits an i32. */
  predicate Sendable(g: Group) {
    && 0 !in g.name && |g.name| <= 0x7FFF_FFFE && |g.passwd| <= 0x7FFF_FFFE && |g.mem| <= 0x7FFF_FFFF
    && forall k :: 0 <= k < |g.mem| ==> 0 !in g.mem[k] && |g.mem[k]| <= 0x7FFF_FFFE
  }

  /** A missing group is answered with 24 zero bytes; a found one with six fields, the member lengths, the strings. */
  lemma GroupLayout(group: Option<Group>)
    requires Response(group).Ok?
    ensures group.None? ==> Response(group).value == seq(24, _ => 0)
    ensures group.Some? ==>
      var bytes, g := Response(group).value, group.value;
      && |bytes| >= 24 + 4 * |g.mem|
      && WordAt(bytes, 0) == 2 && WordAt(bytes, 1) == 1
      && WordAt(bytes, 2) == |g.name| + 1 && WordAt(bytes, 3) == |g.passwd| + 1
      && WordAt(bytes, 4) == g.gid && WordAt(bytes, 5) == |g.mem|
      && (forall k :: 0 <= k < |g.mem| ==> WordAt(bytes[24..], k) == |g.mem[k]| + 1)
      && bytes[24..][4 * |g.mem|..] == (g.name + [0]) + (g.passwd + [0]) + Strings(g.mem)
  {
    match group
    case None => ZeroWords(MissHeader());
    case Some(g) =>
      Regroup(Words(Header(g)), Words(LengthTable(g.mem)), Strings(Body(g)));
      FieldsLayout(Header(g), Words(LengthTable(g.mem)) + Strings(Body(g)));
      TableLayout(g.mem, Strings(Body(g)));
      NameAndMembers(g);
  }

  lemma FieldsLayout(h: seq<U32>, rest: seq<Byte>)
    requires |h| == 6
    ensures
      var bytes := Words(h) + rest;
      && WordAt(bytes, 0) == h[0] && WordAt(bytes, 1) == h[1] && WordAt(bytes, 2) == h[2]
      && WordAt(bytes, 3) == h[3] && WordAt(bytes, 4) == h[4] && WordAt(bytes, 5) == h[5]
      && bytes[24..] == rest
  {
    HeaderLayout(h, rest);
  }

  lemma TableLayout(mem: seq<seq<Byte>>, strings: seq<Byte>)
    requires forall k :: 0 <= k < |mem| ==> |mem[k]| + 1 < I32_LIMIT
    ensures
      var bytes := Words(LengthTable(mem)) + strings;
      && (forall k :: 0 <= k < |mem| ==> WordAt(bytes, k) == |mem[k]| + 1)
      && bytes[4 * |mem|..] == strings
  {
    HeaderLayout(LengthTable(mem), strings);
  }

  /** No reply is a prefix of another group's reply, so no two groups share one. */
  lemma GroupPrefixFree(a: Option<Group>, b: Option<Group>)
    requires Response(a).Ok? && Response(b).Ok? && Response(a).value <= Response(b).value
    ensures a == b
  {
    var rest := Response(b).value[|Response(a).value|..];
    assert Response(b).value == Response(a).value + rest;
    Decodes(a, rest);
    Decodes(b, []);
    assert Response(b).value + [] == Response(b).value;
  }
}
