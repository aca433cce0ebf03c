/** The reply to GETPWBYNAME and GETPWBYUID: `serialize_user` of src/handlers.rs and what its client reads back. */
module UserReply {
  import opened Results
  import opened WireFormat

  /** nix's User; `String` and `PathBuf` fields may hold a NUL, `CString` fields may not. */
  datatype User = User(
    name: seq<Byte>, passwd: CStr, uid: U32, gid: U32,
    gecos: CStr, dir: seq<Byte>, shell: seq<Byte>)

  /** The default PwResponseHeader: even its version is zero. */
  function MissHeader(): seq<U32> {
    [0, 0, 0, 0, 0, 0, 0, 0, 0]
  }

  function Body(u: User): seq<seq<Byte>> {
    [u.name, u.passwd, u.gecos, u.dir, u.shell]
  }

  predicate LengthsFit(u: User) {
    && |u.name| + 1 < I32_LIMIT && |u.passwd| + 1 < I32_LIMIT && |u.gecos| + 1 < I32_LIMIT
    && |u.dir| + 1 < I32_LIMIT && |u.shell| + 1 < I32_LIMIT
  }

  predicate Fits(u: User) {
    NulFree(Body(u)) && LengthsFit(u)
  }

  function Header(u: User): seq<U32>
    requires Fits(u)
  {
    [2, 1, |u.name| + 1, |u.passwd| + 1, u.uid, u.gid, |u.gecos| + 1, |u.dir| + 1, |u.shell| + 1]
  }

  /** The reply: an interior NUL is found before a length that does not fit. */
  function Response(user: Option<User>): Result<seq<Byte>, SerializeError> {
    match user
    case None => Ok(Words(MissHeader()))
    case Some(u) =>
      if !NulFree(Body(u)) then Err(InteriorNul)
      else if !Fits(u) then Err(LengthOverflow)
      else Ok(Words(Header(u)) + Strings(Body(u)))
  }

  method SerializeUser(user: Option<User>) returns (r: Result<seq<Byte>, SerializeError>)
    ensures r == Response(user)
  {
    var result: seq<Byte> := [];
    if user.None? {
      result := result + Words(MissHeader());
      assert result == Words(MissHeader());
      return Ok(result);
    }
    var data := user.value;
    assert Body(data)[0] == data.name && Body(data)[1] == data.passwd && Body(data)[2] == data.gecos
        && Body(data)[3] == data.dir && Body(data)[4] == data.shell;
    if 0 in data.name { return Err(InteriorNul); }
    var nameBytes := data.name + [0];
    var passwdBytes := data.passwd + [0];
    var gecosBytes := data.gecos + [0];
    if 0 in data.dir { return Err(InteriorNul); }
    var dirBytes := data.dir + [0];
    if 0 in data.shell { return Err(InteriorNul); }
    var shellBytes := data.shell + [0];

    var nameLen, passwdLen := Checked(|nameBytes|), Checked(|passwdBytes|);
    var gecosLen, dirLen, shellLen := Checked(|gecosBytes|), Checked(|dirBytes|), Checked(|shellBytes|);
    if nameLen.Err? || passwdLen.Err? || gecosLen.Err? || dirLen.Err? || shellLen.Err? {
      return Err(LengthOverflow);
    }
    result := result + Words([2, 1, AsBits(nameLen.value), AsBits(passwdLen.value), data.uid, data.gid,
                              AsBits(gecosLen.value), AsBits(dirLen.value), AsBits(shellLen.value)]);
    result := result + nameBytes;
    result := result + passwdBytes;
    result := result + gecosBytes;
    result := result + dirBytes;
    result := result + shellBytes;
    assert LengthsFit(data) by {
      assert |nameBytes| < I32_LIMIT && |passwdBytes| < I32_LIMIT && |gecosBytes| < I32_LIMIT
          && |dirBytes| < I32_LIMIT && |shellBytes| < I32_LIMIT;
    }
    Assembled(Header(data), data.name, data.passwd, data.gecos, data.dir, data.shell);
    r := Ok(result);
  }

  lemma FiveStrings(a: seq<Byte>, b: seq<Byte>, c: seq<Byte>, d: seq<Byte>, e: seq<Byte>)
    ensures Strings([a, b, c, d, e]) == (a + [0]) + (b + [0]) + (c + [0]) + (d + [0]) + (e + [0])
  {
    StringsAppend([a, b, c, d], [e]);
    StringsAppend([a, b, c], [d]);
    StringsAppend([a, b], [c]);
    StringsAppend([a], [b]);
    assert [a, b, c, d] + [e] == [a, b, c, d, e];
    assert [a, b, c] + [d] == [a, b, c, d];
    assert [a, b] + [c] == [a, b, c];
    assert [a] + [b] == [a, b];
    OneString(a); OneString(b); OneString(c); OneString(d); OneString(e);
  }

  lemma Assembled(h: seq<U32>, a: seq<Byte>, b: seq<Byte>, c: seq<Byte>, d: seq<Byte>, e: seq<Byte>)
    ensures [] + Words(h) + (a + [0]) + (b + [0]) + (c + [0]) + (d + [0]) + (e + [0])
         == Words(h) + Strings([a, b, c, d, e])
  {
    FiveStrings(a, b, c, d, e);
  }

  lemma OneString(a: seq<Byte>)
    ensures Strings([a]) == a + [0]
  {
    assert Strings([a]) == a + [0] + [];
  }

  // ---------- the client ----------

  function LengthFields(h: seq<U32>): seq<int>
    requires |h| == 9
  {
    [AsSigned(h[2]), AsSigned(h[3]), AsSigned(h[6]), AsSigned(h[7]), AsSigned(h[8])]
  }

  /** What a client makes of a buffer: a user, or no such user, and the bytes after the reply. */
  function Decode(buf: seq<Byte>): Option<(Option<User>, seq<Byte>)> {
    match TakeWords(buf, 9)
    case None => None
    case Some((h, body)) =>
      TakeWordsCount(buf, 9);
      if h == MissHeader() then Some((None, body))
      else
        match DecodeFound(h, body)
        case None => None
        case Some((user, rest)) => Some((Some(user), rest))
  }

  function DecodeFound(h: seq<U32>, body: seq<Byte>): Option<(User, seq<Byte>)>
    requires |h| == 9
  {
    if h[0] != 2 || h[1] != 1 then None
    else
      match TakeStrings(body, LengthFields(h))
      case None => None
      case Some((ss, rest)) => Some((User(ss[0], ss[1], h[4], h[5], ss[2], ss[3], ss[4]), rest))
  }

  lemma HeaderTellsLengths(u: User)
    requires Fits(u)
    ensures LengthFields(Header(u)) == Lengths(Body(u))
  {
  }

  lemma FoundDecodes(u: User, rest: seq<Byte>)
    requires Fits(u)
    ensures DecodeFound(Header(u), Strings(Body(u)) + rest) == Some((u, rest))
  {
    HeaderTellsLengths(u);
    StringsExact(Strings(Body(u)) + rest, Lengths(Body(u)), Body(u), rest);
  }

  lemma Decodes(user: Option<User>, rest: seq<Byte>)
    requires Response(user).Ok?
    ensures Decode(Response(user).value + rest) == Some((user, rest))
  {
    var buf := Response(user).value + rest;
    match user
    case None => WordsExact(buf, MissHeader(), rest);
    case Some(u) =>
      Regroup(Words(Header(u)), Strings(Body(u)), rest);
      WordsExact(buf, Header(u), Strings(Body(u)) + rest);
      FoundDecodes(u, rest);
  }

  lemma HeaderDetermined(h: seq<U32>, u: User)
    requires |h| == 9 && h[0] == 2 && h[1] == 1 && h[4] == u.uid && h[5] == u.gid
    requires NulFree(Body(u)) && LengthFields(h) == Lengths(Body(u))
    ensures Fits(u) && h == Header(u)
  {
    var f, l := LengthFields(h), Lengths(Body(u));
    assert f[0] == l[0] && f[1] == l[1] && f[2] == l[2] && f[3] == l[3] && f[4] == l[4];
  }

  lemma FoundDecodesOnly(h: seq<U32>, body: seq<Byte>, u: User, rest: seq<Byte>)
    requires |h| == 9 && DecodeFound(h, body) == Some((u, rest))
    ensures Fits(u) && h == Header(u) && body == Strings(Body(u)) + rest
  {
    var ss := TakeStrings(body, LengthFields(h)).value.0;
    StringsExact(body, LengthFields(h), ss, rest);
    assert ss == Body(u);
    HeaderDetermined(h, u);
  }

  lemma DecodesOnly(buf: seq<Byte>, user: Option<User>, rest: seq<Byte>)
    requires Decode(buf) == Some((user, rest))
    ensures Response(user).Ok? && buf == Response(user).value + rest
  {
    var (h, body) := TakeWords(buf, 9).value;
    TakeWordsCount(buf, 9);
    WordsExact(buf, h, body);
    match user
    case None =>
    case Some(u) =>
      FoundDecodesOnly(h, body, u, rest);
      Regroup(Words(h), Strings(Body(u)), rest);
  }

  /**
   A buffer reads back as `user` followed by `rest` exactly when it is the reply for
   `user` followed by `rest`, where the reply exists unless a name or path holds a
   NUL or a length exceeds an i32.
   */
  lemma UserRoundTrip(buf: seq<Byte>, user: Option<User>, rest: seq<Byte>)
    ensures Decode(buf) == Some((user, rest)) <==> Response(user).Ok? && buf == Response(user).value + rest
    ensures Response(user).Ok? <==> user.None? || Sendable(user.value)
  {
    SendableFits(user);
    if Response(user).Ok? && buf == Response(user).value + rest {
      Decodes(user, rest);
    }
    if Decode(buf) == Some((user, rest)) {
      DecodesOnly(buf, user, rest);
    }
  }

  /** No NUL where one could be, and every length with its terminator fits an i32. */
  predicate Sendable(u: User) {
    && 0 !in u.name && 0 !in u.dir && 0 !in u.shell
    && |u.name| <= 0x7FFF_FFFE && |u.passwd| <= 0x7FFF_FFFE && |u.gecos| <= 0x7FFF_FFFE
    && |u.dir| <= 0x7FFF_FFFE && |u.shell| <= 0x7FFF_FFFE
  }

  lemma SendableFits(user: Option<User>)
    ensures user.Some? ==> (Sendable(user.value) <==> Fits(user.value))
  {
    if user.Some? {
      var body := Body(user.value);
      assert body[0] == user.value.name && body[3] == user.value.dir && body[4] == user.value.shell;
    }
  }

  /** A missing user is answered with 36 zero bytes; a found one with these nine fields and five strings. */
  lemma UserLayout(user: Option<User>)
    requires Response(user).Ok?
    ensures user.None? ==> Response(user).value == seq(36, _ => 0)
    ensures user.Some? ==>
      var bytes, u := Response(user).value, user.value;
      && |bytes| >= 36
      && WordAt(bytes, 0) == 2 && WordAt(bytes, 1) == 1
      && WordAt(bytes, 2) == |u.name| + 1 && WordAt(bytes, 3) == |u.passwd| + 1
      && WordAt(bytes, 4) == u.uid && WordAt(bytes, 5) == u.gid
      && WordAt(bytes, 6) == |u.gecos| + 1 && WordAt(bytes, 7) == |u.dir| + 1 && WordAt(bytes, 8) == |u.shell| + 1
      && bytes[36..] == (u.name + [0]) + (u.passwd + [0]) + (u.gecos + [0]) + (u.dir + [0]) + (u.shell + [0])
  {
    match user
    case None => ZeroWords(MissHeader());
    case Some(u) =>
      FieldsLayout(Header(u), Strings(Body(u)));
      FiveStrings(u.name, u.passwd, u.gecos, u.dir, u.shell);
  }

  lemma FieldsLayout(h: seq<U32>, body: seq<Byte>)
    requires |h| == 9
    ensures
      var bytes := Words(h) + body;
      && WordAt(bytes, 0) == h[0] && WordAt(bytes, 1) == h[1] && WordAt(bytes, 2) == h[2] && WordAt(bytes, 3) == h[3]
      && WordAt(bytes, 4) == h[4] && WordAt(bytes, 5) == h[5] && WordAt(bytes, 6) == h[6] && WordAt(bytes, 7) == h[7]
      && WordAt(bytes, 8) == h[8] && bytes[36..] == body
  {
    HeaderLayout(h, body);
  }

  /** No reply is a prefix of another user's reply, so no two users share one. */
  lemma UserPrefixFree(a: Option<User>, b: Option<User>)
    requires Response(a).Ok? && Response(b).Ok? && Response(a).value <= Response(b).value
    ensures a == b
  {
    var rest := Response(b).value[|Response(a).value|..];
    assert Response(b).value == Response(a).value + rest;
    Decodes(a, rest);
    Decodes(b, []);
    assert Response(b).value + [] == Response(b).value;
  }
}
