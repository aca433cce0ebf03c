/** Requests: the type codes and `Request::parse` of src/protocol.rs. */
module Protocol {
  import opened Results
  import opened WireFormat

  datatype RequestType =
    | GETPWBYNAME
    | GETPWBYUID
    | GETGRBYNAME
    | GETGRBYGID
    | GETHOSTBYNAME
    | GETHOSTBYNAMEv6
    | GETHOSTBYADDR
    | GETHOSTBYADDRv6
    | SHUTDOWN
    | GETSTAT
    | INVALIDATE
    | GETFDPW
    | GETFDGR
    | GETFDHST
    | GETAI
    | INITGROUPS
    | GETSERVBYNAME
    | GETSERVBYPORT
    | GETFDSERV
    | GETNETGRENT
    | INNETGR
    | GETFDNETGR
    | LASTREQ

  const VERSION := 2

  /** Every type, at the position that is its code. */
  const ALL_TYPES: seq<RequestType> := [
    GETPWBYNAME, GETPWBYUID, GETGRBYNAME, GETGRBYGID, GETHOSTBYNAME, GETHOSTBYNAMEv6, GETHOSTBYADDR,
    GETHOSTBYADDRv6, SHUTDOWN, GETSTAT, INVALIDATE, GETFDPW, GETFDGR, GETFDHST, GETAI, INITGROUPS,
    GETSERVBYNAME, GETSERVBYPORT, GETFDSERV, GETNETGRENT, INNETGR, GETFDNETGR, LASTREQ]

  /** `ty as usize`. */
  function Code(ty: RequestType): nat {
    match ty
    case GETPWBYNAME => 0
    case GETPWBYUID => 1
    case GETGRBYNAME => 2
    case GETGRBYGID => 3
    case GETHOSTBYNAME => 4
    case GETHOSTBYNAMEv6 => 5
    case GETHOSTBYADDR => 6
    case GETHOSTBYADDRv6 => 7
    case SHUTDOWN => 8
    case GETSTAT => 9
    case INVALIDATE => 10
    case GETFDPW => 11
    case GETFDGR => 12
    case GETFDHST => 13
    case GETAI => 14
    case INITGROUPS => 15
    case GETSERVBYNAME => 16
    case GETSERVBYPORT => 17
    case GETFDSERV => 18
    case GETNETGRENT => 19
    case INNETGR => 20
    case GETFDNETGR => 21
    case LASTREQ => 22
  }

  /** `FromPrimitive::from_i32`. */
  function FromCode(code: int): Option<RequestType> {
    if 0 <= code < |ALL_TYPES| then Some(ALL_TYPES[code]) else None
  }

  lemma CodeExact(ty: RequestType, code: int)
    ensures FromCode(code) == Some(ty) <==> code == Code(ty)
    ensures FromCode(code).Some? <==> 0 <= code <= 22
  {
    assert ALL_TYPES[Code(ty)] == ty;
    if 0 <= code <= 22 {
      CodeOfListed(code);
    }
  }

  lemma CodeOfListed(code: nat)
    requires code <= 22
    ensures Code(ALL_TYPES[code]) == code
  {
  }

  datatype Request = Request(ty: RequestType, key: seq<Byte>)

  datatype ParseError = TooSmall | WrongVersion | InvalidType | NegativeLength

  /** `Aborts`: the code neither returns a request nor an error, but panics. */
  datatype ParseOutcome = Parsed(request: Request) | Rejected(error: ParseError) | Aborts

  /** i32 addition without overflow checks. */
  function WrappingAdd(a: I32, b: I32): I32 {
    var sum: int := a as int + b as int;
    if sum >= I32_LIMIT then sum - 0x1_0000_0000
    else if sum < -I32_LIMIT then sum + 0x1_0000_0000
    else sum
  }

  function Field(buf: seq<Byte>, k: nat): I32
    requires k + 4 <= |buf|
  {
    AsSigned(FromLe(buf[k..k + 4]))
  }

  /**
   `Request::parse`. Whether `12 + key_len` panics on overflow or wraps around depends
   on how the program was built, so that is a parameter.
   */
  function Parse(buf: seq<Byte>, overflowChecks: bool): ParseOutcome {
    if |buf| < 12 then Rejected(TooSmall)
    else if Field(buf, 0) != VERSION then Rejected(WrongVersion)
    else
      match FromCode(Field(buf, 4))
      case None => Rejected(InvalidType)
      case Some(ty) =>
        var keyLen := Field(buf, 8);
        if overflowChecks && 12 + (keyLen as int) >= I32_LIMIT then Aborts
        else
          var keyEnd := WrappingAdd(12, keyLen);
          if keyEnd < 0 then Rejected(NegativeLength)
          else if |buf| < keyEnd then Rejected(TooSmall)
          else if keyEnd < 12 then Aborts
          else Parsed(Request(ty, buf[12..keyEnd]))
  }

  // ---------- the client ----------

  function Encode(r: Request): seq<Byte>
    requires |r.key| < I32_LIMIT
  {
    Words([VERSION, Code(r.ty), |r.key|]) + r.key
  }

  /** The longest key whose end still fits an i32. */
  const KEY_LIMIT := I32_LIMIT - 12

  lemma FieldsAreWords(buf: seq<Byte>, ws: seq<U32>, rest: seq<Byte>)
    requires |buf| >= 12 && |ws| == 3
    ensures buf == Words(ws) + rest
       <==> ws == [FromLe(buf[0..4]), FromLe(buf[4..8]), FromLe(buf[8..12])] && rest == buf[12..]
  {
    assert buf[4..][..4] == buf[4..8] && buf[4..][4..] == buf[8..];
    assert buf[8..][..4] == buf[8..12] && buf[8..][4..] == buf[12..];
    var x, y, z := FromLe(buf[0..4]), FromLe(buf[4..8]), FromLe(buf[8..12]);
    TakeNext(buf[8..], [], buf[12..]);
    assert [z] + [] == [z];
    TakeNext(buf[4..], [z], buf[12..]);
    assert [y] + [z] == [y, z];
    TakeNext(buf, [y, z], buf[12..]);
    assert [x] + [y, z] == [x, y, z];
    WordsExact(buf, ws, rest);
  }

  lemma TakeNext(buf: seq<Byte>, ws: seq<U32>, rest: seq<Byte>)
    requires |buf| >= 4 && TakeWords(buf[4..], |ws|) == Some((ws, rest))
    ensures TakeWords(buf, |ws| + 1) == Some(([FromLe(buf[..4])] + ws, rest))
  {
  }

  lemma HeaderFields(buf: seq<Byte>, code: nat, length: nat, tail: seq<Byte>)
    requires code < I32_LIMIT && length < I32_LIMIT
    ensures buf == Words([VERSION, code, length]) + tail
       <==> |buf| >= 12 && Field(buf, 0) == VERSION && Field(buf, 4) == code && Field(buf, 8) == length
            && buf[12..] == tail
  {
    if |buf| >= 12 {
      FieldsAreWords(buf, [VERSION, code, length], tail);
    }
  }

  lemma AddTwelve(length: I32)
    ensures WrappingAdd(12, length) as int
         == if length < KEY_LIMIT then 12 + length as int else 12 + length as int - 0x1_0000_0000
  {
  }

  lemma ShapeParses(buf: seq<Byte>, r: Request, overflowChecks: bool)
    requires |buf| >= 12 + |r.key| && |r.key| < KEY_LIMIT
    requires Field(buf, 0) == VERSION && Field(buf, 4) == Code(r.ty) && Field(buf, 8) == |r.key|
    requires r.key == buf[12..12 + |r.key|]
    ensures Parse(buf, overflowChecks) == Parsed(r)
  {
    CodeExact(r.ty, Code(r.ty));
    AddTwelve(|r.key|);
  }

  lemma EncodingParses(r: Request, rest: seq<Byte>, overflowChecks: bool)
    requires |r.key| < KEY_LIMIT
    ensures Parse(Encode(r) + rest, overflowChecks) == Parsed(r)
  {
    var h := Words([VERSION, Code(r.ty), |r.key|]);
    Regroup(h, r.key, rest);
    HeaderFields(h + (r.key + rest), Code(r.ty), |r.key|, r.key + rest);
    KeyIsThere(h, r.key, rest);
    ShapeParses(h + (r.key + rest), r, overflowChecks);
  }

  lemma KeyIsThere(h: seq<Byte>, key: seq<Byte>, rest: seq<Byte>)
    ensures (h + (key + rest))[|h|..|h| + |key|] == key
  {
  }

  lemma ParsedShape(buf: seq<Byte>, r: Request, overflowChecks: bool)
    requires Parse(buf, overflowChecks) == Parsed(r)
    ensures |buf| >= 12 && Field(buf, 0) == VERSION && FromCode(Field(buf, 4)) == Some(r.ty)
    ensures 0 <= Field(buf, 8) < KEY_LIMIT && Field(buf, 8) == |r.key|
    ensures 12 + |r.key| <= |buf| && r.key == buf[12..12 + |r.key|]
  {
    AddTwelve(Field(buf, 8));
  }

  lemma ShapeIsEncoding(buf: seq<Byte>, r: Request)
    requires |buf| >= 12 + |r.key| && |r.key| < KEY_LIMIT
    requires Field(buf, 0) == VERSION && Field(buf, 4) == Code(r.ty) && Field(buf, 8) == |r.key|
    requires r.key == buf[12..12 + |r.key|]
    ensures Encode(r) <= buf
  {
    var h := Words([VERSION, Code(r.ty), |r.key|]);
    HeaderFields(buf, Code(r.ty), |r.key|, buf[12..]);
    PrefixOfTail(buf, h, r.key);
  }

  lemma PrefixOfTail(buf: seq<Byte>, h: seq<Byte>, key: seq<Byte>)
    requires |h| + |key| <= |buf| && buf == h + buf[|h|..] && key == buf[|h|..|h| + |key|]
    ensures h + key <= buf
  {
  }

  lemma ParsedIsEncoding(buf: seq<Byte>, r: Request, overflowChecks: bool)
    requires Parse(buf, overflowChecks) == Parsed(r)
    ensures |r.key| < KEY_LIMIT && Encode(r) <= buf
  {
    ParsedShape(buf, r, overflowChecks);
    CodeExact(r.ty, Field(buf, 4));
    ShapeIsEncoding(buf, r);
  }

  /**
   Parsing yields a request exactly when the buffer begins with that request's
   encoding and the key's end fits an i32; what follows the key does not matter.
   */
  lemma ParseInvertsEncode(buf: seq<Byte>, r: Request, overflowChecks: bool)
    ensures Parse(buf, overflowChecks) == Parsed(r)
       <==> |r.key| < KEY_LIMIT && Encode(r) <= buf
  {
    if |r.key| < KEY_LIMIT && Encode(r) <= buf {
      assert buf == Encode(r) + buf[|Encode(r)|..];
      EncodingParses(r, buf[|Encode(r)|..], overflowChecks);
    }
    if Parse(buf, overflowChecks) == Parsed(r) {
      ParsedIsEncoding(buf, r, overflowChecks);
    }
  }

  /** Exactly which requests are understood, field by field: version 2, a known type, and a key that is all there. */
  lemma ParseMeaning(buf: seq<Byte>, r: Request, overflowChecks: bool)
    ensures Parse(buf, overflowChecks) == Parsed(r)
       <==> && |buf| >= 12 && Field(buf, 0) == 2 && FromCode(Field(buf, 4)) == Some(r.ty)
            && 0 <= Field(buf, 8) <= 0x7FFF_FFF3 && 12 + Field(buf, 8) <= |buf|
            && r.key == buf[12..12 + Field(buf, 8)]
  {
    if |buf| >= 12 {
      AddTwelve(Field(buf, 8));
    }
  }

  /** The errors, in the order in which they are looked for. */
  lemma ParseErrors(buf: seq<Byte>, overflowChecks: bool)
    ensures |buf| < 12 ==> Parse(buf, overflowChecks) == Rejected(TooSmall)
    ensures |buf| >= 12 && Field(buf, 0) != 2 ==> Parse(buf, overflowChecks) == Rejected(WrongVersion)
    ensures |buf| >= 12 && Field(buf, 0) == 2 && !(0 <= Field(buf, 4) <= 22) ==>
              Parse(buf, overflowChecks) == Rejected(InvalidType)
    ensures |buf| >= 12 && Field(buf, 0) == 2 && 0 <= Field(buf, 4) <= 22 ==>
      var length := Field(buf, 8);
      && (length < -12 || (!overflowChecks && length > 0x7FFF_FFF3)
          <==> Parse(buf, overflowChecks) == Rejected(NegativeLength))
      && (0 <= length <= 0x7FFF_FFF3 && |buf| < 12 + length
          <==> Parse(buf, overflowChecks) == Rejected(TooSmall))
  {
    if |buf| >= 12 {
      AddTwelve(Field(buf, 8));
      CodeExact(GETPWBYNAME, Field(buf, 4));
    }
  }

  /** The codes of the types that get more than an empty reply. */
  lemma CodesInUse()
    ensures FromCode(0) == Some(GETPWBYNAME) && FromCode(1) == Some(GETPWBYUID)
    ensures FromCode(2) == Some(GETGRBYNAME) && FromCode(3) == Some(GETGRBYGID)
    ensures FromCode(4) == Some(GETHOSTBYNAME) && FromCode(5) == Some(GETHOSTBYNAMEv6)
    ensures FromCode(6) == Some(GETHOSTBYADDR) && FromCode(7) == Some(GETHOSTBYADDRv6)
    ensures FromCode(14) == Some(GETAI) && FromCode(15) == Some(INITGROUPS)
  {
  }

  /** Exactly which well-formed headers make parsing panic. */
  lemma ParseAborts(buf: seq<Byte>, overflowChecks: bool)
    ensures Parse(buf, overflowChecks).Aborts?
       <==> && |buf| >= 12 && Field(buf, 0) == 2 && 0 <= Field(buf, 4) <= 22
            && (-12 <= Field(buf, 8) <= -1 || (overflowChecks && Field(buf, 8) > 0x7FFF_FFF3))
  {
    if |buf| >= 12 {
      AddTwelve(Field(buf, 8));
      CodeExact(GETPWBYNAME, Field(buf, 4));
    }
  }

  /** Twelve bytes are enough: whatever the build, a client that announces a key of length -1 makes parsing panic. */
  lemma TwelveBytesAbort(overflowChecks: bool)
    ensures |Words([2, 0, 0xFFFF_FFFF])| == 12
    ensures Parse(Words([2, 0, 0xFFFF_FFFF]), overflowChecks) == Aborts
  {
    var buf := Words([2, 0, 0xFFFF_FFFF]);
    assert buf + [] == buf;
    FieldsAreWords(buf, [2, 0, 0xFFFF_FFFF], []);
    ParseAborts(buf, overflowChecks);
  }

  /** With a length field that is not negative, whatever is not an encoding is rejected, never a panic. */
  lemma ParseRejectsTheRest(buf: seq<Byte>, overflowChecks: bool)
    requires |buf| >= 12 ==> 0 <= Field(buf, 8) < KEY_LIMIT
    ensures Parse(buf, overflowChecks).Rejected?
       <==> forall r: Request :: |r.key| < KEY_LIMIT ==> !(Encode(r) <= buf)
  {
    var outcome := Parse(buf, overflowChecks);
    if outcome.Parsed? {
      ParseInvertsEncode(buf, outcome.request, overflowChecks);
    }
    ParseAborts(buf, overflowChecks);
    forall r: Request | |r.key| < KEY_LIMIT && Encode(r) <= buf
      ensures outcome == Parsed(r)
    {
      ParseInvertsEncode(buf, r, overflowChecks);
    }
  }
}
