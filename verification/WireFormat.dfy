/**
 The pieces every nscd message is built from: 32-bit integers in the machine's byte
 order (little-endian, as in the bytes listed at src/handlers.rs:738-746) and
 NUL-terminated strings whose lengths are sent ahead of them.

 Each writer has a strict reader, and an exactness lemma: the reader yields a value
 and a remainder exactly when the buffer is that value's encoding followed by that
 remainder.
 */
module WireFormat {
  import opened Results

  type Byte = x: int | 0 <= x < 0x100
  type U32 = x: int | 0 <= x < 0x1_0000_0000
  type I32 = x: int | -0x8000_0000 <= x < 0x8000_0000

  /** One more than the largest i32. */
  const I32_LIMIT := 0x8000_0000

  /** The contents of a CString: no NUL inside, the terminator not included. */
  type CStr = s: seq<Byte> | 0 !in s

  datatype SerializeError = InteriorNul | LengthOverflow | MixedFamilies

  // ---------- integers ----------

  /** The two's-complement bit pattern of an i32. */
  function AsBits(v: I32): U32 {
    if v < 0 then v + 0x1_0000_0000 else v
  }

  function AsSigned(u: U32): I32 {
    if u < I32_LIMIT then u else u - 0x1_0000_0000
  }

  /** The low 32 bits. */
  function Low(n: nat): U32 {
    if n < 0x1_0000_0000 then n else Low(n - 0x1_0000_0000)
  }

  lemma {:induction false} LowIsRemainder(n: nat)
    ensures Low(n) == n % 0x1_0000_0000
  {
    if n >= 0x1_0000_0000 {
      LowIsRemainder(n - 0x1_0000_0000);
    }
  }

  /** `n as i32`, which keeps the low 32 bits. */
  function Truncate(n: nat): I32 {
    AsSigned(Low(n))
  }

  /** What `as i32` puts on the wire, whatever the length. */
  lemma TruncatedBits(n: nat)
    ensures AsBits(Truncate(n)) == Low(n)
  {
  }

  /** `n.try_into()?` to an i32. */
  function Checked(n: nat): Result<I32, SerializeError> {
    if n < I32_LIMIT then Ok(n) else Err(LengthOverflow)
  }

  /** The k-th byte of u, the lowest first. */
  function Digit(u: nat, k: nat): Byte {
    if k == 0 then u % 0x100 else Digit(u / 0x100, k - 1)
  }

  function LeBytes(u: U32): (bytes: seq<Byte>)
    ensures |bytes| == 4
  {
    seq(4, k requires 0 <= k => Digit(u, k))
  }

  function Horner(low: int, high: int): int {
    low + 0x100 * high
  }

  function FromLe(b: seq<Byte>): U32
    requires |b| == 4
  {
    Horner(b[0], Horner(b[1], Horner(b[2], b[3])))
  }

  lemma DigitsUnique(x: int, low: int, high: int)
    requires 0 <= low < 0x100
    ensures x == Horner(low, high) <==> low == x % 0x100 && high == x / 0x100
  {
  }

  lemma LeExact(u: U32, b: seq<Byte>)
    requires |b| == 4
    ensures FromLe(b) == u <==> b == LeBytes(u)
  {
    var u1, u2, u3 := u / 0x100, u / 0x100 / 0x100, u / 0x100 / 0x100 / 0x100;
    assert Digit(u, 1) == Digit(u1, 0) && Digit(u, 2) == Digit(u1, 1) == Digit(u2, 0);
    assert Digit(u, 3) == Digit(u1, 2) == Digit(u2, 1) == Digit(u3, 0);
    assert LeBytes(u) == [u % 0x100, u1 % 0x100, u2 % 0x100, u3];
    DigitsUnique(u, b[0], Horner(b[1], Horner(b[2], b[3])));
    DigitsUnique(u1, b[1], Horner(b[2], b[3]));
    DigitsUnique(u2, b[2], b[3]);
  }

  /** The lowest byte goes first. */
  lemma WordBytes(u: U32)
    ensures LeBytes(u) == [u % 0x100, u / 0x100 % 0x100, u / 0x100 / 0x100 % 0x100, u / 0x100 / 0x100 / 0x100]
  {
    LeExact(u, [u % 0x100, u / 0x100 % 0x100, u / 0x100 / 0x100 % 0x100, u / 0x100 / 0x100 / 0x100]);
  }

  lemma SignedRoundTrip(v: I32)
    ensures AsSigned(AsBits(v)) == v
  {
  }

  /** A non-negative field that reads as n was written from n without loss. */
  lemma FieldTells(u: U32, n: nat)
    requires AsSigned(u) == n
    ensures n < I32_LIMIT && u == n && AsBits(Truncate(n)) == n
  {
  }

  // ---------- runs of integers ----------

  function Words(ws: seq<U32>): (bytes: seq<Byte>)
    ensures |bytes| == 4 * |ws|
  {
    if ws == [] then [] else LeBytes(ws[0]) + Words(ws[1..])
  }

  function TakeWords(buf: seq<Byte>, n: nat): Option<(seq<U32>, seq<Byte>)> {
    if n == 0 then Some(([], buf))
    else if |buf| < 4 then None
    else
      match TakeWords(buf[4..], n - 1)
      case None => None
      case Some((ws, rest)) => Some(([FromLe(buf[..4])] + ws, rest))
  }

  lemma {:induction false} WordsExact(buf: seq<Byte>, ws: seq<U32>, rest: seq<Byte>)
    ensures TakeWords(buf, |ws|) == Some((ws, rest)) <==> buf == Words(ws) + rest
    decreases |ws|
  {
    if ws == [] {
      assert Words(ws) + rest == rest;
    } else if |buf| < 4 {
    } else {
      WordsExact(buf[4..], ws[1..], rest);
      LeExact(ws[0], buf[..4]);
      assert buf == buf[..4] + buf[4..];
      assert Words(ws) + rest == LeBytes(ws[0]) + (Words(ws[1..]) + rest);
      if TakeWords(buf[4..], |ws| - 1).Some? {
        var (tail, more) := TakeWords(buf[4..], |ws| - 1).value;
        assert ws == [ws[0]] + ws[1..];
        assert ([FromLe(buf[..4])] + tail)[1..] == tail;
      }
    }
  }

  lemma {:induction false} TakeWordsCount(buf: seq<Byte>, n: nat)
    ensures TakeWords(buf, n).Some? ==> |TakeWords(buf, n).value.0| == n
    ensures TakeWords(buf, n).Some? <==> 4 * n <= |buf|
  {
    if n > 0 && |buf| >= 4 {
      TakeWordsCount(buf[4..], n - 1);
    }
  }

  lemma {:induction false} WordsAppend(a: seq<U32>, b: seq<U32>)
    ensures Words(a + b) == Words(a) + Words(b)
  {
    if a == [] {
      assert a + b == b;
    } else {
      assert (a + b)[1..] == a[1..] + b;
      WordsAppend(a[1..], b);
    }
  }

  /** The k-th header field of a buffer. */
  function WordAt(buf: seq<Byte>, k: nat): U32
    requires 4 * k + 4 <= |buf|
  {
    FromLe(buf[4 * k..4 * k + 4])
  }

  lemma {:induction false} WordAtWords(ws: seq<U32>, rest: seq<Byte>, k: nat)
    requires k < |ws|
    ensures WordAt(Words(ws) + rest, k) == ws[k]
  {
    var buf, tail := Words(ws) + rest, Words(ws[1..]) + rest;
    assert buf == LeBytes(ws[0]) + tail;
    if k == 0 {
      assert buf[0..4] == LeBytes(ws[0]);
      LeExact(ws[0], LeBytes(ws[0]));
    } else {
      assert buf[4 * k..4 * k + 4] == tail[4 * (k - 1)..4 * (k - 1) + 4];
      WordAtWords(ws[1..], rest, k - 1);
    }
  }

  /** Every word of a header, and what follows it. */
  lemma HeaderLayout(ws: seq<U32>, rest: seq<Byte>)
    ensures forall k :: 0 <= k < |ws| ==> WordAt(Words(ws) + rest, k) == ws[k]
    ensures (Words(ws) + rest)[4 * |ws|..] == rest
  {
    forall k | 0 <= k < |ws|
      ensures WordAt(Words(ws) + rest, k) == ws[k]
    {
      WordAtWords(ws, rest, k);
    }
  }

  lemma {:induction false} ZeroWords(ws: seq<U32>)
    requires forall k :: 0 <= k < |ws| ==> ws[k] == 0
    ensures |Words(ws)| == 4 * |ws| && forall k :: 0 <= k < |Words(ws)| ==> Words(ws)[k] == 0
  {
    if ws != [] {
      WordBytes(0);
      ZeroWords(ws[1..]);
    }
  }

  lemma Middle(a: seq<Byte>, b: seq<Byte>, c: seq<Byte>)
    ensures (a + (b + c))[|a|..|a| + |b|] == b
  {
  }

  lemma Regroup(a: seq<Byte>, b: seq<Byte>, c: seq<Byte>)
    ensures a + b + c == a + (b + c)
  {
  }

  // ---------- NUL-terminated strings ----------

  predicate NulFree(ss: seq<seq<Byte>>) {
    forall k :: 0 <= k < |ss| ==> 0 !in ss[k]
  }

  /** Each string with its terminator, one after the other. */
  function Strings(ss: seq<seq<Byte>>): seq<Byte> {
    if ss == [] then [] else ss[0] + [0] + Strings(ss[1..])
  }

  /** Lengths as sent on the wire: they count the terminator. */
  function Lengths(ss: seq<seq<Byte>>): seq<nat> {
    seq(|ss|, k requires 0 <= k < |ss| => |ss[k]| + 1)
  }

  function TakeString(buf: seq<Byte>, length: int): Option<(CStr, seq<Byte>)> {
    if 1 <= length <= |buf| && buf[length - 1] == 0 && 0 !in buf[..length - 1]
    then Some((buf[..length - 1], buf[length..]))
    else None
  }

  function TakeStrings(buf: seq<Byte>, lengths: seq<int>): (taken: Option<(seq<seq<Byte>>, seq<Byte>)>)
    ensures taken.Some? ==> |taken.value.0| == |lengths| && NulFree(taken.value.0)
  {
    if lengths == [] then Some(([], buf))
    else
      match TakeString(buf, lengths[0])
      case None => None
      case Some((s, more)) =>
        match TakeStrings(more, lengths[1..])
        case None => None
        case Some((ss, rest)) => Some(([s] + ss, rest))
  }

  lemma StringExact(buf: seq<Byte>, length: int, s: seq<Byte>, rest: seq<Byte>)
    ensures TakeString(buf, length).Some? && TakeString(buf, length).value == (s, rest)
       <==> 0 !in s && length == |s| + 1 && buf == s + [0] + rest
  {
    if buf == s + [0] + rest && length == |s| + 1 {
      assert buf[..length - 1] == s && buf[length..] == rest;
    }
    if 1 <= length <= |buf| {
      assert buf == buf[..length - 1] + [buf[length - 1]] + buf[length..];
    }
  }

  lemma {:induction false} StringsExact(buf: seq<Byte>, lengths: seq<int>, ss: seq<seq<Byte>>, rest: seq<Byte>)
    ensures TakeStrings(buf, lengths) == Some((ss, rest))
       <==> NulFree(ss) && lengths == Lengths(ss) && buf == Strings(ss) + rest
    decreases |lengths|
  {
    if lengths == [] || ss == [] {
      assert Strings([]) + rest == rest;
    } else {
      assert Strings(ss) + rest == ss[0] + [0] + (Strings(ss[1..]) + rest);
      assert Lengths(ss) == [|ss[0]| + 1] + Lengths(ss[1..]);
      StringExact(buf, lengths[0], ss[0], Strings(ss[1..]) + rest);
      if TakeString(buf, lengths[0]).Some? {
        var (s, more) := TakeString(buf, lengths[0]).value;
        StringExact(buf, lengths[0], s, more);
        StringsExact(more, lengths[1..], ss[1..], rest);
        assert ss == [ss[0]] + ss[1..];
      }
    }
  }

  lemma {:induction false} StringsAppend(a: seq<seq<Byte>>, b: seq<seq<Byte>>)
    ensures Strings(a + b) == Strings(a) + Strings(b)
  {
    if a == [] {
      assert a + b == b;
    } else {
      assert (a + b)[1..] == a[1..] + b;
      StringsAppend(a[1..], b);
    }
  }
}
