/**
  Bytes, big-endian numbers and in-place buffer writes: the vocabulary of the AMQP 0-9-1 wire format
  (amqp_private.h). A number of `n` bytes is written most significant byte first, and a value that
  does not fit is truncated, as the C casts to `uint8_t`, `uint16_t`, `uint32_t` and `uint64_t` do.
 */
module Wire {

  type Byte = b: int | 0 <= b < 256
  type Bytes = seq<Byte>

  type UInt16 = x: int | 0 <= x < 0x1_0000
  type UInt32 = x: int | 0 <= x < 0x1_0000_0000
  type UInt64 = x: int | 0 <= x < 0x1_0000_0000_0000_0000

  /** The library's status codes (amqp.h); `Undefined` marks inputs on which the C code reads out of bounds. */
  datatype Status =
    | OK
    | NoMemory
    | BadAmqpData
    | UnknownClass
    | UnknownMethod
    | ConnectionClosed
    | BadUrl
    | SocketError
    | InvalidParameter
    | TableTooBig
    | WrongMethod
    | Timeout
    | TimerFailure
    | HeartbeatTimeout
    | UnexpectedState
    | Undefined

  datatype Option<+T> = None | Some(value: T)

  type Failure = st: Status | st != OK witness Timeout

  /** What the decoders report. */
  predicate IsDataError(st: Status)
  {
    st.BadAmqpData? || st.UnknownClass? || st.UnknownMethod? || st.Undefined?
  }

  type DataError = st: Status | IsDataError(st) witness BadAmqpData

  /**
    A read from the front of a byte string: the value with the unread rest, or a failure. Reading at
    offset `o` of a buffer is reading from `buf[o..]`; the new offset is `|buf| - |rest|`.
   */
  datatype Parse<+T> = Bad(status: DataError) | Good(value: T, rest: Bytes)

  lemma Reassociate<T>(a: seq<T>, b: seq<T>, c: seq<T>)
    ensures (a + b) + c == a + (b + c)
  {
  }

  function Pow256(n: nat): (r: nat)
    ensures r > 0
  {
    if n == 0 then 1 else 256 * Pow256(n - 1)
  }

  lemma Pow256Values()
    ensures Pow256(1) == 0x100
    ensures Pow256(2) == 0x1_0000
    ensures Pow256(4) == 0x1_0000_0000
    ensures Pow256(8) == 0x1_0000_0000_0000_0000
  {
    assert Pow256(3) == 0x100_0000;
    assert Pow256(5) == 0x100_0000_0000;
    assert Pow256(6) == 0x1_0000_0000_0000;
    assert Pow256(7) == 0x100_0000_0000_0000;
  }

  /** The low `n` bytes of `v`, most significant first. */
  function Be(n: nat, v: nat): (r: Bytes)
    ensures |r| == n
  {
    if n == 0 then [] else Be(n - 1, v / 256) + [v % 256]
  }

  /** The number a big-endian byte string denotes. */
  function Num(s: Bytes): nat
  {
    if s == [] then 0 else Num(s[..|s| - 1]) * 256 + s[|s| - 1]
  }

  /** Reading back a number that fits gives the number. */
  lemma {:induction false} NumOfBe(n: nat, v: nat)
    requires v < Pow256(n)
    ensures Num(Be(n, v)) == v
  {
    if n == 0 {
    } else {
      NumOfBe(n - 1, v / 256);
      var r := Be(n, v);
      assert r[..|r| - 1] == Be(n - 1, v / 256);
    }
  }

  /** Writing back a number that was read gives the bytes it was read from. */
  lemma {:induction false} BeOfNum(s: Bytes)
    ensures Num(s) < Pow256(|s|)
    ensures Be(|s|, Num(s)) == s
  {
    if s == [] {
    } else {
      var front, last := s[..|s| - 1], s[|s| - 1];
      BeOfNum(front);
      assert Num(s) / 256 == Num(front) && Num(s) % 256 == last;
      assert s == front + [last];
    }
  }

  /** Network byte order: of the bytes of a number, the one with the highest bits comes first. */
  lemma NetworkOrder(a: nat, b: nat, c: nat, d: nat)
    requires a < 256 && b < 256 && c < 256 && d < 256
    ensures Be(1, a) == [a] && Num([a]) == a
    ensures Be(2, 0x100 * a + b) == [a, b] && Num([a, b]) == 0x100 * a + b
    ensures var n := 0x100_0000 * a + 0x1_0000 * b + 0x100 * c + d;
            Be(4, n) == [a, b, c, d] && Num([a, b, c, d]) == n
  {
    hide Be, Num;
    NumOfOne(a);
    OneByteMore([a], b);
    OneByteMore([a, b], c);
    OneByteMore([a, b, c], d);
    assert [a] + [b] == [a, b] && [a, b] + [c] == [a, b, c] && [a, b, c] + [d] == [a, b, c, d];
    BeOfNum([a]);
    BeOfNum([a, b]);
    BeOfNum([a, b, c, d]);
  }

  lemma NumOfOne(a: Byte)
    ensures Num([a]) == a
  {
    assert [a][..0] == [];
  }

  lemma OneByteMore(s: Bytes, b: Byte)
    ensures Num(s + [b]) == 256 * Num(s) + b
  {
    assert (s + [b])[..|s|] == s;
  }

  /** A 64-bit number is its upper half, and behind it its lower half. */
  lemma UpperHalfFirst(upper: Bytes, lower: Bytes)
    requires |upper| == |lower| == 4
    ensures var n := 0x1_0000_0000 * Num(upper) + Num(lower);
            Be(8, n) == upper + lower && Num(upper + lower) == n
  {
    hide Be, Num;
    var a, b, c, d := lower[0], lower[1], lower[2], lower[3];
    NetworkOrder(a, b, c, d);
    OneByteMore(upper, a);
    OneByteMore(upper + [a], b);
    OneByteMore(upper + [a] + [b], c);
    OneByteMore(upper + [a] + [b] + [c], d);
    assert lower == [a, b, c, d];
    assert upper + [a] + [b] + [c] + [d] == upper + lower;
    BeOfNum(upper + lower);
  }

  /** `amqp_decode_8/16/32/64`: a number of `n` bytes. */
  function DecodeNum(s: Bytes, n: nat): (r: Parse<nat>)
    ensures r.Good? <==> n <= |s|
    ensures r.Good? ==> |r.rest| == |s| - n && r.value < Pow256(n)
    ensures r.Bad? ==> r.status == BadAmqpData
  {
    if n <= |s| then
      BeOfNum(s[..n]);
      Good(Num(s[..n]), s[n..])
    else
      Bad(BadAmqpData)
  }

  /** `amqp_decode_bytes`: the next `n` bytes. */
  function DecodeBytes(s: Bytes, n: nat): (r: Parse<Bytes>)
    ensures r.Good? <==> n <= |s|
    ensures r.Good? ==> |r.rest| == |s| - n && |r.value| == n
    ensures r.Bad? ==> r.status == BadAmqpData
  {
    if n <= |s| then Good(s[..n], s[n..]) else Bad(BadAmqpData)
  }

  lemma DecodeNumOf(n: nat, v: nat, post: Bytes)
    requires v < Pow256(n)
    ensures DecodeNum(Be(n, v) + post, n) == Good(v, post)
  {
    NumOfBe(n, v);
    var s := Be(n, v) + post;
    assert s[..n] == Be(n, v) && s[n..] == post;
  }

  lemma DecodeBytesOf(t: Bytes, post: Bytes)
    ensures DecodeBytes(t + post, |t|) == Good(t, post)
  {
    var s := t + post;
    assert s[..|t|] == t && s[|t|..] == post;
  }

  /** `s` with `t` written over it at `o`. */
  function Splice(s: Bytes, o: nat, t: Bytes): (r: Bytes)
    requires o + |t| <= |s|
    ensures |r| == |s|
  {
    s[..o] + t + s[o + |t|..]
  }

  lemma SpliceNothing(s: Bytes, o: nat)
    requires o <= |s|
    ensures Splice(s, o, []) == s
  {
  }

  lemma SpliceInOrder(s: Bytes, o: nat, a: Bytes, b: Bytes)
    requires o + |a| + |b| <= |s|
    ensures Splice(Splice(s, o, a), o + |a|, b) == Splice(s, o, a + b)
  {
  }

  /** Writing the later part first gives the same buffer: this is what back-patching a length relies on. */
  lemma SpliceBackPatch(s: Bytes, o: nat, a: Bytes, b: Bytes)
    requires o + |a| + |b| <= |s|
    ensures Splice(Splice(s, o + |a|, b), o, a) == Splice(s, o, a + b)
  {
  }

  /** `memcpy` into a buffer. */
  method CopyIn(buf: array<Byte>, o: nat, src: Bytes)
    requires o + |src| <= buf.Length
    modifies buf
    ensures buf[..] == Splice(old(buf[..]), o, src)
  {
    forall k | 0 <= k < |src| {
      buf[o + k] := src[k];
    }
    assert buf[..o] == old(buf[..o]);
    assert buf[o..o + |src|] == src;
    assert buf[o + |src|..] == old(buf[o + |src|..]);
    assert buf[..] == buf[..o] + buf[o..o + |src|] + buf[o + |src|..];
  }

  /** `amqp_encode_8/16/32/64`: the offset advances even when the write does not fit. */
  method EncodeNum(buf: array<Byte>, o: nat, n: nat, v: nat) returns (ok: bool, o': nat)
    modifies buf
    ensures o' == o + n && ok == (o + n <= buf.Length)
    ensures ok ==> buf[..] == Splice(old(buf[..]), o, Be(n, v))
    ensures !ok ==> buf[..] == old(buf[..])
  {
    o' := o + n;
    ok := o' <= buf.Length;
    if ok {
      CopyIn(buf, o, Be(n, v));
    }
  }

  /** `amqp_encode_bytes`: an empty string succeeds without a bounds check. */
  method EncodeBytes(buf: array<Byte>, o: nat, s: Bytes) returns (ok: bool, o': nat)
    modifies buf
    ensures o' == o + |s| && ok == (s == [] || o + |s| <= buf.Length)
    ensures ok && o + |s| <= buf.Length ==> buf[..] == Splice(old(buf[..]), o, s)
    ensures !ok || s == [] ==> buf[..] == old(buf[..])
  {
    o' := o;
    ok := true;
    if |s| == 0 {
      return;
    }
    o' := o + |s|;
    ok := o' <= buf.Length;
    if ok {
      CopyIn(buf, o, s);
    }
  }
}
