/**
  The bytes of the protocol, written out. Round trips show that reading inverts writing; these lemmas show
  that what is written and read is what sections 4.2.3 and 4.2.5 of AMQP 0-9-1, and the table kinds of
  amqp.h, lay down.
 */
module Octets {
  import opened Wire
  import opened FieldTable
  import opened Fields
  import opened Generator
  import opened Properties
  import opened Framing
  import opened FrameCodec

  type Octet = n: nat | n < 256

  // ----- Frames -----

  /** Type, channel, size, payload and end marker of every frame written. */
  lemma FrameOctets(cfg: Config, f: Outgoing, c1: Octet, c0: Octet, s3: Octet, s2: Octet, s1: Octet, s0: Octet)
    requires Sendable(cfg, f) && cfg.frameMax >= 20 && EncodeFrame(cfg, f).Written?
    requires f.channel == 0x100 * c1 + c0 && Payload(cfg, f).Written?
    requires |Payload(cfg, f).bytes| == 0x100_0000 * s3 + 0x1_0000 * s2 + 0x100 * s1 + s0
    ensures var frameType := if f.SendMethod? then 1 else if f.SendHeader? then 2 else if f.SendBody? then 3 else 8;
            EncodeFrame(cfg, f).bytes == [frameType, c1, c0, s3, s2, s1, s0] + Payload(cfg, f).bytes + [206]
    ensures f.SendBody? ==> Payload(cfg, f).bytes == f.fragment
    ensures f.SendHeartbeat? ==> Payload(cfg, f).bytes == []
  {
    hide Be, RunEncode, PropertiesOf;
    NetworkOrder(c1, c0, 0, 0);
    NetworkOrder(s3, s2, s1, s0);
  }

  /** A method frame begins with the class and method numbers, in front of its arguments. */
  lemma MethodOctets(cfg: Config, f: Outgoing, b3: Octet, b2: Octet, b1: Octet, b0: Octet)
    requires Sendable(cfg, f) && cfg.frameMax >= 20 && Payload(cfg, f).Written? && f.SendMethod?
    requires f.id == 0x100_0000 * b3 + 0x1_0000 * b2 + 0x100 * b1 + b0
    ensures [b3, b2, b1, b0] <= Payload(cfg, f).bytes
  {
    hide Be, RunEncode, EncodeProgram;
    NetworkOrder(b3, b2, b1, b0);
  }

  /** A header frame begins with the class, a weight of 0 and the size of the body. */
  lemma HeaderOctets(cfg: Config, f: Outgoing, c1: Octet, c0: Octet, upper: Bytes, lower: Bytes)
    requires Sendable(cfg, f) && cfg.frameMax >= 20 && Payload(cfg, f).Written? && f.SendHeader?
    requires |upper| == |lower| == 4
    requires f.classId == 0x100 * c1 + c0 && f.bodySize == 0x1_0000_0000 * Num(upper) + Num(lower)
    ensures [c1, c0] + [0, 0] + (upper + lower) <= Payload(cfg, f).bytes
  {
    hide Be, Num, Payload, Sendable, WellTyped;
    NetworkOrder(c1, c0, 0, 0);
    NetworkOrder(0, 0, 0, 0);
    UpperHalfFirst(upper, lower);
    HeaderFields(cfg, f);
  }

  lemma HeaderFields(cfg: Config, f: Outgoing)
    requires Sendable(cfg, f) && cfg.frameMax >= 20 && Payload(cfg, f).Written? && f.SendHeader?
    ensures Be(2, f.classId) + Be(2, 0) + Be(8, f.bodySize) <= Payload(cfg, f).bytes
  {
    hide Be, PropertiesOf;
  }

  /**
    What an idle reader makes of a frame: it is refused for its size or its end marker, or it is taken as
    its type says and the reader goes on behind it.
   */
  lemma FrameIsRead(cfg: Config, t: Octet, c1: Octet, c0: Octet, s3: Octet, s2: Octet, s1: Octet, s0: Octet,
                    payload: Bytes, last: Octet, rest: Bytes)
    requires |payload| == 0x100_0000 * s3 + 0x1_0000 * s2 + 0x100 * s1 + s0
    ensures var r := Feed(cfg, IDLE_READER, [t, c1, c0, s3, s2, s1, s0] + payload + [last] + rest);
            var later := Feed(cfg, IDLE_READER, rest);
            if |payload| >= 0x7FFF_FFFF || |payload| + 8 > cfg.frameMax || last != 206 then
              r.frames == [] && r.error == Some(BadAmqpData)
            else
              && (t == 3 ==> r == After([Body(0x100 * c1 + c0, payload)], later))
              && (t == 8 ==> r == After([Heartbeat(0x100 * c1 + c0)], later))
              && (t != 1 && t != 2 && t != 3 && t != 8 ==> r == After([], later))
  {
    hide Be, Num, Feed, DecodeFrame, SizeOf, ChannelOf;
    var head := [t, c1, c0, s3, s2, s1, s0];
    var raw := head + payload + [last];
    HeaderIsRead(t, c1, c0, s3, s2, s1, s0);
    if |payload| >= 0x7FFF_FFFF || |payload| + 8 > cfg.frameMax {
      SizeIsRefused(cfg, head);
      FeedConcat(cfg, IDLE_READER, head, payload + [last] + rest);
      assert head + (payload + [last] + rest) == raw + rest;
    } else {
      assert raw[..HEADER_SIZE] == head && |raw| == |payload| + 8;
      WholeFrame(cfg, raw);
      FeedConcat(cfg, IDLE_READER, raw, rest);
      RawIsDecoded(cfg, t, c1, c0, payload, raw);
    }
  }

  lemma SizeIsRefused(cfg: Config, head: Bytes)
    requires |head| == HEADER_SIZE && !SizeAllowed(cfg, head)
    ensures Feed(cfg, IDLE_READER, head).frames == [] && Feed(cfg, IDLE_READER, head).error == Some(BadAmqpData)
  {
    hide Feed, SizeAllowed;
    assert [] + head == head;
    FeedFull(cfg, IDLE_READER, head);
  }

  lemma HeaderIsRead(t: Octet, c1: Octet, c0: Octet, s3: Octet, s2: Octet, s1: Octet, s0: Octet)
    ensures var head := [t, c1, c0, s3, s2, s1, s0];
            ChannelOf(head) == 0x100 * c1 + c0 && SizeOf(head) == 0x100_0000 * s3 + 0x1_0000 * s2 + 0x100 * s1 + s0
  {
    hide Num;
    var head := [t, c1, c0, s3, s2, s1, s0];
    NetworkOrder(c1, c0, 0, 0);
    NetworkOrder(s3, s2, s1, s0);
    assert head[1..][..2] == [c1, c0] && head[3..][..4] == [s3, s2, s1, s0];
  }

  lemma RawIsDecoded(cfg: Config, t: Octet, c1: Octet, c0: Octet, payload: Bytes, raw: Bytes)
    requires |raw| == |payload| + 8 && raw[0] == t && raw[1] == c1 && raw[2] == c0 && raw[7..|raw| - 1] == payload
    ensures var o := DecodeFrame(cfg, raw);
            if raw[|raw| - 1] != 206 then o == Fail(BadAmqpData)
            else
              && (t == 3 ==> o == Got(Body(0x100 * c1 + c0, payload))) && (t == 8 ==> o == Got(Heartbeat(0x100 * c1 + c0)))
              && (t != 1 && t != 2 && t != 3 && t != 8 ==> o == Skipped)
  {
    hide Num, DecodeMethod, DecodeHeader;
    NetworkOrder(c1, c0, 0, 0);
    assert raw[1..][..2] == [c1, c0];
  }

  /** A new connection takes `AMQP` and four more bytes as the peer's protocol header. */
  lemma ProtocolHeaderIsRead(cfg: Config, a: Octet, b: Octet, c: Octet, d: Octet, rest: Bytes)
    ensures Feed(cfg, NEW_READER, [65, 77, 81, 80, a, b, c, d] + rest) ==
            After([ProtocolHeader(a, b, c, d)], Feed(cfg, IDLE_READER, rest))
  {
    hide Feed;
    var raw := [65, 77, 81, 80, a, b, c, d];
    assert [] + raw == raw;
    FeedFull(cfg, NEW_READER, raw);
    FeedConcat(cfg, NEW_READER, raw, rest);
  }

  // ----- Field tables -----

  /** Kind and payload of the values of up to two bytes. */
  lemma ShortScalars(a: Octet, b: Octet, i8: Int8, i16: Int16)
    requires i8 == a || i8 == a - 0x100
    requires i16 == 0x100 * a + b || i16 == 0x100 * a + b - 0x1_0000
    ensures ValueBytes(Plain(Boolean(false))) == [116, 0] && ValueBytes(Plain(Boolean(true))) == [116, 1]
    ensures ValueBytes(Plain(I8(i8))) == [98, a] && ValueBytes(Plain(U8(a))) == [66, a]
    ensures ValueBytes(Plain(I16(i16))) == [115, a, b] && ValueBytes(Plain(U16(0x100 * a + b))) == [117, a, b]
    ensures ValueBytes(Plain(Void)) == [86]
  {
    hide Be;
    NetworkOrder(0, 0, 0, 0);
    NetworkOrder(1, 0, 0, 0);
    NetworkOrder(a, b, 0, 0);
  }

  /** Of four bytes, and of four behind a number of decimals. */
  lemma LongScalars(a: Octet, b: Octet, c: Octet, d: Octet, i32: Int32, decimals: Octet)
    requires var n := 0x100_0000 * a + 0x1_0000 * b + 0x100 * c + d; i32 == n || i32 == n - 0x1_0000_0000
    ensures var n := 0x100_0000 * a + 0x1_0000 * b + 0x100 * c + d;
            && ValueBytes(Plain(I32(i32))) == [73, a, b, c, d] && ValueBytes(Plain(U32(n))) == [105, a, b, c, d]
            && ValueBytes(Plain(F32(n))) == [102, a, b, c, d] && ValueBytes(Plain(Decimal(decimals, n))) == [68, decimals, a, b, c, d]
  {
    hide Be;
    NetworkOrder(decimals, 0, 0, 0);
    NetworkOrder(a, b, c, d);
  }

  /** Of eight bytes. */
  lemma LongLongScalars(upper: Bytes, lower: Bytes, i64: Int64)
    requires |upper| == |lower| == 4
    requires var n := 0x1_0000_0000 * Num(upper) + Num(lower); i64 == n || i64 == n - 0x1_0000_0000_0000_0000
    ensures var n := 0x1_0000_0000 * Num(upper) + Num(lower);
            && n < 0x1_0000_0000_0000_0000
            && ValueBytes(Plain(I64(i64))) == [108] + (upper + lower) && ValueBytes(Plain(U64(n))) == [76] + (upper + lower)
            && ValueBytes(Plain(F64(n))) == [100] + (upper + lower) && ValueBytes(Plain(Timestamp(n))) == [84] + (upper + lower)
  {
    hide Be, Num;
    UpperHalfFirst(upper, lower);
    NumBound(upper + lower);
  }

  /** Strings, byte strings, arrays and tables count the bytes of their contents; keys those of the key. */
  lemma SizedValues(a: Octet, b: Octet, c: Octet, d: Octet, v: FieldValue, key: Bytes, w: FieldValue)
    ensures var n := 0x100_0000 * a + 0x1_0000 * b + 0x100 * c + d;
            && (v.Utf8? && |v.text| == n ==> ValueBytes(v) == [83, a, b, c, d] + v.text)
            && (v.Octets? && |v.octets| == n ==> ValueBytes(v) == [120, a, b, c, d] + v.octets)
            && (v.Array? && |ItemsBytes(v.items)| == n ==> ValueBytes(v) == [65, a, b, c, d] + ItemsBytes(v.items))
            && (v.Table? && |EntriesBytes(v.entries)| == n ==> ValueBytes(v) == [70, a, b, c, d] + EntriesBytes(v.entries))
    ensures |key| < 256 ==> EntryBytes(Entry(key, w)) == [|key|] + key + ValueBytes(w)
  {
    hide Be, ItemsBytes, EntriesBytes;
    NetworkOrder(a, b, c, d);
    if |key| < 256 {
      NetworkOrder(|key|, 0, 0, 0);
    }
  }

  /** A boolean is true for any byte but 0. */
  lemma BooleanIsRead(b: Octet, rest: Bytes)
    ensures DecodeScalar(116, [b] + rest) == Good(Boolean(b != 0), rest)
  {
    NetworkOrder(b, 0, 0, 0);
    assert ([b] + rest)[..1] == [b] && ([b] + rest)[1..] == rest;
  }

  // ----- Method fields -----

  /** A short string has at most 255 bytes and a long string less than 2^32. */
  lemma TextLimits(t: Bytes, room: int)
    ensures PutOutcome(Text(1), TextValue(t), room) == OK <==> |t| <= 255 && 1 + |t| <= room
    ensures PutOutcome(Text(4), TextValue(t), room) == OK <==> |t| <= 0xFFFF_FFFF && 4 + |t| <= room
  {
    Pow256Values();
  }

  /** Eight bits share an octet, the first in the lowest place. */
  lemma BitsInOctet(b0: bool, b1: bool, b2: bool, b3: bool, b4: bool, b5: bool, b6: bool, b7: bool)
    ensures PackOctet([b0, b1, b2, b3, b4, b5, b6, b7]) ==
            [(if b0 then 1 else 0) + (if b1 then 2 else 0) + (if b2 then 4 else 0) + (if b3 then 8 else 0)
             + (if b4 then 16 else 0) + (if b5 then 32 else 0) + (if b6 then 64 else 0) + (if b7 then 128 else 0)]
  {
    hide Pack, PackOctet;
    var high := [b4, b5, b6, b7];
    FourBits(b4, b5, b6, b7, []);
    FourBits(b0, b1, b2, b3, high);
    assert high + [] == high;
    assert [b0, b1, b2, b3] + high == [b0, b1, b2, b3, b4, b5, b6, b7];
    WholeOctet([b0, b1, b2, b3, b4, b5, b6, b7]);
  }

  lemma WholeOctet(bits: seq<bool>)
    requires |bits| == 8
    ensures PackOctet(bits) == [Pack(bits)]
  {
    hide Pack;
    OctetBound(bits);
  }

  lemma FourBits(a: bool, b: bool, c: bool, d: bool, bits: seq<bool>)
    ensures Pack([]) == 0
    ensures Pack([a, b, c, d] + bits) ==
            (if a then 1 else 0) + (if b then 2 else 0) + (if c then 4 else 0) + (if d then 8 else 0) + 16 * Pack(bits)
  {
    hide Pack;
    PackMore(d, bits);
    PackMore(c, [d] + bits);
    PackMore(b, [c] + ([d] + bits));
    PackMore(a, [b] + ([c] + ([d] + bits)));
    assert [a, b, c, d] + bits == [a] + ([b] + ([c] + ([d] + bits)));
  }

  lemma PackMore(b: bool, bits: seq<bool>)
    ensures Pack([b] + bits) == (if b then 1 else 0) + 2 * Pack(bits) && Pack([]) == 0
  {
    assert ([b] + bits)[1..] == bits;
  }

  /** The arguments of queue.declare: its five bits are worth 1, 2, 4, 8 and 16. */
  lemma QueueDeclareOctets(vs: seq<Value>, t1: Octet, t0: Octet)
    requires Typed(QUEUE_DECLARE, vs) && vs[0].number == 0x100 * t1 + t0 && |vs[1].text| <= 255
    ensures Layout(QUEUE_DECLARE, vs, 0, []) ==
            [t1, t0] + ([|vs[1].text|] + vs[1].text
            + ([(if vs[2].flag then 1 else 0) + (if vs[3].flag then 2 else 0) + (if vs[4].flag then 4 else 0)
                + (if vs[5].flag then 8 else 0) + (if vs[6].flag then 16 else 0)] + TableBytes(vs[7].table)))
  {
    hide Layout, TableBytes, PackOctet, FieldBytes;
    var fs := QUEUE_DECLARE;
    FieldLaidOut(fs, vs, 0, []);
    FieldLaidOut(fs, vs, 1, []);
    FirstFields(vs[0], vs[1], t1, t0);
    FlagsLaidOut(fs, vs, vs[2].flag, vs[3].flag, vs[4].flag, vs[5].flag, vs[6].flag);
    FiveBits(vs[2].flag, vs[3].flag, vs[4].flag, vs[5].flag, vs[6].flag);
    var a, b, later := FieldBytes(fs[0], vs[0]), FieldBytes(fs[1], vs[1]), Layout(fs, vs, 2, []);
    assert [] + a + ([] + b + later) == a + (b + later);
  }

  lemma FirstFields(number: Value, text: Value, t1: Octet, t0: Octet)
    requires number.NumberValue? && number.number == 0x100 * t1 + t0 && text.TextValue? && |text.text| <= 255
    ensures HasType(Number(2), number) && FieldBytes(Number(2), number) == [t1, t0]
    ensures FieldBytes(Text(1), text) == [|text.text|] + text.text
  {
    hide Be;
    Pow256Values();
    NetworkOrder(t1, t0, 0, 0);
    NetworkOrder(|text.text|, 0, 0, 0);
  }

  lemma FiveBits(a: bool, b: bool, c: bool, d: bool, e: bool)
    ensures PackOctet([a, b, c, d, e]) ==
            [(if a then 1 else 0) + (if b then 2 else 0) + (if c then 4 else 0) + (if d then 8 else 0) + (if e then 16 else 0)]
  {
    hide Pack;
    PackMore(e, []);
    FourBits(a, b, c, d, [e]);
    assert [e] + [] == [e] && [a, b, c, d] + [e] == [a, b, c, d, e];
  }

  lemma FlagsLaidOut(fs: seq<FieldType>, vs: seq<Value>, a: bool, b: bool, c: bool, d: bool, e: bool)
    requires |fs| == 8 && fs[2] == fs[3] == fs[4] == fs[5] == fs[6] == Flag && fs[7] == Nested && Typed(fs, vs)
    requires a == vs[2].flag && b == vs[3].flag && c == vs[4].flag && d == vs[5].flag && e == vs[6].flag
    ensures Layout(fs, vs, 2, []) == PackOctet([a, b, c, d, e]) + TableBytes(vs[7].table)
  {
    hide Pack, Layout, TableBytes, PackOctet;
    FieldLaidOut(fs, vs, 2, []);
    FieldLaidOut(fs, vs, 3, [a]);
    FieldLaidOut(fs, vs, 4, [a, b]);
    FieldLaidOut(fs, vs, 5, [a, b, c]);
    FieldLaidOut(fs, vs, 6, [a, b, c, d]);
    FieldLaidOut(fs, vs, 7, [a, b, c, d, e]);
    FieldLaidOut(fs, vs, 8, []);
    assert [] + [a] == [a] && [a] + [b] == [a, b] && [a, b] + [c] == [a, b, c] && [a, b, c] + [d] == [a, b, c, d];
    assert [a, b, c, d] + [e] == [a, b, c, d, e];
  }

  lemma FieldLaidOut(fs: seq<FieldType>, vs: seq<Value>, i: nat, pending: seq<bool>)
    requires Typed(fs, vs) && i <= |fs|
    ensures i == |fs| && pending == [] ==> Layout(fs, vs, i, pending) == []
    ensures i < |fs| && fs[i].Flag? && |pending| < 7 ==> Layout(fs, vs, i, pending) == Layout(fs, vs, i + 1, pending + [vs[i].flag])
    ensures PackOctet([]) == []
    ensures i < |fs| && !fs[i].Flag? ==>
              Layout(fs, vs, i, pending) == PackOctet(pending) + FieldBytes(fs[i], vs[i]) + Layout(fs, vs, i + 1, [])
  {
  }
}
