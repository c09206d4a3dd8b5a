/**
  AMQP field tables as values, the byte string each stands for, and the decoder as a function of the
  buffer and the offset (amqp_table.c). Kinds and widths are those listed in amqp.h.
 */
module FieldTable {
  import opened Wire

  type Int8 = x: int | -0x80 <= x < 0x80
  type Int16 = x: int | -0x8000 <= x < 0x8000
  type Int32 = x: int | -0x8000_0000 <= x < 0x8000_0000
  type Int64 = x: int | -0x8000_0000_0000_0000 <= x < 0x8000_0000_0000_0000

  /** Values of a fixed width. Floats are carried as their bit patterns, as the C union does. */
  datatype Scalar =
    | Boolean(flag: bool)
    | I8(i8: Int8)
    | U8(u8: Byte)
    | I16(i16: Int16)
    | U16(u16: UInt16)
    | I32(i32: Int32)
    | U32(u32: UInt32)
    | I64(i64: Int64)
    | U64(u64: UInt64)
    | F32(f32: UInt32)
    | F64(f64: UInt64)
    | Decimal(decimals: Byte, unscaled: UInt32)
    | Timestamp(seconds: UInt64)
    | Void

  /** A kind byte that no case of the encoder or decoder knows. */
  type OtherKind = b: Byte | !IsScalarKind(b) && b != 83 && b != 120 && b != 65 && b != 70 witness 0

  datatype FieldValue =
    | Plain(scalar: Scalar)
    | Utf8(text: Bytes)
    | Octets(octets: Bytes)
    | Array(items: seq<FieldValue>)
    | Table(entries: seq<Entry>)
    | Unknown(kind: OtherKind)

  datatype Entry = Entry(key: Bytes, value: FieldValue)

  const KIND_UTF8: Byte := 83     // 'S'
  const KIND_OCTETS: Byte := 120  // 'x'
  const KIND_ARRAY: Byte := 65    // 'A'
  const KIND_TABLE: Byte := 70    // 'F'

  function ScalarKind(s: Scalar): Byte
  {
    match s
    case Boolean(_) => 116     // 't'
    case I8(_) => 98           // 'b'
    case U8(_) => 66           // 'B'
    case I16(_) => 115         // 's'
    case U16(_) => 117         // 'u'
    case I32(_) => 73          // 'I'
    case U32(_) => 105         // 'i'
    case I64(_) => 108         // 'l'
    case U64(_) => 76          // 'L'
    case F32(_) => 102         // 'f'
    case F64(_) => 100         // 'd'
    case Decimal(_, _) => 68   // 'D'
    case Timestamp(_) => 84    // 'T'
    case Void => 86            // 'V'
  }

  predicate IsScalarKind(k: Byte)
  {
    Width(k) > 0 || k == 86
  }

  /** Payload width of a scalar kind, in bytes. */
  function Width(k: Byte): (w: nat)
    ensures w <= 8
  {
    if k == 116 || k == 98 || k == 66 then 1
    else if k == 115 || k == 117 then 2
    else if k == 73 || k == 105 || k == 102 then 4
    else if k == 108 || k == 76 || k == 100 || k == 84 then 8
    else if k == 68 then 5
    else 0
  }

  function Kind(v: FieldValue): Byte
  {
    match v
    case Plain(s) => ScalarKind(s)
    case Utf8(_) => KIND_UTF8
    case Octets(_) => KIND_OCTETS
    case Array(_) => KIND_ARRAY
    case Table(_) => KIND_TABLE
    case Unknown(k) => k
  }

  /** Conversion of a signed value to the unsigned type with `m` values, and back. */
  function ToUnsigned(x: int, m: nat): (u: nat)
    requires 0 - m <= x < m
    ensures u == if x < 0 then x + m else x
  {
    if x < 0 then x + m else x
  }

  function ToSigned(u: nat, m: nat): int
    requires u < m
  {
    if 2 * u < m then u else u - m
  }

  /** The payload bytes of a scalar. */
  function ScalarBytes(s: Scalar): (r: Bytes)
    ensures |r| == Width(ScalarKind(s))
  {
    match s
    case Boolean(b) => Be(1, if b then 1 else 0)
    case I8(x) => Be(1, ToUnsigned(x, 0x100))
    case U8(x) => Be(1, x)
    case I16(x) => Be(2, ToUnsigned(x, 0x1_0000))
    case U16(x) => Be(2, x)
    case I32(x) => Be(4, ToUnsigned(x, 0x1_0000_0000))
    case U32(x) => Be(4, x)
    case I64(x) => Be(8, ToUnsigned(x, 0x1_0000_0000_0000_0000))
    case U64(x) => Be(8, x)
    case F32(x) => Be(4, x)
    case F64(x) => Be(8, x)
    case Decimal(d, x) => Be(1, d) + Be(4, x)
    case Timestamp(x) => Be(8, x)
    case Void => []
  }

  function Scalar8(k: Byte, u: Byte): (s: Scalar)
    requires Width(k) == 1
    ensures ScalarKind(s) == k
  {
    // any non-zero byte is the boolean true
    if k == 116 then Boolean(u != 0) else if k == 98 then I8(ToSigned(u, 0x100)) else U8(u)
  }

  function Scalar16(k: Byte, u: UInt16): (s: Scalar)
    requires Width(k) == 2
    ensures ScalarKind(s) == k
  {
    if k == 115 then I16(ToSigned(u, 0x1_0000)) else U16(u)
  }

  function Scalar32(k: Byte, u: UInt32): (s: Scalar)
    requires Width(k) == 4
    ensures ScalarKind(s) == k
  {
    if k == 73 then I32(ToSigned(u, 0x1_0000_0000)) else if k == 105 then U32(u) else F32(u)
  }

  function Scalar64(k: Byte, u: UInt64): (s: Scalar)
    requires Width(k) == 8
    ensures ScalarKind(s) == k
  {
    if k == 108 then I64(ToSigned(u, 0x1_0000_0000_0000_0000))
    else if k == 76 then U64(u)
    else if k == 100 then F64(u)
    else Timestamp(u)
  }

  lemma NumBound(p: Bytes)
    ensures |p| == 1 ==> Num(p) < 0x100
    ensures |p| == 2 ==> Num(p) < 0x1_0000
    ensures |p| == 4 ==> Num(p) < 0x1_0000_0000
    ensures |p| == 8 ==> Num(p) < 0x1_0000_0000_0000_0000
  {
    Pow256Values();
    BeOfNum(p);
  }

  /** The scalar of kind `k` whose payload is `p`. */
  function ScalarFrom(k: Byte, p: Bytes): (s: Scalar)
    requires IsScalarKind(k) && |p| == Width(k)
    ensures ScalarKind(s) == k
  {
    NumBound(p);
    match |p|
    case 1 => Scalar8(k, Num(p))
    case 2 => Scalar16(k, Num(p))
    case 4 => Scalar32(k, Num(p))
    case 8 => Scalar64(k, Num(p))
    case 5 => NumBound(p[1..]); Decimal(p[0], Num(p[1..]))
    case _ => Void
  }

  /** The numbers written by `ScalarBytes` are the numbers read by `ScalarFrom`. */
  lemma OneByte(b: Byte)
    ensures Be(1, b) == [b]
  {
    assert Be(0, b / 256) == [];
  }

  lemma ScalarRoundTrip(s: Scalar)
    ensures ScalarFrom(ScalarKind(s), ScalarBytes(s)) == s
  {
    Pow256Values();
    hide Be, Num, Pow256;
    match s
    case Boolean(b) => NumOfBe(1, if b then 1 else 0);
    case I8(x) => NumOfBe(1, ToUnsigned(x, 0x100));
    case U8(x) => NumOfBe(1, x);
    case I16(x) => NumOfBe(2, ToUnsigned(x, 0x1_0000));
    case U16(x) => NumOfBe(2, x);
    case I32(x) => NumOfBe(4, ToUnsigned(x, 0x1_0000_0000));
    case U32(x) => NumOfBe(4, x);
    case I64(x) => NumOfBe(8, ToUnsigned(x, 0x1_0000_0000_0000_0000));
    case U64(x) => NumOfBe(8, x);
    case F32(x) => NumOfBe(4, x);
    case F64(x) => NumOfBe(8, x);
    case Decimal(d, x) =>
      NumOfBe(4, x);
      var p := ScalarBytes(s);
      OneByte(d);
      assert p[0] == Be(1, d)[0] == d;
      assert p[1..] == Be(4, x);
    case Timestamp(x) => NumOfBe(8, x);
    case Void =>
  }

  // ----- The wire form -----

  /** A 32-bit length followed by what it counts. */
  function Sized(body: Bytes): (r: Bytes)
    ensures |r| == 4 + |body|
  {
    Be(4, |body|) + body
  }

  function ValueBytes(v: FieldValue): (r: Bytes)
    ensures |r| == 1 + |PayloadBytes(v)|
    decreases v, 1
  {
    [Kind(v)] + PayloadBytes(v)
  }

  function PayloadBytes(v: FieldValue): (r: Bytes)
    decreases v, 0
  {
    match v
    case Plain(s) => ScalarBytes(s)
    case Utf8(t) => Sized(t)
    case Octets(t) => Sized(t)
    case Array(items) => Sized(ItemsBytes(items))
    case Table(entries) => Sized(EntriesBytes(entries))
    case Unknown(_) => []
  }

  function ItemsBytes(items: seq<FieldValue>): Bytes
    decreases items
  {
    if items == [] then [] else ValueBytes(items[0]) + ItemsBytes(items[1..])
  }

  /** A key length is cast to 8 bits, so only keys of at most 255 bytes carry their true length. */
  function EntryBytes(e: Entry): (r: Bytes)
    ensures |r| == 1 + |e.key| + |ValueBytes(e.value)|
    decreases e
  {
    Be(1, |e.key|) + e.key + ValueBytes(e.value)
  }

  function EntriesBytes(entries: seq<Entry>): Bytes
    decreases entries
  {
    if entries == [] then [] else EntryBytes(entries[0]) + EntriesBytes(entries[1..])
  }

  function TableBytes(t: seq<Entry>): Bytes
  {
    Sized(EntriesBytes(t))
  }

  // ----- What can be written and read back -----

  /** No value of an unknown kind: what the encoder accepts. */
  predicate KnownKinds(v: FieldValue)
    decreases v
  {
    match v
    case Plain(_) => true
    case Utf8(_) => true
    case Octets(_) => true
    case Array(items) => KnownItems(items)
    case Table(entries) => KnownEntries(entries)
    case Unknown(_) => false
  }

  predicate KnownItems(items: seq<FieldValue>)
    decreases items
  {
    items == [] || (KnownKinds(items[0]) && KnownItems(items[1..]))
  }

  predicate KnownEntries(entries: seq<Entry>)
    decreases entries
  {
    entries == [] || (KnownKinds(entries[0].value) && KnownEntries(entries[1..]))
  }

  /** Every key, at every depth, has at most 255 bytes. */
  predicate ShortKeys(v: FieldValue)
    decreases v
  {
    match v
    case Plain(_) => true
    case Utf8(_) => true
    case Octets(_) => true
    case Array(items) => ShortKeyItems(items)
    case Table(entries) => ShortKeyEntries(entries)
    case Unknown(_) => true
  }

  predicate ShortKeyItems(items: seq<FieldValue>)
    decreases items
  {
    items == [] || (ShortKeys(items[0]) && ShortKeyItems(items[1..]))
  }

  predicate ShortKeyEntries(entries: seq<Entry>)
    decreases entries
  {
    entries == [] || (|entries[0].key| <= 255 && ShortKeys(entries[0].value) && ShortKeyEntries(entries[1..]))
  }

  // ----- The decoder -----

  function DecodeScalar(k: Byte, s: Bytes): (r: Parse<Scalar>)
    requires IsScalarKind(k)
    ensures r.Good? ==> |r.rest| == |s| - Width(k) && ScalarKind(r.value) == k
    ensures r.Bad? ==> r.status == BadAmqpData
  {
    var p := DecodeBytes(s, Width(k));
    if p.Bad? then Bad(p.status) else Good(ScalarFrom(k, p.value), p.rest)
  }

  /** A long string; UTF-8 text and raw octets share the form. */
  function DecodeString(s: Bytes): (r: Parse<Bytes>)
    ensures r.Good? ==> |r.rest| == |s| - 4 - |r.value|
    ensures r.Bad? ==> r.status == BadAmqpData
  {
    var n := DecodeNum(s, 4);
    if n.Bad? then Bad(n.status) else DecodeBytes(n.rest, n.value)
  }

  function DecodeValue(s: Bytes): (r: Parse<FieldValue>)
    ensures r.Good? ==> |r.rest| < |s|
    ensures r.Bad? ==> r.status == BadAmqpData
    decreases |s|, 0
  {
    if s == [] then Bad(BadAmqpData)
    else if s[0] == KIND_UTF8 then
      var p := DecodeString(s[1..]);
      if p.Bad? then Bad(p.status) else Good(Utf8(p.value), p.rest)
    else if s[0] == KIND_OCTETS then
      var p := DecodeString(s[1..]);
      if p.Bad? then Bad(p.status) else Good(Octets(p.value), p.rest)
    else if s[0] == KIND_ARRAY then
      var p := DecodeArray(s[1..]);
      if p.Bad? then Bad(p.status) else Good(Array(p.value), p.rest)
    else if s[0] == KIND_TABLE then
      var p := DecodeTable(s[1..]);
      if p.Bad? then Bad(p.status) else Good(Table(p.value), p.rest)
    else if IsScalarKind(s[0]) then
      var p := DecodeScalar(s[0], s[1..]);
      if p.Bad? then Bad(p.status) else Good(Plain(p.value), p.rest)
    else Bad(BadAmqpData)
  }

  function DecodeArray(s: Bytes): (r: Parse<seq<FieldValue>>)
    ensures r.Good? ==> |r.rest| + 4 <= |s|
    ensures r.Bad? ==> r.status == BadAmqpData
    decreases |s|, 0
  {
    var n := DecodeNum(s, 4);
    if n.Bad? || n.value > |n.rest| then Bad(BadAmqpData)
    else DecodeItems(n.rest, |n.rest| - n.value)
  }

  /**
    The loop of `amqp_decode_array`. It stops once at most `stop` bytes are left, that is at the
    announced end; the items themselves are bounded only by the whole buffer and may run past it.
   */
  function DecodeItems(s: Bytes, stop: nat): (r: Parse<seq<FieldValue>>)
    ensures r.Good? ==> |r.rest| <= |s| && (stop <= |s| ==> |r.rest| <= stop)
    ensures r.Bad? ==> r.status == BadAmqpData
    decreases |s|, 2
  {
    if |s| <= stop then Good([], s)
    else
      var v := DecodeValue(s);
      if v.Bad? then Bad(v.status)
      else
        var more := DecodeItems(v.rest, stop);
        if more.Bad? then more else Good([v.value] + more.value, more.rest)
  }

  function DecodeTable(s: Bytes): (r: Parse<seq<Entry>>)
    ensures r.Good? ==> |r.rest| + 4 <= |s|
    ensures r.Bad? ==> r.status == BadAmqpData
    decreases |s|, 0
  {
    var n := DecodeNum(s, 4);
    if n.Bad? || n.value > |n.rest| then Bad(BadAmqpData)
    else DecodeEntries(n.rest, |n.rest| - n.value)
  }

  function DecodeEntry(s: Bytes): (r: Parse<Entry>)
    ensures r.Good? ==> |r.rest| < |s|
    ensures r.Bad? ==> r.status == BadAmqpData
    decreases |s|, 1
  {
    var n := DecodeNum(s, 1);
    if n.Bad? then Bad(n.status)
    else
      var key := DecodeBytes(n.rest, n.value);
      if key.Bad? then Bad(key.status)
      else
        var v := DecodeValue(key.rest);
        if v.Bad? then Bad(v.status) else Good(Entry(key.value, v.value), v.rest)
  }

  function DecodeEntries(s: Bytes, stop: nat): (r: Parse<seq<Entry>>)
    ensures r.Good? ==> |r.rest| <= |s| && (stop <= |s| ==> |r.rest| <= stop)
    ensures r.Bad? ==> r.status == BadAmqpData
    decreases |s|, 2
  {
    if |s| <= stop then Good([], s)
    else
      var e := DecodeEntry(s);
      if e.Bad? then Bad(e.status)
      else
        var more := DecodeEntries(e.rest, stop);
        if more.Bad? then more else Good([e.value] + more.value, more.rest)
  }

  // ----- Decoding inverts encoding -----

  const MAX_BUFFER := 0x1_0000_0000

  lemma SizedRoundTrip(body: Bytes, post: Bytes)
    requires |body| < MAX_BUFFER
    ensures DecodeNum(Sized(body) + post, 4) == Good(|body|, body + post)
    ensures DecodeString(Sized(body) + post) == Good(body, post)
  {
    Pow256Values();
    assert Sized(body) + post == Be(4, |body|) + (body + post);
    DecodeNumOf(4, |body|, body + post);
    DecodeBytesOf(body, post);
  }

  lemma PlainRoundTrip(c: Scalar, post: Bytes)
    ensures DecodeScalar(ScalarKind(c), ScalarBytes(c) + post) == Good(c, post)
  {
    ScalarRoundTrip(c);
    DecodeBytesOf(ScalarBytes(c), post);
  }

  lemma {:induction false} ValueRoundTrip(v: FieldValue, post: Bytes)
    requires |ValueBytes(v)| < MAX_BUFFER && KnownKinds(v) && ShortKeys(v)
    ensures DecodeValue(ValueBytes(v) + post) == Good(v, post)
    decreases v
  {
    hide ItemsBytes, EntriesBytes, DecodeItems, DecodeEntries, ScalarBytes, DecodeScalar, DecodeString, Sized, Be;
    var s := ValueBytes(v) + post;
    assert s[0] == Kind(v) && s[1..] == PayloadBytes(v) + post;
    match v
    case Plain(c) => PlainRoundTrip(c, post);
    case Utf8(t) => SizedRoundTrip(t, post);
    case Octets(t) => SizedRoundTrip(t, post);
    case Array(items) =>
      SizedRoundTrip(ItemsBytes(items), post);
      ItemsRoundTrip(items, post);
    case Table(entries) =>
      SizedRoundTrip(EntriesBytes(entries), post);
      EntriesRoundTrip(entries, post);
  }

  lemma {:induction false} ItemsRoundTrip(items: seq<FieldValue>, post: Bytes)
    requires |ItemsBytes(items)| < MAX_BUFFER && KnownItems(items) && ShortKeyItems(items)
    ensures DecodeItems(ItemsBytes(items) + post, |post|) == Good(items, post)
    decreases items
  {
    if items == [] {
      assert ItemsBytes(items) + post == post;
    } else {
      var head, tail := ValueBytes(items[0]), ItemsBytes(items[1..]);
      assert ItemsBytes(items) + post == head + (tail + post);
      ValueRoundTrip(items[0], tail + post);
      ItemsRoundTrip(items[1..], post);
      assert items == [items[0]] + items[1..];
    }
  }

  lemma {:induction false} EntriesRoundTrip(entries: seq<Entry>, post: Bytes)
    requires |EntriesBytes(entries)| < MAX_BUFFER && KnownEntries(entries) && ShortKeyEntries(entries)
    ensures DecodeEntries(EntriesBytes(entries) + post, |post|) == Good(entries, post)
    decreases entries
  {
    if entries == [] {
      assert EntriesBytes(entries) + post == post;
    } else {
      var head, tail := EntryBytes(entries[0]), EntriesBytes(entries[1..]);
      assert EntriesBytes(entries) + post == head + (tail + post);
      EntryRoundTrip(entries[0], tail + post);
      EntriesRoundTrip(entries[1..], post);
      assert entries == [entries[0]] + entries[1..];
    }
  }

  lemma {:induction false} EntryRoundTrip(e: Entry, post: Bytes)
    requires |EntryBytes(e)| < MAX_BUFFER && |e.key| <= 255 && KnownKinds(e.value) && ShortKeys(e.value)
    ensures DecodeEntry(EntryBytes(e) + post) == Good(e, post)
    decreases e
  {
    Pow256Values();
    var vs := ValueBytes(e.value);
    assert EntryBytes(e) + post == Be(1, |e.key|) + (e.key + (vs + post));
    DecodeNumOf(1, |e.key|, e.key + (vs + post));
    DecodeBytesOf(e.key, vs + post);
    ValueRoundTrip(e.value, post);
  }

  // ----- What the decoder returns is stable -----

  /** A decoded value has known kinds and short keys, and re-encodes to as many bytes as were consumed. */
  lemma {:induction false} ValueStable(s: Bytes)
    ensures var r := DecodeValue(s);
            r.Good? ==> KnownKinds(r.value) && ShortKeys(r.value) && |ValueBytes(r.value)| == |s| - |r.rest|
    decreases |s|, 0
  {
    if s != [] {
      if s[0] == KIND_ARRAY {
        ArrayStable(s[1..]);
      } else if s[0] == KIND_TABLE {
        TableStable(s[1..]);
      }
    }
  }

  lemma {:induction false} ArrayStable(s: Bytes)
    ensures var r := DecodeArray(s);
            r.Good? ==> KnownItems(r.value) && ShortKeyItems(r.value) && 4 + |ItemsBytes(r.value)| == |s| - |r.rest|
    decreases |s|, 0
  {
    var n := DecodeNum(s, 4);
    if n.Good? && n.value <= |n.rest| {
      ItemsStable(n.rest, |n.rest| - n.value);
    }
  }

  lemma {:induction false} ItemsStable(s: Bytes, stop: nat)
    ensures var r := DecodeItems(s, stop);
            r.Good? ==> KnownItems(r.value) && ShortKeyItems(r.value) && |ItemsBytes(r.value)| == |s| - |r.rest|
    decreases |s|, 2
  {
    var r := DecodeItems(s, stop);
    if stop < |s| && r.Good? {
      var v := DecodeValue(s);
      ValueStable(s);
      ItemsStable(v.rest, stop);
      assert r.value[0] == v.value && r.value[1..] == DecodeItems(v.rest, stop).value;
    }
  }

  lemma {:induction false} TableStable(s: Bytes)
    ensures var r := DecodeTable(s);
            r.Good? ==> KnownEntries(r.value) && ShortKeyEntries(r.value) && |TableBytes(r.value)| == |s| - |r.rest|
    decreases |s|, 0
  {
    var n := DecodeNum(s, 4);
    if n.Good? && n.value <= |n.rest| {
      EntriesStable(n.rest, |n.rest| - n.value);
    }
  }

  lemma {:induction false} EntryStable(s: Bytes)
    ensures var r := DecodeEntry(s);
            r.Good? ==> && |r.value.key| <= 255 && KnownKinds(r.value.value) && ShortKeys(r.value.value)
                        && |EntryBytes(r.value)| == |s| - |r.rest|
    decreases |s|, 1
  {
    Pow256Values();
    var n := DecodeNum(s, 1);
    if n.Good? && n.value <= |n.rest| {
      ValueStable(DecodeBytes(n.rest, n.value).rest);
    }
  }

  lemma {:induction false} EntriesStable(s: Bytes, stop: nat)
    ensures var r := DecodeEntries(s, stop);
            r.Good? ==> KnownEntries(r.value) && ShortKeyEntries(r.value) && |EntriesBytes(r.value)| == |s| - |r.rest|
    decreases |s|, 2
  {
    var r := DecodeEntries(s, stop);
    if stop < |s| && r.Good? {
      var e := DecodeEntry(s);
      EntryStable(s);
      EntriesStable(e.rest, stop);
      assert r.value[0] == e.value && r.value[1..] == DecodeEntries(e.rest, stop).value;
    }
  }

  // ----- Main results -----

  /**
    For a table without unknown kinds and below 4 GiB, decoding what was encoded gives the table back
    and stops right behind it, whatever follows, exactly when no key at any depth is longer than 255
    bytes (the encoder casts the key length to 8 bits unchecked).
   */
  lemma TableRoundTrip(t: seq<Entry>, post: Bytes)
    requires KnownEntries(t) && |TableBytes(t)| < MAX_BUFFER
    ensures ShortKeyEntries(t) <==> DecodeTable(TableBytes(t) + post) == Good(t, post)
  {
    SizedRoundTrip(EntriesBytes(t), post);
    if ShortKeyEntries(t) {
      EntriesRoundTrip(t, post);
    } else {
      TableStable(TableBytes(t) + post);
    }
  }

  /**
    The decoder is total on every byte string. A success has read at least the announced number of
    bytes, and what it returns is stable: it re-encodes to exactly as many bytes as were consumed and
    decodes again to itself.
   */
  lemma DecodeIsStable(s: Bytes)
    requires |s| < MAX_BUFFER
    ensures var r := DecodeTable(s);
            r.Good? ==>
              && 4 + Num(s[..4]) <= |s| - |r.rest|
              && |TableBytes(r.value)| == |s| - |r.rest|
              && DecodeTable(TableBytes(r.value)) == Good(r.value, [])
  {
    var r := DecodeTable(s);
    if r.Good? {
      TableStable(s);
      TableRoundTrip(r.value, []);
      assert TableBytes(r.value) + [] == TableBytes(r.value);
    }
  }

  /** A table whose only key has 256 bytes is written with key length 0 and does not come back. */
  lemma LongKeyIsLost(key: Bytes)
    requires |key| == 256
    ensures var t := [Entry(key, Plain(Void))];
            KnownEntries(t) && DecodeTable(TableBytes(t)) != Good(t, [])
  {
    var t := [Entry(key, Plain(Void))];
    assert KnownKinds(t[0].value) && t[1..] == [];
    assert |EntriesBytes(t)| == |EntryBytes(t[0])| + |EntriesBytes([])|;
    TableRoundTrip(t, []);
    assert TableBytes(t) + [] == TableBytes(t);
  }
}
