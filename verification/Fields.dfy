/**
  The AMQP field types the code generator knows (codegen.py) and the code it emits for one field.
  `Flag` is the AMQP bit type, whose packing is the business of module `Generator`.
 */
module Fields {
  import opened Wire
  import opened FieldTable
  import opened TableCodec

  type Width = w: nat | w == 1 || w == 2 || w == 4 || w == 8 witness 1
  type LengthWidth = w: nat | w == 1 || w == 4 witness 1

  datatype FieldType =
    | Number(width: Width)              // octet, short, long, longlong, timestamp
    | Text(lengthWidth: LengthWidth)    // shortstr, longstr
    | Flag                              // bit
    | Nested                            // table

  datatype Value =
    | NumberValue(number: nat)
    | TextValue(text: Bytes)
    | FlagValue(flag: bool)
    | NestedValue(table: seq<Entry>)

  /** The C struct gives every field a value of its own type. */
  predicate HasType(ty: FieldType, v: Value)
  {
    match ty
    case Number(w) => v.NumberValue? && v.number < Pow256(w)
    case Text(_) => v.TextValue?
    case Flag => v.FlagValue?
    case Nested => v.NestedValue?
  }

  /** What the emitted encoder accepts: a text must not exceed its length field, a table must have known kinds. */
  predicate Encodable(ty: FieldType, v: Value)
    requires HasType(ty, v)
  {
    match ty
    case Text(w) => |v.text| < Pow256(w)
    case Nested => KnownEntries(v.table)
    case _ => true
  }

  /** What also survives the journey: nested tables have short keys and stay below 4 GiB. */
  predicate Restorable(ty: FieldType, v: Value)
    requires HasType(ty, v)
  {
    Encodable(ty, v) && (ty.Nested? ==> ShortKeyEntries(v.table) && |TableBytes(v.table)| < MAX_BUFFER)
  }

  function FieldBytes(ty: FieldType, v: Value): Bytes
    requires HasType(ty, v) && !ty.Flag?
  {
    match ty
    case Number(w) => Be(w, v.number)
    case Text(w) => Be(w, |v.text|) + v.text
    case Nested => TableBytes(v.table)
  }

  /** Status of the emitted encoding statement for one field, given the bytes of room left. */
  function PutOutcome(ty: FieldType, v: Value, room: int): Status
    requires HasType(ty, v) && !ty.Flag?
  {
    match ty
    case Number(w) => if w <= room then OK else BadAmqpData
    case Text(w) =>
      if |v.text| >= Pow256(w) || room < w || (v.text != [] && room - w < |v.text|) then BadAmqpData else OK
    case Nested => TableOutcome(v.table, room)
  }

  lemma PutFits(ty: FieldType, v: Value, room: int)
    requires HasType(ty, v) && !ty.Flag?
    ensures PutOutcome(ty, v, room) == OK <==> Encodable(ty, v) && |FieldBytes(ty, v)| <= room
  {
    if ty.Nested? {
      TableFits(v.table, room);
    }
  }

  /** The emitted decoding statement for one field. */
  function Get(ty: FieldType, s: Bytes): (r: Parse<Value>)
    requires !ty.Flag?
    ensures r.Good? ==> HasType(ty, r.value)
  {
    match ty
    case Number(w) =>
      var n := DecodeNum(s, w);
      if n.Bad? then Bad(n.status) else Good(NumberValue(n.value), n.rest)
    case Text(w) =>
      var n := DecodeNum(s, w);
      if n.Bad? then Bad(n.status)
      else
        var t := DecodeBytes(n.rest, n.value);
        if t.Bad? then Bad(t.status) else Good(TextValue(t.value), t.rest)
    case Nested =>
      var t := DecodeTable(s);
      if t.Bad? then Bad(t.status) else Good(NestedValue(t.value), t.rest)
  }

  lemma FieldRoundTrip(ty: FieldType, v: Value, post: Bytes)
    requires HasType(ty, v) && !ty.Flag? && Restorable(ty, v)
    ensures Get(ty, FieldBytes(ty, v) + post) == Good(v, post)
  {
    match ty
    case Number(w) => DecodeNumOf(w, v.number, post);
    case Text(w) =>
      assert FieldBytes(ty, v) + post == Be(w, |v.text|) + (v.text + post);
      DecodeNumOf(w, |v.text|, v.text + post);
      DecodeBytesOf(v.text, post);
    case Nested => TableRoundTrip(v.table, post);
  }
}
