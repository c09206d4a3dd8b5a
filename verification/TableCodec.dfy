/**
  The encoder and decoder of amqp_table.c as they run: the encoder writes into a caller's buffer,
  skipping each length field and writing it back once the contents are in place; the decoder walks an
  offset through a buffer and collects entries in loops. Both are proved against module `FieldTable`.
 */
module TableCodec {
  import opened Wire
  import opened FieldTable

  // ----- What the encoder reports, as a function of the bytes of room it has -----

  function ValueOutcome(v: FieldValue, room: int): Status
    decreases v
  {
    if room < 1 then BadAmqpData
    else
      match v
      case Plain(s) => if Width(ScalarKind(s)) <= room - 1 then OK else TableTooBig
      case Utf8(t) => if 4 + |t| <= room - 1 then OK else TableTooBig
      case Octets(t) => if 4 + |t| <= room - 1 then OK else TableTooBig
      case Array(items) => Closing(ItemsOutcome(items, room - 5), room - 1)
      case Table(entries) => Closing(EntriesOutcome(entries, room - 5), room - 1)
      case Unknown(_) => InvalidParameter
  }

  /** The length field is written last, so its own bounds check comes last. */
  function Closing(contents: Status, room: int): Status
  {
    if contents != OK then contents else if 4 <= room then OK else TableTooBig
  }

  function ItemsOutcome(items: seq<FieldValue>, room: int): Status
    decreases items
  {
    if items == [] then OK
    else
      var first := ValueOutcome(items[0], room);
      if first != OK then first else ItemsOutcome(items[1..], room - |ValueBytes(items[0])|)
  }

  function EntryOutcome(e: Entry, room: int): Status
    decreases e
  {
    if room < 1 then TableTooBig
    else if e.key != [] && room - 1 < |e.key| then TableTooBig
    else ValueOutcome(e.value, room - 1 - |e.key|)
  }

  function EntriesOutcome(entries: seq<Entry>, room: int): Status
    decreases entries
  {
    if entries == [] then OK
    else
      var first := EntryOutcome(entries[0], room);
      if first != OK then first else EntriesOutcome(entries[1..], room - |EntryBytes(entries[0])|)
  }

  function TableOutcome(t: seq<Entry>, room: int): Status
  {
    Closing(EntriesOutcome(t, room - 4), room)
  }

  /** Encoding succeeds exactly when every kind is known and the bytes fit. */
  lemma {:induction false} ValueFits(v: FieldValue, room: int)
    ensures ValueOutcome(v, room) == OK <==> KnownKinds(v) && |ValueBytes(v)| <= room
    decreases v
  {
    match v
    case Plain(_) =>
    case Utf8(_) =>
    case Octets(_) =>
    case Array(items) =>
      ItemsFit(items, room - 5);
      assert items == [] ==> ItemsBytes(items) == [];
    case Table(entries) =>
      EntriesFit(entries, room - 5);
      assert entries == [] ==> EntriesBytes(entries) == [];
    case Unknown(_) =>
  }

  lemma {:induction false} ItemsFit(items: seq<FieldValue>, room: int)
    ensures ItemsOutcome(items, room) == OK <==> KnownItems(items) && (items == [] || |ItemsBytes(items)| <= room)
    decreases items
  {
    if items != [] {
      ValueFits(items[0], room);
      ItemsFit(items[1..], room - |ValueBytes(items[0])|);
    }
  }

  lemma {:induction false} EntriesFit(entries: seq<Entry>, room: int)
    ensures EntriesOutcome(entries, room) == OK <==>
            KnownEntries(entries) && (entries == [] || |EntriesBytes(entries)| <= room)
    decreases entries
  {
    if entries != [] {
      var e := entries[0];
      ValueFits(e.value, room - 1 - |e.key|);
      EntriesFit(entries[1..], room - |EntryBytes(e)|);
    }
  }

  lemma TableFits(t: seq<Entry>, room: int)
    ensures TableOutcome(t, room) == OK <==> KnownEntries(t) && |TableBytes(t)| <= room
  {
    EntriesFit(t, room - 4);
  }

  lemma {:induction false} ItemsBytesSnoc(items: seq<FieldValue>, v: FieldValue)
    ensures ItemsBytes(items + [v]) == ItemsBytes(items) + ValueBytes(v)
  {
    hide ValueBytes;
    if items == [] {
      assert items + [v] == [v] && [v][1..] == [];
      assert ItemsBytes([v]) == ValueBytes(v) + ItemsBytes([]);
    } else {
      ItemsBytesSnoc(items[1..], v);
      assert (items + [v])[1..] == items[1..] + [v];
    }
  }

  lemma {:induction false} EntriesBytesSnoc(entries: seq<Entry>, e: Entry)
    ensures EntriesBytes(entries + [e]) == EntriesBytes(entries) + EntryBytes(e)
  {
    hide EntryBytes;
    if entries == [] {
      assert entries + [e] == [e] && [e][1..] == [];
      assert EntriesBytes([e]) == EntryBytes(e) + EntriesBytes([]);
    } else {
      EntriesBytesSnoc(entries[1..], e);
      assert (entries + [e])[1..] == entries[1..] + [e];
    }
  }

  // ----- Encoding in place -----

  /** What an encoding step leaves in the buffer: the bytes on success, and nothing below the offset touched. */
  ghost predicate Wrote(before: Bytes, after: Bytes, off: nat, st: Status, off': nat, bytes: Bytes)
  {
    && |after| == |before|
    && (st == OK ==> off' == off + |bytes| <= |before| && after == Splice(before, off, bytes))
    && (st != OK && off <= |before| ==> after[..off] == before[..off])
    && (st != OK && off > |before| ==> after == before)
  }

  lemma WroteThen(s0: Bytes, s1: Bytes, s2: Bytes, off: nat, a: Bytes, st: Status, off': nat, b: Bytes)
    requires off + |a| <= |s0| && s1 == Splice(s0, off, a)
    requires Wrote(s1, s2, off + |a|, st, off', b)
    ensures Wrote(s0, s2, off, st, off', a + b)
  {
    if st == OK {
      SpliceInOrder(s0, off, a, b);
    } else {
      assert s2[..off] == s2[..off + |a|][..off];
    }
  }

  method EncodeValue(buf: array<Byte>, v: FieldValue, off: nat) returns (st: Status, off': nat)
    modifies buf
    ensures st == ValueOutcome(v, buf.Length - off)
    ensures Wrote(old(buf[..]), buf[..], off, st, off', ValueBytes(v))
    decreases v
  {
    ghost var s0 := buf[..];
    var ok;
    ok, off' := EncodeNum(buf, off, 1, Kind(v));
    if !ok {
      return BadAmqpData, off';
    }
    ghost var s1 := buf[..];
    assert Be(1, Kind(v)) == [Kind(v)];
    match v {
      case Plain(s) => st, off' := EncodeScalar(buf, s, off');
      case Utf8(t) => st, off' := EncodeString(buf, t, off');
      case Octets(t) => st, off' := EncodeString(buf, t, off');
      case Array(items) => st, off' := EncodeArray(buf, items, off');
      case Table(entries) => st, off' := EncodeTable(buf, entries, off');
      case Unknown(_) => st := InvalidParameter;
    }
    WroteThen(s0, s1, buf[..], off, [Kind(v)], st, off', PayloadBytes(v));
  }

  method EncodeScalar(buf: array<Byte>, s: Scalar, off: nat) returns (st: Status, off': nat)
    requires off <= buf.Length
    modifies buf
    ensures st == if off + Width(ScalarKind(s)) <= buf.Length then OK else TableTooBig
    ensures Wrote(old(buf[..]), buf[..], off, st, off', ScalarBytes(s))
  {
    var ok;
    ok, off' := EncodeBytes(buf, off, ScalarBytes(s));
    st := if ok then OK else TableTooBig;
  }

  method EncodeString(buf: array<Byte>, t: Bytes, off: nat) returns (st: Status, off': nat)
    requires off <= buf.Length
    modifies buf
    ensures st == if off + 4 + |t| <= buf.Length then OK else TableTooBig
    ensures Wrote(old(buf[..]), buf[..], off, st, off', Sized(t))
  {
    ghost var s0 := buf[..];
    var ok;
    ok, off' := EncodeNum(buf, off, 4, |t|);
    if !ok {
      return TableTooBig, off';
    }
    ghost var s1 := buf[..];
    ok, off' := EncodeBytes(buf, off', t);
    st := if ok then OK else TableTooBig;
    WroteThen(s0, s1, buf[..], off, Be(4, |t|), st, off', t);
  }

  /** Writes the length field in front of contents that already stand behind it. */
  method BackPatch(buf: array<Byte>, start: nat, end: nat, ghost before: Bytes, ghost body: Bytes) returns (st: Status)
    requires |before| == buf.Length && end == start + 4 + |body|
    requires end <= buf.Length ==> buf[..] == Splice(before, start + 4, body)
    requires end > buf.Length ==> buf[..] == before && body == []
    modifies buf
    ensures st == if start + 4 <= buf.Length then OK else TableTooBig
    ensures Wrote(before, buf[..], start, st, end, Sized(body))
  {
    var ok, _ := EncodeNum(buf, start, 4, end - start - 4);
    st := if ok then OK else TableTooBig;
    if ok {
      SpliceBackPatch(before, start, Be(4, |body|), body);
    }
  }

  method EncodeArray(buf: array<Byte>, items: seq<FieldValue>, off: nat) returns (st: Status, off': nat)
    modifies buf
    ensures st == Closing(ItemsOutcome(items, buf.Length - off - 4), buf.Length - off)
    ensures Wrote(old(buf[..]), buf[..], off, st, off', Sized(ItemsBytes(items)))
    decreases items
  {
    hide Splice, Be, ValueBytes, ValueOutcome;
    ghost var s0 := buf[..];
    off' := off + 4;
    if off' <= buf.Length {
      SpliceNothing(s0, off');
    }
    var i := 0;
    while i < |items|
      invariant 0 <= i <= |items|
      invariant off' == off + 4 + |ItemsBytes(items[..i])|
      invariant off' <= buf.Length ==> buf[..] == Splice(s0, off + 4, ItemsBytes(items[..i]))
      invariant off' > buf.Length ==> buf[..] == s0 && i == 0
      invariant ItemsOutcome(items[i..], buf.Length - off') == ItemsOutcome(items, buf.Length - off - 4)
    {
      ghost var s1 := buf[..];
      ghost var done := ItemsBytes(items[..i]);
      assert items[i..][0] == items[i] && items[i..][1..] == items[i + 1..];
      var o := off';
      st, off' := EncodeValue(buf, items[i], o);
      if st != OK {
        PrefixKept(s0, s1, buf[..], off, o, st, off', done, ValueBytes(items[i]));
        return;
      }
      assert items[..i + 1] == items[..i] + [items[i]];
      ItemsBytesSnoc(items[..i], items[i]);
      SpliceInOrder(s0, off + 4, done, ValueBytes(items[i]));
      i := i + 1;
    }
    assert items[..i] == items;
    st := BackPatch(buf, off, off', s0, ItemsBytes(items));
  }

  /** A failing step inside contents that start behind a skipped length field touches nothing before that field. */
  lemma PrefixKept(s0: Bytes, s1: Bytes, s2: Bytes, off: nat, o: nat, st: Status, o': nat, done: Bytes, bytes: Bytes)
    requires |s0| == |s1| && o == off + 4 + |done| && st != OK
    requires o <= |s0| ==> s1 == Splice(s0, off + 4, done)
    requires o > |s0| ==> s1 == s0
    requires Wrote(s1, s2, o, st, o', bytes)
    ensures |s2| == |s0|
    ensures off <= |s0| ==> s2[..off] == s0[..off]
    ensures off > |s0| ==> s2 == s0
  {
    if o <= |s0| {
      assert s2[..off] == s2[..o][..off];
      assert s1[..off] == s1[..o][..off];
    }
  }

  method EncodeTable(buf: array<Byte>, entries: seq<Entry>, off: nat) returns (st: Status, off': nat)
    modifies buf
    ensures st == TableOutcome(entries, buf.Length - off)
    ensures Wrote(old(buf[..]), buf[..], off, st, off', TableBytes(entries))
    decreases entries
  {
    hide Splice, Be, EntryBytes, EntryOutcome, ValueBytes, ValueOutcome;
    ghost var s0 := buf[..];
    off' := off + 4;
    if off' <= buf.Length {
      SpliceNothing(s0, off');
    }
    var i := 0;
    while i < |entries|
      invariant 0 <= i <= |entries|
      invariant off' == off + 4 + |EntriesBytes(entries[..i])|
      invariant off' <= buf.Length ==> buf[..] == Splice(s0, off + 4, EntriesBytes(entries[..i]))
      invariant off' > buf.Length ==> buf[..] == s0 && i == 0
      invariant EntriesOutcome(entries[i..], buf.Length - off') == EntriesOutcome(entries, buf.Length - off - 4)
    {
      ghost var s1 := buf[..];
      ghost var done := EntriesBytes(entries[..i]);
      assert entries[i..][0] == entries[i] && entries[i..][1..] == entries[i + 1..];
      var o := off';
      st, off' := EncodeEntry(buf, entries[i], o);
      if st != OK {
        PrefixKept(s0, s1, buf[..], off, o, st, off', done, EntryBytes(entries[i]));
        return;
      }
      assert entries[..i + 1] == entries[..i] + [entries[i]];
      EntriesBytesSnoc(entries[..i], entries[i]);
      SpliceInOrder(s0, off + 4, done, EntryBytes(entries[i]));
      i := i + 1;
    }
    assert entries[..i] == entries;
    st := BackPatch(buf, off, off', s0, EntriesBytes(entries));
  }

  method EncodeEntry(buf: array<Byte>, e: Entry, off: nat) returns (st: Status, off': nat)
    modifies buf
    ensures st == EntryOutcome(e, buf.Length - off)
    ensures Wrote(old(buf[..]), buf[..], off, st, off', EntryBytes(e))
    decreases e
  {
    hide Be, Splice, ValueOutcome, ValueBytes;
    ghost var s0 := buf[..];
    var ok;
    ok, off' := EncodeNum(buf, off, 1, |e.key|);
    if !ok {
      return TableTooBig, off';
    }
    ghost var s1 := buf[..];
    ok, off' := EncodeBytes(buf, off', e.key);
    ghost var s2 := buf[..];
    if !ok {
      st := TableTooBig;
      WroteThen(s0, s1, s2, off, Be(1, |e.key|), st, off', e.key);
      return;
    }
    SpliceInOrder(s0, off, Be(1, |e.key|), e.key);
    st, off' := EncodeValue(buf, e.value, off');
    WroteThen(s0, s2, buf[..], off, Be(1, |e.key|) + e.key, st, off', ValueBytes(e.value));
  }

  // ----- Decoding with loops -----

  method ReadValue(buf: Bytes, off: nat) returns (st: Status, v: FieldValue, off': nat)
    requires off <= |buf|
    ensures (st == OK) == DecodeValue(buf[off..]).Good?
    ensures st != OK ==> DecodeValue(buf[off..]).Bad? && DecodeValue(buf[off..]).status == st
    ensures st == OK ==> off < off' <= |buf| && DecodeValue(buf[off..]) == Good(v, buf[off'..])
    decreases |buf| - off, 0
  {
    st, v, off' := BadAmqpData, Plain(Void), off + 1;
    ghost var s := buf[off..];
    if off == |buf| {
      return;
    }
    var k := buf[off];
    assert s[0] == k && s[1..] == buf[off + 1..];
    if k == KIND_UTF8 || k == KIND_OCTETS {
      var p := DecodeString(buf[off + 1..]);
      if p.Good? {
        off' := |buf| - |p.rest|;
        StringRest(buf, off + 1);
        st, v := OK, if k == KIND_UTF8 then Utf8(p.value) else Octets(p.value);
      }
    } else if k == KIND_ARRAY {
      var items;
      st, items, off' := ReadArray(buf, off + 1);
      v := Array(items);
    } else if k == KIND_TABLE {
      var entries;
      st, entries, off' := ReadTable(buf, off + 1);
      v := Table(entries);
    } else if IsScalarKind(k) {
      if off + 1 + Width(k) <= |buf| {
        off' := off + 1 + Width(k);
        assert buf[off + 1..][..Width(k)] == buf[off + 1..off'];
        assert buf[off + 1..][Width(k)..] == buf[off'..];
        st, v := OK, Plain(ScalarFrom(k, buf[off + 1..off']));
      }
    }
  }

  lemma StringRest(buf: Bytes, off: nat)
    requires off <= |buf| && DecodeString(buf[off..]).Good?
    ensures var p := DecodeString(buf[off..]);
            off + 4 + |p.value| <= |buf| && p.rest == buf[off + 4 + |p.value|..]
  {
    assert buf[off..][4..] == buf[off + 4..];
  }

  method ReadArray(buf: Bytes, off: nat) returns (st: Status, items: seq<FieldValue>, off': nat)
    requires off <= |buf|
    ensures st != OK ==> DecodeArray(buf[off..]).Bad? && DecodeArray(buf[off..]).status == st
    ensures st == OK ==> off < off' <= |buf| && DecodeArray(buf[off..]) == Good(items, buf[off'..])
    decreases |buf| - off, 0
  {
    st, items, off' := BadAmqpData, [], off + 4;
    var n := DecodeNum(buf[off..], 4);
    if n.Bad? {
      return;
    }
    assert buf[off..][4..] == buf[off + 4..];
    if n.value + off' > |buf| {
      return;
    }
    var limit := off' + n.value;
    ghost var whole := DecodeItems(buf[off'..], |buf| - limit);
    while off' < limit
      invariant off + 4 <= off' <= |buf|
      invariant whole == Prepend(items, DecodeItems(buf[off'..], |buf| - limit))
      decreases |buf| - off'
    {
      var v;
      st, v, off' := ReadValue(buf, off');
      if st != OK {
        return;
      }
      PrependOne(items, v, DecodeItems(buf[off'..], |buf| - limit));
      items := items + [v];
    }
    st := OK;
  }

  /** What the loop has collected, put in front of what the rest of the loop will collect. */
  function Prepend<T>(done: seq<T>, more: Parse<seq<T>>): (r: Parse<seq<T>>)
    ensures r.Bad? <==> more.Bad?
    ensures done == [] ==> r == more
    ensures more.Good? && more.value == [] ==> r == Good(done, more.rest)
  {
    if more.Bad? then more
    else
      assert done == [] ==> done + more.value == more.value;
      assert more.value == [] ==> done + more.value == done;
      Good(done + more.value, more.rest)
  }

  lemma PrependOne<T>(done: seq<T>, x: T, more: Parse<seq<T>>)
    ensures Prepend(done, Prepend([x], more)) == Prepend(done + [x], more)
  {
    if more.Good? {
      assert done + ([x] + more.value) == done + [x] + more.value;
    }
  }

  method ReadTable(buf: Bytes, off: nat) returns (st: Status, entries: seq<Entry>, off': nat)
    requires off <= |buf|
    ensures st != OK ==> DecodeTable(buf[off..]).Bad? && DecodeTable(buf[off..]).status == st
    ensures st == OK ==> off < off' <= |buf| && DecodeTable(buf[off..]) == Good(entries, buf[off'..])
    decreases |buf| - off, 0
  {
    st, entries, off' := BadAmqpData, [], off + 4;
    var n := DecodeNum(buf[off..], 4);
    if n.Bad? {
      return;
    }
    assert buf[off..][4..] == buf[off + 4..];
    if n.value + off' > |buf| {
      return;
    }
    var limit := off' + n.value;
    ghost var whole := DecodeEntries(buf[off'..], |buf| - limit);
    while off' < limit
      invariant off + 4 <= off' <= |buf|
      invariant whole == Prepend(entries, DecodeEntries(buf[off'..], |buf| - limit))
      decreases |buf| - off'
    {
      var e;
      st, e, off' := ReadEntry(buf, off');
      if st != OK {
        return;
      }
      PrependOne(entries, e, DecodeEntries(buf[off'..], |buf| - limit));
      entries := entries + [e];
    }
    st := OK;
  }

  method ReadEntry(buf: Bytes, off: nat) returns (st: Status, e: Entry, off': nat)
    requires off < |buf|
    ensures st != OK ==> DecodeEntry(buf[off..]).Bad? && DecodeEntry(buf[off..]).status == st
    ensures st == OK ==> off < off' <= |buf| && DecodeEntry(buf[off..]) == Good(e, buf[off'..])
    decreases |buf| - off, 1
  {
    st, e, off' := BadAmqpData, Entry([], Plain(Void)), off + 1;
    var n := DecodeNum(buf[off..], 1);
    assert n.rest == buf[off + 1..];
    if n.value > |buf| - off' {
      return;
    }
    var key := buf[off'..off' + n.value];
    assert buf[off'..][..n.value] == key && buf[off'..][n.value..] == buf[off' + n.value..];
    off' := off' + n.value;
    var v;
    st, v, off' := ReadValue(buf, off');
    e := Entry(key, v);
  }

  // ----- Main result -----

  /**
    Encode and then decode, as the code runs them: when the encoder reports success it has written only
    between the two offsets, and the decoder started at the first offset returns the same table and
    stops at the second, exactly when no key is longer than 255 bytes.
   */
  method EncodeThenDecode(buf: array<Byte>, t: seq<Entry>, off: nat) returns (st: Status, end: nat, same: bool)
    requires buf.Length < MAX_BUFFER
    modifies buf
    ensures st == OK <==> KnownEntries(t) && off + |TableBytes(t)| <= buf.Length
    ensures st == OK ==> off <= end <= buf.Length && buf[..off] == old(buf[..off]) && buf[end..] == old(buf[end..])
    ensures st == OK ==> same == ShortKeyEntries(t)
  {
    same := false;
    st, end := EncodeTable(buf, t, off);
    TableFits(t, buf.Length - off);
    if st == OK {
      assert buf[off..] == TableBytes(t) + buf[end..];
      TableRoundTrip(t, buf[end..]);
      var st', t', end' := ReadTable(buf[..], off);
      same := st' == OK && t' == t && end' == end;
      assert buf[..][off..] == buf[off..];
      assert st' == OK ==> |buf[..][end'..]| == buf.Length - end';
    }
  }
}
