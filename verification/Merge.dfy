/**
  Cloning tables between memory pools (amqp_table.c) and merging client capabilities
  (amqp_socket.c). A located table records for every block of memory the pool it lies in.
 */
module Merge {
  import opened Wire
  import opened FieldTable

  // ----- Tables in memory -----

  datatype Home = Nowhere | Pool(id: nat)

  datatype LocatedValue =
    | LPlain(scalar: Scalar)
    | LUtf8(home: Home, text: Bytes)
    | LOctets(home: Home, octets: Bytes)
    | LArray(home: Home, items: seq<LocatedValue>)
    | LTable(table: LocatedTable)
    | LUnknown(kind: OtherKind)

  datatype LocatedEntry = LEntry(keyHome: Home, key: Bytes, value: LocatedValue)

  datatype LocatedTable = LocatedTable(home: Home, entries: seq<LocatedEntry>)

  /** The value, wherever it lies. */
  function Erase(v: LocatedValue): FieldValue
  {
    match v
    case LPlain(s) => Plain(s)
    case LUtf8(_, t) => Utf8(t)
    case LOctets(_, t) => Octets(t)
    case LArray(_, items) => Array(seq(|items|, i requires 0 <= i < |items| => Erase(items[i])))
    case LTable(t) => Table(EraseEntries(t.entries))
    case LUnknown(k) => Unknown(k)
  }

  function EraseEntries(s: seq<LocatedEntry>): seq<Entry>
  {
    seq(|s|, i requires 0 <= i < |s| => Entry(s[i].key, Erase(s[i].value)))
  }

  function HomeOf(n: nat, pool: nat): Home
  {
    if n == 0 then Nowhere else Pool(pool)
  }

  /** The value laid out in one pool; empty strings, arrays and tables need no memory. */
  function Place(v: FieldValue, pool: nat): LocatedValue
  {
    match v
    case Plain(s) => LPlain(s)
    case Utf8(t) => LUtf8(HomeOf(|t|, pool), t)
    case Octets(t) => LOctets(HomeOf(|t|, pool), t)
    case Array(items) => LArray(HomeOf(|items|, pool), seq(|items|, i requires 0 <= i < |items| => Place(items[i], pool)))
    case Table(es) => LTable(PlaceTable(es, pool))
    case Unknown(k) => LUnknown(k)
  }

  function PlaceEntry(e: Entry, pool: nat): LocatedEntry
  {
    LEntry(HomeOf(|e.key|, pool), e.key, Place(e.value, pool))
  }

  function PlaceTable(es: seq<Entry>, pool: nat): LocatedTable
  {
    LocatedTable(HomeOf(|es|, pool), seq(|es|, i requires 0 <= i < |es| => PlaceEntry(es[i], pool)))
  }

  /** Every block of the value lies in the pool. */
  predicate LiesIn(v: LocatedValue, pool: nat)
  {
    match v
    case LPlain(_) => true
    case LUtf8(h, t) => t == [] || h == Pool(pool)
    case LOctets(h, t) => t == [] || h == Pool(pool)
    case LArray(h, items) => (items == [] || h == Pool(pool)) && forall i :: 0 <= i < |items| ==> LiesIn(items[i], pool)
    case LTable(t) => TableLiesIn(t, pool)
    case LUnknown(_) => true
  }

  predicate TableLiesIn(t: LocatedTable, pool: nat)
  {
    && (t.entries == [] || t.home == Pool(pool))
    && forall i :: 0 <= i < |t.entries| ==>
         (t.entries[i].key == [] || t.entries[i].keyHome == Pool(pool)) && LiesIn(t.entries[i].value, pool)
  }

  lemma {:induction false} PlaceLies(v: FieldValue, pool: nat)
    ensures LiesIn(Place(v, pool), pool) && Erase(Place(v, pool)) == v
    decreases v
  {
    match v
    case Array(items) =>
      forall i | 0 <= i < |items| ensures LiesIn(Place(items[i], pool), pool) && Erase(Place(items[i], pool)) == items[i] {
        PlaceLies(items[i], pool);
      }
    case Table(es) => PlaceTableLies(es, pool);
    case _ =>
  }

  lemma {:induction false} PlaceTableLies(es: seq<Entry>, pool: nat)
    ensures TableLiesIn(PlaceTable(es, pool), pool) && EraseEntries(PlaceTable(es, pool).entries) == es
    decreases es
  {
    forall i | 0 <= i < |es| ensures LiesIn(Place(es[i].value, pool), pool) && Erase(Place(es[i].value, pool)) == es[i].value {
      PlaceLies(es[i].value, pool);
    }
  }

  // ----- Cloning -----

  predicate Clonable(v: FieldValue)
  {
    match v
    case Array(items) => forall i :: 0 <= i < |items| ==> Clonable(items[i])
    case Table(es) => ClonableTable(es)
    case Unknown(_) => false
    case _ => true
  }

  predicate ClonableTable(es: seq<Entry>)
  {
    forall i :: 0 <= i < |es| ==> es[i].key != [] && Clonable(es[i].value)
  }

  /** An unknown kind or an empty key is refused wherever it stands, and nothing else is. */
  lemma {:induction false} RefusedInside(items: seq<FieldValue>, es: seq<Entry>, i: nat)
    ensures i < |items| && (items[i].Unknown? || !Clonable(items[i])) ==> !Clonable(Array(items))
    ensures i < |es| && (es[i].key == [] || es[i].value.Unknown? || !Clonable(es[i].value)) ==> !Clonable(Table(es))
    ensures (forall v <- items :: v.Plain? || v.Utf8? || v.Octets?) ==> Clonable(Array(items))
    ensures (forall e <- es :: e.key != [] && (e.value.Plain? || e.value.Utf8? || e.value.Octets?)) ==> Clonable(Table(es))
  {
    assert Clonable(Table(es)) == ClonableTable(es);
    if ClonableTable(es) && i < |es| {
      assert es[i].key != [] && Clonable(es[i].value);
      assert !es[i].value.Unknown?;
    }
  }

  /** `amqp_field_value_clone`, where memory suffices. An empty array has no block. */
  method CloneValue(v: LocatedValue, pool: nat) returns (st: Status, r: LocatedValue)
    ensures st == if Clonable(Erase(v)) then OK else InvalidParameter
    ensures st == OK ==> r == Place(Erase(v), pool)
    decreases v
  {
    st, r := OK, v;
    match v {
      case LPlain(_) =>
      case LUtf8(_, t) =>
        r := LUtf8(HomeOf(|t|, pool), t);
      case LOctets(_, t) =>
        r := LOctets(HomeOf(|t|, pool), t);
      case LArray(_, items) =>
        var copies: seq<LocatedValue> := [];
        for i := 0 to |items|
          invariant |copies| == i
          invariant forall j :: 0 <= j < i ==> Clonable(Erase(items[j])) && copies[j] == Place(Erase(items[j]), pool)
        {
          var item;
          st, item := CloneValue(items[i], pool);
          if st != OK {
            assert Erase(v).items[i] == Erase(items[i]);
            return;
          }
          copies := copies + [item];
        }
        r := LArray(HomeOf(|items|, pool), copies);
        st := OK;
      case LTable(t) =>
        var t';
        st, t' := CloneTable(t, pool);
        r := LTable(t');
      case LUnknown(_) =>
        st := InvalidParameter;
    }
  }

  /** `amqp_table_clone` with `amqp_table_entry_clone`; an empty key is refused. */
  method CloneTable(t: LocatedTable, pool: nat) returns (st: Status, r: LocatedTable)
    ensures st == if ClonableTable(EraseEntries(t.entries)) then OK else InvalidParameter
    ensures st == OK ==> r == PlaceTable(EraseEntries(t.entries), pool)
    decreases t
  {
    var n := |t.entries|;
    var copies: seq<LocatedEntry> := [];
    r := LocatedTable(Nowhere, []);
    ghost var es := EraseEntries(t.entries);
    for i := 0 to n
      invariant |copies| == i
      invariant forall j :: 0 <= j < i ==> es[j].key != [] && Clonable(es[j].value) && copies[j] == PlaceEntry(es[j], pool)
    {
      var e := t.entries[i];
      assert es[i] == Entry(e.key, Erase(e.value));
      if e.key == [] {
        return InvalidParameter, r;
      }
      var v;
      st, v := CloneValue(e.value, pool);
      if st != OK {
        return;
      }
      copies := copies + [LEntry(HomeOf(|e.key|, pool), e.key, v)];
    }
    return OK, LocatedTable(HomeOf(n, pool), copies);
  }

  // ----- The merge as the code does it -----

  /** `amqp_table_get_entry_by_key`: the first entry with the key; the length if there is none. */
  function FindKey(es: seq<Entry>, key: Bytes): (k: nat)
    ensures k <= |es|
    ensures k < |es| ==> es[k].key == key
    ensures forall i :: 0 <= i < k ==> es[i].key != key
  {
    if es == [] || es[0].key == key then 0 else 1 + FindKey(es[1..], key)
  }

  datatype Merging = Done(entries: seq<Entry>) | Stopped(status: Failure)

  /** `amqp_merge_capabilities`: nothing to allocate for two empty tables counts as lack of memory. */
  function MergeTables(base: seq<Entry>, add: seq<Entry>): Merging
    decreases add, 1
  {
    if base == [] && add == [] then Stopped(NoMemory)
    else
      var r := MergeInto(base, base, add);
      if r.Stopped? || ClonableTable(r.entries) then r else Stopped(InvalidParameter)
  }

  /** Its loop over `add`. */
  function MergeInto(base: seq<Entry>, temp: seq<Entry>, add: seq<Entry>): Merging
    decreases add, 0
  {
    if add == [] then Done(temp)
    else
      var r := MergeEntry(base, temp, add[0]);
      if r.Stopped? then r else MergeInto(base, r.entries, add[1..])
  }

  /** One entry of `add`; of two tables, it is the one in `base` that is merged with the one in `add`. */
  function MergeEntry(base: seq<Entry>, temp: seq<Entry>, e: Entry): Merging
    decreases e, 0
  {
    var k := FindKey(temp, e.key);
    if k == |temp| then Done(temp + [e])
    else if e.value.Table? && temp[k].value.Table? then
      var b := FindKey(base, e.key);
      if b == |base| || !base[b].value.Table? then Stopped(Undefined)
      else
        var m := MergeTables(base[b].value.entries, e.value.entries);
        if m.Stopped? then m else Done(temp[k := Entry(e.key, Table(m.entries))])
    else Done(temp[k := Entry(e.key, e.value)])
  }

  method GetEntryByKey(s: seq<LocatedEntry>, key: Bytes) returns (k: nat)
    ensures k == FindKey(EraseEntries(s), key)
  {
    ghost var es := EraseEntries(s);
    k := 0;
    while k < |s| && s[k].key != key
      invariant k <= |s| && forall i :: 0 <= i < k ==> es[i].key != key
    {
      k := k + 1;
    }
    FirstIsUnique(es, key, k);
  }

  lemma FirstIsUnique(es: seq<Entry>, key: Bytes, k: nat)
    requires k <= |es| && (k < |es| ==> es[k].key == key) && forall i :: 0 <= i < k ==> es[i].key != key
    ensures FindKey(es, key) == k
  {
    hide FindKey;
  }

  /** The outcome of a merge: the merged table laid out in the pool, or the status of the step that failed. */
  predicate IsMergeOf(base: seq<Entry>, add: Option<LocatedTable>, pool: nat, st: Status, r: LocatedTable)
  {
    match add
    case None => st == (if ClonableTable(base) then OK else InvalidParameter) && (st == OK ==> r == PlaceTable(base, pool))
    case Some(a) =>
      match MergeTables(base, EraseEntries(a.entries))
      case Done(es) => st == OK && r == PlaceTable(es, pool)
      case Stopped(status) => st == status
  }

  /**
    `amqp_merge_capabilities`. The entries are first collected in pool `temp`, which is new, and emptied
    at the end; the result is a clone of them in `pool`, and no part of it lies elsewhere.
   */
  method MergeCapabilities(base: LocatedTable, add: Option<LocatedTable>, pool: nat, temp: nat)
      returns (st: Status, r: LocatedTable)
    requires pool < temp
    ensures IsMergeOf(EraseEntries(base.entries), add, pool, st, r)
    decreases if add.Some? then add.value else base
  {
    r := base;
    if add.None? {
      st, r := CloneTable(base, pool);
      return;
    }
    var size := |base.entries| + |add.value.entries|;
    if size == 0 {
      return NoMemory, r;
    }
    hide FindKey, Erase, Place, Clonable, MergeEntry;
    var entries := new LocatedEntry[size](_ => LEntry(Nowhere, [], LPlain(Void)));
    ghost var b, a := EraseEntries(base.entries), EraseEntries(add.value.entries);
    forall i | 0 <= i < |base.entries| {
      entries[i] := base.entries[i];
    }
    var n := |base.entries|;
    assert entries[..n] == base.entries;
    assert a[0..] == a;
    for i := 0 to |add.value.entries|
      invariant |base.entries| <= n <= |base.entries| + i
      invariant MergeInto(b, b, a) == MergeInto(b, EraseEntries(entries[..n]), a[i..])
    {
      assert a[i..][0] == a[i] && a[i..][1..] == a[i + 1..];
      st, n := AddEntry(entries, n, base, add.value.entries[i], temp);
      if st != OK {
        return;
      }
    }
    assert a[|a|..] == [];
    st, r := CloneTable(LocatedTable(Pool(temp), entries[..n]), pool);
  }

  /** One round of its loop: the entry is appended, or replaces or is merged into the one with its key. */
  method AddEntry(entries: array<LocatedEntry>, n: nat, base: LocatedTable, e: LocatedEntry, temp: nat) returns (st: Status, n': nat)
    requires n < entries.Length
    modifies entries
    ensures match MergeEntry(EraseEntries(base.entries), EraseEntries(old(entries[..n])), Entry(e.key, Erase(e.value)))
            case Done(es) => st == OK && n <= n' <= n + 1 && EraseEntries(entries[..n']) == es
            case Stopped(status) => st == status != OK
    decreases e
  {
    hide MergeTables, FindKey, Clonable;
    ghost var t, b, added := EraseEntries(entries[..n]), EraseEntries(base.entries), Entry(e.key, Erase(e.value));
    n' := n;
    var k := GetEntryByKey(entries[..n], e.key);
    if k == n {
      entries[n] := e;
      assert EraseEntries(entries[..n + 1]) == t + [added];
      return OK, n + 1;
    }
    var v := e.value;
    if e.value.LTable? && entries[k].value.LTable? {
      var j := GetEntryByKey(base.entries, e.key);
      if j == |base.entries| || !base.entries[j].value.LTable? {
        return Undefined, n;
      }
      var m;
      st, m := MergeCapabilities(base.entries[j].value.table, Some(e.value.table), temp, temp + 1);
      if st != OK {
        return;
      }
      PlaceTableLies(MergeTables(b[j].value.entries, added.value.entries).entries, temp);
      v := LTable(m);
    }
    entries[k] := LEntry(entries[k].keyHome, entries[k].key, v);
    assert EraseEntries(entries[..n]) == t[k := Entry(e.key, Erase(v))];
    return OK, n;
  }
}
