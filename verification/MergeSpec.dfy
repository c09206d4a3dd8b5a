/**
  What merging two tables means: keys of `base` in order, then the new keys of `add`; on a common key
  `add` wins, except that two tables are merged in turn. `Merge.MergeTables` computes exactly this when
  the keys of `add` are distinct.
 */
module MergeSpec {
  import opened Wire
  import opened FieldTable
  import opened Merge

  // ----- Reference definition -----

  function Combine(b: FieldValue, a: FieldValue): FieldValue
    decreases a, 0
  {
    if b.Table? && a.Table? then Table(Merged(b.entries, a.entries)) else a
  }

  function Merged(base: seq<Entry>, add: seq<Entry>): (r: seq<Entry>)
    ensures |r| == |base| + |NewKeys(base, add)|
    decreases add, 2
  {
    seq(|base|, i requires 0 <= i < |base| => UpdatedEntry(base, i, add)) + NewKeys(base, add)
  }

  /** Only the first entry of `base` with a key is affected. */
  function UpdatedEntry(base: seq<Entry>, i: nat, add: seq<Entry>): Entry
    requires i < |base|
    decreases add, 1
  {
    var key := base[i].key;
    var k := FindKey(add, key);
    if k < |add| && FindKey(base, key) == i then Entry(key, Combine(base[i].value, add[k].value)) else base[i]
  }

  function NewKeys(base: seq<Entry>, add: seq<Entry>): seq<Entry>
    decreases |add|
  {
    if add == [] then []
    else
      var last := add[|add| - 1];
      NewKeys(base, add[..|add| - 1]) + if FindKey(base, last.key) == |base| then [last] else []
  }

  // ----- Hypotheses -----

  /** Distinct keys at each level. */
  predicate DistinctKeys(add: seq<Entry>)
  {
    && (forall i, j :: 0 <= i < j < |add| ==> add[i].key != add[j].key)
    && (forall i :: 0 <= i < |add| && add[i].value.Table? ==> DistinctKeys(add[i].value.entries))
  }

  /** Both are tables, to be merged. */
  predicate Pairs(base: seq<Entry>, e: Entry)
  {
    var b := FindKey(base, e.key);
    b < |base| && base[b].value.Table? && e.value.Table?
  }

  predicate NoEmptyPair(base: seq<Entry>, add: seq<Entry>)
  {
    && (base != [] || add != [])
    && forall i :: 0 <= i < |add| && Pairs(base, add[i]) ==>
         NoEmptyPair(base[FindKey(base, add[i].key)].value.entries, add[i].value.entries)
  }

  // ----- Looking up keys -----

  lemma {:induction false} FindKeyConcat(a: seq<Entry>, b: seq<Entry>, key: Bytes)
    ensures FindKey(a + b, key) == if FindKey(a, key) < |a| then FindKey(a, key) else |a| + FindKey(b, key)
  {
    var k := if FindKey(a, key) < |a| then FindKey(a, key) else |a| + FindKey(b, key);
    FirstIsUnique(a + b, key, k);
  }

  lemma {:induction false} NewKeysAreNew(base: seq<Entry>, add: seq<Entry>, key: Bytes)
    ensures FindKey(base, key) < |base| ==> FindKey(NewKeys(base, add), key) == |NewKeys(base, add)|
    ensures FindKey(add, key) == |add| ==> FindKey(NewKeys(base, add), key) == |NewKeys(base, add)|
    ensures FindKey(base, key) == |base| && FindKey(add, key) < |add| ==>
              var n := NewKeys(base, add);
              FindKey(n, key) < |n| && n[FindKey(n, key)] == add[FindKey(add, key)]
    decreases |add|
  {
    if add != [] {
      hide FindKey;
      var front, last := add[..|add| - 1], add[|add| - 1];
      NewKeysAreNew(base, front, key);
      assert add == front + [last];
      FindKeyConcat(front, [last], key);
      FindKeyConcat(NewKeys(base, front), [last], key);
      if FindKey(base, last.key) == |base| {
        assert NewKeys(base, add) == NewKeys(base, front) + [last];
      } else {
        assert NewKeys(base, add) == NewKeys(base, front) + [];
        assert NewKeys(base, add) == NewKeys(base, front);
      }
    }
  }

  /** The part of the result that stems from `base` keeps its keys. */
  lemma BaseKeysStay(base: seq<Entry>, add: seq<Entry>, key: Bytes)
    ensures var front := Merged(base, add)[..|base|];
            FindKey(front, key) == FindKey(base, key) && Merged(base, add) == front + NewKeys(base, add)
  {
    hide FindKey, Combine, NewKeys;
    var front := Merged(base, add)[..|base|];
    forall i | 0 <= i < |base|
      ensures front[i].key == base[i].key
    {
      assert front[i] == UpdatedEntry(base, i, add);
    }
    FirstIsUnique(front, key, FindKey(base, key));
  }

  lemma FindInMerged(base: seq<Entry>, add: seq<Entry>, key: Bytes)
    ensures var r, b := Merged(base, add), FindKey(base, key);
            && (b < |base| ==> FindKey(r, key) == b && r[b] == UpdatedEntry(base, b, add))
            && (b == |base| && FindKey(add, key) == |add| ==> FindKey(r, key) == |r|)
            && (b == |base| && FindKey(add, key) < |add| ==> FindKey(r, key) < |r| && r[FindKey(r, key)] == add[FindKey(add, key)])
  {
    hide FindKey, UpdatedEntry, NewKeys;
    var r, b, front, n := Merged(base, add), FindKey(base, key), Merged(base, add)[..|base|], NewKeys(base, add);
    BaseKeysStay(base, add, key);
    FindKeyConcat(front, n, key);
    NewKeysAreNew(base, add, key);
    if b == |base| && FindKey(add, key) < |add| {
      assert r[|front| + FindKey(n, key)] == n[FindKey(n, key)];
    }
  }

  function Lookup(es: seq<Entry>, key: Bytes): Option<FieldValue>
  {
    var k := FindKey(es, key);
    if k < |es| then Some(es[k].value) else None
  }

  /** The merged table, as a finite map, is the right-biased union, tables being united recursively. */
  lemma MergedLookup(base: seq<Entry>, add: seq<Entry>, key: Bytes)
    ensures Lookup(Merged(base, add), key) ==
            match Lookup(add, key)
            case None => Lookup(base, key)
            case Some(a) => if Lookup(base, key).None? then Some(a) else Some(Combine(Lookup(base, key).value, a))
  {
    hide FindKey, Merged, Combine;
    FindInMerged(base, add, key);
  }

  // ----- One more entry -----

  lemma NewKeysMore(base: seq<Entry>, add: seq<Entry>, e: Entry)
    ensures NewKeys(base, add + [e]) == NewKeys(base, add) + if FindKey(base, e.key) == |base| then [e] else []
  {
    hide FindKey;
    assert (add + [e])[..|add + [e]| - 1] == add;
  }

  lemma UpdatedMore(base: seq<Entry>, add: seq<Entry>, e: Entry, i: nat)
    requires i < |base| && FindKey(add, e.key) == |add|
    ensures UpdatedEntry(base, i, add + [e]) ==
            if i == FindKey(base, e.key) then Entry(e.key, Combine(base[i].value, e.value)) else UpdatedEntry(base, i, add)
    ensures i == FindKey(base, e.key) ==> UpdatedEntry(base, i, add) == base[i]
  {
    hide Combine;
    FindKeyConcat(add, [e], base[i].key);
    hide FindKey;
    FirstIsUnique([e], base[i].key, if e.key == base[i].key then 0 else 1);
    if FindKey(add, base[i].key) < |add| {
      assert (add + [e])[FindKey(add, base[i].key)] == add[FindKey(add, base[i].key)];
    }
  }

  /** A key that `add` did not have yet. */
  lemma MergedMore(base: seq<Entry>, add: seq<Entry>, e: Entry)
    requires FindKey(add, e.key) == |add|
    ensures var t, b := Merged(base, add), FindKey(base, e.key);
            && (b == |base| ==> Merged(base, add + [e]) == t + [e])
            && (b < |base| ==> t[b] == base[b] && Merged(base, add + [e]) == t[b := Entry(e.key, Combine(base[b].value, e.value))])
  {
    hide FindKey, Combine, UpdatedEntry, NewKeys;
    NewKeysMore(base, add, e);
    forall i | 0 <= i < |base|
      ensures UpdatedEntry(base, i, add + [e]) ==
              if i == FindKey(base, e.key) then Entry(e.key, Combine(base[i].value, e.value)) else UpdatedEntry(base, i, add)
      ensures i == FindKey(base, e.key) ==> UpdatedEntry(base, i, add) == base[i]
    {
      UpdatedMore(base, add, e, i);
    }
  }

  // ----- The code meets the definition -----

  /** Every pair met on the way can be merged and cloned. */
  predicate PairsFit(base: seq<Entry>, add: seq<Entry>)
  {
    forall i :: 0 <= i < |add| && Pairs(base, add[i]) ==>
      var b := base[FindKey(base, add[i].key)].value.entries;
      NoEmptyPair(b, add[i].value.entries) && ClonableTable(Merged(b, add[i].value.entries))
  }

  lemma {:induction false} EntryMeetsSpec(base: seq<Entry>, add: seq<Entry>, e: Entry)
    requires FindKey(add, e.key) == |add| && (e.value.Table? ==> DistinctKeys(e.value.entries))
    ensures var r := MergeEntry(base, Merged(base, add), e);
            && (r.Done? <==> PairsFit(base, [e]))
            && (r.Done? ==> r.entries == Merged(base, add + [e]))
    decreases e, 0
  {
    hide FindKey, MergeTables, Merged, NoEmptyPair, ClonableTable, DistinctKeys;
    FindInMerged(base, add, e.key);
    MergedMore(base, add, e);
    assert [e][0] == e;
    if Pairs(base, e) {
      MergeMeetsSpec(base[FindKey(base, e.key)].value.entries, e.value.entries);
    }
  }

  lemma {:induction false} LoopMeetsSpec(base: seq<Entry>, done: seq<Entry>, rest: seq<Entry>)
    requires DistinctKeys(rest) && forall i :: 0 <= i < |rest| ==> FindKey(done, rest[i].key) == |done|
    ensures var r := MergeInto(base, Merged(base, done), rest);
            && (r.Done? <==> PairsFit(base, rest))
            && (r.Done? ==> r.entries == Merged(base, done + rest))
    decreases rest, 0
  {
    hide FindKey, MergeEntry, Merged, NoEmptyPair, ClonableTable, Pairs;
    if rest == [] {
      assert done + rest == done;
    } else {
      var e, later := rest[0], rest[1..];
      EntryMeetsSpec(base, done, e);
      FitSplits(base, rest);
      forall i | 0 <= i < |later|
        ensures FindKey(done + [e], later[i].key) == |done + [e]|
      {
        assert later[i] == rest[i + 1];
        FindKeyConcat(done, [e], later[i].key);
        FirstIsUnique([e], later[i].key, 1);
      }
      LoopMeetsSpec(base, done + [e], later);
      assert (done + [e]) + later == done + rest;
    }
  }

  lemma FitSplits(base: seq<Entry>, add: seq<Entry>)
    requires add != []
    ensures PairsFit(base, add) <==> PairsFit(base, [add[0]]) && PairsFit(base, add[1..])
  {
    hide FindKey, Merged, NoEmptyPair, ClonableTable, Pairs;
    if PairsFit(base, [add[0]]) && PairsFit(base, add[1..]) {
      assert [add[0]][0] == add[0];
      assert forall i :: 1 <= i < |add| ==> add[i] == add[1..][i - 1];
    }
  }

  /** Nested results are part of the whole. */
  lemma PairsAreParts(base: seq<Entry>, add: seq<Entry>)
    requires DistinctKeys(add) && ClonableTable(Merged(base, add))
    ensures (base != [] || add != []) && PairsFit(base, add) <==> NoEmptyPair(base, add)
  {
    hide FindKey, Merged, DistinctKeys;
    forall i | 0 <= i < |add| && Pairs(base, add[i])
      ensures ClonableTable(Merged(base[FindKey(base, add[i].key)].value.entries, add[i].value.entries))
    {
      var b := FindKey(base, add[i].key);
      FindInMerged(base, add, add[i].key);
      assert FindKey(add, add[i].key) == i by { DistinctFind(add, i); }
      assert Clonable(Merged(base, add)[b].value);
    }
  }

  lemma DistinctFind(add: seq<Entry>, i: nat)
    requires DistinctKeys(add) && i < |add|
    ensures FindKey(add, add[i].key) == i
  {
    FirstIsUnique(add, add[i].key, i);
  }

  /**
    Deep merge: with distinct keys at each level of `add`, the code succeeds exactly when no pair of
    tables it merges is empty on both sides and the result has no empty key and no unknown kind, and
    then the result is the recursive right-biased merge, in order.
   */
  lemma {:induction false} MergeMeetsSpec(base: seq<Entry>, add: seq<Entry>)
    requires DistinctKeys(add)
    ensures MergeTables(base, add).Done? <==> NoEmptyPair(base, add) && ClonableTable(Merged(base, add))
    ensures MergeTables(base, add).Done? ==> MergeTables(base, add).entries == Merged(base, add)
    decreases add, 1
  {
    hide FindKey, MergeInto, Merged, ClonableTable, PairsFit, NoEmptyPair, DistinctKeys;
    MergedWithNothing(base);
    LoopMeetsSpec(base, [], add);
    assert [] + add == add;
    NoEmptyPairFits(base, add);
    if ClonableTable(Merged(base, add)) {
      PairsAreParts(base, add);
    }
  }

  lemma NoEmptyPairFits(base: seq<Entry>, add: seq<Entry>)
    ensures NoEmptyPair(base, add) ==> base != [] || add != []
  {
  }

  lemma MergedWithNothing(base: seq<Entry>)
    ensures Merged(base, []) == base
  {
  }

  /**
    Why the keys of `add` must be distinct: a second table under a key that `base` lacks is merged with
    an entry of `base` that does not exist.
   */
  lemma DuplicateTableIsUndefined(base: seq<Entry>, key: Bytes, s: seq<Entry>, t: seq<Entry>)
    requires FindKey(base, key) == |base|
    ensures MergeTables(base, [Entry(key, Table(s)), Entry(key, Table(t))]) == Stopped(Undefined)
  {
    var e, f := Entry(key, Table(s)), Entry(key, Table(t));
    FindKeyConcat(base, [e], key);
    hide FindKey, ClonableTable;
    FirstIsUnique([e], key, 0);
    assert [e, f][1..] == [f];
    assert MergeEntry(base, base, e) == Done(base + [e]);
    assert MergeEntry(base, base + [e], f) == Stopped(Undefined);
    assert MergeInto(base, base + [e], [f]) == Stopped(Undefined);
    assert MergeInto(base, base, [e, f]) == MergeInto(base, base + [e], [e, f][1..]);
  }

  // ----- Repeated keys -----

  predicate IsTable(v: Option<FieldValue>)
  {
    v.Some? && v.value.Table?
  }

  /** After `add`, the key holds a table: the latest entry with that key decides, or `base` if there is none. */
  predicate HoldsTable(base: seq<Entry>, add: seq<Entry>, key: Bytes)
    decreases |add|
  {
    if add == [] then IsTable(Lookup(base, key))
    else
      var last := add[|add| - 1];
      if last.key == key then last.value.Table? else HoldsTable(base, add[..|add| - 1], key)
  }

  /** Entry `i` is a table and meets a table, so the two are to be merged. */
  predicate Meets(base: seq<Entry>, add: seq<Entry>, i: nat)
    requires i < |add|
  {
    add[i].value.Table? && HoldsTable(base, add[..i], add[i].key)
  }

  /** The value under a key after `add`: the latest entry decides, and is merged with `base`'s table if it meets a table. */
  function LastValue(base: seq<Entry>, add: seq<Entry>, key: Bytes): Option<FieldValue>
    decreases add, 0
  {
    if add == [] then Lookup(base, key)
    else
      var front, last := add[..|add| - 1], add[|add| - 1];
      if last.key != key then LastValue(base, front, key)
      else if last.value.Table? && HoldsTable(base, front, key) && IsTable(Lookup(base, key)) then
        Some(Table(FullyMerged(Lookup(base, key).value.entries, last.value.entries)))
      else Some(last.value)
  }

  function ValueFor(base: seq<Entry>, add: seq<Entry>, key: Bytes): FieldValue
    decreases add, 1
  {
    var v := LastValue(base, add, key);
    if v.Some? then v.value else Plain(Void)
  }

  /** The keys that `base` lacks, by their first entry in `add`. */
  function FirstKeys(base: seq<Entry>, add: seq<Entry>): seq<Bytes>
    decreases |add|
  {
    if add == [] then []
    else
      var front, key := add[..|add| - 1], add[|add| - 1].key;
      FirstKeys(base, front) + if FindKey(base, key) == |base| && FindKey(front, key) == |front| then [key] else []
  }

  /** The merge for any `add`: the keys of `base` in order, then the new keys by first occurrence, each with its last value. */
  function FullyMerged(base: seq<Entry>, add: seq<Entry>): (r: seq<Entry>)
    ensures |r| == |base| + |FirstKeys(base, add)|
    decreases add, 3
  {
    var keys := FirstKeys(base, add);
    seq(|base|, i requires 0 <= i < |base| => FullEntry(base, i, add)) +
    seq(|keys|, i requires 0 <= i < |keys| => Entry(keys[i], ValueFor(base, add, keys[i])))
  }

  function FullEntry(base: seq<Entry>, i: nat, add: seq<Entry>): Entry
    requires i < |base|
    decreases add, 2
  {
    if FindKey(base, base[i].key) == i then Entry(base[i].key, ValueFor(base, add, base[i].key)) else base[i]
  }

  /** A table that meets a table finds one in `base`, and the two can be merged. */
  ghost predicate PassesAt(base: seq<Entry>, add: seq<Entry>, i: nat)
    requires i < |add|
    decreases add, 0
  {
    Meets(base, add, i) ==>
      var b := Lookup(base, add[i].key);
      IsTable(b) && Succeeds(b.value.entries, add[i].value.entries)
  }

  ghost predicate AllPass(base: seq<Entry>, add: seq<Entry>, n: nat)
    requires n <= |add|
    decreases add, 1
  {
    forall i :: 0 <= i < n ==> PassesAt(base, add, i)
  }

  /** Not both empty, every entry passes, and the result can be cloned. */
  ghost predicate Succeeds(base: seq<Entry>, add: seq<Entry>)
    decreases add, 2
  {
    (base != [] || add != []) && AllPass(base, add, |add|) && ClonableTable(FullyMerged(base, add))
  }

  /** A table meets a table that an earlier entry of `add` has put there, or the same happens further down. */
  ghost predicate UndefinedAt(base: seq<Entry>, add: seq<Entry>, i: nat)
    requires i < |add|
    decreases add, 0
  {
    && Meets(base, add, i)
    && var b := Lookup(base, add[i].key);
       IsTable(b) ==> IsUndefined(b.value.entries, add[i].value.entries)
  }

  ghost predicate IsUndefined(base: seq<Entry>, add: seq<Entry>)
    decreases add, 2
  {
    (base != [] || add != []) && StopsUndefined(base, add, |add|)
  }

  /** Among the first `n` entries, the first that does not pass is undefined. */
  ghost predicate StopsUndefined(base: seq<Entry>, add: seq<Entry>, n: nat)
    requires n <= |add|
    decreases add, 1
  {
    exists i :: 0 <= i < n && UndefinedAt(base, add, i) && AllPass(base, add, i)
  }

  lemma {:induction false} IntoSnoc(base: seq<Entry>, temp: seq<Entry>, add: seq<Entry>, e: Entry)
    ensures var r := MergeInto(base, temp, add);
            MergeInto(base, temp, add + [e]) == if r.Stopped? then r else MergeEntry(base, r.entries, e)
    decreases |add|
  {
    hide MergeEntry;
    if add == [] {
      assert add + [e] == [e] && [e][1..] == [];
      var r := MergeEntry(base, temp, e);
      assert r.Done? ==> MergeInto(base, r.entries, []) == r;
    } else {
      var r := MergeEntry(base, temp, add[0]);
      assert (add + [e])[0] == add[0] && (add + [e])[1..] == add[1..] + [e];
      if r.Done? {
        IntoSnoc(base, r.entries, add[1..], e);
      }
    }
  }

  lemma FindUpdated(es: seq<Entry>, k: nat, v: FieldValue, key: Bytes)
    requires k < |es|
    ensures FindKey(es[k := Entry(es[k].key, v)], key) == FindKey(es, key)
  {
    hide FindKey;
    FirstIsUnique(es[k := Entry(es[k].key, v)], key, FindKey(es, key));
  }

  /** What an entry does to the kind of value under each key. */
  lemma EntryKind(base: seq<Entry>, temp: seq<Entry>, e: Entry, key: Bytes)
    requires MergeEntry(base, temp, e).Done?
    ensures IsTable(Lookup(MergeEntry(base, temp, e).entries, key)) ==
            if key == e.key then e.value.Table? else IsTable(Lookup(temp, key))
  {
    hide FindKey, MergeTables;
    var k := FindKey(temp, e.key);
    if k == |temp| {
      FindKeyConcat(temp, [e], key);
      FirstIsUnique([e], key, if e.key == key then 0 else 1);
    } else {
      var v := MergeEntry(base, temp, e).entries[k].value;
      FindUpdated(temp, k, v, key);
    }
  }

  lemma {:induction false} LoopKind(base: seq<Entry>, add: seq<Entry>, key: Bytes)
    requires MergeInto(base, base, add).Done?
    ensures IsTable(Lookup(MergeInto(base, base, add).entries, key)) == HoldsTable(base, add, key)
    decreases |add|
  {
    hide MergeInto, MergeEntry, IsTable, Lookup;
    if add == [] {
      IntoNothing(base, base);
    } else {
      var front, last := add[..|add| - 1], add[|add| - 1];
      assert add == front + [last];
      IntoSnoc(base, base, front, last);
      LoopKind(base, front, key);
      EntryKind(base, MergeInto(base, base, front).entries, last, key);
      LastIsTable(base, front, last, key);
    }
  }

  lemma IntoNothing(base: seq<Entry>, temp: seq<Entry>)
    ensures MergeInto(base, temp, []) == Done(temp)
  {
  }

  lemma LastIsTable(base: seq<Entry>, add: seq<Entry>, e: Entry, key: Bytes)
    ensures HoldsTable(base, add + [e], key) == if e.key == key then e.value.Table? else HoldsTable(base, add, key)
  {
    assert (add + [e])[..|add + [e]| - 1] == add;
  }

  // ----- The merge for any `add` -----

  lemma LastMore(base: seq<Entry>, add: seq<Entry>, e: Entry, key: Bytes)
    ensures key != e.key ==> LastValue(base, add + [e], key) == LastValue(base, add, key)
    ensures LastValue(base, add + [e], e.key) ==
            if e.value.Table? && HoldsTable(base, add, e.key) && IsTable(Lookup(base, e.key)) then
              Some(Table(FullyMerged(Lookup(base, e.key).value.entries, e.value.entries)))
            else Some(e.value)
  {
    hide FullyMerged, Lookup, HoldsTable;
    assert (add + [e])[..|add + [e]| - 1] == add;
  }

  lemma FirstKeysMore(base: seq<Entry>, add: seq<Entry>, e: Entry)
    ensures FirstKeys(base, add + [e]) ==
            FirstKeys(base, add) + if FindKey(base, e.key) == |base| && FindKey(add, e.key) == |add| then [e.key] else []
  {
    hide FindKey;
    assert (add + [e])[..|add + [e]| - 1] == add;
  }

  /** The first keys are those of `add` that `base` lacks, each once. */
  lemma {:induction false} FirstKeysAre(base: seq<Entry>, add: seq<Entry>)
    ensures var keys := FirstKeys(base, add);
            && (forall i :: 0 <= i < |keys| ==> FindKey(base, keys[i]) == |base| && FindKey(add, keys[i]) < |add|)
            && (forall i, j :: 0 <= i < j < |keys| ==> keys[i] != keys[j])
    decreases |add|
  {
    hide FindKey;
    if add != [] {
      var front, last := add[..|add| - 1], add[|add| - 1];
      assert add == front + [last];
      FirstKeysAre(base, front);
      FirstKeysMore(base, front, last);
      forall key
        ensures FindKey(add, key) == if FindKey(front, key) < |front| then FindKey(front, key) else if key == last.key then |front| else |add|
      {
        FindKeyConcat(front, [last], key);
        FirstIsUnique([last], key, if last.key == key then 0 else 1);
      }
    }
  }

  lemma {:induction false} KeyIsFirst(base: seq<Entry>, add: seq<Entry>, key: Bytes) returns (i: nat)
    requires FindKey(base, key) == |base| && FindKey(add, key) < |add|
    ensures i < |FirstKeys(base, add)| && FirstKeys(base, add)[i] == key
    decreases |add|
  {
    hide FindKey;
    var front, last := add[..|add| - 1], add[|add| - 1];
    assert add == front + [last];
    FirstKeysMore(base, front, last);
    FindKeyConcat(front, [last], key);
    FirstIsUnique([last], key, if last.key == key then 0 else 1);
    if FindKey(front, key) < |front| {
      i := KeyIsFirst(base, front, key);
    } else {
      i := |FirstKeys(base, front)|;
    }
  }

  /** Where a key is in the merge. */
  lemma FindInFull(base: seq<Entry>, add: seq<Entry>, key: Bytes) returns (k: nat)
    ensures k == FindKey(FullyMerged(base, add), key)
    ensures FindKey(base, key) < |base| ==> k == FindKey(base, key)
    ensures FindKey(base, key) == |base| && FindKey(add, key) < |add| ==>
              |base| <= k < |FullyMerged(base, add)| && FirstKeys(base, add)[k - |base|] == key
    ensures FindKey(base, key) == |base| && FindKey(add, key) == |add| ==> k == |FullyMerged(base, add)|
  {
    hide FindKey, ValueFor;
    var r, keys := FullyMerged(base, add), FirstKeys(base, add);
    forall i | 0 <= i < |base|
      ensures r[i].key == base[i].key
    {
      assert r[i] == FullEntry(base, i, add);
    }
    assert forall i :: |base| <= i < |r| ==> r[i].key == keys[i - |base|];
    FirstKeysAre(base, add);
    if FindKey(base, key) < |base| {
      k := FindKey(base, key);
    } else if FindKey(add, key) < |add| {
      var i := KeyIsFirst(base, add, key);
      k := |base| + i;
    } else {
      k := |r|;
    }
    FirstIsUnique(r, key, k);
  }

  lemma FullIndex(base: seq<Entry>, add: seq<Entry>, i: nat)
    requires i < |FullyMerged(base, add)|
    ensures FullyMerged(base, add)[i] ==
            if i < |base| then FullEntry(base, i, add)
            else Entry(FirstKeys(base, add)[i - |base|], ValueFor(base, add, FirstKeys(base, add)[i - |base|]))
  {
    hide FullEntry, ValueFor, FirstKeys;
  }

  /** One entry more changes the entry with its key only. */
  lemma FullMoreAt(base: seq<Entry>, add: seq<Entry>, e: Entry, i: nat)
    requires i < |FullyMerged(base, add)| && |FirstKeys(base, add)| <= |FirstKeys(base, add + [e])|
    ensures var t, r := FullyMerged(base, add), FullyMerged(base, add + [e]);
            i < |r| && r[i] == if i == FindKey(t, e.key) then Entry(e.key, ValueFor(base, add + [e], e.key)) else t[i]
  {
    hide FindKey, ValueFor, FullyMerged, FirstKeys;
    var k := FindInFull(base, add, e.key);
    FullIndex(base, add, i);
    FullIndex(base, add + [e], i);
    FirstKeysMore(base, add, e);
    FirstKeysAre(base, add);
    ValueMore(base, add, e, if i < |base| then base[i].key else FirstKeys(base, add)[i - |base|]);
  }

  /** One entry more: appended if its key is new, and else put in its place. */
  lemma FullMore(base: seq<Entry>, add: seq<Entry>, e: Entry)
    ensures var t := FullyMerged(base, add);
            var k := FindKey(t, e.key);
            var v := ValueFor(base, add + [e], e.key);
            FullyMerged(base, add + [e]) == if k == |t| then t + [Entry(e.key, v)] else t[k := Entry(e.key, v)]
  {
    hide FindKey, ValueFor, FirstKeys, FullyMerged;
    var t, r := FullyMerged(base, add), FullyMerged(base, add + [e]);
    var k := FindInFull(base, add, e.key);
    FirstKeysMore(base, add, e);
    forall i | 0 <= i < |t|
      ensures i < |r| && r[i] == if i == k then Entry(e.key, ValueFor(base, add + [e], e.key)) else t[i]
    {
      FullMoreAt(base, add, e, i);
    }
    if k == |t| {
      FullIndex(base, add + [e], k);
    }
  }

  lemma ValueMore(base: seq<Entry>, add: seq<Entry>, e: Entry, key: Bytes)
    ensures key != e.key ==> ValueFor(base, add + [e], key) == ValueFor(base, add, key)
  {
    hide LastValue;
    LastMore(base, add, e, key);
  }

  lemma {:induction false} EntryStops(base: seq<Entry>, add: seq<Entry>, i: nat)
    requires i < |add| && MergeInto(base, base, add[..i]) == Done(FullyMerged(base, add[..i]))
    ensures var r := MergeEntry(base, FullyMerged(base, add[..i]), add[i]);
            && (r.Done? <==> PassesAt(base, add, i))
            && (r == Stopped(Undefined) <==> UndefinedAt(base, add, i))
            && (r.Done? ==> r.entries == FullyMerged(base, add[..i] + [add[i]]))
    decreases add, 0
  {
    hide FindKey, MergeTables, MergeInto, HoldsTable, IsUndefined, FullyMerged, Succeeds, LastValue;
    var e, front := add[i], add[..i];
    LoopKind(base, front, e.key);
    FullMore(base, front, e);
    LastMore(base, front, e, e.key);
    var b := Lookup(base, e.key);
    if Meets(base, add, i) && IsTable(b) {
      UndefinedExactly(b.value.entries, e.value.entries);
      MergesFully(b.value.entries, e.value.entries);
    }
  }

  lemma {:induction false} LoopStops(base: seq<Entry>, add: seq<Entry>, n: nat)
    requires n <= |add|
    ensures var r := MergeInto(base, base, add[..n]);
            && (r.Done? <==> AllPass(base, add, n))
            && (r == Stopped(Undefined) <==> StopsUndefined(base, add, n))
            && (r.Done? ==> r.entries == FullyMerged(base, add[..n]))
    decreases add, 1, n
  {
    hide MergeInto, MergeEntry, PassesAt, UndefinedAt, FullyMerged, AllPass, StopsUndefined;
    PassAndStop(base, add, n);
    if n == 0 {
      assert add[..0] == [];
      IntoNothing(base, base);
      FullOfNothing(base);
    } else {
      LoopStops(base, add, n - 1);
      assert add[..n] == add[..n - 1] + [add[n - 1]];
      IntoSnoc(base, base, add[..n - 1], add[n - 1]);
      if MergeInto(base, base, add[..n - 1]).Done? {
        EntryStops(base, add, n - 1);
      }
    }
  }

  lemma PassAndStop(base: seq<Entry>, add: seq<Entry>, n: nat)
    requires n <= |add|
    ensures n == 0 ==> AllPass(base, add, n) && !StopsUndefined(base, add, n)
    ensures n > 0 ==> (AllPass(base, add, n) <==> AllPass(base, add, n - 1) && PassesAt(base, add, n - 1))
    ensures n > 0 ==>
              (StopsUndefined(base, add, n) <==>
               StopsUndefined(base, add, n - 1) || (UndefinedAt(base, add, n - 1) && AllPass(base, add, n - 1)))
  {
    hide PassesAt, UndefinedAt;
    if n > 0 && StopsUndefined(base, add, n - 1) {
      var i :| 0 <= i < n - 1 && UndefinedAt(base, add, i) && AllPass(base, add, i);
    }
  }

  lemma FullOfNothing(base: seq<Entry>)
    ensures FullyMerged(base, []) == base
  {
  }

  /**
    The merge for any two tables: the code succeeds if and only if they are not both empty, every entry of
    `add` passes and the result can be cloned; and then it returns the full merge, in order.
   */
  lemma {:induction false} MergesFully(base: seq<Entry>, add: seq<Entry>)
    ensures MergeTables(base, add).Done? <==> Succeeds(base, add)
    ensures MergeTables(base, add).Done? ==> MergeTables(base, add).entries == FullyMerged(base, add)
    decreases add, 2
  {
    hide MergeInto, AllPass, ClonableTable, FullyMerged, StopsUndefined;
    LoopStops(base, add, |add|);
    assert add[..|add|] == add;
  }

  /** With distinct keys the full merge is the right-biased one. */
  lemma {:induction false} FullIsMerged(base: seq<Entry>, add: seq<Entry>)
    requires DistinctKeys(add)
    ensures FullyMerged(base, add) == Merged(base, add)
    decreases add
  {
    if add == [] {
      FullOfNothing(base);
      MergedWithNothing(base);
    } else {
      hide FindKey, FullyMerged, Merged, LastValue, HoldsTable;
      var front, e := add[..|add| - 1], add[|add| - 1];
      assert add == front + [e];
      FullIsMerged(base, front);
      FirstIsUnique(front, e.key, |front|);
      FullMore(base, front, e);
      MergedMore(base, front, e);
      FindInMerged(base, front, e.key);
      LastMore(base, front, e, e.key);
      HoldsFromBase(base, front, e.key);
      if e.value.Table? && IsTable(Lookup(base, e.key)) {
        FullIsMerged(Lookup(base, e.key).value.entries, e.value.entries);
      }
    }
  }

  /**
    Repeated keys: the merge is undefined if and only if the first entry of `add` that does not pass is a
    table that meets a table where `base` has none, or leads to such an entry further down.
   */
  lemma {:induction false} UndefinedExactly(base: seq<Entry>, add: seq<Entry>)
    ensures MergeTables(base, add) == Stopped(Undefined) <==> IsUndefined(base, add)
    decreases add, 2
  {
    hide MergeInto, StopsUndefined, PassesAt, ClonableTable;
    LoopStops(base, add, |add|);
    assert add[..|add|] == add;
  }

  /** With distinct keys a table only ever meets the table in `base`, so no merge is undefined. */
  lemma {:induction false} DistinctIsDefined(base: seq<Entry>, add: seq<Entry>)
    requires DistinctKeys(add)
    ensures !IsUndefined(base, add) && MergeTables(base, add) != Stopped(Undefined)
    decreases add
  {
    UndefinedExactly(base, add);
    forall i | 0 <= i < |add|
      ensures !UndefinedAt(base, add, i)
    {
      HoldsFromBase(base, add[..i], add[i].key);
      if Meets(base, add, i) {
        DistinctIsDefined(Lookup(base, add[i].key).value.entries, add[i].value.entries);
      }
    }
    assert !StopsUndefined(base, add, |add|);
  }

  lemma {:induction false} HoldsFromBase(base: seq<Entry>, add: seq<Entry>, key: Bytes)
    requires forall j :: 0 <= j < |add| ==> add[j].key != key
    ensures HoldsTable(base, add, key) == IsTable(Lookup(base, key))
    decreases |add|
  {
    if add != [] {
      HoldsFromBase(base, add[..|add| - 1], key);
    }
  }

  lemma {:induction false} IntoConcat(base: seq<Entry>, temp: seq<Entry>, a: seq<Entry>, b: seq<Entry>)
    ensures var r := MergeInto(base, temp, a);
            MergeInto(base, temp, a + b) == if r.Stopped? then r else MergeInto(base, r.entries, b)
    decreases |a|
  {
    hide MergeEntry;
    if a == [] {
      assert a + b == b;
    } else {
      assert (a + b)[0] == a[0] && (a + b)[1..] == a[1..] + b;
      var r := MergeEntry(base, temp, a[0]);
      if r.Done? {
        IntoConcat(base, r.entries, a[1..], b);
      }
    }
  }

  /** Entries with other keys do not care which table is under `key`, and leave it there. */
  lemma {:induction false} OthersDoNotCare(base: seq<Entry>, temp: seq<Entry>, key: Bytes, x: FieldValue, mid: seq<Entry>)
    requires forall j :: 0 <= j < |mid| ==> mid[j].key != key
    requires FindKey(temp, key) < |temp| && temp[FindKey(temp, key)].value.Table? && x.Table?
    ensures var k := FindKey(temp, key);
            var r, r' := MergeInto(base, temp, mid), MergeInto(base, temp[k := Entry(key, x)], mid);
            if r.Stopped? then r' == r
            else
              && |r.entries| >= |temp| && FindKey(r.entries, key) == k && r.entries[k].value.Table?
              && r' == Done(r.entries[k := Entry(key, x)])
    decreases |mid|
  {
    hide FindKey, MergeEntry;
    if mid != [] {
      var k := FindKey(temp, key);
      OtherDoesNotCare(base, temp, key, x, mid[0]);
      var r := MergeEntry(base, temp, mid[0]);
      if r.Done? {
        OthersDoNotCare(base, r.entries, key, x, mid[1..]);
      }
    }
  }

  lemma OtherDoesNotCare(base: seq<Entry>, temp: seq<Entry>, key: Bytes, x: FieldValue, e: Entry)
    requires e.key != key
    requires FindKey(temp, key) < |temp| && temp[FindKey(temp, key)].value.Table? && x.Table?
    ensures var k := FindKey(temp, key);
            var r, r' := MergeEntry(base, temp, e), MergeEntry(base, temp[k := Entry(key, x)], e);
            if r.Stopped? then r' == r
            else
              && |r.entries| >= |temp| && FindKey(r.entries, key) == k && r.entries[k].value.Table?
              && r' == Done(r.entries[k := Entry(key, x)])
  {
    hide FindKey, MergeTables;
    var k, j := FindKey(temp, key), FindKey(temp, e.key);
    FindUpdated(temp, k, x, e.key);
    if j == |temp| {
      FindKeyConcat(temp, [e], key);
      assert (temp + [e])[k := Entry(key, x)] == temp[k := Entry(key, x)] + [e];
    } else if MergeEntry(base, temp, e).Done? {
      var v := MergeEntry(base, temp, e).entries[j].value;
      FindUpdated(temp, j, v, key);
      assert temp[j := Entry(e.key, v)][k := Entry(key, x)] == temp[k := Entry(key, x)][j := Entry(e.key, v)];
    }
  }

  /**
    A second table under a key where `base` has one: it is merged with the table in `base` again, so what
    the first one added is lost, as if it had not been there.
   */
  lemma FirstAdditionsAreLost(
      base: seq<Entry>, front: seq<Entry>, key: Bytes, s: seq<Entry>, mid: seq<Entry>, t: seq<Entry>, rest: seq<Entry>)
    requires HoldsTable(base, front, key) && forall j :: 0 <= j < |mid| ==> mid[j].key != key
    requires MergeInto(base, base, front + ([Entry(key, Table(s))] + (mid + ([Entry(key, Table(t))] + rest)))).Done?
    ensures MergeInto(base, base, front + ([Entry(key, Table(s))] + (mid + ([Entry(key, Table(t))] + rest)))) ==
            MergeInto(base, base, front + (mid + ([Entry(key, Table(t))] + rest)))
  {
    hide FindKey, MergeTables, HoldsTable, MergeInto, MergeEntry;
    var e, f := Entry(key, Table(s)), Entry(key, Table(t));
    var later := mid + ([f] + rest);
    IntoConcat(base, base, front, [e] + later);
    IntoConcat(base, base, front, later);
    LoopKind(base, front, key);
    var temp := MergeInto(base, base, front).entries;
    var k := FindKey(temp, key);
    IntoConcat(base, temp, [e], later);
    IntoOne(base, temp, e);
    TableOnTable(base, temp, e);
    var x := MergeEntry(base, temp, e).entries[k].value;
    OthersDoNotCare(base, temp, key, x, mid);
    var u := temp[k := Entry(key, x)];
    IntoConcat(base, u, mid, [f] + rest);
    IntoConcat(base, temp, mid, [f] + rest);
    var v := MergeInto(base, temp, mid).entries;
    IntoConcat(base, v, [f], rest);
    IntoConcat(base, v[k := Entry(key, x)], [f], rest);
    IntoOne(base, v, f);
    IntoOne(base, v[k := Entry(key, x)], f);
    SecondTable(base, v, x, f);
  }

  lemma IntoOne(base: seq<Entry>, temp: seq<Entry>, e: Entry)
    ensures MergeInto(base, temp, [e]) == MergeEntry(base, temp, e)
  {
    hide MergeEntry;
    var r := MergeEntry(base, temp, e);
    assert [e][1..] == [];
    assert r.Done? ==> MergeInto(base, r.entries, []) == r;
  }

  lemma TableOnTable(base: seq<Entry>, temp: seq<Entry>, e: Entry)
    requires e.value.Table? && IsTable(Lookup(temp, e.key)) && MergeEntry(base, temp, e).Done?
    ensures var k := FindKey(temp, e.key);
            && k < |temp| && temp[k].value.Table?
            && var r := MergeEntry(base, temp, e).entries;
               |r| == |temp| && r[k].value.Table? && r == temp[k := Entry(e.key, r[k].value)]
  {
    hide FindKey, MergeTables;
  }

  lemma SecondTable(base: seq<Entry>, temp: seq<Entry>, x: FieldValue, f: Entry)
    requires f.value.Table? && x.Table? && FindKey(temp, f.key) < |temp| && temp[FindKey(temp, f.key)].value.Table?
    ensures MergeEntry(base, temp[FindKey(temp, f.key) := Entry(f.key, x)], f) == MergeEntry(base, temp, f)
  {
    hide FindKey, MergeTables;
    var k := FindKey(temp, f.key);
    FindUpdated(temp, k, x, f.key);
    var r := MergeEntry(base, temp, f);
    if r.Done? {
      assert temp[k := Entry(f.key, x)][k := r.entries[k]] == temp[k := r.entries[k]];
    }
  }
}
