/**
  Content header properties: the presence bit the generator assigns to each field (codegen.py), the
  flag words that carry the bits, and the property codecs of amqp_framing.c for any field list.
 */
module Properties {
  import opened Wire
  import opened Fields
  import opened Generator

  // ----- Presence bits -----

  /** The bit of field `i`: 15 fields to a 16-bit word, from the top, bit 0 of each word being spare. */
  function FlagBit(i: nat): nat
  {
    16 * (i / 15) + 15 - i % 15
  }

  /** The loop of `genHrl`, which skips every index that would land on a continuation bit. */
  method AssignFlagBits(n: nat) returns (bits: seq<nat>)
    ensures |bits| == n
    ensures forall i :: 0 <= i < n ==> bits[i] == FlagBit(i)
    // from bit 15 down, and 15 fields further the same 16 bits higher
    ensures forall i :: 0 <= i < n && i < 15 ==> bits[i] == 15 - i
    ensures forall i :: 15 <= i < n ==> bits[i] == bits[i - 15] + 16
    ensures n == 14 ==> bits == [15, 14, 13, 12, 11, 10, 9, 8, 7, 6, 5, 4, 3, 2]
  {
    hide FlagBit, IndexBehind;
    bits := [];
    var index := 0;
    IndexOfField(0);
    for i := 0 to n
      invariant |bits| == i && index == IndexBehind(i)
      invariant forall k :: 0 <= k < i ==> bits[k] == FlagBit(k)
    {
      IndexOfField(i);
      if index % 16 == 15 {
        index := index + 1;
      }
      var shortnum := index / 16;
      var partialindex := 15 - index % 16;
      bits := bits + [shortnum * 16 + partialindex];
      index := index + 1;
    }
    forall i | 0 <= i < n
      ensures i < 15 ==> bits[i] == 15 - i
      ensures i >= 15 ==> bits[i] == bits[i - 15] + 16
    {
      FlagBitValues(i);
    }
  }

  lemma FlagBitValues(i: nat)
    ensures FlagBit(i) == if i < 15 then 15 - i else FlagBit(i - 15) + 16
    ensures FlagBit(i) == 16 * (i / 15) + (15 - i % 15)
  {
    if i >= 15 {
      assert i / 15 == (i - 15) / 15 + 1 && i % 15 == (i - 15) % 15;
    }
  }

  /** The loop's index behind `i` fields. */
  function IndexBehind(i: nat): nat
  {
    if i == 0 then 0 else i + (i - 1) / 15
  }

  lemma IndexOfField(i: nat)
    ensures IndexBehind(0) == 0
    ensures var index := IndexBehind(i);
            var skipped := if index % 16 == 15 then index + 1 else index;
            skipped / 16 * 16 + (15 - skipped % 16) == FlagBit(i) && skipped + 1 == IndexBehind(i + 1)
  {
    var j, k := i / 15, i % 15;
    assert IndexBehind(i) == if i > 0 && k == 0 then 16 * j - 1 else 16 * j + k;
    assert (16 * j + k) / 16 == j && (16 * j + k) % 16 == k;
  }

  /** For any number of fields the bits are distinct and none is a continuation bit. */
  lemma FlagBitsAreUsable(i: nat, j: nat)
    ensures FlagBit(i) % 16 != 0
    ensures i != j ==> FlagBit(i) != FlagBit(j)
    ensures i < 30 ==> FlagBit(i) < 32
  {
    assert i == 15 * (i / 15) + i % 15 && j == 15 * (j / 15) + j % 15;
    assert FlagBit(i) / 16 == i / 15 && FlagBit(j) / 16 == j / 15;
    assert FlagBit(i) % 16 == 15 - i % 15 && FlagBit(j) % 16 == 15 - j % 15;
  }

  // ----- Flag words -----

  /** One 16-bit word: the flags without bit 0, which says whether another word follows. */
  function FlagWord(flags: nat): (w: nat)
    ensures w < 0x1_0000
    ensures w % 2 == 1 <==> flags >= 0x1_0000
  {
    flags % 0x1_0000 - flags % 2 + (if flags / 0x1_0000 != 0 then 1 else 0)
  }

  function FlagWords(flags: nat): Bytes
    decreases flags
  {
    Be(2, FlagWord(flags)) + if flags / 0x1_0000 == 0 then [] else FlagWords(flags / 0x1_0000)
  }

  /** The do-while loop of `amqp_encode_properties`. */
  method EncodeFlags(flags: UInt32) returns (bytes: Bytes)
    ensures bytes == FlagWords(flags)
  {
    var remaining := flags;
    bytes := [];
    while true
      invariant 0 <= remaining <= flags
      invariant bytes + FlagWords(remaining) == FlagWords(flags)
      decreases remaining
    {
      var remainder := remaining / 0x1_0000;
      var partial := remaining % 0x1_0000 - remaining % 2;
      if remainder != 0 {
        partial := partial + 1;
      }
      Reassociate(bytes, Be(2, partial), if remainder == 0 then [] else FlagWords(remainder));
      bytes := bytes + Be(2, partial);
      if remainder == 0 {
        return;
      }
      remaining := remainder;
    }
  }

  /** A third flag word would be shifted by the full width of an int, which C leaves undefined. */
  function DecodeFlags(s: Bytes, index: nat, flags: nat): Parse<nat>
    decreases |s|
  {
    var n := DecodeNum(s, 2);
    if n.Bad? then Bad(n.status)
    else if index >= 2 then Bad(Undefined)
    else
      var flags' := flags + n.value * (if index == 0 then 1 else 0x1_0000);
      if n.value % 2 == 1 then DecodeFlags(n.rest, index + 1, flags') else Good(flags', n.rest)
  }

  /** The loop of `amqp_decode_properties`; a third word would be shifted out of the 32-bit flags. */
  method ReadFlags(s: Bytes) returns (r: Parse<nat>)
    ensures r == DecodeFlags(s, 0, 0)
  {
    hide DecodeNum;
    var rest, flags, index := s, 0, 0;
    while index < 2
      invariant index <= 2
      invariant DecodeFlags(s, 0, 0) == DecodeFlags(rest, index, flags)
    {
      var n := DecodeNum(rest, 2);
      if n.Bad? {
        return Bad(n.status);
      }
      flags := flags + n.value * (if index == 0 then 1 else 0x1_0000);
      index, rest := index + 1, n.rest;
      if n.value % 2 == 0 {
        return Good(flags, rest);
      }
    }
    var n := DecodeNum(rest, 2);
    return Bad(if n.Bad? then n.status else Undefined);
  }

  /** What arrives when `flags` is sent. */
  function Received(flags: UInt32): nat
  {
    FlagWord(flags) + 0x1_0000 * (flags / 0x1_0000 - flags / 0x1_0000 % 2)
  }

  lemma FlagsRoundTrip(flags: UInt32, post: Bytes)
    ensures DecodeFlags(FlagWords(flags) + post, 0, 0) == Good(Received(flags), post)
  {
    hide Be, Num, DecodeNum;
    Pow256Values();
    var hi := flags / 0x1_0000;
    var w0, w1 := FlagWord(flags), FlagWord(hi);
    assert hi / 0x1_0000 == 0;
    if hi == 0 {
      assert FlagWords(flags) + post == Be(2, w0) + post;
      DecodeNumOf(2, w0, post);
    } else {
      assert FlagWords(hi) == Be(2, w1);
      assert FlagWords(flags) + post == Be(2, w0) + (Be(2, w1) + post);
      DecodeNumOf(2, w0, Be(2, w1) + post);
      DecodeNumOf(2, w1, post);
    }
  }

  lemma {:induction false} HasBitOfSum(x: nat, y: nat, n: nat, k: nat)
    requires x < Pow2(n)
    ensures HasBit(x + Pow2(n) * y, k) == if k < n then HasBit(x, k) else HasBit(y, k - n)
    decreases n
  {
    if n > 0 {
      var half := Pow2(n - 1) * y;
      assert Pow2(n) * y == 2 * half;
      assert (x + 2 * half) % 2 == x % 2 && (x + 2 * half) / 2 == x / 2 + half;
      if k > 0 {
        HasBitOfSum(x / 2, y, n - 1, k - 1);
      }
    }
  }

  /** Clearing or setting bit 0 leaves the other bits alone. */
  lemma OtherBits(x: nat, b: nat, k: nat)
    requires b < 2 && 0 < k
    ensures HasBit(x - x % 2 + b, k) == HasBit(x, k)
  {
    assert (x - x % 2 + b) / 2 == x / 2;
  }

  /**
    The flags received are the flags sent without bits 0 and 16, plus bit 0 exactly when a second word
    was written; every presence bit below 32 that the generator assigns survives.
   */
  lemma ReceivedBits(flags: UInt32, k: nat)
    ensures HasBit(Received(flags), k) ==
            if k == 0 then flags >= 0x1_0000 else if k == 16 then false else HasBit(flags, k)
  {
    var lo, hi := flags % 0x1_0000, flags / 0x1_0000;
    var b := if hi != 0 then 1 else 0;
    assert Pow2(4) == 16 && Pow2(8) == 256 && Pow2(12) == 4096 && Pow2(16) == 0x1_0000;
    assert lo % 2 == flags % 2;
    HasBitOfSum(lo, hi, 16, k);
    HasBitOfSum(FlagWord(flags), hi - hi % 2, 16, k);
    if 0 < k < 16 {
      OtherBits(lo, b, k);
    } else if k > 16 {
      OtherBits(hi, 0, k - 16);
    }
  }

  // ----- The bits of the first bytes -----

  /** The bits of an octet, the lowest first. */
  lemma {:induction false} BitOfOctet(x: nat, k: nat)
    requires k < 8
    ensures HasBit(x, k) <==> x / [1, 2, 4, 8, 16, 32, 64, 128][k] % 2 == 1
  {
    if k > 0 {
      BitOfOctet(x / 2, k - 1);
    }
  }

  lemma BitOfWord(w: nat, k: nat)
    requires w < 0x1_0000 && k < 16
    ensures HasBit(w, 15 - k) <==> Be(2, w)[k / 8] / [128, 64, 32, 16, 8, 4, 2, 1][k % 8] % 2 == 1
  {
    hide Be, HasBit;
    NetworkOrder(w / 256, w % 256, 0, 0);
    assert Pow2(4) == 16 && Pow2(8) == 256;
    HasBitOfSum(w % 256, w / 256, 8, 15 - k);
    if k < 8 {
      BitOfOctet(w / 256, 7 - k);
    } else {
      BitOfOctet(w % 256, 15 - k);
    }
  }

  /**
    On the wire, highest bits first: the first 15 fields take the bits of the first two bytes, the next 15
    those of the following two, if there are any.
   */
  lemma PresenceOnTheWire(flags: UInt32, i: nat)
    requires i < 30
    ensures var bytes, k := FlagWords(flags), i % 15;
            var at := i / 15 * 2 + k / 8;
            Present(flags, i) <==> at < |bytes| && bytes[at] / [128, 64, 32, 16, 8, 4, 2, 1][k % 8] % 2 == 1
  {
    hide Be, HasBit, FlagBit, FlagWord;
    FlagBitValues(i);
    var hi, k := flags / 0x1_0000, i % 15;
    var w0, w1 := FlagWord(flags), FlagWord(hi);
    assert hi / 0x1_0000 == 0;
    assert FlagWords(flags) == Be(2, w0) + if hi == 0 then [] else FlagWords(hi);
    assert FlagWords(hi) == Be(2, w1) + [];
    BitOfFlags(flags, i);
    BitOfWord(if i < 15 then w0 else w1, k);
    if hi == 0 {
      NothingIsSet(k);
    }
  }

  /** Field `i` in the word that carries it. */
  lemma BitOfFlags(flags: UInt32, i: nat)
    requires i < 30
    ensures Present(flags, i) <==> HasBit(if i < 15 then FlagWord(flags) else FlagWord(flags / 0x1_0000), 15 - i % 15)
  {
    hide HasBit, FlagBit;
    FlagBitValues(i);
    var lo, hi, k := flags % 0x1_0000, flags / 0x1_0000, i % 15;
    assert Pow2(4) == 16 && Pow2(8) == 256 && Pow2(12) == 4096 && Pow2(16) == 0x1_0000;
    HasBitOfSum(lo, hi, 16, FlagBit(i));
    if i < 15 {
      assert lo % 2 == flags % 2;
      OtherBits(lo, FlagWord(flags) % 2, 15 - k);
    } else {
      OtherBits(hi, 0, 15 - k);
    }
  }

  lemma {:induction false} NothingIsSet(k: nat)
    requires k < 15
    ensures FlagWord(0) == 0 && !HasBit(0, 15 - k)
  {
    BitOfWord(0, k);
    NetworkOrder(0, 0, 0, 0);
  }

  /** The flags of a struct in which only the first field is set: the bytes are 0x80 and 0x00. */
  lemma OnlyFirstField(i: nat)
    requires i < 30
    ensures FlagWords(0x8000) == [0x80, 0x00]
    ensures Present(0x8000, i) <==> i == 0
  {
    hide Be, HasBit, FlagBit;
    NetworkOrder(0x80, 0x00, 0, 0);
    PresenceOnTheWire(0x8000, i);
  }

  // ----- Property codecs -----

  /** `_flags` and the fields of the struct that are set. */
  datatype PropertySet = PropertySet(flags: UInt32, fields: Struct)

  predicate Present(flags: nat, i: nat)
  {
    HasBit(flags, FlagBit(i))
  }

  /** Property classes have no bit fields, and every present field has a value of its type. */
  ghost predicate WellTyped(fs: seq<FieldType>, p: PropertySet)
  {
    && (forall i :: 0 <= i < |fs| ==> !fs[i].Flag?)
    && (forall i :: 0 <= i < |fs| && Present(p.flags, i) ==> i in p.fields && HasType(fs[i], p.fields[i]))
  }

  ghost predicate PropertiesRestorable(fs: seq<FieldType>, p: PropertySet)
    requires WellTyped(fs, p)
  {
    forall i :: 0 <= i < |fs| && Present(p.flags, i) ==> Restorable(fs[i], p.fields[i])
  }

  /** The emitted `if (flags & F) { ... }` statements from field `i` on. */
  function PutFields(fs: seq<FieldType>, p: PropertySet, i: nat, cap: int, out: Bytes): Encoded
    requires WellTyped(fs, p) && i <= |fs|
    decreases |fs| - i
  {
    if i == |fs| then Written(out)
    else if !Present(p.flags, i) then PutFields(fs, p, i + 1, cap, out)
    else
      var st := PutOutcome(fs[i], p.fields[i], cap - |out|);
      if st == OK then PutFields(fs, p, i + 1, cap, out + FieldBytes(fs[i], p.fields[i])) else Failed(st)
  }

  /** `amqp_encode_properties` for a class with fields `fs`. */
  function EncodeProperties(fs: seq<FieldType>, p: PropertySet, cap: int): Encoded
    requires WellTyped(fs, p)
  {
    if |FlagWords(p.flags)| > cap then Failed(BadAmqpData) else PutFields(fs, p, 0, cap, FlagWords(p.flags))
  }

  function GetFields(fs: seq<FieldType>, flags: nat, i: nat, s: Bytes, m: Struct): Parse<Struct>
    requires i <= |fs|
    decreases |fs| - i
  {
    if i == |fs| then Good(m, s)
    else if !Present(flags, i) then GetFields(fs, flags, i + 1, s, m)
    else if fs[i].Flag? then Bad(Undefined)
    else
      var v := Get(fs[i], s);
      if v.Bad? then Bad(v.status) else GetFields(fs, flags, i + 1, v.rest, m[i := v.value])
  }

  datatype ReceivedProperties = ReceivedProperties(flags: nat, fields: Struct)

  /** `amqp_decode_properties` for a class with fields `fs`. */
  function DecodeProperties(fs: seq<FieldType>, s: Bytes): Parse<ReceivedProperties>
  {
    var f := DecodeFlags(s, 0, 0);
    if f.Bad? then Bad(f.status)
    else
      var m := GetFields(fs, f.value, 0, f.rest, map[]);
      if m.Bad? then Bad(m.status) else Good(ReceivedProperties(f.value, m.value), m.rest)
  }

  /** The fields below `n` whose presence bit is set. */
  function PresentFields(fs: seq<FieldType>, p: PropertySet, n: nat): Struct
    requires WellTyped(fs, p) && n <= |fs|
  {
    map i: nat | i < n && Present(p.flags, i) :: p.fields[i]
  }

  lemma {:induction false} FieldsRoundTrip(
      fs: seq<FieldType>, p: PropertySet, flags: nat, i: nat, cap: int, out: Bytes, post: Bytes)
    requires WellTyped(fs, p) && PropertiesRestorable(fs, p) && i <= |fs|
    requires forall k: nat :: k < |fs| ==> Present(flags, k) == Present(p.flags, k)
    requires PutFields(fs, p, i, cap, out).Written?
    ensures var all := PutFields(fs, p, i, cap, out).bytes;
            && |all| >= |out| && all[..|out|] == out
            && GetFields(fs, flags, i, all[|out|..] + post, PresentFields(fs, p, i)) ==
               Good(PresentFields(fs, p, |fs|), post)
    decreases |fs| - i
  {
    hide Get, FieldBytes, PutOutcome, Restorable, Encodable, Present;
    var all := PutFields(fs, p, i, cap, out).bytes;
    if i == |fs| {
      assert all[|out|..] + post == post;
    } else if !Present(p.flags, i) {
      FieldsRoundTrip(fs, p, flags, i + 1, cap, out, post);
      assert PresentFields(fs, p, i) == PresentFields(fs, p, i + 1);
    } else {
      var bytes := FieldBytes(fs[i], p.fields[i]);
      FieldsRoundTrip(fs, p, flags, i + 1, cap, out + bytes, post);
      assert all[|out|..] + post == bytes + (all[|out| + |bytes|..] + post);
      FieldRoundTrip(fs[i], p.fields[i], all[|out| + |bytes|..] + post);
      assert PresentFields(fs, p, i)[i := p.fields[i]] == PresentFields(fs, p, i + 1);
    }
  }

  /**
    For every class of at most 30 fields, decoding encoded properties gives back exactly the present
    fields and consumes exactly what was written; the flags arrive as `Received` says.
   */
  lemma PropertiesRoundTrip(fs: seq<FieldType>, p: PropertySet, cap: int, post: Bytes)
    requires |fs| <= 30 && WellTyped(fs, p) && PropertiesRestorable(fs, p)
    requires EncodeProperties(fs, p, cap).Written?
    ensures var bytes := EncodeProperties(fs, p, cap).bytes;
            && |bytes| >= 2
            && DecodeProperties(fs, bytes + post) ==
               Good(ReceivedProperties(Received(p.flags), PresentFields(fs, p, |fs|)), post)
  {
    hide HasBit, DecodeFlags, FlagWords, FieldBytes, PutOutcome;
    var words, all := FlagWords(p.flags), EncodeProperties(fs, p, cap).bytes;
    forall k: nat | k < |fs|
      ensures Present(Received(p.flags), k) == Present(p.flags, k)
    {
      FlagBitsAreUsable(k, k);
      ReceivedBits(p.flags, FlagBit(k));
    }
    FieldsRoundTrip(fs, p, Received(p.flags), 0, cap, words, post);
    assert all + post == words + (all[|words|..] + post);
    FlagsRoundTrip(p.flags, all[|words|..] + post);
    assert PresentFields(fs, p, 0) == map[];
    AtLeastOneWord(p.flags);
  }

  lemma AtLeastOneWord(flags: nat)
    ensures |FlagWords(flags)| >= 2
  {
  }
}
