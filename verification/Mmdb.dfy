/** The MaxMind DB data section: control bytes, the skipping decoder over arbitrary
    bytes, the search for country.iso_code, and their agreement with the encoding of
    a record. */
module Mmdb {
  import opened Bits

  const T_PTR := 1
  const T_UTF8 := 2
  const T_DOUBLE := 3
  const T_BYTES := 4
  const T_UINT16 := 5
  const T_UINT32 := 6
  const T_MAP := 7
  const T_INT32 := 8
  const T_UINT64 := 9
  const T_UINT128 := 10
  const T_ARRAY := 11
  const T_BOOL := 14
  const T_FLOAT := 15

  const MAX_MAP_ENTRIES: nat := 64

  const COUNTRY: seq<byte> := [0x63, 0x6F, 0x75, 0x6E, 0x74, 0x72, 0x79]
  const ISO_CODE: seq<byte> := [0x69, 0x73, 0x6F, 0x5F, 0x63, 0x6F, 0x64, 0x65]

  type IsoEntry = (byte, byte)

  const NO_ISO: IsoEntry := (0, 0)

  // ---- control bytes --------------------------------------------------------------------

  /** Type, size and length of a control sequence; the type is -1 and nothing is
      consumed when the data ends too early. */
  datatype Ctrl = Ctrl(dtype: int, size: nat, adv: nat)

  const TRUNCATED := Ctrl(-1, 0, 0)

  /** Size bytes after the type: none below 29, then one, two or three. */
  function ExtBytes(raw: nat): nat {
    if raw < 29 then 0 else raw - 28
  }

  /** The smallest size written with k size bytes. */
  function Base(k: nat): nat {
    if k == 0 then 0 else if k == 1 then 29 else if k == 2 then 285 else 65821
  }

  /** The k-byte big-endian number at p. */
  function Big(data: seq<byte>, p: nat, k: nat): nat
    requires p + k <= |data|
    decreases k, p
  {
    if k == 0 then 0 else 256 * Big(data, p, k - 1) + data[p + k - 1]
  }

  function MmdbCtrl(data: seq<byte>, pos: nat): (c: Ctrl)
    ensures c.adv == 0 ==> c == TRUNCATED
    ensures pos + c.adv <= |data| || c.adv == 0
  {
    if pos >= |data| then TRUNCATED
    else
      var b: int := data[pos];
      var h := if b / 32 == 0 then 2 else 1;
      var k := ExtBytes(b % 32);
      if pos + h + k > |data| then TRUNCATED
      else
        var x: int := data[pos + h - 1];
        var dtype := if b / 32 == 0 then x + 7 else b / 32;
        Ctrl(dtype, if k == 0 then b % 32 else Big(data, pos + h, k) + Base(k), h + k)
  }

  // ---- skipping a value -------------------------------------------------------------------

  function Remaining(data: seq<byte>, pos: nat): nat {
    if pos < |data| then |data| - pos else 0
  }

  /** The position after a value of a type that holds no other values. */
  function SkipFlat(pos: nat, dtype: int, size: nat): (r: nat)
    ensures r >= pos
  {
    if dtype == T_UTF8 || dtype == T_BYTES || dtype == T_UINT16 || dtype == T_UINT32 || dtype == T_UINT64
       || dtype == T_UINT128 || dtype == T_INT32 || dtype == T_DOUBLE || dtype == T_FLOAT || dtype == T_PTR
    then pos + size
    else pos
  }

  /** The position after a value of the given type and size whose body starts at pos. */
  function Skip(data: seq<byte>, pos: nat, dtype: int, size: nat): (r: nat)
    ensures r >= pos
    decreases Remaining(data, pos), 1, 0
  {
    if dtype == T_MAP then SkipMap(data, pos, size)
    else if dtype == T_ARRAY then SkipArray(data, pos, size)
    else SkipFlat(pos, dtype, size)
  }

  function SkipMap(data: seq<byte>, pos: nat, left: nat): (r: nat)
    ensures r >= pos
    decreases Remaining(data, pos), 0, left
  {
    if left == 0 || pos >= |data| then pos
    else
      var k := MmdbCtrl(data, pos);
      SkipMap(data, SkipNext(data, pos, pos + k.adv + k.size), left - 1)
  }

  function SkipArray(data: seq<byte>, pos: nat, left: nat): (r: nat)
    ensures r >= pos
    decreases Remaining(data, pos), 0, left
  {
    if left == 0 || pos >= |data| then pos
    else SkipArray(data, SkipNext(data, pos, pos), left - 1)
  }

  /** Control bytes and body at p, reached from an earlier position. */
  function SkipNext(data: seq<byte>, from: nat, p: nat): (r: nat)
    requires from <= p && from < |data|
    ensures r >= p
    decreases Remaining(data, from), 0, 0
  {
    var v := MmdbCtrl(data, p);
    if v.adv == 0 then p else Skip(data, p + v.adv, v.dtype, v.size)
  }

  /** skipMMDBValue; a truncated control sequence leaves the position where it is. */
  method SkipMmdbValue(data: seq<byte>, start: nat, dtype: int, size: nat) returns (pos: nat)
    ensures pos == Skip(data, start, dtype, size)
    decreases Remaining(data, start), 1
  {
    if dtype == T_MAP {
      pos := SkipEntries(data, start, size);
    } else if dtype == T_ARRAY {
      pos := SkipItems(data, start, size);
    } else {
      pos := SkipFlat(start, dtype, size);
    }
  }

  /** Its loop over the entries of a map. */
  method SkipEntries(data: seq<byte>, start: nat, size: nat) returns (pos: nat)
    ensures pos == SkipMap(data, start, size)
    decreases Remaining(data, start), 0
  {
    hide MmdbCtrl, SkipFlat;
    pos := start;
    var i := 0;
    while i < size && pos < |data|
      invariant 0 <= i <= size && pos >= start
      invariant SkipMap(data, start, size) == SkipMap(data, pos, size - i)
      decreases size - i
    {
      ghost var from := pos;
      var k := MmdbCtrl(data, pos);
      pos := pos + k.adv + k.size;
      ghost var next := SkipNext(data, from, pos);
      var v := MmdbCtrl(data, pos);
      pos := pos + v.adv;
      if v.adv > 0 { pos := SkipMmdbValue(data, pos, v.dtype, v.size); }
      assert pos == next;
      i := i + 1;
    }
  }

  /** Its loop over the items of an array. */
  method SkipItems(data: seq<byte>, start: nat, size: nat) returns (pos: nat)
    ensures pos == SkipArray(data, start, size)
    decreases Remaining(data, start), 0
  {
    hide MmdbCtrl, SkipFlat;
    pos := start;
    var i := 0;
    while i < size && pos < |data|
      invariant 0 <= i <= size && pos >= start
      invariant SkipArray(data, start, size) == SkipArray(data, pos, size - i)
      decreases size - i
    {
      ghost var next := SkipNext(data, pos, pos);
      var v := MmdbCtrl(data, pos);
      pos := pos + v.adv;
      if v.adv > 0 { pos := SkipMmdbValue(data, pos, v.dtype, v.size); }
      assert pos == next;
      i := i + 1;
    }
  }

  // ---- the country code ---------------------------------------------------------------------

  /** A map entry: its key, and the type, size and body position of its value. */
  datatype KeyVal = BadKey | KeyVal(key: seq<byte>, dtype: int, size: nat, body: nat)

  /** The entry at pos; its key must be a string within the data. */
  function ReadEntry(data: seq<byte>, pos: nat): KeyVal {
    var k := MmdbCtrl(data, pos);
    var p := pos + k.adv;
    if k.dtype != T_UTF8 || p + k.size > |data| then BadKey
    else
      var v := MmdbCtrl(data, p + k.size);
      KeyVal(data[p..p + k.size], v.dtype, v.size, p + k.size + v.adv)
  }

  predicate IsIsoEntry(e: KeyVal) {
    e.KeyVal? && e.key == ISO_CODE && e.dtype == T_UTF8 && e.size >= 2
  }

  /** The iso_code among the next left entries of a map at pos. */
  function FindIso(data: seq<byte>, pos: nat, left: nat): IsoEntry
    decreases left, pos
  {
    if left == 0 || pos >= |data| then NO_ISO
    else
      var e := ReadEntry(data, pos);
      if e.BadKey? then NO_ISO
      else if IsIsoEntry(e) && e.body + 2 <= |data| then (data[e.body], data[e.body + 1])
      else FindIso(data, Skip(data, e.body, e.dtype, e.size), left - 1)
  }

  lemma {:induction false} FindIsoStep(data: seq<byte>, pos: nat, left: nat)
    requires left > 0 && pos < |data| && ReadEntry(data, pos).KeyVal?
    requires !IsIsoEntry(ReadEntry(data, pos)) || ReadEntry(data, pos).body + 2 > |data|
    ensures var e := ReadEntry(data, pos);
            FindIso(data, pos, left) == FindIso(data, Skip(data, e.body, e.dtype, e.size), left - 1)
  {
  }

  function Capped(count: nat): nat {
    if count > MAX_MAP_ENTRIES then MAX_MAP_ENTRIES else count
  }

  /** The iso_code of the first country map among the next left entries at pos. */
  function FindCountry(data: seq<byte>, pos: nat, left: nat): IsoEntry
    decreases left, pos
  {
    if left == 0 || pos >= |data| then NO_ISO
    else
      var e := ReadEntry(data, pos);
      if e.BadKey? then NO_ISO
      else if e.key == COUNTRY && e.dtype == T_MAP then FindIso(data, e.body, Capped(e.size))
      else FindCountry(data, Skip(data, e.body, e.dtype, e.size), left - 1)
  }

  function DecodeIso(data: seq<byte>, pos: nat): IsoEntry {
    var c := MmdbCtrl(data, pos);
    if c.dtype != T_MAP || c.adv == 0 then NO_ISO else FindCountry(data, pos + c.adv, c.size)
  }

  /** decodeISOInMap. */
  method DecodeIsoInMap(data: seq<byte>, start: nat, count: nat) returns (iso: IsoEntry)
    ensures iso == FindIso(data, start, Capped(count))
  {
    var entries := Capped(count);
    var pos: nat, i: nat := start, 0;
    while i < entries && pos < |data|
      invariant i <= entries
      invariant FindIso(data, start, entries) == FindIso(data, pos, entries - i)
    {
      var e := ReadEntry(data, pos);
      if e.BadKey? { return NO_ISO; }
      if IsIsoEntry(e) {
        if e.body + 2 <= |data| { return (data[e.body], data[e.body + 1]); }
      }
      FindIsoStep(data, pos, entries - i);
      pos := SkipMmdbValue(data, e.body, e.dtype, e.size);
      i := i + 1;
    }
    return NO_ISO;
  }

  /** decodeISOCode. */
  method DecodeIsoCode(data: seq<byte>, start: nat) returns (iso: IsoEntry)
    ensures iso == DecodeIso(data, start)
  {
    hide MmdbCtrl, ReadEntry, FindIso, Skip, Capped;
    var c := MmdbCtrl(data, start);
    if c.dtype != T_MAP || c.adv == 0 { return NO_ISO; }
    var pos: nat, i: nat := start + c.adv, 0;
    while i < c.size && pos < |data|
      invariant i <= c.size
      invariant FindCountry(data, start + c.adv, c.size) == FindCountry(data, pos, c.size - i)
    {
      var e := ReadEntry(data, pos);
      if e.BadKey? { return NO_ISO; }
      if e.key == COUNTRY && e.dtype == T_MAP {
        iso := DecodeIsoInMap(data, e.body, e.size);
        return;
      }
      pos := SkipMmdbValue(data, e.body, e.dtype, e.size);
      i := i + 1;
    }
    return NO_ISO;
  }

  // ---- records and their encoding ------------------------------------------------------------

  /** A data record without pointers. */
  datatype Value =
    | Scalar(dtype: nat, bytes: seq<byte>)
    | Bool(b: bool)
    | Map(entries: Entries)
    | Array(items: Items)

  datatype Entries = NoEntry | Entry(key: seq<byte>, value: Value, rest: Entries)

  datatype Items = NoItem | Item(value: Value, rest: Items)

  function EntryCount(es: Entries): nat {
    match es
    case NoEntry => 0
    case Entry(_, _, rest) => 1 + EntryCount(rest)
  }

  function ItemCount(vs: Items): nat {
    match vs
    case NoItem => 0
    case Item(_, rest) => 1 + ItemCount(rest)
  }

  /** The type number of the MaxMind DB format. */
  function TypeOf(v: Value): nat {
    match v
    case Scalar(t, _) => t
    case Bool(_) => 14
    case Map(_) => 7
    case Array(_) => 11
  }

  function SizeOf(v: Value): nat {
    match v
    case Scalar(_, bytes) => |bytes|
    case Bool(b) => if b then 1 else 0
    case Map(es) => EntryCount(es)
    case Array(vs) => ItemCount(vs)
  }

  /** The largest size a control sequence can express. */
  const MAX_SIZE: nat := 65821 + 0xFF_FFFF

  /** Strings and bytes, doubles and floats, and the integers of 16, 32, 64 and 128 bits. */
  predicate ScalarType(t: nat) {
    t == 2 || t == 4 || t == 3 || t == 15 || t == 5 || t == 6 || t == 8 || t == 9 || t == 10
  }

  ghost predicate Encodable(v: Value) {
    && SizeOf(v) <= MAX_SIZE
    && match v
       case Scalar(t, _) => ScalarType(t)
       case Bool(_) => true
       case Map(es) => EncodableEntries(es)
       case Array(vs) => EncodableItems(vs)
  }

  ghost predicate EncodableEntries(es: Entries) {
    es.NoEntry? || (|es.key| <= MAX_SIZE && Encodable(es.value) && EncodableEntries(es.rest))
  }

  ghost predicate EncodableItems(vs: Items) {
    vs.NoItem? || (Encodable(vs.value) && EncodableItems(vs.rest))
  }

  /** How many size bytes a size takes. */
  function TailLength(size: nat): (k: nat)
    ensures k <= 3 && Base(k) <= size
  {
    if size < 29 then 0 else if size < 285 then 1 else if size < 65821 then 2 else 3
  }

  /** The low k bytes of v, big-endian. */
  function BigBytes(v: nat, k: nat): (s: seq<byte>)
    ensures |s| == k
    decreases k, v
  {
    if k == 0 then [] else BigBytes(v / 256, k - 1) + [v % 256]
  }

  /** The first control byte, and the type byte of an extended type. */
  function CtrlHead(t: nat, size: nat): (s: seq<byte>)
    requires 1 <= t <= 15
    ensures |s| == if t <= 7 then 1 else 2
  {
    var low := if TailLength(size) == 0 then size else 28 + TailLength(size);
    if t <= 7 then [32 * t + low] else [low, t - 7]
  }

  /** Control bytes of a type from 1 to 15 and a size. */
  function EncCtrl(t: nat, size: nat): (s: seq<byte>)
    requires 1 <= t <= 15
    ensures |s| >= 1
  {
    CtrlHead(t, size) + BigBytes(size - Base(TailLength(size)), TailLength(size))
  }

  function EncValue(v: Value): (s: seq<byte>)
    requires Encodable(v)
    ensures |s| >= 1
  {
    EncCtrl(TypeOf(v), SizeOf(v)) + Body(v)
  }

  function Body(v: Value): seq<byte>
    requires Encodable(v)
    decreases v, 0
  {
    match v
    case Scalar(_, bytes) => bytes
    case Bool(_) => []
    case Map(es) => EncEntries(es)
    case Array(vs) => EncItems(vs)
  }

  function EncEntries(es: Entries): (s: seq<byte>)
    requires EncodableEntries(es)
    ensures es.Entry? ==> |s| >= 1
    decreases es, 0
  {
    match es
    case NoEntry => []
    case Entry(key, v, rest) =>
      assert Encodable(v);
      EncCtrl(2, |key|) + key + EncCtrl(TypeOf(v), SizeOf(v)) + Body(v) + EncEntries(rest)
  }

  function EncItems(vs: Items): (s: seq<byte>)
    requires EncodableItems(vs)
    ensures vs.Item? ==> |s| >= 1
    decreases vs, 0
  {
    match vs
    case NoItem => []
    case Item(v, rest) =>
      assert Encodable(v);
      EncCtrl(TypeOf(v), SizeOf(v)) + Body(v) + EncItems(rest)
  }

  // ---- decoding what was encoded ------------------------------------------------------------------

  /** data holds s at pos. */
  ghost predicate Holds(data: seq<byte>, pos: nat, s: seq<byte>) {
    pos + |s| <= |data| && data[pos..pos + |s|] == s
  }

  lemma {:induction false} HoldsSplit(data: seq<byte>, pos: nat, a: seq<byte>, b: seq<byte>)
    requires Holds(data, pos, a + b)
    ensures Holds(data, pos, a) && Holds(data, pos + |a|, b)
  {
    var d := data[pos..pos + |a| + |b|];
    assert data[pos..pos + |a|] == d[..|a|];
    assert data[pos + |a|..pos + |a| + |b|] == d[|a|..];
  }

  lemma {:induction false} HoldsAt(data: seq<byte>, pos: nat, s: seq<byte>, i: nat)
    requires Holds(data, pos, s) && i < |s|
    ensures data[pos + i] == s[i]
  {
    assert data[pos + i] == data[pos..pos + |s|][i];
  }

  lemma {:induction false} BigDecodes(data: seq<byte>, p: nat, v: nat, k: nat)
    requires v < Pow256(k) && Holds(data, p, BigBytes(v, k))
    ensures p + k <= |data| && Big(data, p, k) == v
    decreases k
  {
    if k == 0 {
    } else {
      HoldsSplit(data, p, BigBytes(v / 256, k - 1), [v % 256]);
      HoldsAt(data, p + k - 1, [v % 256], 0);
      BigDecodes(data, p, v / 256, k - 1);
    }
  }

  function Pow256(k: nat): nat {
    if k == 0 then 1 else 256 * Pow256(k - 1)
  }

  lemma {:induction false} TailFits(size: nat)
    requires size <= MAX_SIZE
    ensures size - Base(TailLength(size)) < Pow256(TailLength(size)) || TailLength(size) == 0
  {
    assert Pow256(1) == 256 && Pow256(2) == 65536 && Pow256(3) == 0x100_0000;
  }

  /** A control sequence is read back as the type and size it encodes. */
  lemma {:induction false} CtrlDecodes(data: seq<byte>, pos: nat, t: nat, size: nat)
    requires 1 <= t <= 15 && size <= MAX_SIZE && Holds(data, pos, EncCtrl(t, size))
    ensures MmdbCtrl(data, pos) == Ctrl(t, size, |EncCtrl(t, size)|)
  {
    hide Pow256, Holds, BigBytes;
    var head, k := CtrlHead(t, size), TailLength(size);
    HoldsSplit(data, pos, head, BigBytes(size - Base(k), k));
    HoldsAt(data, pos, head, 0);
    HoldsAt(data, pos, head, |head| - 1);
    TailFits(size);
    if k > 0 { BigDecodes(data, pos + |head|, size - Base(k), k); }
  }

  // ---- skipping an encoded value lands right after it ---------------------------------------------

  /** A control sequence and its body, read off at p, end where the encoding ends. */
  lemma {:induction false} SkipNextEncoded(data: seq<byte>, from: nat, p: nat, v: Value)
    requires Encodable(v) && from <= p && from < |data| && Holds(data, p, EncValue(v))
    ensures SkipNext(data, from, p) == p + |EncValue(v)|
    decreases v, 2
  {
    var c := EncCtrl(TypeOf(v), SizeOf(v));
    HoldsSplit(data, p, c, Body(v));
    CtrlDecodes(data, p, TypeOf(v), SizeOf(v));
    SkipEncoded(data, p + |c|, v);
  }

  lemma {:induction false} SkipEncoded(data: seq<byte>, pos: nat, v: Value)
    requires Encodable(v) && Holds(data, pos, Body(v))
    ensures Skip(data, pos, TypeOf(v), SizeOf(v)) == pos + |Body(v)|
    decreases v, 1
  {
    match v
    case Scalar(_, _) =>
    case Bool(_) =>
    case Map(es) => SkipMapEncoded(data, pos, es);
    case Array(vs) => SkipArrayEncoded(data, pos, vs);
  }

  lemma {:induction false} SkipMapEncoded(data: seq<byte>, pos: nat, es: Entries)
    requires EncodableEntries(es) && Holds(data, pos, EncEntries(es))
    ensures SkipMap(data, pos, EntryCount(es)) == pos + |EncEntries(es)|
    decreases es, 0
  {
    hide MmdbCtrl, EncCtrl;
    if es.NoEntry? {
    } else {
      var v, p := es.value, pos + |EncCtrl(T_UTF8, |es.key|)| + |es.key|;
      EntryParts(data, pos, es);
      SkipNextEncoded(data, pos, p, v);
      SkipMapEncoded(data, p + |EncValue(v)|, es.rest);
    }
  }

  lemma {:induction false} SkipArrayEncoded(data: seq<byte>, pos: nat, vs: Items)
    requires EncodableItems(vs) && Holds(data, pos, EncItems(vs))
    ensures SkipArray(data, pos, ItemCount(vs)) == pos + |EncItems(vs)|
    decreases vs, 0
  {
    hide MmdbCtrl, EncCtrl;
    if vs.NoItem? {
    } else {
      var v := vs.value;
      assert EncItems(vs) == EncValue(v) + EncItems(vs.rest);
      HoldsSplit(data, pos, EncValue(v), EncItems(vs.rest));
      SkipNextEncoded(data, pos, pos, v);
      SkipArrayEncoded(data, pos + |EncValue(v)|, vs.rest);
    }
  }

  /** The parts of an encoded entry: key control, key, value, remaining entries. */
  lemma {:induction false} EntryParts(data: seq<byte>, pos: nat, es: Entries)
    requires es.Entry? && EncodableEntries(es) && Holds(data, pos, EncEntries(es))
    ensures var c := EncCtrl(T_UTF8, |es.key|);
            var p := pos + |c| + |es.key|;
            && MmdbCtrl(data, pos) == Ctrl(T_UTF8, |es.key|, |c|)
            && Holds(data, pos + |c|, es.key)
            && Encodable(es.value) && EncodableEntries(es.rest)
            && Holds(data, p, EncValue(es.value))
            && Holds(data, p + |EncValue(es.value)|, EncEntries(es.rest))
            && |EncEntries(es)| == |c| + |es.key| + |EncValue(es.value)| + |EncEntries(es.rest)|
  {
    hide MmdbCtrl, EncCtrl;
    var c, v, r := EncCtrl(T_UTF8, |es.key|), EncValue(es.value), EncEntries(es.rest);
    assert EncEntries(es) == c + (es.key + (v + r));
    HoldsSplit(data, pos, c, es.key + (v + r));
    HoldsSplit(data, pos + |c|, es.key, v + r);
    HoldsSplit(data, pos + |c| + |es.key|, v, r);
    CtrlDecodes(data, pos, T_UTF8, |es.key|);
  }

  // ---- the country code of a record ------------------------------------------------------------------

  /** The iso_code of a country map: its first iso_code string of at least two bytes,
      among its first cap entries. */
  function IsoOf(es: Entries, cap: nat): IsoEntry {
    if es.NoEntry? || cap == 0 then NO_ISO
    else if es.key == Ascii("iso_code") && es.value.Scalar? && es.value.dtype == 2 && |es.value.bytes| >= 2
    then (es.value.bytes[0], es.value.bytes[1])
    else IsoOf(es.rest, cap - 1)
  }

  /** The iso_code of the first entry of a record that is a country map. */
  function CountryOf(es: Entries): IsoEntry {
    if es.NoEntry? then NO_ISO
    else if es.key == Ascii("country") && es.value.Map? then IsoOf(es.value.entries, 64)
    else CountryOf(es.rest)
  }

  lemma {:induction false} EntryDecodes(data: seq<byte>, pos: nat, es: Entries)
    requires es.Entry? && EncodableEntries(es) && Holds(data, pos, EncEntries(es))
    ensures var e := ReadEntry(data, pos);
            && pos < |data| && Encodable(es.value) && EncodableEntries(es.rest)
            && e.KeyVal? && e.key == es.key && e.dtype == TypeOf(es.value) && e.size == SizeOf(es.value)
            && Holds(data, e.body, Body(es.value))
            && Holds(data, Skip(data, e.body, e.dtype, e.size), EncEntries(es.rest))
  {
    hide MmdbCtrl, EncCtrl;
    var c, v := EncCtrl(T_UTF8, |es.key|), es.value;
    var p := pos + |c| + |es.key|;
    var vc := EncCtrl(TypeOf(v), SizeOf(v));
    EntryParts(data, pos, es);
    HoldsSplit(data, p, vc, Body(v));
    CtrlDecodes(data, p, TypeOf(v), SizeOf(v));
    SkipEncoded(data, p + |vc|, v);
  }

  lemma KeyNames()
    ensures COUNTRY == Ascii("country") && ISO_CODE == Ascii("iso_code")
  {
  }

  lemma {:induction false} FindIsoEncoded(data: seq<byte>, pos: nat, es: Entries, cap: nat)
    requires EncodableEntries(es) && Holds(data, pos, EncEntries(es))
    ensures FindIso(data, pos, if EntryCount(es) < cap then EntryCount(es) else cap) == IsoOf(es, cap)
    decreases es
  {
    hide MmdbCtrl, EncCtrl, Ascii;
    KeyNames();
    if es.NoEntry? || cap == 0 {
    } else {
      var e := ReadEntry(data, pos);
      EntryDecodes(data, pos, es);
      if IsIsoEntry(e) {
        assert es.value.Scalar?;
        HoldsAt(data, e.body, es.value.bytes, 0);
        HoldsAt(data, e.body, es.value.bytes, 1);
      } else {
        FindIsoEncoded(data, Skip(data, e.body, e.dtype, e.size), es.rest, cap - 1);
      }
    }
  }

  lemma {:induction false} FindCountryEncoded(data: seq<byte>, pos: nat, es: Entries)
    requires EncodableEntries(es) && Holds(data, pos, EncEntries(es))
    ensures FindCountry(data, pos, EntryCount(es)) == CountryOf(es)
    decreases es
  {
    hide MmdbCtrl, EncCtrl, Ascii;
    KeyNames();
    if es.NoEntry? {
    } else {
      var e := ReadEntry(data, pos);
      EntryDecodes(data, pos, es);
      if es.key == COUNTRY && es.value.Map? {
        FindIsoEncoded(data, e.body, es.value.entries, MAX_MAP_ENTRIES);
      } else {
        FindCountryEncoded(data, Skip(data, e.body, e.dtype, e.size), es.rest);
      }
    }
  }

  /** Wherever a record is encoded in the data, the decoder finds its country code. */
  lemma {:induction false} DecodeEncoded(data: seq<byte>, pos: nat, es: Entries)
    requires Encodable(Map(es)) && Holds(data, pos, EncValue(Map(es)))
    ensures DecodeIso(data, pos) == CountryOf(es)
  {
    hide MmdbCtrl, EncCtrl, FindCountry;
    var c := EncCtrl(T_MAP, EntryCount(es));
    HoldsSplit(data, pos, c, EncEntries(es));
    CtrlDecodes(data, pos, T_MAP, EntryCount(es));
    FindCountryEncoded(data, pos + |c|, es);
  }
}
