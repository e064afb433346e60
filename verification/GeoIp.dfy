/** The GeoIP reader: a table of country codes indexed by leaf value, filled by a
    depth-first search of the database's binary tree, against the direct lookup that
    walks the tree and decodes the record it reaches. */
module GeoIp {
  import opened Basics
  import opened Bits
  import opened Mmdb

  const MAX_NODES: nat := 0x1000_0000

  /** A database file with the validated parts of its metadata. */
  datatype Db = Db(raw: seq<byte>, nodeCount: nat, recordSize: nat)

  function BytesPerNode(db: Db): nat {
    (db.recordSize * 2 + 7) / 8
  }

  /** Start of the data section: the tree, then a separator of 16 bytes. */
  function DataBase(db: Db): nat {
    db.nodeCount * BytesPerNode(db) + 16
  }

  /** The checks a database passes before it is opened. */
  predicate Opens(db: Db) {
    && 1 <= db.nodeCount <= MAX_NODES
    && (db.recordSize == 24 || db.recordSize == 28 || db.recordSize == 32)
    && DataBase(db) <= |db.raw|
  }

  // ---- the tree -------------------------------------------------------------------------

  function Int24(a: byte, b: byte, c: byte): (r: nat)
    ensures r < 0x100_0000
  {
    var x: int, y: int, z: int := a, b, c;
    0x1_0000 * x + 0x100 * y + z
  }

  /** One of the two records in the bytes of a node. */
  function RecordIn(recordSize: nat, s: seq<byte>, dir: bit): (r: nat)
    requires recordSize == 24 || recordSize == 28 || recordSize == 32
    requires |s| == recordSize / 4
    ensures r < 0x1_0000_0000
  {
    if recordSize == 24 then
      Int24(s[3 * dir], s[3 * dir + 1], s[3 * dir + 2])
    else if recordSize == 28 then
      var mid: int := s[3];
      if dir == 0 then 0x100_0000 * (mid / 16) + Int24(s[0], s[1], s[2])
      else 0x100_0000 * (mid % 16) + Int24(s[4], s[5], s[6])
    else
      var top: int := s[4 * dir];
      0x100_0000 * top + Int24(s[4 * dir + 1], s[4 * dir + 2], s[4 * dir + 3])
  }

  /** The record of a node in one direction; the node count stands for no data. */
  function ReadRecord(db: Db, node: nat, dir: bit): (r: nat)
    requires Opens(db)
    ensures r < 0x1_0000_0000
  {
    var b, w := node * BytesPerNode(db), BytesPerNode(db);
    if b + w > DataBase(db) then db.nodeCount else RecordIn(db.recordSize, db.raw[b..b + w], dir)
  }

  /** Records are below 2 to the record size. */
  function RecordLimit(recordSize: nat): nat {
    if recordSize == 24 then 0x100_0000 else if recordSize == 28 then 0x1000_0000 else 0x1_0000_0000
  }

  function Bytes24(v: nat): (s: seq<byte>)
    requires v < 0x100_0000
    ensures |s| == 3 && Int24(s[0], s[1], s[2]) == v
  {
    [v / 0x1_0000, v / 0x100 % 0x100, v % 0x100]
  }

  /** The bytes of a node holding two records, as the format lays them out. */
  function EncodeNode(recordSize: nat, left: nat, right: nat): (s: seq<byte>)
    requires recordSize == 24 || recordSize == 28 || recordSize == 32
    requires left < RecordLimit(recordSize) && right < RecordLimit(recordSize)
    ensures |s| == recordSize / 4
    ensures RecordIn(recordSize, s, 0) == left && RecordIn(recordSize, s, 1) == right
  {
    var l, r := left / 0x100_0000, right / 0x100_0000;
    var left24, right24 := Bytes24(left % 0x100_0000), Bytes24(right % 0x100_0000);
    if recordSize == 24 then left24 + right24
    else if recordSize == 28 then left24 + [16 * l + r] + right24
    else [l] + left24 + [r] + right24
  }

  /** A node laid out by the format is read back as its two records. */
  lemma {:induction false} NodeRoundTrip(db: Db, node: nat, left: nat, right: nat)
    requires Opens(db) && node < db.nodeCount
    requires left < RecordLimit(db.recordSize) && right < RecordLimit(db.recordSize)
    requires Holds(db.raw, node * (db.recordSize / 4), EncodeNode(db.recordSize, left, right))
    ensures ReadRecord(db, node, 0) == left && ReadRecord(db, node, 1) == right
  {
    hide RecordIn, EncodeNode;
    NodeFits(db, node);
  }

  /** The guard of readRecord never fires for a node of the tree. */
  lemma {:induction false} NodeFits(db: Db, node: nat)
    requires Opens(db) && node < db.nodeCount
    ensures node * BytesPerNode(db) + BytesPerNode(db) <= DataBase(db)
  {
    MulMono(BytesPerNode(db), node + 1, db.nodeCount);
  }

  /** Bit number i of an address. */
  function AddressBit(ip: nat, i: nat): bit {
    ip / Pow2(i) % 2
  }

  /** Where the low bits of an address lead from a node. */
  function Walk(db: Db, node: nat, ip: nat, bits: nat): nat
    requires Opens(db)
    decreases bits, ip
  {
    if bits == 0 then node
    else
      var next := ReadRecord(db, node, AddressBit(ip, bits - 1));
      if next >= db.nodeCount then next else Walk(db, next, ip, bits - 1)
  }

  /** Walk the tree and decode the record of the leaf. */
  function Direct(db: Db, ip: nat): Option<IsoEntry>
    requires Opens(db)
  {
    var leaf := Walk(db, 0, ip, 32);
    if leaf <= db.nodeCount + 15 then None
    else Found(DecodeIso(db.raw, DataBase(db) + (leaf - db.nodeCount - 16)))
  }

  function Found(iso: IsoEntry): Option<IsoEntry> {
    if iso == NO_ISO then None else Some(iso)
  }

  // ---- leaves of the tree, and the table of their codes ----------------------------------

  /** The node some directions lead to from the root; -1 once they leave the tree. */
  ghost function NodeAt(db: Db, path: seq<bit>): (n: int)
    requires Opens(db)
    ensures -1 <= n < db.nodeCount
  {
    if |path| == 0 then 0
    else
      var p := NodeAt(db, path[..|path| - 1]);
      if p < 0 then -1
      else
        var child := ReadRecord(db, p, path[|path| - 1]);
        if child < db.nodeCount then child else -1
  }

  ghost predicate Reached(db: Db, n: nat)
    requires Opens(db)
  {
    exists path :: NodeAt(db, path) == n
  }

  /** A record beyond the separator that some node of the tree holds. */
  ghost predicate IsLeaf(db: Db, leaf: nat)
    requires Opens(db)
  {
    leaf >= db.nodeCount + 16 && exists n, dir :: Reached(db, n) && ReadRecord(db, n, dir) == leaf
  }

  /** table gives the code of every leaf of the tree, and nothing else. */
  ghost predicate IsIndex(db: Db, table: seq<IsoEntry>)
    requires Opens(db)
  {
    && (forall leaf: nat :: IsLeaf(db, leaf) ==> leaf - db.nodeCount - 16 < |table|)
    && forall i :: 0 <= i < |table| ==>
         table[i] == if IsLeaf(db, i + db.nodeCount + 16) then DecodeIso(db.raw, DataBase(db) + i) else NO_ISO
  }

  /** Lookup through the table. */
  function TableLookup(db: Db, table: seq<IsoEntry>, ip: nat): Option<IsoEntry>
    requires Opens(db)
  {
    var leaf := Walk(db, 0, ip, 32);
    if leaf <= db.nodeCount + 15 then None
    else
      var i := leaf - db.nodeCount - 16;
      if i >= |table| then None else Found(table[i])
  }

  lemma {:induction false} ReachedChild(db: Db, n: nat, dir: bit)
    requires Opens(db) && Reached(db, n) && ReadRecord(db, n, dir) < db.nodeCount
    ensures Reached(db, ReadRecord(db, n, dir))
  {
    hide ReadRecord;
    var path :| NodeAt(db, path) == n;
    assert (path + [dir])[..|path|] == path;
    assert NodeAt(db, path + [dir]) == ReadRecord(db, n, dir);
  }

  lemma ReachedRoot(db: Db)
    requires Opens(db)
    ensures Reached(db, 0)
  {
    assert NodeAt(db, []) == 0;
  }

  /** Any walk from a node of the tree ends below the data section or at a leaf. */
  lemma {:induction false} WalkEnds(db: Db, node: nat, ip: nat, bits: nat)
    requires Opens(db) && Reached(db, node) && node < db.nodeCount
    ensures var leaf := Walk(db, node, ip, bits); leaf < db.nodeCount + 16 || IsLeaf(db, leaf)
    decreases bits
  {
    hide ReadRecord, Reached, AddressBit;
    if bits == 0 {
    } else {
      var dir := AddressBit(ip, bits - 1);
      var next := ReadRecord(db, node, dir);
      if next < db.nodeCount {
        ReachedChild(db, node, dir);
        WalkEnds(db, next, ip, bits - 1);
      }
    }
  }

  /** The table and the direct lookup agree on every address. */
  lemma {:induction false} IndexAgrees(db: Db, table: seq<IsoEntry>, ip: nat)
    requires Opens(db) && IsIndex(db, table)
    ensures TableLookup(db, table, ip) == Direct(db, ip)
  {
    hide Walk, Reached, IsLeaf, DecodeIso;
    ReachedRoot(db);
    WalkEnds(db, 0, ip, 32);
  }

  // ---- building the table -------------------------------------------------------------------

  /** A child is known: as a node to visit, as a leaf, or as no data. */
  ghost predicate Known(db: Db, child: nat, nodes: set<nat>, leaves: set<nat>) {
    if child < db.nodeCount then child in nodes else child < db.nodeCount + 16 || child in leaves
  }

  ghost predicate Closed(db: Db, done: set<nat>, nodes: set<nat>, leaves: set<nat>)
    requires Opens(db)
  {
    forall n, dir: bit :: n in done ==> Known(db, ReadRecord(db, n, dir), nodes, leaves)
  }

  ghost predicate AllReached(db: Db, nodes: set<nat>, leaves: set<nat>)
    requires Opens(db)
  {
    && (forall n :: n in nodes ==> Reached(db, n) && n < db.nodeCount)
    && forall l :: l in leaves ==> IsLeaf(db, l)
  }

  ghost function Elements(s: seq<nat>): set<nat> {
    set x | x in s
  }

  ghost function NodesBelow(k: nat): (s: set<nat>)
    ensures forall n: nat :: n in s <==> n < k
  {
    if k == 0 then {} else NodesBelow(k - 1) + {k - 1}
  }

  /** A set of nodes that holds the root and is closed under children holds every node. */
  lemma {:induction false} ClosedHolds(db: Db, nodes: set<nat>, leaves: set<nat>, path: seq<bit>)
    requires Opens(db) && 0 in nodes && Closed(db, nodes, nodes, leaves) && NodeAt(db, path) >= 0
    ensures NodeAt(db, path) in nodes
    decreases |path|
  {
    hide ReadRecord;
    if |path| == 0 {
    } else {
      var p := NodeAt(db, path[..|path| - 1]);
      ClosedHolds(db, nodes, leaves, path[..|path| - 1]);
      assert Known(db, ReadRecord(db, p, path[|path| - 1]), nodes, leaves);
    }
  }

  lemma {:induction false} ClosedLeaves(db: Db, nodes: set<nat>, leaves: set<nat>, leaf: nat)
    requires Opens(db) && 0 in nodes && Closed(db, nodes, nodes, leaves) && AllReached(db, nodes, leaves)
    ensures leaf in leaves <==> IsLeaf(db, leaf)
  {
    hide ReadRecord, NodeAt;
    if IsLeaf(db, leaf) {
      var n, dir :| Reached(db, n) && ReadRecord(db, n, dir) == leaf;
      var path :| NodeAt(db, path) == n;
      ClosedHolds(db, nodes, leaves, path);
      assert Known(db, ReadRecord(db, n, dir), nodes, leaves);
    }
  }

  // ---- networks ---------------------------------------------------------------------------------

  /** The number some binary digits write, most significant first. */
  ghost function ValueOf(digits: seq<bit>): (v: nat)
    ensures v < Pow2(|digits|)
  {
    if |digits| == 0 then 0 else 2 * ValueOf(digits[..|digits| - 1]) + digits[|digits| - 1]
  }

  /** The address lies in the network of a prefix: an interval of addresses. */
  ghost predicate InNetwork(ip: nat, prefix: seq<bit>) {
    && |prefix| <= 32
    && var size := Pow2(32 - |prefix|);
    ValueOf(prefix) * size <= ip < (ValueOf(prefix) + 1) * size
  }

  /** The digits of a prefix lead along the tree to a record outside it. */
  ghost predicate IsNetwork(db: Db, prefix: seq<bit>)
    requires Opens(db)
  {
    && 0 < |prefix| <= 32
    && var n := NodeAt(db, prefix[..|prefix| - 1]);
    && n >= 0 && ReadRecord(db, n, prefix[|prefix| - 1]) >= db.nodeCount
  }

  ghost function RecordOf(db: Db, prefix: seq<bit>): nat
    requires Opens(db) && IsNetwork(db, prefix)
  {
    ReadRecord(db, NodeAt(db, prefix[..|prefix| - 1]), prefix[|prefix| - 1])
  }

  /** Where the format keeps what a record points at: the record counts on from the last node, over the
      bytes after the tree. */
  function DataAt(db: Db, record: nat): nat
    requires record >= db.nodeCount
  {
    db.nodeCount * (db.recordSize / 4) + (record - db.nodeCount)
  }

  /** Two bytes as a code: two zeros stand for none. */
  function CodeIn(iso: IsoEntry): Option<IsoEntry> {
    if iso == (0, 0) then None else Some(iso)
  }

  /** The country code a record stands for: none within the 16 bytes that follow the tree. */
  ghost function CodeOf(db: Db, record: nat): Option<IsoEntry>
    requires Opens(db)
  {
    if record < db.nodeCount + 16 then None else CodeIn(DecodeIso(db.raw, DataAt(db, record)))
  }

  lemma {:induction false} IntervalWithin(ip: nat, size: nat, v: nat)
    requires v * size <= ip < (v + 1) * size
    ensures v / 2 * (2 * size) <= ip < (v / 2 + 1) * (2 * size)
    ensures ip / size == v
  {
    var w := v / 2;
    assert w * (2 * size) == size * (2 * w) && (w + 1) * (2 * size) == size * (2 * w + 2);
    MulMono(size, 2 * w, v);
    MulMono(size, v + 1, 2 * w + 2);
    DivUnique(ip, size, v, ip - v * size);
  }

  lemma {:induction false} IntervalHalf(ip: nat, size: nat, w: nat)
    requires size > 0 && w * (2 * size) <= ip < (w + 1) * (2 * size)
    ensures var q := ip / size; q / 2 == w && q * size <= ip < (q + 1) * size
  {
    var q := ip / size;
    assert ip == size * q + ip % size;
    assert (q + 1) * size == size * q + size;
    assert w * (2 * size) == size * (2 * w) && (w + 1) * (2 * size) == size * (2 * w + 2);
    if q < 2 * w {
      MulMono(size, q + 1, 2 * w);
    } else if q >= 2 * w + 2 {
      MulMono(size, 2 * w + 2, q);
    }
  }

  /** A network lies in the one with a digit less, and that digit is a bit of its addresses. */
  lemma {:induction false} NetworkWithin(ip: nat, prefix: seq<bit>)
    requires 0 < |prefix| <= 32 && InNetwork(ip, prefix)
    ensures InNetwork(ip, prefix[..|prefix| - 1])
    ensures AddressBit(ip, 32 - |prefix|) == prefix[|prefix| - 1]
  {
    var k := |prefix|;
    var size, v := Pow2(32 - k), ValueOf(prefix);
    assert Pow2(32 - (k - 1)) == 2 * size;
    assert v / 2 == ValueOf(prefix[..k - 1]) && v % 2 == prefix[k - 1];
    hide ValueOf, Pow2;
    IntervalWithin(ip, size, v);
  }

  /** Following the digits of a network that contains the address is walking the address. */
  lemma {:induction false} WalkFollows(db: Db, ip: nat, prefix: seq<bit>)
    requires Opens(db) && |prefix| <= 32 && InNetwork(ip, prefix) && NodeAt(db, prefix) >= 0
    ensures Walk(db, 0, ip, 32) == Walk(db, NodeAt(db, prefix), ip, 32 - |prefix|)
    decreases |prefix|
  {
    hide ReadRecord, AddressBit, InNetwork;
    if |prefix| == 0 {
    } else {
      NetworkWithin(ip, prefix);
      WalkFollows(db, ip, prefix[..|prefix| - 1]);
    }
  }

  /** Every address of a network gets the code of the record that the network's prefix leads to. */
  lemma {:induction false} NetworkAnswered(db: Db, ip: nat, prefix: seq<bit>)
    requires Opens(db) && IsNetwork(db, prefix) && InNetwork(ip, prefix)
    ensures Direct(db, ip) == CodeOf(db, RecordOf(db, prefix))
  {
    hide ReadRecord, AddressBit, InNetwork, DecodeIso, NodeAt;
    NetworkWithin(ip, prefix);
    WalkFollows(db, ip, prefix[..|prefix| - 1]);
  }

  /** The first digits of an address. */
  ghost function DigitsOf(ip: nat, k: nat): (s: seq<bit>)
    requires k <= 32
    ensures |s| == k
  {
    if k == 0 then [] else DigitsOf(ip, k - 1) + [AddressBit(ip, 32 - k)]
  }

  lemma {:induction false} NextDigit(ip: nat, k: nat)
    requires 0 < k <= 32 && InNetwork(ip, DigitsOf(ip, k - 1))
    ensures InNetwork(ip, DigitsOf(ip, k))
  {
    var digits, before, size := DigitsOf(ip, k), DigitsOf(ip, k - 1), Pow2(32 - k);
    assert Pow2(32 - (k - 1)) == 2 * size;
    assert digits[..k - 1] == before && digits[k - 1] == ip / size % 2;
    assert ValueOf(digits) == 2 * ValueOf(before) + digits[k - 1];
    hide DigitsOf, Pow2, ValueOf;
    IntervalHalf(ip, size, ValueOf(before));
  }

  lemma {:induction false} DigitsNetwork(ip: nat, k: nat)
    requires k <= 32 && ip < Pow2(32)
    ensures InNetwork(ip, DigitsOf(ip, k))
    decreases k
  {
    hide Pow2;
    if k == 0 {
      assert ValueOf([]) == 0;
    } else {
      hide InNetwork;
      DigitsNetwork(ip, k - 1);
      NextDigit(ip, k);
    }
  }

  /** An address in no network has no code: all its 32 digits lead to nodes of the tree. */
  lemma {:induction false} OtherwiseNone(db: Db, ip: nat)
    requires Opens(db) && ip < Pow2(32)
    requires forall prefix :: IsNetwork(db, prefix) ==> !InNetwork(ip, prefix)
    ensures Direct(db, ip) == None
  {
    StaysInside(db, ip, 32);
    DigitsNetwork(ip, 32);
    WalkFollows(db, ip, DigitsOf(ip, 32));
  }

  lemma {:induction false} Answered(db: Db, ip: nat)
    requires Opens(db) && ip < 0x1_0000_0000
    ensures forall prefix :: IsNetwork(db, prefix) && InNetwork(ip, prefix) ==>
              Direct(db, ip) == CodeOf(db, RecordOf(db, prefix))
    ensures (forall prefix :: IsNetwork(db, prefix) ==> !InNetwork(ip, prefix)) ==> Direct(db, ip) == None
  {
    Pow2Of32();
    hide Walk, Direct, IsNetwork, InNetwork, RecordOf, CodeOf;
    forall prefix | IsNetwork(db, prefix) && InNetwork(ip, prefix)
      ensures Direct(db, ip) == CodeOf(db, RecordOf(db, prefix))
    {
      NetworkAnswered(db, ip, prefix);
    }
    if forall prefix :: IsNetwork(db, prefix) ==> !InNetwork(ip, prefix) { OtherwiseNone(db, ip); }
  }

  lemma {:induction false} StaysInside(db: Db, ip: nat, k: nat)
    requires Opens(db) && ip < Pow2(32) && k <= 32
    requires forall prefix :: IsNetwork(db, prefix) ==> !InNetwork(ip, prefix)
    ensures NodeAt(db, DigitsOf(ip, k)) >= 0
    decreases k
  {
    hide ReadRecord, AddressBit, InNetwork;
    if k == 0 {
    } else {
      StaysInside(db, ip, k - 1);
      DigitsNetwork(ip, k);
      assert DigitsOf(ip, k)[..k - 1] == DigitsOf(ip, k - 1);
      assert !IsNetwork(db, DigitsOf(ip, k));
    }
  }

  // ---- the reader -------------------------------------------------------------------------------

  class GeoIpReader {
    const db: Db
    var isoTable: array<IsoEntry>

    ghost predicate Valid()
      reads this, isoTable
    {
      Opens(db) && IsIndex(db, isoTable[..])
    }

    /** OpenGeoIP from the point where the metadata has been read. */
    constructor (db: Db)
      requires Opens(db)
      ensures Valid() && this.db == db && fresh(isoTable)
    {
      var leaves := CollectLeaves(db);
      var table := FillTable(db, leaves);
      this.db, isoTable := db, table;
    }

    /** traverseTree. */
    method TraverseTree(ip: nat) returns (node: nat)
      requires Opens(db)
      ensures node == Walk(db, 0, ip, 32)
    {
      hide ReadRecord, AddressBit;
      node := 0;
      var bit: int := 31;
      while bit >= 0
        invariant -1 <= bit <= 31
        invariant Walk(db, 0, ip, 32) == Walk(db, node, ip, bit + 1)
      {
        node := ReadRecord(db, node, AddressBit(ip, bit));
        if node >= db.nodeCount { return; }
        bit := bit - 1;
      }
    }

    /** LookupIPv4 answers what walking the tree and decoding the record would: the code of the network
        that contains the address, and none if no network does. */
    method LookupIPv4(ip: nat) returns (iso: Option<IsoEntry>)
      requires Valid() && ip < 0x1_0000_0000
      ensures iso == Direct(db, ip)
      ensures forall prefix :: IsNetwork(db, prefix) && InNetwork(ip, prefix) ==>
                iso == CodeOf(db, RecordOf(db, prefix))
      ensures (forall prefix :: IsNetwork(db, prefix) ==> !InNetwork(ip, prefix)) ==> iso == None
    {
      hide Walk, IsIndex, DecodeIso, IsNetwork, InNetwork, RecordOf, CodeOf;
      Answered(db, ip);
      IndexAgrees(db, isoTable[..], ip);
      var leaf := TraverseTree(ip);
      if leaf <= db.nodeCount + 15 { return None; }
      var i := leaf - db.nodeCount - 16;
      if i >= isoTable.Length { return None; }
      var entry := isoTable[i];
      if entry == NO_ISO { return None; }
      return Some(entry);
    }
  }

  /** The depth-first search of buildISOTable. */
  method CollectLeaves(db: Db) returns (leafSet: set<nat>)
    requires Opens(db)
    ensures forall leaf: nat :: leaf in leafSet <==> IsLeaf(db, leaf)
  {
    hide ReadRecord, Reached, IsLeaf, Known, NodeAt;
    var visited: set<nat> := {};
    leafSet := {};
    var stack := [0];
    ReachedRoot(db);
    while |stack| > 0
      invariant 0 in visited + Elements(stack)
      invariant Closed(db, visited, visited + Elements(stack), leafSet)
      invariant AllReached(db, visited + Elements(stack), leafSet)
      decreases NodesBelow(db.nodeCount) - visited, |stack|
    {
      var top := stack[|stack| - 1];
      ghost var before := stack;
      stack := stack[..|stack| - 1];
      assert Elements(before) == Elements(stack) + {top};
      if top in visited {
        assert visited + Elements(before) == visited + Elements(stack);
        continue;
      }
      assert visited + {top} + Elements(stack) == visited + Elements(before);
      stack, leafSet := Expand(db, top, visited, stack, leafSet);
      visited := visited + {top};
    }
    assert visited + Elements(stack) == visited;
    forall leaf: nat ensures leaf in leafSet <==> IsLeaf(db, leaf) {
      ClosedLeaves(db, visited, leafSet, leaf);
    }
  }

  /** Its inner loop: both children of a node go on the stack or into the leaf set. */
  method Expand(db: Db, top: nat, ghost visited: set<nat>, stack0: seq<nat>, leafSet0: set<nat>)
      returns (stack: seq<nat>, leafSet: set<nat>)
    requires Opens(db) && Reached(db, top) && top < db.nodeCount
    requires Closed(db, visited, visited + {top} + Elements(stack0), leafSet0)
    requires AllReached(db, visited + {top} + Elements(stack0), leafSet0)
    ensures Elements(stack0) <= Elements(stack)
    ensures Closed(db, visited + {top}, visited + {top} + Elements(stack), leafSet)
    ensures AllReached(db, visited + {top} + Elements(stack), leafSet)
  {
    hide ReadRecord, Reached, NodeAt;
    stack, leafSet := stack0, leafSet0;
    var dir := 0;
    while dir <= 1
      invariant 0 <= dir <= 2
      invariant Elements(stack0) <= Elements(stack) && leafSet0 <= leafSet
      invariant forall d: bit :: d < dir ==>
        Known(db, ReadRecord(db, top, d), visited + {top} + Elements(stack), leafSet)
      invariant AllReached(db, visited + {top} + Elements(stack), leafSet)
    {
      var child := ReadRecord(db, top, dir);
      if child >= db.nodeCount {
        if child >= db.nodeCount + 16 {
          leafSet := leafSet + {child};
        }
      } else {
        ReachedChild(db, top, dir);
        ghost var before := stack;
        stack := stack + [child];
        assert Elements(stack) == Elements(before) + {child};
      }
      dir := dir + 1;
    }
  }

  /** The largest table index of a set of leaves. */
  method MaxIndex(db: Db, leafSet: set<nat>) returns (maxIdx: nat)
    requires forall leaf: nat :: leaf in leafSet ==> leaf >= db.nodeCount + 16
    ensures forall leaf: nat :: leaf in leafSet ==> leaf - db.nodeCount - 16 <= maxIdx
  {
    maxIdx := 0;
    var rest := leafSet;
    while rest != {}
      invariant rest <= leafSet
      invariant forall leaf: nat :: leaf in leafSet && leaf !in rest ==> leaf - db.nodeCount - 16 <= maxIdx
      decreases rest
    {
      var leaf :| leaf in rest;
      var idx := leaf - db.nodeCount - 16;
      if idx > maxIdx { maxIdx := idx; }
      rest := rest - {leaf};
    }
  }

  /** The table of buildISOTable, from the leaves that the search collected. */
  method FillTable(db: Db, leafSet: set<nat>) returns (table: array<IsoEntry>)
    requires Opens(db) && forall leaf: nat :: leaf in leafSet <==> IsLeaf(db, leaf)
    ensures fresh(table) && IsIndex(db, table[..])
  {
    hide IsLeaf, DecodeIso, DataBase;
    assert forall leaf: nat :: leaf in leafSet ==> leaf >= db.nodeCount + 16 by {
      forall leaf: nat | leaf in leafSet ensures leaf >= db.nodeCount + 16 { LeafBeyond(db, leaf); }
    }
    if leafSet == {} {
      table := new IsoEntry[0];
      return;
    }
    var maxIdx := MaxIndex(db, leafSet);
    table := new IsoEntry[maxIdx + 1](_ => NO_ISO);
    var rest := leafSet;
    while rest != {}
      invariant rest <= leafSet
      invariant forall i :: 0 <= i < table.Length ==>
        table[i] == if i + db.nodeCount + 16 in leafSet - rest then DecodeIso(db.raw, DataBase(db) + i) else NO_ISO
      decreases rest
    {
      var leaf :| leaf in rest;
      var idx := leaf - db.nodeCount - 16;
      var pos := DataBase(db) + idx;
      if pos < |db.raw| {
        table[idx] := DecodeIsoCode(db.raw, pos);
      } else {
        DecodePastEnd(db.raw, pos);
      }
      rest := rest - {leaf};
    }
    assert leafSet - rest == leafSet;
  }

  lemma LeafBeyond(db: Db, leaf: nat)
    requires Opens(db) && IsLeaf(db, leaf)
    ensures leaf >= db.nodeCount + 16
  {
  }

  lemma DecodePastEnd(data: seq<byte>, pos: nat)
    requires pos >= |data|
    ensures DecodeIso(data, pos) == NO_ISO
  {
  }

  // ---- well-formed databases -------------------------------------------------------------------

  /** Every address of a network whose record points at an encoded record gets that record's country
      code. */
  lemma {:induction false} RecordFound(db: Db, table: seq<IsoEntry>, ip: nat, prefix: seq<bit>, es: Entries)
    requires Opens(db) && IsIndex(db, table) && Encodable(Map(es))
    requires IsNetwork(db, prefix) && InNetwork(ip, prefix) && RecordOf(db, prefix) >= db.nodeCount + 16
    requires Holds(db.raw, DataAt(db, RecordOf(db, prefix)), EncValue(Map(es)))
    ensures TableLookup(db, table, ip) == CodeIn(CountryOf(es))
  {
    hide Walk, IsIndex, DecodeIso, EncValue, CountryOf, Encodable, Holds, IsNetwork, InNetwork, RecordOf;
    IndexAgrees(db, table, ip);
    NetworkAnswered(db, ip, prefix);
    DecodeEncoded(db.raw, DataAt(db, RecordOf(db, prefix)), es);
  }
}
