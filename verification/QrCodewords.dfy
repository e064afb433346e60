/** qrEncode: version selection, the padded bit stream, Reed-Solomon blocks and
    their interleaving, with the reader that undoes all of it. */
module QrCodewords {
  import opened Basics
  import opened Bits
  import opened Gf256
  import opened QrBits
  import RS = ReedSolomon

  /** Capacity and block structure at error-correction level M: g1n blocks of
      g1d data bytes followed by g2n blocks of g2d. */
  datatype Version = Version(dataBytes: nat, ecPerBlock: nat, g1n: nat, g1d: nat, g2n: nat, g2d: nat)

  const VERSIONS: seq<Version> := [
    Version(16, 10, 1, 16, 0, 0),
    Version(28, 16, 1, 28, 0, 0),
    Version(44, 26, 1, 44, 0, 0),
    Version(64, 18, 2, 32, 0, 0),
    Version(86, 24, 2, 43, 0, 0),
    Version(108, 16, 4, 27, 0, 0),
    Version(124, 18, 4, 31, 0, 0),
    Version(154, 22, 2, 38, 2, 39),
    Version(182, 22, 3, 36, 2, 37),
    Version(216, 26, 4, 43, 1, 44)
  ]

  /** What the block code relies on: the blocks use up the data bytes, the second
      group is one byte longer, and no block exceeds the 255 symbols of the code. */
  ghost predicate WellFormed(v: Version) {
    && 1 <= v.g1n && 1 <= v.g1d
    && v.g1n * v.g1d + v.g2n * v.g2d == v.dataBytes
    && (if v.g2n == 0 then v.g2d == 0 else v.g2d == v.g1d + 1)
    && v.g1d + 1 + v.ecPerBlock <= 255 && v.ecPerBlock <= 512
  }

  lemma VersionsWellFormed(i: nat)
    requires i < 10
    ensures WellFormed(VERSIONS[i])
    ensures VERSIONS[i].dataBytes >= 16
    ensures i <= 8 ==> VERSIONS[i].dataBytes <= 182
    ensures i == 9 ==> VERSIONS[i].dataBytes == 216
  {
  }

  // ---- the bit stream -----------------------------------------------------------------

  /** Width of the character count: 8 bits up to version 9, 16 from version 10. */
  function CountBits(version: nat): nat {
    if version <= 9 then 8 else 16
  }

  function ModeBits(): (s: seq<bit>)
    ensures |s| == 4
  {
    [0, 1, 0, 0]
  }

  /** Mode indicator, character count and text. */
  function Payload(text: seq<byte>, version: nat): (s: seq<bit>)
    ensures |s| == 4 + CountBits(version) + 8 * |text|
  {
    ModeBits() + BitsOf(|text|, CountBits(version)) + Unpack(text)
  }

  function ZeroBits(n: nat): seq<bit> {
    seq(n, _ => 0)
  }

  /** k alternating pad bytes 0xEC, 0x11. */
  function PadBits(k: nat): (s: seq<bit>)
    ensures |s| == 8 * k
  {
    if k == 0 then [] else PadBits(k - 1) + ByteBits(if (k - 1) % 2 == 0 then 0xEC else 0x11)
  }

  /** Up to four terminator zeros, as far as the capacity allows. */
  function Terminated(p: seq<bit>, cap: nat): (s: seq<bit>)
    ensures p <= s
    ensures |p| <= cap ==> |s| <= cap
  {
    if |p| < cap then p + ZeroBits(Min(4, cap - |p|)) else p
  }

  /** Zeros up to the next byte boundary. */
  function Aligned(p: seq<bit>): (s: seq<bit>)
    ensures p <= s && |s| % 8 == 0 && |s| < |p| + 8
  {
    p + ZeroBits(Slack(|p|))
  }

  /** Bits missing to a whole number of bytes. */
  function Slack(n: nat): (k: nat)
    ensures k < 8 && (n + k) % 8 == 0
  {
    if n % 8 == 0 then 0 else 8 - n % 8
  }

  lemma {:induction false} SlackStep(n: nat)
    requires n % 8 != 0
    ensures Slack(n) == Slack(n + 1) + 1
  {
  }

  /** Pad bytes up to the capacity. */
  function Filled(p: seq<bit>, cap: nat): (s: seq<bit>)
    requires |p| % 8 == 0 && cap % 8 == 0
    ensures p <= s && |s| >= cap
    ensures |p| <= cap ==> |s| == cap
  {
    if |p| < cap then p + PadBits((cap - |p|) / 8) else p
  }

  /** Terminator, alignment to a byte, pad bytes up to the capacity. */
  function Padded(p: seq<bit>, cap: nat): (s: seq<bit>)
    requires cap % 8 == 0
    ensures p <= s && |s| >= cap
  {
    Filled(Aligned(Terminated(p, cap)), cap)
  }

  method BuildStream(text: seq<byte>, version: nat, cap: nat) returns (bits: seq<bit>)
    requires cap % 8 == 0
    ensures bits == Padded(Payload(text, version), cap)
  {
    bits := PushAll(text, version);
    bits := Terminate(bits, cap);
    while |bits| % 8 != 0
      invariant Aligned(bits) == Aligned(Terminated(Payload(text, version), cap))
      decreases Slack(|bits|)
    {
      AlignOne(bits);
      bits := bits + [0];
    }
    bits := Fill(bits, cap);
  }

  lemma {:induction false} AlignOne(p: seq<bit>)
    requires |p| % 8 != 0
    ensures Aligned(p + [0]) == Aligned(p)
    ensures Slack(|p| + 1) < Slack(|p|)
  {
    hide Slack;
    SlackStep(|p|);
    assert [0] + ZeroBits(Slack(|p| + 1)) == ZeroBits(Slack(|p|));
    assert p + [0] + ZeroBits(Slack(|p| + 1)) == p + ([0] + ZeroBits(Slack(|p| + 1)));
  }

  method Terminate(p: seq<bit>, cap: nat) returns (bits: seq<bit>)
    ensures bits == Terminated(p, cap)
  {
    bits := p;
    var i := 0;
    while i < 4 && |bits| < cap
      invariant 0 <= i <= 4
      invariant bits == p + ZeroBits(i)
      invariant i > 0 ==> |p| + i <= cap
    {
      bits := bits + [0];
      i := i + 1;
    }
  }

  method Fill(p: seq<bit>, cap: nat) returns (bits: seq<bit>)
    requires |p| % 8 == 0 && cap % 8 == 0
    ensures bits == Filled(p, cap)
  {
    bits := p;
    var k := 0;
    while |bits| < cap
      invariant bits == p + PadBits(k)
      invariant |p| < cap ==> |p| + 8 * k <= cap
      invariant |p| >= cap ==> k == 0
      decreases cap - |bits|
    {
      var pad: byte := if k % 2 == 0 then 0xEC else 0x11;
      bits := Push(bits, pad, W);
      k := k + 1;
    }
  }

  method PushAll(text: seq<byte>, version: nat) returns (bits: seq<bit>)
    ensures bits == Payload(text, version)
  {
    bits := Push([], 4, 4);
    assert BitsOf(4, 4) == ModeBits();
    hide BitsOf, ModeBits, ByteBits;
    bits := Push(bits, |text|, CountBits(version));
    ghost var h := bits;
    for i := 0 to |text|
      invariant bits == h + Unpack(text[..i])
    {
      bits := Push(bits, text[i], W);
      assert text[..i + 1][..i] == text[..i];
    }
    assert text[..|text|] == text;
  }

  /** Reading the stream back: mode, count, then that many bytes. */
  function ParseText(s: seq<bit>, version: nat): Option<seq<byte>> {
    var cc := CountBits(version);
    if |s| < 4 + cc || s[..4] != ModeBits() then None
    else
      var count := NumOf(s[4..4 + cc]);
      if |s| < 4 + cc + 8 * count then None
      else Some(Pack(s[4 + cc..], count))
  }

  lemma {:induction false} ParseStream(s: seq<bit>, text: seq<byte>, version: nat)
    requires var cc := CountBits(version);
             && |s| >= 4 + cc && |text| < Pow2(cc)
             && s[..4] == ModeBits() && s[4..4 + cc] == BitsOf(|text|, cc)
             && (|s| >= 4 + cc + 8 * |text| ==> s[4 + cc..] == Unpack(text) + s[4 + cc + 8 * |text|..])
    ensures ParseText(s, version) ==
              if 4 + CountBits(version) + 8 * |text| <= |s| then Some(text) else None
  {
    hide BitsOf, ModeBits, Unpack, Pow2;
    var cc := CountBits(version);
    NumOfBits(|text|, cc);
    if |s| >= 4 + cc + 8 * |text| {
      PackUnpack(text, s[4 + cc + 8 * |text|..]);
    }
  }

  /** Parsing the first cap bits of the stream gives the text exactly when mode,
      count and text fit into them. */
  lemma {:induction false} ParsePadded(text: seq<byte>, version: nat, cap: nat)
    requires cap % 8 == 0 && cap >= 4 + CountBits(version) && |text| < Pow2(CountBits(version))
    ensures ParseText(Padded(Payload(text, version), cap)[..cap], version)
         == if 4 + CountBits(version) + 8 * |text| <= cap then Some(text) else None
  {
    var s := Padded(Payload(text, version), cap)[..cap];
    HeaderInStream(text, version, cap);
    if 4 + CountBits(version) + 8 * |text| <= cap { TextInStream(text, version, cap); }
    ParseStream(s, text, version);
  }

  lemma {:induction false} HeaderInStream(text: seq<byte>, version: nat, cap: nat)
    requires cap % 8 == 0 && cap >= 4 + CountBits(version)
    ensures var s, cc := Padded(Payload(text, version), cap)[..cap], CountBits(version);
            s[..4] == ModeBits() && s[4..4 + cc] == BitsOf(|text|, cc)
  {
    hide Padded, Unpack, BitsOf;
    var p := Payload(text, version);
    assert p == ModeBits() + (BitsOf(|text|, CountBits(version)) + Unpack(text));
  }

  lemma {:induction false} TextInStream(text: seq<byte>, version: nat, cap: nat)
    requires cap % 8 == 0 && cap >= 4 + CountBits(version) + 8 * |text|
    ensures var s, h := Padded(Payload(text, version), cap)[..cap], 4 + CountBits(version);
            s[h..] == Unpack(text) + s[h + 8 * |text|..]
  {
    hide Padded, Unpack, BitsOf;
    var p := Payload(text, version);
    var s := Padded(p, cap)[..cap];
    assert s == p + s[|p|..];
  }

  /** The rawData loops: every eight bits make a byte. */
  method PackBytes(bits: seq<bit>, n: nat) returns (raw: seq<byte>)
    requires 8 * n <= |bits|
    ensures raw == Pack(bits, n)
  {
    raw := [];
    for i := 0 to n
      invariant raw == Pack(bits, i)
    {
      var b: nat := 0;
      ghost var w := bits[8 * i..8 * i + 8];
      for j := 0 to 8
        invariant b == NumOf(w[..j])
      {
        b := 2 * b + bits[8 * i + j];
        assert w[..j + 1][..j] == w[..j];
      }
      assert w[..8] == w;
      assert b == ByteOf(w);
      raw := raw + [b];
    }
  }

  // ---- blocks ----------------------------------------------------------------------------

  function NumBlocks(v: Version): nat {
    v.g1n + v.g2n
  }

  /** Data bytes of block b. */
  function Size(v: Version, b: nat): nat {
    if b < v.g1n then v.g1d else v.g2d
  }

  /** Offset of block b in the raw data. */
  function Start(v: Version, b: nat): nat {
    if b <= v.g1n then b * v.g1d else v.g1n * v.g1d + (b - v.g1n) * v.g2d
  }

  lemma {:induction false} StartNext(v: Version, b: nat)
    ensures Start(v, b + 1) == Start(v, b) + Size(v, b)
  {
    if b < v.g1n {
      assert (b + 1) * v.g1d == b * v.g1d + v.g1d;
    } else {
      var c := b - v.g1n;
      assert (c + 1) * v.g2d == c * v.g2d + v.g2d;
      assert b == v.g1n ==> c * v.g2d == 0;
    }
  }

  lemma {:induction false} StartBound(v: Version, b: nat)
    requires WellFormed(v) && b <= NumBlocks(v)
    ensures Start(v, b) <= v.dataBytes
    ensures b == NumBlocks(v) ==> Start(v, b) == v.dataBytes
    decreases NumBlocks(v) - b
  {
    if b < NumBlocks(v) {
      StartBound(v, b + 1);
      StartNext(v, b);
    } else {
      assert v.g2n == 0 ==> v.g2n * v.g2d == 0;
    }
  }

  /** Block b of the raw data. */
  function Block(v: Version, raw: seq<byte>, b: nat): (d: seq<byte>)
    requires WellFormed(v) && |raw| == v.dataBytes && b < NumBlocks(v)
    ensures |d| == Size(v, b)
  {
    StartNext(v, b);
    StartBound(v, b + 1);
    raw[Start(v, b)..Start(v, b) + Size(v, b)]
  }

  /** Where byte i of block b lands in the interleaved data. */
  function DataPos(v: Version, i: nat, b: nat): int {
    if i < v.g1d then i * NumBlocks(v) + b else v.g1d * NumBlocks(v) + b - v.g1n
  }

  /** Where error-correction codeword i of block b lands. */
  function EcPos(v: Version, i: nat, b: nat): nat {
    v.dataBytes + i * NumBlocks(v) + b
  }

  /** out holds byte i of block b where a reader looks for it. */
  ghost predicate DataAt(v: Version, raw: seq<byte>, out: seq<byte>, i: nat, b: nat)
    requires WellFormed(v) && |raw| == v.dataBytes && b < NumBlocks(v) && i < Size(v, b)
  {
    0 <= DataPos(v, i, b) < |out| && out[DataPos(v, i, b)] == Block(v, raw, b)[i]
  }

  ghost predicate EcAt(v: Version, raw: seq<byte>, out: seq<byte>, i: nat, b: nat)
    requires WellFormed(v) && |raw| == v.dataBytes && b < NumBlocks(v) && i < v.ecPerBlock
  {
    EcPos(v, i, b) < |out| && out[EcPos(v, i, b)] == RS.Ecc(Block(v, raw, b), v.ecPerBlock)[i]
  }

  /** Number of codewords emitted before column i of the data. */
  function RowStart(v: Version, i: nat): nat {
    if i <= v.g1d then i * NumBlocks(v) else v.g1d * NumBlocks(v) + v.g2n
  }

  lemma {:induction false} RowNext(v: Version, i: nat)
    requires i < v.g1d
    ensures RowStart(v, i + 1) == RowStart(v, i) + NumBlocks(v)
  {
    assert (i + 1) * NumBlocks(v) == i * NumBlocks(v) + NumBlocks(v);
  }

  lemma {:induction false} LastRow(v: Version, i: nat)
    requires WellFormed(v) && i == v.g1d + (if v.g2n > 0 then 1 else 0)
    ensures RowStart(v, i) == v.dataBytes
  {
    assert v.g1d * NumBlocks(v) == v.g1n * v.g1d + v.g2n * v.g1d;
    assert v.g2n > 0 ==> v.g2n * v.g2d == v.g2n * v.g1d + v.g2n;
    assert v.g2n == 0 ==> v.g2n * v.g2d == 0 && v.g2n * v.g1d == 0;
  }

  datatype Blk = Blk(d: seq<byte>, ec: seq<byte>)

  ghost predicate BlocksOf(v: Version, raw: seq<byte>, blocks: seq<Blk>)
    requires WellFormed(v) && |raw| == v.dataBytes
  {
    && |blocks| == NumBlocks(v)
    && forall b :: 0 <= b < |blocks| ==>
         blocks[b].d == Block(v, raw, b) && blocks[b].ec == RS.Ecc(Block(v, raw, b), v.ecPerBlock)
  }

  /** addBlocks: cut the raw data and append error correction to every block. */
  method MakeBlocks(t: Tables, v: Version, raw: seq<byte>) returns (blocks: seq<Blk>)
    requires t.Valid() && WellFormed(v) && |raw| == v.dataBytes
    ensures BlocksOf(v, raw, blocks)
  {
    blocks := [];
    var pos := 0;
    for b := 0 to NumBlocks(v)
      invariant pos == Start(v, b) && |blocks| == b
      invariant forall k :: 0 <= k < b ==>
        blocks[k].d == Block(v, raw, k) && blocks[k].ec == RS.Ecc(Block(v, raw, k), v.ecPerBlock)
    {
      StartNext(v, b);
      StartBound(v, b + 1);
      var size := if b < v.g1n then v.g1d else v.g2d;
      var d := raw[pos..pos + size];
      var ec := RS.QrRS(t, d, v.ecPerBlock);
      blocks := blocks + [Blk(d, ec)];
      pos := pos + size;
    }
  }

  /** All data placed by the time column i, block b is reached. */
  ghost predicate DataDone(v: Version, raw: seq<byte>, out: seq<byte>, i: nat, b: nat)
    requires WellFormed(v) && |raw| == v.dataBytes && b <= NumBlocks(v)
  {
    forall k: nat, c: nat :: c < NumBlocks(v) && k < Size(v, c) && (k < i || (k == i && c < b))
      ==> DataAt(v, raw, out, k, c)
  }

  lemma {:induction false} DataStep(v: Version, raw: seq<byte>, out: seq<byte>, i: nat, b: nat)
    requires WellFormed(v) && |raw| == v.dataBytes && b < NumBlocks(v)
    requires DataDone(v, raw, out, i, b)
    ensures i < Size(v, b) && |out| == DataPos(v, i, b)
      ==> DataDone(v, raw, out + [Block(v, raw, b)[i]], i, b + 1)
    ensures i >= Size(v, b) ==> DataDone(v, raw, out, i, b + 1)
  {
    if i < Size(v, b) && |out| == DataPos(v, i, b) {
      var out' := out + [Block(v, raw, b)[i]];
      forall k: nat, c: nat | c < NumBlocks(v) && k < Size(v, c) && (k < i || (k == i && c < b + 1))
        ensures DataAt(v, raw, out', k, c)
      {
        if k < i || c < b { assert DataAt(v, raw, out, k, c); }
      }
    }
  }

  /** The interleaving loop over the data. */
  method InterleaveData(v: Version, ghost raw: seq<byte>, blocks: seq<Blk>) returns (out: seq<byte>)
    requires WellFormed(v) && |raw| == v.dataBytes && BlocksOf(v, raw, blocks)
    ensures |out| == v.dataBytes
    ensures DataDone(v, raw, out, v.g1d + 1, 0)
  {
    out := [];
    var maxD := if v.g2d > v.g1d then v.g2d else v.g1d;
    for i := 0 to maxD
      invariant |out| == RowStart(v, i)
      invariant DataDone(v, raw, out, i, 0)
    {
      out := InterleaveColumn(v, raw, blocks, out, i);
      if i < v.g1d { RowNext(v, i); }
    }
    LastRow(v, maxD);
  }

  method InterleaveColumn(v: Version, ghost raw: seq<byte>, blocks: seq<Blk>, before: seq<byte>, i: nat)
      returns (out: seq<byte>)
    requires WellFormed(v) && |raw| == v.dataBytes && BlocksOf(v, raw, blocks)
    requires |before| == RowStart(v, i) && DataDone(v, raw, before, i, 0)
    requires i < v.g1d || (i == v.g1d && v.g2n > 0)
    ensures |out| == |before| + if i < v.g1d then NumBlocks(v) else v.g2n
    ensures DataDone(v, raw, out, i + 1, 0)
  {
    out := before;
    for b := 0 to |blocks|
      invariant |out| == |before| + if i < v.g1d then b else if b < v.g1n then 0 else b - v.g1n
      invariant DataDone(v, raw, out, i, b)
    {
      DataStep(v, raw, out, i, b);
      if i < |blocks[b].d| {
        out := out + [blocks[b].d[i]];
      }
    }
  }

  ghost predicate EcDone(v: Version, raw: seq<byte>, out: seq<byte>, i: nat, b: nat)
    requires WellFormed(v) && |raw| == v.dataBytes && b <= NumBlocks(v)
  {
    forall k: nat, c: nat :: c < NumBlocks(v) && k < v.ecPerBlock && (k < i || (k == i && c < b))
      ==> EcAt(v, raw, out, k, c)
  }

  /** The interleaving loop over the error-correction codewords. */
  method InterleaveEc(v: Version, ghost raw: seq<byte>, blocks: seq<Blk>, data: seq<byte>) returns (out: seq<byte>)
    requires WellFormed(v) && |raw| == |data| == v.dataBytes && BlocksOf(v, raw, blocks)
    ensures data <= out && |out| == v.dataBytes + v.ecPerBlock * NumBlocks(v)
    ensures EcDone(v, raw, out, v.ecPerBlock, 0)
  {
    out := data;
    for i := 0 to v.ecPerBlock
      invariant data <= out && |out| == v.dataBytes + i * NumBlocks(v)
      invariant EcDone(v, raw, out, i, 0)
    {
      for b := 0 to |blocks|
        invariant data <= out && |out| == EcPos(v, i, b)
        invariant EcDone(v, raw, out, i, b)
      {
        EcStep(v, raw, out, i, b);
        out := out + [blocks[b].ec[i]];
      }
      assert (i + 1) * NumBlocks(v) == i * NumBlocks(v) + NumBlocks(v);
    }
  }

  lemma {:induction false} EcStep(v: Version, raw: seq<byte>, out: seq<byte>, i: nat, b: nat)
    requires WellFormed(v) && |raw| == v.dataBytes && b < NumBlocks(v) && i < v.ecPerBlock
    requires EcDone(v, raw, out, i, b) && |out| == EcPos(v, i, b)
    ensures EcDone(v, raw, out + [RS.Ecc(Block(v, raw, b), v.ecPerBlock)[i]], i, b + 1)
  {
    var out' := out + [RS.Ecc(Block(v, raw, b), v.ecPerBlock)[i]];
    forall k: nat, c: nat | c < NumBlocks(v) && k < v.ecPerBlock && (k < i || (k == i && c < b + 1))
      ensures EcAt(v, raw, out', k, c)
    {
      if k < i || c < b { assert EcAt(v, raw, out, k, c); }
    }
  }

  // ---- the encoder --------------------------------------------------------------------------

  datatype Encoded = TooLong | Codewords(version: nat, data: seq<byte>)

  /** The smallest version whose capacity is at least the length of the text; the
      mode and count bits are not considered. */
  ghost predicate Selected(len: nat, version: nat) {
    && 1 <= version <= 10
    && VERSIONS[version - 1].dataBytes >= len
    && forall i :: 0 <= i < version - 1 ==> VERSIONS[i].dataBytes < len
  }

  method SelectVersion(len: nat) returns (vi: int)
    ensures len <= 216 ==> 0 <= vi < 10 && Selected(len, vi + 1)
    ensures len > 216 ==> vi == -1
  {
    vi := -1;
    for i := 0 to 10
      invariant vi == -1
      invariant forall k :: 0 <= k < i ==> VERSIONS[k].dataBytes < len
    {
      if VERSIONS[i].dataBytes >= len {
        VersionsWellFormed(i);
        return i;
      }
    }
    assert VERSIONS[9].dataBytes == 216;
  }

  /** The raw data bytes of a text. */
  function RawData(text: seq<byte>, version: nat): (raw: seq<byte>)
    requires 1 <= version <= 10
    ensures |raw| == VERSIONS[version - 1].dataBytes
  {
    var n := VERSIONS[version - 1].dataBytes;
    Pack(Padded(Payload(text, version), 8 * n), n)
  }

  /** out is the interleaved sequence of data and error-correction codewords of a text. */
  ghost predicate IsEncoding(text: seq<byte>, version: nat, out: seq<byte>) {
    && 1 <= version <= 10
    && var v := VERSIONS[version - 1];
    && WellFormed(v)
    && |out| == v.dataBytes + v.ecPerBlock * NumBlocks(v)
    && DataDone(v, RawData(text, version), out, v.g1d + 1, 0)
    && EcDone(v, RawData(text, version), out, v.ecPerBlock, 0)
  }

  method QrEncode(t: Tables, text: seq<byte>) returns (r: Encoded)
    requires t.Valid()
    ensures r.TooLong? <==> |text| > 216
    ensures r.Codewords? ==> Selected(|text|, r.version) && IsEncoding(text, r.version, r.data)
  {
    hide Selected, WellFormed, DataDone, EcDone, Padded, Pack, IsEncoding;
    var vi := SelectVersion(|text|);
    if vi < 0 { return TooLong; }
    var version, v := vi + 1, VERSIONS[vi];
    VersionsWellFormed(vi);
    var out := EncodeIn(t, text, version, v);
    Assembled(text, version, v, out);
    r := Codewords(version, out);
  }

  lemma {:induction false} Assembled(text: seq<byte>, version: nat, v: Version, out: seq<byte>)
    requires 1 <= version <= 10 && v == VERSIONS[version - 1] && WellFormed(v)
    requires |out| == v.dataBytes + v.ecPerBlock * NumBlocks(v)
    requires var raw := Pack(Padded(Payload(text, version), v.dataBytes * 8), v.dataBytes);
             DataDone(v, raw, out, v.g1d + 1, 0) && EcDone(v, raw, out, v.ecPerBlock, 0)
    ensures IsEncoding(text, version, out)
  {
    hide WellFormed, DataDone, EcDone, Padded, Pack, Payload;
    assert RawData(text, version) == Pack(Padded(Payload(text, version), v.dataBytes * 8), v.dataBytes);
  }

  /** qrEncode once the version is chosen: stream, blocks, interleaving. */
  method EncodeIn(t: Tables, text: seq<byte>, version: nat, v: Version) returns (out: seq<byte>)
    requires t.Valid() && WellFormed(v)
    ensures |out| == v.dataBytes + v.ecPerBlock * NumBlocks(v)
    ensures var raw := Pack(Padded(Payload(text, version), v.dataBytes * 8), v.dataBytes);
            && DataDone(v, raw, out, v.g1d + 1, 0)
            && EcDone(v, raw, out, v.ecPerBlock, 0)
  {
    hide DataDone, EcDone, Padded, Payload, BlocksOf, WellFormed;
    var bits := BuildStream(text, version, v.dataBytes * 8);
    var raw := PackBytes(bits, v.dataBytes);
    var blocks := MakeBlocks(t, v, raw);
    var data := InterleaveData(v, raw, blocks);
    out := InterleaveEc(v, raw, blocks, data);
    DataSurvives(v, raw, data, out);
  }

  lemma {:induction false} DataSurvives(v: Version, raw: seq<byte>, data: seq<byte>, out: seq<byte>)
    requires WellFormed(v) && |raw| == v.dataBytes && data <= out
    requires DataDone(v, raw, data, v.g1d + 1, 0)
    ensures DataDone(v, raw, out, v.g1d + 1, 0)
  {
    forall k: nat, c: nat | c < NumBlocks(v) && k < Size(v, c) ensures DataAt(v, raw, out, k, c) {
      assert DataAt(v, raw, data, k, c);
    }
  }

  // ---- the reader ------------------------------------------------------------------------------

  function At(out: seq<byte>, p: int): byte {
    if 0 <= p < |out| then out[p] else 0
  }

  /** Block b collected from its interleaved positions. */
  function ReadBlock(v: Version, out: seq<byte>, b: nat): seq<byte> {
    seq(Size(v, b), i requires 0 <= i => At(out, DataPos(v, i, b)))
  }

  function ReadEc(v: Version, out: seq<byte>, b: nat): seq<byte> {
    seq(v.ecPerBlock, i requires 0 <= i => At(out, EcPos(v, i, b)))
  }

  /** The first b blocks, one after the other. */
  function ReadBlocks(v: Version, out: seq<byte>, b: nat): seq<byte> {
    if b == 0 then [] else ReadBlocks(v, out, b - 1) + ReadBlock(v, out, b - 1)
  }

  function Decode(version: nat, out: seq<byte>): Option<seq<byte>>
    requires 1 <= version <= 10
  {
    var v := VERSIONS[version - 1];
    ParseText(Unpack(ReadBlocks(v, out, NumBlocks(v))), version)
  }

  /** De-interleaving recovers every block and its error correction. */
  lemma {:induction false} ReadBlockBack(v: Version, raw: seq<byte>, out: seq<byte>, b: nat)
    requires WellFormed(v) && |raw| == v.dataBytes && b < NumBlocks(v)
    requires DataDone(v, raw, out, v.g1d + 1, 0) && EcDone(v, raw, out, v.ecPerBlock, 0)
    ensures ReadBlock(v, out, b) == Block(v, raw, b)
    ensures ReadEc(v, out, b) == RS.Ecc(Block(v, raw, b), v.ecPerBlock)
  {
    forall i: nat | i < Size(v, b) ensures ReadBlock(v, out, b)[i] == Block(v, raw, b)[i] {
      assert DataAt(v, raw, out, i, b);
    }
    forall i: nat | i < v.ecPerBlock ensures ReadEc(v, out, b)[i] == RS.Ecc(Block(v, raw, b), v.ecPerBlock)[i] {
      assert EcAt(v, raw, out, i, b);
    }
  }

  lemma {:induction false} ReadBlocksBack(v: Version, raw: seq<byte>, out: seq<byte>, b: nat)
    requires WellFormed(v) && |raw| == v.dataBytes && b <= NumBlocks(v)
    requires DataDone(v, raw, out, v.g1d + 1, 0) && EcDone(v, raw, out, v.ecPerBlock, 0)
    ensures Start(v, b) <= |raw| && ReadBlocks(v, out, b) == raw[..Start(v, b)]
    decreases b
  {
    hide DataDone, EcDone, ReadBlock, WellFormed;
    if b == 0 {
    } else {
      var m, n := Start(v, b - 1), Start(v, b);
      ReadBlocksBack(v, raw, out, b - 1);
      ReadBlockBack(v, raw, out, b - 1);
      StartNext(v, b - 1);
      StartBound(v, b);
      assert raw[..n] == raw[..m] + raw[m..n];
    }
  }

  lemma {:induction false} RawReadBack(v: Version, raw: seq<byte>, out: seq<byte>)
    requires WellFormed(v) && |raw| == v.dataBytes
    requires DataDone(v, raw, out, v.g1d + 1, 0) && EcDone(v, raw, out, v.ecPerBlock, 0)
    ensures ReadBlocks(v, out, NumBlocks(v)) == raw
  {
    hide DataDone, EcDone, ReadBlocks;
    ReadBlocksBack(v, raw, out, NumBlocks(v));
    StartBound(v, NumBlocks(v));
    assert raw[..|raw|] == raw;
  }

  /** What a text of this length needs to survive: mode, count and text within the capacity. */
  predicate Fits(len: nat, version: nat)
    requires 1 <= version <= 10
  {
    len + (if version <= 9 then 2 else 3) <= VERSIONS[version - 1].dataBytes
  }

  /** Reading the codewords back gives the text exactly when it fits; otherwise
      the stream was cut and nothing can be read. */
  lemma {:induction false} EncodeRoundTrip(text: seq<byte>, version: nat, out: seq<byte>)
    requires Selected(|text|, version) && IsEncoding(text, version, out)
    ensures Decode(version, out) == if Fits(|text|, version) then Some(text) else None
  {
    RawReadBack(VERSIONS[version - 1], RawData(text, version), out);
    VersionsWellFormed(version - 1);
    RawParses(text, version, VERSIONS[version - 1].dataBytes);
  }

  lemma {:induction false} RawParses(text: seq<byte>, version: nat, n: nat)
    requires |text| <= n && 16 <= n && if version <= 9 then n < 256 else n < 65536
    ensures ParseText(Unpack(Pack(Padded(Payload(text, version), 8 * n), n)), version)
         == if |text| + (if version <= 9 then 2 else 3) <= n then Some(text) else None
  {
    UnpackPack(Padded(Payload(text, version), 8 * n), n);
    CountFits(CountBits(version));
    ParsePadded(text, version, 8 * n);
  }

  lemma CountFits(cc: nat)
    ensures cc == 8 ==> Pow2(cc) == 256
    ensures cc == 16 ==> Pow2(cc) == 65536
  {
  }

  /** Each block a reader collects has vanishing syndromes and, with its length
      within 255, the full distance of the code. */
  lemma {:induction false} BlocksAreCodewords(text: seq<byte>, version: nat, out: seq<byte>, b: nat)
    requires IsEncoding(text, version, out) && b < NumBlocks(VERSIONS[version - 1])
    ensures var v := VERSIONS[version - 1];
            var w := ReadBlock(v, out, b) + ReadEc(v, out, b);
            |w| <= 255 && forall k :: 0 <= k < v.ecPerBlock ==> RS.Eval(w, Exp(k)) == 0
  {
    var v, raw := VERSIONS[version - 1], RawData(text, version);
    ReadBlockBack(v, raw, out, b);
    forall k | 0 <= k < v.ecPerBlock ensures RS.Eval(ReadBlock(v, out, b) + ReadEc(v, out, b), Exp(k)) == 0 {
      RS.SyndromesVanish(Block(v, raw, b), v.ecPerBlock, k);
    }
  }

  /** A 16-byte text selects version 1, whose 128 bits cannot hold the 140 needed. */
  lemma SixteenBytesLost(text: seq<byte>, version: nat, out: seq<byte>)
    requires |text| == 16 && Selected(16, version) && IsEncoding(text, version, out)
    ensures version == 1 && Decode(version, out) == None
  {
    assert VERSIONS[0].dataBytes == 16;
    EncodeRoundTrip(text, version, out);
  }
}
