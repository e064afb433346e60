/** The data codewords of a symbol byte by byte, as ISO/IEC 18004 lays out byte mode: a stream of
    hexadecimal digits, and pad bytes. */
module QrStream {
  import opened Bits
  import opened QrBits
  import opened QrCodewords

  type digit = x: int | 0 <= x < 16

  /** The hexadecimal digits of bytes, high digit first. */
  function Hex(bytes: seq<byte>): (s: seq<digit>)
    ensures |s| == 2 * |bytes|
  {
    if |bytes| == 0 then []
    else Hex(bytes[..|bytes| - 1]) + [bytes[|bytes| - 1] / 16, bytes[|bytes| - 1] % 16]
  }

  function Pair(high: digit, low: digit): byte {
    var h: int, l: int := high, low;
    16 * h + l
  }

  /** Digits two by two as bytes. */
  function Bytes(s: seq<digit>): (bytes: seq<byte>)
    requires |s| % 2 == 0
    ensures |bytes| == |s| / 2
  {
    seq(|s| / 2, i requires 0 <= i < |s| / 2 => Pair(s[2 * i], s[2 * i + 1]))
  }

  /** Byte mode, the length in one byte or, from version 10 on, two, the text, and a zero to end it. */
  function Stream(text: seq<byte>, version: nat): (s: seq<digit>)
    requires |text| < if version <= 9 then 256 else 65536
    ensures |s| % 2 == 0
  {
    [4] + (if version <= 9 then Hex([|text|]) else Hex([|text| / 256, |text| % 256])) + Hex(text) + [0]
  }

  /** The pad bytes 236 and 17 in turn. */
  function Pads(k: nat): (s: seq<byte>)
    ensures |s| == k
  {
    seq(k, i => if i % 2 == 0 then 236 else 17)
  }

  // ---- digits as bits --------------------------------------------------------------------------

  ghost function DigitBits(s: seq<digit>): (r: seq<bit>)
    ensures |r| == 4 * |s|
  {
    if |s| == 0 then [] else DigitBits(s[..|s| - 1]) + BitsOf(s[|s| - 1], 4)
  }

  lemma {:induction false} DigitBitsConcat(s: seq<digit>, t: seq<digit>)
    ensures DigitBits(s + t) == DigitBits(s) + DigitBits(t)
    decreases |t|
  {
    hide BitsOf;
    if |t| == 0 {
      assert s + t == s;
    } else {
      var init := t[..|t| - 1];
      assert (s + t)[..|s + t| - 1] == s + init;
      DigitBitsConcat(s, init);
    }
  }

  lemma {:induction false} DigitBitsOne(d: digit)
    ensures DigitBits([d]) == BitsOf(d, 4)
  {
    hide BitsOf;
    assert [d][..0] == [];
    assert DigitBits([d]) == DigitBits([]) + BitsOf(d, 4);
  }

  lemma {:induction false} DigitBitsTwo(d: digit, e: digit)
    ensures DigitBits([d, e]) == BitsOf(d, 4) + BitsOf(e, 4)
  {
    hide BitsOf, DigitBits;
    assert [d] + [e] == [d, e];
    DigitBitsConcat([d], [e]);
    DigitBitsOne(d);
    DigitBitsOne(e);
  }

  lemma {:induction false} BitsSplit(v: nat, j: nat, k: nat, q: nat, r: nat)
    requires v == Pow2(k) * q + r && r < Pow2(k)
    ensures BitsOf(v, j + k) == BitsOf(q, j) + BitsOf(r, k)
    decreases k
  {
    if k == 0 {
    } else {
      HalfSplit(v, Pow2(k - 1), q, r);
      BitsSplit(v / 2, j, k - 1, q, r / 2);
      LastBit(v, j + k);
      LastBit(r, k);
      hide BitsOf;
    }
  }

  lemma LastBit(v: nat, n: nat)
    requires n > 0
    ensures BitsOf(v, n) == BitsOf(v / 2, n - 1) + [v % 2]
  {
  }

  lemma {:induction false} ByteDigits(b: byte)
    ensures BitsOf(b, 8) == DigitBits([b / 16, b % 16])
  {
    hide BitsOf, DigitBits;
    assert Pow2(4) == 16;
    BitsSplit(b, 4, 4, b / 16, b % 16);
    DigitBitsTwo(b / 16, b % 16);
  }

  lemma {:induction false} HexBits(bytes: seq<byte>)
    ensures DigitBits(Hex(bytes)) == Unpack(bytes)
  {
    hide BitsOf, DigitBits;
    if |bytes| == 0 {
      NoBits();
    } else {
      var init, b := bytes[..|bytes| - 1], bytes[|bytes| - 1];
      HexBits(init);
      ByteDigits(b);
      DigitBitsConcat(Hex(init), [b / 16, b % 16]);
    }
  }

  lemma NoBits()
    ensures DigitBits([]) == []
  {
  }

  lemma {:induction false} BytesHex(s: seq<digit>)
    requires |s| % 2 == 0
    ensures Hex(Bytes(s)) == s
    decreases |s|
  {
    if |s| == 0 {
    } else {
      var n := |s| - 2;
      var bytes := Bytes(s);
      assert bytes[..|bytes| - 1] == Bytes(s[..n]);
      BytesHex(s[..n]);
      assert s == s[..n] + [s[n], s[n + 1]];
    }
  }

  // ---- the stream --------------------------------------------------------------------------------------

  lemma {:induction false} CountDigits(len: nat, version: nat)
    requires len < if version <= 9 then 256 else 65536
    ensures BitsOf(len, CountBits(version))
         == DigitBits(if version <= 9 then Hex([len]) else Hex([len / 256, len % 256]))
  {
    hide BitsOf, DigitBits, Hex, Unpack;
    if version <= 9 {
      HexBits([len]);
      UnpackOne(len);
    } else {
      assert Pow2(8) == 256;
      BitsSplit(len, 8, 8, len / 256, len % 256);
      HexBits([len / 256, len % 256]);
      UnpackTwo(len / 256, len % 256);
    }
  }

  lemma {:induction false} UnpackOne(b: byte)
    ensures Unpack([b]) == BitsOf(b, 8)
  {
    hide BitsOf;
    assert [b][..0] == [];
    assert Unpack([b]) == Unpack([]) + ByteBits(b);
  }

  lemma {:induction false} UnpackTwo(a: byte, b: byte)
    ensures Unpack([a, b]) == BitsOf(a, 8) + BitsOf(b, 8)
  {
    hide BitsOf;
    UnpackOne(a);
    assert [a, b][..1] == [a];
    assert Unpack([a, b]) == Unpack([a]) + ByteBits(b);
  }

  lemma {:induction false} StreamBits(text: seq<byte>, version: nat)
    requires |text| < if version <= 9 then 256 else 65536
    ensures DigitBits(Stream(text, version)) == Payload(text, version) + ZeroBits(4)
  {
    assert BitsOf(4, 4) == ModeBits() && BitsOf(0, 4) == ZeroBits(4);
    hide BitsOf, DigitBits, Hex, Unpack, ModeBits;
    var count := if version <= 9 then Hex([|text|]) else Hex([|text| / 256, |text| % 256]);
    CountDigits(|text|, version);
    HexBits(text);
    DigitBitsOne(4);
    DigitBitsOne(0);
    DigitBitsConcat([4], count);
    DigitBitsConcat([4] + count, Hex(text));
    DigitBitsConcat([4] + count + Hex(text), [0]);
  }

  lemma {:induction false} PadsBits(k: nat)
    ensures Unpack(Pads(k)) == PadBits(k)
  {
    hide BitsOf;
    if k == 0 {
    } else {
      PadsBits(k - 1);
      assert Pads(k)[..k - 1] == Pads(k - 1);
    }
  }

  lemma {:induction false} UnpackConcat(a: seq<byte>, b: seq<byte>)
    ensures Unpack(a + b) == Unpack(a) + Unpack(b)
    decreases |b|
  {
    hide ByteBits;
    if |b| == 0 {
      assert a + b == a;
    } else {
      assert (a + b)[..|a + b| - 1] == a + b[..|b| - 1];
      UnpackConcat(a, b[..|b| - 1]);
    }
  }

  /** With room for the text, padding adds the zero digit and pad bytes, nothing else. */
  lemma {:induction false} PaddedIs(p: seq<bit>, cap: nat)
    requires cap % 8 == 0 && |p| % 8 == 4 && |p| <= cap
    ensures Padded(p, cap) == p + ZeroBits(4) + PadBits((cap - |p| - 4) / 8)
  {
    hide PadBits;
    var t := p + ZeroBits(4);
    assert Terminated(p, cap) == t;
    assert Aligned(t) == t + ZeroBits(0) == t;
    if |t| == cap { assert PadBits(0) == [] by { NoPads(); } }
  }

  lemma NoPads()
    ensures PadBits(0) == []
  {
  }

  /** The data codewords of a text that fits its version: mode, length, text and end as hexadecimal
      digits, two to a byte, then the pad bytes in turn up to the version's data bytes. */
  lemma {:induction false} DataCodewords(text: seq<byte>, version: nat, n: nat)
    requires |text| < (if version <= 9 then 256 else 65536) && 4 + CountBits(version) + 8 * |text| <= 8 * n
    ensures var head := Bytes(Stream(text, version));
            |head| <= n && Pack(Padded(Payload(text, version), 8 * n), n) == head + Pads(n - |head|)
  {
    hide BitsOf, DigitBits, Hex, Unpack, Stream, Payload, Padded, Pads, PadBits, Pack;
    var p, head := Payload(text, version), Bytes(Stream(text, version));
    StreamBits(text, version);
    BytesHex(Stream(text, version));
    HexBits(head);
    assert Unpack(head) == p + ZeroBits(4);
    PaddedIs(p, 8 * n);
    var k := n - |head|;
    PadsBits(k);
    UnpackConcat(head, Pads(k));
    var raw := head + Pads(k);
    assert Padded(p, 8 * n) == Unpack(raw) + [];
    PackUnpack(raw, []);
  }
}
