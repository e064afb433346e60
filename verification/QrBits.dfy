/** Bit strings, most significant bit first, as the QR encoder pushes and packs them. */
module QrBits {
  import opened Bits

  /** The low n bits of v. */
  function BitsOf(v: nat, n: nat): (s: seq<bit>)
    ensures |s| == n
    decreases n, v
  {
    if n == 0 then [] else BitsOf(v / 2, n - 1) + [v % 2]
  }

  /** The number a bit string denotes. */
  function NumOf(s: seq<bit>): nat {
    if |s| == 0 then 0 else 2 * NumOf(s[..|s| - 1]) + s[|s| - 1]
  }

  lemma {:induction false} NumOfLast(s: seq<bit>, b: bit)
    ensures NumOf(s + [b]) == 2 * NumOf(s) + b
  {
    assert (s + [b])[..|s|] == s;
  }

  lemma {:induction false} NumOfBound(s: seq<bit>)
    ensures NumOf(s) < Pow2(|s|)
  {
    if |s| == 0 {
    } else {
      NumOfBound(s[..|s| - 1]);
    }
  }

  lemma {:induction false} NumOfBits(v: nat, n: nat)
    requires v < Pow2(n)
    ensures NumOf(BitsOf(v, n)) == v
    decreases n
  {
    if n == 0 {
    } else {
      NumOfBits(v / 2, n - 1);
      NumOfLast(BitsOf(v / 2, n - 1), v % 2);
    }
  }

  lemma {:induction false} BitsOfNum(s: seq<bit>)
    ensures BitsOf(NumOf(s), |s|) == s
  {
    if |s| == 0 {
    } else {
      BitsOfNum(s[..|s| - 1]);
    }
  }

  /** Bit i of a number is the i-th from the end of its bit string. */
  lemma {:induction false} BitAt(v: nat, n: nat, i: nat)
    requires i < n
    ensures BitsOf(v, n)[n - 1 - i] == v / Pow2(i) % 2
    decreases n
  {
    if i == 0 {
    } else {
      BitAt(v / 2, n - 1, i - 1);
      HalveShift(v, i);
    }
  }

  lemma {:induction false} HalveShift(v: nat, i: nat)
    requires i > 0
    ensures v / 2 / Pow2(i - 1) == v / Pow2(i)
  {
    DivHalf(v, Pow2(i - 1));
  }

  /** The push closure of qrEncode. */
  method Push(bits: seq<bit>, val: nat, n: nat) returns (r: seq<bit>)
    ensures r == bits + BitsOf(val, n)
  {
    r := bits;
    for i := n downto 0
      invariant r == bits + BitsOf(val, n)[..n - i]
    {
      BitAt(val, n, i);
      r := r + [val / Pow2(i) % 2];
    }
  }

  // ---- bytes ----------------------------------------------------------------------------

  const W: nat := 8

  function ByteBits(b: byte): (s: seq<bit>)
    ensures |s| == 8
  {
    BitsOf(b, W)
  }

  function Unpack(bytes: seq<byte>): (s: seq<bit>)
    ensures |s| == 8 * |bytes|
  {
    if |bytes| == 0 then [] else Unpack(bytes[..|bytes| - 1]) + ByteBits(bytes[|bytes| - 1])
  }

  function ByteOf(s: seq<bit>): byte
    requires |s| == 8
  {
    NumOfBound(s);
    assert Pow2(8) == 256;
    NumOf(s)
  }

  function Pack(s: seq<bit>, n: nat): (bytes: seq<byte>)
    requires 8 * n <= |s|
    ensures |bytes| == n
  {
    if n == 0 then [] else Pack(s, n - 1) + [ByteOf(s[8 * n - 8..8 * n])]
  }

  lemma {:induction false} UnpackPack(s: seq<bit>, n: nat)
    requires 8 * n <= |s|
    ensures Unpack(Pack(s, n)) == s[..8 * n]
    decreases n
  {
    if n == 0 {
    } else {
      UnpackPack(s, n - 1);
      var w := s[8 * n - 8..8 * n];
      BitsOfNum(w);
      var p := Pack(s, n);
      assert p[..n - 1] == Pack(s, n - 1);
      assert s[..8 * n] == s[..8 * n - 8] + w;
    }
  }

  lemma {:induction false} UnpackStep(bytes: seq<byte>)
    requires |bytes| > 0
    ensures Unpack(bytes) == Unpack(bytes[..|bytes| - 1]) + ByteBits(bytes[|bytes| - 1])
  {
  }

  lemma {:induction false} PackStep(s: seq<bit>, n: nat)
    requires 8 * n + 8 <= |s|
    ensures Pack(s, n + 1) == Pack(s, n) + [ByteOf(s[8 * n..8 * n + 8])]
  {
  }

  lemma {:induction false} Middle(u: seq<bit>, w: seq<bit>, tail: seq<bit>)
    ensures u + w + tail == u + (w + tail)
    ensures (u + w + tail)[|u|..|u| + |w|] == w
  {
  }

  lemma {:induction false} PackUnpack(bytes: seq<byte>, tail: seq<bit>)
    ensures Pack(Unpack(bytes) + tail, |bytes|) == bytes
  {
    hide Pack, Unpack, ByteOf, ByteBits;
    if |bytes| == 0 {
      PackNone(Unpack(bytes) + tail);
    } else {
      var init, b := bytes[..|bytes| - 1], bytes[|bytes| - 1];
      UnpackStep(bytes);
      Middle(Unpack(init), ByteBits(b), tail);
      PackUnpack(init, ByteBits(b) + tail);
      PackStep(Unpack(bytes) + tail, |init|);
      ByteRoundTrip(b);
    }
  }

  lemma PackNone(s: seq<bit>)
    ensures Pack(s, 0) == []
  {
  }

  lemma {:induction false} ByteRoundTrip(b: byte)
    ensures ByteOf(ByteBits(b)) == b
  {
    assert Pow2(8) == 256;
    NumOfBits(b, W);
  }
}
