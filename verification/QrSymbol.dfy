/** The whole path of qrSVG up to rendering: text, codewords, matrix, and back. */
module QrSymbol {
  import opened Basics
  import opened Bits
  import opened QrBits
  import opened QrCodewords
  import opened QrMatrix

  const REMAINDER_BITS: seq<nat> := [0, 7, 7, 7, 7, 7, 0, 0, 0, 0]

  /** The codeword bits followed by the remainder bits of the version. */
  function SymbolBits(version: nat, codewords: seq<byte>): seq<bit>
    requires 1 <= version <= 10
  {
    Unpack(codewords) + ZeroBits(REMAINDER_BITS[version - 1])
  }

  /** The text in the bits a scanner has read, of a symbol holding len codewords. */
  function TextIn(read: seq<bit>, version: nat, len: nat): Option<seq<byte>>
    requires 1 <= version <= 10
  {
    if 8 * len <= |read| then Decode(version, Pack(read, len)) else None
  }

  lemma {:induction false} TextInBits(text: seq<byte>, version: nat, codewords: seq<byte>)
    requires Selected(|text|, version) && IsEncoding(text, version, codewords)
    ensures TextIn(SymbolBits(version, codewords), version, |codewords|)
         == if Fits(|text|, version) then Some(text) else None
  {
    PackUnpack(codewords, ZeroBits(REMAINDER_BITS[version - 1]));
    EncodeRoundTrip(text, version, codewords);
  }

  /** Scanning a finished symbol with any of the eight masks gives back the encoded
      text exactly when it fitted the version, provided the free cells can hold the
      codewords and the format cells are not among them. */
  lemma {:induction false} ScanRecoversText(text: seq<byte>, version: nat, codewords: seq<byte>, blank: Grid,
                                            n: nat, fn: set<Cell>, m: nat, bits: seq<bit>)
    requires Selected(|text|, version) && IsEncoding(text, version, codewords) && m < 8
    requires n == 4 * version + 17 && forall c :: c in FormatCells(n) ==> c in fn
    requires bits == SymbolBits(version, codewords) && |bits| <= |Scan(n, fn, Steps(n))|
    ensures TextIn(ReadSymbol(Symbol(blank, n, fn, bits, m), fn, Scan(n, fn, Steps(n)), |bits|), version, |codewords|)
         == if Fits(|text|, version) then Some(text) else None
  {
    SideOfVersion(version);
    SymbolRoundTrip(blank, n, fn, bits, m);
    TextInBits(text, version, codewords);
  }
}
