/** The FLX2 frame format: header layout, stream reader and writer, checksum. */
module Flx2 {
  import opened Bits
  import opened Crc32

  const MAGIC: seq<byte> := [0x46, 0x4C, 0x58, 0x32]
  const PROTOCOL_VERSION: byte := 1
  const MAX_PAYLOAD: nat := 0x10_0000

  datatype Header = Header(magic: seq<byte>, version: byte, msgType: byte, flags: nat, seqNo: nat, len: nat, crc32: nat)

  datatype Frame = Frame(header: Header, payload: seq<byte>)

  datatype Error = ShortHeader | BadMagic | BadVersion | TooLarge | ShortPayload

  datatype Result<T> = Ok(value: T) | Err(error: Error)

  /** A header as the Go and C++ structs can hold it. */
  ghost predicate Fits(h: Header) {
    && |h.magic| == 4 && h.flags < 0x1_0000
    && h.seqNo < 0x1_0000_0000 && h.len < 0x1_0000_0000 && h.crc32 < 0x1_0000_0000
  }

  // ---- little-endian fields -----------------------------------------------------------

  function Le16(v: nat): (s: seq<byte>)
    ensures |s| == 2
  {
    [v % 256, v / 256 % 256]
  }

  function Le32(v: nat): (s: seq<byte>)
    ensures |s| == 4
  {
    [v % 256, v / 256 % 256, v / 0x1_0000 % 256, v / 0x100_0000 % 256]
  }

  function FromLe16(s: seq<byte>): (v: nat)
    requires |s| == 2
    ensures v < 0x1_0000
  {
    var a: int, b: int := s[0], s[1];
    a + 256 * b
  }

  function FromLe32(s: seq<byte>): (v: nat)
    requires |s| == 4
    ensures v < 0x1_0000_0000
  {
    var a: int, b: int, c: int, d: int := s[0], s[1], s[2], s[3];
    a + 256 * b + 0x1_0000 * c + 0x100_0000 * d
  }

  lemma {:induction false} Le16RoundTrip(v: nat, s: seq<byte>)
    requires |s| == 2
    ensures v < 0x1_0000 ==> FromLe16(Le16(v)) == v
    ensures Le16(FromLe16(s)) == s
  {
  }

  lemma {:induction false} Le32Decode(v: nat)
    requires v < 0x1_0000_0000
    ensures FromLe32(Le32(v)) == v
  {
    var a := v / 256;
    var b := a / 256;
    assert v / 0x1_0000 == b;
    assert v / 0x100_0000 == b / 256;
    assert v == 256 * a + v % 256 && a == 256 * b + a % 256 && b == 256 * (b / 256) + b % 256;
  }

  lemma {:induction false} Le32Encode(s: seq<byte>)
    requires |s| == 4
    ensures Le32(FromLe32(s)) == s
  {
    var s0: int, s1: int, s2: int, s3: int := s[0], s[1], s[2], s[3];
    var c := s2 + 256 * s3;
    var b := s1 + 256 * c;
    var v := s0 + 256 * b;
    assert v / 256 == b && v % 256 == s0;
    assert b / 256 == c && b % 256 == s1;
    assert v / 0x1_0000 == c && v / 0x100_0000 == s3;
  }

  // ---- header and frame -----------------------------------------------------------------

  /** The 16 header bytes the checksum covers. */
  function Covered(h: Header): (s: seq<byte>)
    requires |h.magic| == 4
    ensures |s| == 16
  {
    h.magic + [h.version, h.msgType] + Le16(h.flags) + Le32(h.seqNo) + Le32(h.len)
  }

  function Marshal(h: Header): (s: seq<byte>)
    requires |h.magic| == 4
    ensures |s| == 20
  {
    Covered(h) + Le32(h.crc32)
  }

  function Unmarshal(b: seq<byte>): (r: Result<Header>)
    requires |b| == 20
    ensures r.Ok? ==> Fits(r.value) && r.value.len <= MAX_PAYLOAD
  {
    if b[..4] != MAGIC then Err(BadMagic)
    else if b[4] != PROTOCOL_VERSION then Err(BadVersion)
    else
      var h := Header(b[..4], b[4], b[5], FromLe16(b[6..8]), FromLe32(b[8..12]), FromLe32(b[12..16]),
                      FromLe32(b[16..20]));
      if h.len > MAX_PAYLOAD then Err(TooLarge) else Ok(h)
  }

  lemma {:induction false} FieldsOf(h: Header)
    requires |h.magic| == 4
    ensures var b := Marshal(h);
            && b[..4] == h.magic && b[4] == h.version && b[5] == h.msgType
            && b[6..8] == Le16(h.flags) && b[8..12] == Le32(h.seqNo)
            && b[12..16] == Le32(h.len) && b[16..20] == Le32(h.crc32)
            && b[..16] == Covered(h)
  {
  }

  /** A header with the protocol's magic and version is read back as it was written,
      unless its length field exceeds the limit. */
  lemma {:induction false} UnmarshalMarshal(h: Header)
    requires Fits(h) && h.magic == MAGIC && h.version == PROTOCOL_VERSION
    ensures Unmarshal(Marshal(h)) == if h.len <= MAX_PAYLOAD then Ok(h) else Err(TooLarge)
  {
    FieldsOf(h);
    Le16RoundTrip(h.flags, [0, 0]);
    Le32Decode(h.seqNo);
    Le32Decode(h.len);
    Le32Decode(h.crc32);
  }

  /** An accepted header determines the 20 bytes it was read from. */
  lemma {:induction false} MarshalUnmarshal(b: seq<byte>)
    requires |b| == 20 && Unmarshal(b).Ok?
    ensures Marshal(Unmarshal(b).value) == b
  {
    var h := Unmarshal(b).value;
    FieldsOf(h);
    Le16RoundTrip(0, b[6..8]);
    Le32Encode(b[8..12]);
    Le32Encode(b[12..16]);
    Le32Encode(b[16..20]);
    assert b == b[..4] + [b[4], b[5]] + b[6..8] + b[8..12] + b[12..16] + b[16..20];
  }

  /** The checksum of a frame: header bytes 0 to 15, then the payload. */
  function Checksum(f: Frame): word
    requires |f.header.magic| == 4
  {
    Crc(Covered(f.header) + f.payload)
  }

  predicate Valid(f: Frame)
    requires |f.header.magic| == 4
  {
    Checksum(f) == f.header.crc32
  }

  /** BuildFrame; the length field is a uint32 conversion. */
  function Build(msgType: byte, seqNo: nat, flags: nat, payload: seq<byte>): Frame {
    var h := Header(MAGIC, PROTOCOL_VERSION, msgType, flags, seqNo, |payload| % 0x1_0000_0000, 0);
    Frame(h.(crc32 := Crc(Covered(h) + payload)), payload)
  }

  lemma {:induction false} BuiltIsValid(msgType: byte, seqNo: nat, flags: nat, payload: seq<byte>)
    ensures Valid(Build(msgType, seqNo, flags, payload))
  {
    var h := Header(MAGIC, PROTOCOL_VERSION, msgType, flags, seqNo, |payload| % 0x1_0000_0000, 0);
    assert Covered(Build(msgType, seqNo, flags, payload).header) == Covered(h);
  }

  // ---- the byte stream -------------------------------------------------------------------

  function Bytes(f: Frame): seq<byte>
    requires |f.header.magic| == 4
  {
    Marshal(f.header) + f.payload
  }

  /** Reading one frame off a stream: the frame or an error, and what remains. */
  function Read(s: seq<byte>): (r: (Result<Frame>, seq<byte>))
    ensures r.0.Ok? ==> Fits(r.0.value.header) && |r.1| < |s|
  {
    if |s| < 20 then (Err(ShortHeader), [])
    else
      var h := Unmarshal(s[..20]);
      if h.Err? then (Err(h.error), s[20..])
      else if |s| < 20 + h.value.len then (Err(ShortPayload), [])
      else (Ok(Frame(h.value, s[20..20 + h.value.len])), s[20 + h.value.len..])
  }

  /** A built frame reads back as itself, and nothing after it is touched, exactly when
      its payload is within the limit. */
  lemma {:induction false} ReadBuilt(msgType: byte, seqNo: nat, flags: nat, payload: seq<byte>, rest: seq<byte>)
    requires seqNo < 0x1_0000_0000 && flags < 0x1_0000
    ensures var f := Build(msgType, seqNo, flags, payload);
            Read(Bytes(f) + rest) == (Ok(f), rest) <==> |payload| <= MAX_PAYLOAD
  {
    hide Unmarshal, Crc;
    var f := Build(msgType, seqNo, flags, payload);
    var s := Bytes(f) + rest;
    assert s[..20] == Marshal(f.header);
    UnmarshalMarshal(f.header);
    if |payload| <= MAX_PAYLOAD {
      assert s[20..20 + |payload|] == payload;
      assert s[20 + |payload|..] == rest;
    }
  }

  ghost predicate IsBuilt(f: Frame) {
    && f == Build(f.header.msgType, f.header.seqNo, f.header.flags, f.payload)
    && Fits(f.header) && |f.payload| <= MAX_PAYLOAD
  }

  ghost predicate AllBuilt(fs: seq<Frame>) {
    forall i :: 0 <= i < |fs| ==> IsBuilt(fs[i])
  }

  ghost function AllBytes(fs: seq<Frame>): seq<byte>
    requires AllBuilt(fs)
  {
    if |fs| == 0 then [] else Bytes(fs[0]) + AllBytes(fs[1..])
  }

  datatype Batch = Batch(frames: seq<Frame>, rest: seq<byte>)

  /** Up to n frames off a stream, stopping at the first error. */
  function ReadMany(s: seq<byte>, n: nat): Batch
    decreases n, s
  {
    if n == 0 then Batch([], s)
    else if Read(s).0.Err? then Batch([], Read(s).1)
    else
      var more := ReadMany(Read(s).1, n - 1);
      Batch([Read(s).0.value] + more.frames, more.rest)
  }

  lemma {:induction false} ReadManyStep(s: seq<byte>, n: nat, f: Frame, rest: seq<byte>)
    requires n > 0 && Read(s) == (Ok(f), rest)
    ensures ReadMany(s, n) == Batch([f] + ReadMany(rest, n - 1).frames, ReadMany(rest, n - 1).rest)
  {
  }

  lemma {:induction false} ReadFirst(fs: seq<Frame>, rest: seq<byte>)
    requires AllBuilt(fs) && |fs| > 0
    ensures Read(AllBytes(fs) + rest) == (Ok(fs[0]), AllBytes(fs[1..]) + rest)
    ensures Valid(fs[0])
  {
    var f, tail := fs[0], AllBytes(fs[1..]) + rest;
    assert AllBytes(fs) + rest == Bytes(f) + tail;
    ReadBuilt(f.header.msgType, f.header.seqNo, f.header.flags, f.payload, tail);
    BuiltIsValid(f.header.msgType, f.header.seqNo, f.header.flags, f.payload);
  }

  /** Frames written back to back are read back as the same sequence, all valid. */
  lemma {:induction false} StreamRoundTrip(fs: seq<Frame>, rest: seq<byte>)
    requires AllBuilt(fs)
    ensures ReadMany(AllBytes(fs) + rest, |fs|) == Batch(fs, rest)
    ensures forall i :: 0 <= i < |fs| ==> Valid(fs[i])
    decreases |fs|
  {
    if |fs| == 0 {
      assert AllBytes(fs) + rest == rest;
    } else {
      var s, s' := AllBytes(fs) + rest, AllBytes(fs[1..]) + rest;
      ReadFirst(fs, rest);
      ReadManyStep(s, |fs|, fs[0], s');
      StreamRoundTrip(fs[1..], rest);
      assert fs == [fs[0]] + fs[1..];
    }
  }

  // ---- alterations ----------------------------------------------------------------------------

  /** The bytes of a frame on the wire that the checksum covers. */
  function CoveredBytes(w: seq<byte>): seq<byte>
    requires |w| >= 20
  {
    w[..16] + w[20..]
  }

  /** What a reader makes of wire bytes whose length field holds n. */
  lemma {:induction false} ReadWire(w: seq<byte>, n: nat, rest: seq<byte>)
    requires |w| == 20 + n && FromLe32(w[12..16]) == n
    ensures var (r, left) := Read(w + rest);
            r.Ok? ==> left == rest && r.value.header.crc32 == FromLe32(w[16..20])
                      && Covered(r.value.header) + r.value.payload == CoveredBytes(w)
  {
    var b := (w + rest)[..20];
    assert b == w[..20];
    assert b[12..16] == w[12..16] && b[16..20] == w[16..20] && b[..16] == w[..16];
    if Unmarshal(b).Ok? {
      var h := Unmarshal(b).value;
      MarshalUnmarshal(b);
      FieldsOf(h);
      assert (w + rest)[20..20 + n] == w[20..];
      assert (w + rest)[20 + n..] == rest;
    }
  }

  /** Altering a built frame on the wire within four consecutive covered bytes, without
      touching its length or checksum field, makes it unreadable or invalid. */
  lemma {:induction false} AlterationRejected(f: Frame, w: seq<byte>, p: nat, rest: seq<byte>)
    requires IsBuilt(f) && |w| == |Bytes(f)|
    requires Burst(CoveredBytes(Bytes(f)), CoveredBytes(w), p)
    requires w[12..16] == Bytes(f)[12..16] && w[16..20] == Bytes(f)[16..20]
    ensures Read(w + rest).0.Ok? ==> Read(w + rest).1 == rest && !Valid(Read(w + rest).0.value)
  {
    hide Marshal, Bytes, Covered, CoveredBytes, Le32;
    var o := Bytes(f);
    WireOf(f);
    Le32Decode(f.header.len);
    Le32Decode(f.header.crc32);
    ReadWire(w, |f.payload|, rest);
    BurstDetected(CoveredBytes(o), CoveredBytes(w), p);
    BuiltIsValid(f.header.msgType, f.header.seqNo, f.header.flags, f.payload);
  }

  lemma {:induction false} WireOf(f: Frame)
    requires |f.header.magic| == 4
    ensures |Bytes(f)| == 20 + |f.payload|
    ensures CoveredBytes(Bytes(f)) == Covered(f.header) + f.payload
    ensures Bytes(f)[12..16] == Le32(f.header.len) && Bytes(f)[16..20] == Le32(f.header.crc32)
  {
    var o := Bytes(f);
    FieldsOf(f.header);
    assert o[..20] == Marshal(f.header) && o[20..] == f.payload;
    assert o[..16] == o[..20][..16];
    assert o[12..16] == o[..20][12..16] && o[16..20] == o[..20][16..20];
  }

  // ---- the C++ peer ----------------------------------------------------------------------------

  /** A field of a packed struct on a little-endian machine. */
  function LeValue(s: seq<byte>): nat {
    if |s| == 0 then 0 else s[0] + 256 * LeValue(s[1..])
  }

  lemma {:induction false} LeValueOf(s: seq<byte>)
    ensures |s| == 2 ==> LeValue(s) == FromLe16(s)
    ensures |s| == 4 ==> LeValue(s) == FromLe32(s)
  {
    if |s| >= 2 {
      assert LeValue(s) == s[0] + 256 * LeValue(s[1..]) && LeValue(s[1..]) == s[1] + 256 * LeValue(s[1..][1..]);
      assert s[1..][1..] == s[2..];
      if |s| == 4 {
        assert LeValue(s[2..]) == s[2] + 256 * LeValue(s[2..][1..]) && s[2..][1..] == s[3..];
        assert LeValue(s[3..]) == s[3] + 256 * LeValue(s[3..][1..]);
      }
    }
  }

  /** parse_frame on a whole buffer, which it reads as a packed struct. */
  function ParseFrame(data: seq<byte>): Result<Frame> {
    if |data| < 20 then Err(ShortHeader)
    else if data[..4] != MAGIC then Err(BadMagic)
    else if data[4] != PROTOCOL_VERSION then Err(BadVersion)
    else
      var len := LeValue(data[12..16]);
      if len > MAX_PAYLOAD then Err(TooLarge)
      else if |data| < 20 + len then Err(ShortPayload)
      else Ok(Frame(Header(data[..4], data[4], data[5], LeValue(data[6..8]), LeValue(data[8..12]), len,
                           LeValue(data[16..20])),
                    data[20..20 + len]))
  }

  /** The C++ parser and the Go reader agree on every buffer, errors included. */
  lemma {:induction false} PeersAgree(data: seq<byte>)
    ensures ParseFrame(data) == Read(data).0
  {
    if |data| >= 20 {
      var b := data[..20];
      assert b[..4] == data[..4] && b[6..8] == data[6..8] && b[8..12] == data[8..12];
      assert b[12..16] == data[12..16] && b[16..20] == data[16..20];
      LeValueOf(data[6..8]);
      LeValueOf(data[8..12]);
      LeValueOf(data[12..16]);
      LeValueOf(data[16..20]);
    }
  }

  // ---- the wire ------------------------------------------------------------------------------------

  lemma {:induction false} HeaderValues(h: Header)
    requires Fits(h)
    ensures var m := Marshal(h);
            && LeValue(m[6..8]) == h.flags && LeValue(m[8..12]) == h.seqNo
            && LeValue(m[12..16]) == h.len && LeValue(m[16..20]) == h.crc32
  {
    FieldsOf(h);
    hide LeValue, Marshal, Le16, Le32, FromLe16, FromLe32;
    var m := Marshal(h);
    LeValueOf(m[6..8]);
    LeValueOf(m[8..12]);
    LeValueOf(m[12..16]);
    LeValueOf(m[16..20]);
    Le16RoundTrip(h.flags, [0, 0]);
    Le32Decode(h.seqNo);
    Le32Decode(h.len);
    Le32Decode(h.crc32);
  }

  /** The bytes of a built frame, offset by offset. */
  lemma {:induction false} WireLayout(msgType: byte, seqNo: nat, flags: nat, payload: seq<byte>)
    requires seqNo < 0x1_0000_0000 && flags < 0x1_0000 && |payload| < 0x1_0000_0000
    ensures var w := Bytes(Build(msgType, seqNo, flags, payload));
            && |w| == 20 + |payload|
            && w[..4] == Ascii("FLX2") && w[4] == 1 && w[5] == msgType
            && LeValue(w[6..8]) == flags && LeValue(w[8..12]) == seqNo && LeValue(w[12..16]) == |payload|
            && LeValue(w[16..20]) == Crc(w[..16] + payload) && w[20..] == payload
  {
    var f := Build(msgType, seqNo, flags, payload);
    assert f.header.magic == Ascii("FLX2") && f.header.len == |payload| && f.payload == payload;
    BuiltIsValid(msgType, seqNo, flags, payload);
    hide LeValue, Bytes, Build, Crc, Covered, Ascii;
    FrameValues(f);
  }

  lemma {:induction false} FrameValues(f: Frame)
    requires Fits(f.header)
    ensures var w, h := Bytes(f), f.header;
            && |w| == 20 + |f.payload| && w[..4] == h.magic && w[4] == h.version && w[5] == h.msgType
            && LeValue(w[6..8]) == h.flags && LeValue(w[8..12]) == h.seqNo && LeValue(w[12..16]) == h.len
            && LeValue(w[16..20]) == h.crc32 && w[..16] == Covered(h) && w[20..] == f.payload
  {
    FieldsOf(f.header);
    HeaderValues(f.header);
    hide LeValue, Marshal, Le16, Le32, Covered;
    var w, m := Bytes(f), Marshal(f.header);
    assert w[..4] == m[..4] && w[6..8] == m[6..8] && w[8..12] == m[8..12];
    assert w[12..16] == m[12..16] && w[16..20] == m[16..20] && w[..16] == m[..16];
  }

  /** Which streams start with a frame, byte by byte, whatever its checksum. */
  lemma {:induction false} ReadsExactly(s: seq<byte>)
    ensures Read(s).0.Ok? <==>
              && |s| >= 20 && s[..4] == Ascii("FLX2") && s[4] == 1
              && LeValue(s[12..16]) <= 1024 * 1024 && |s| >= 20 + LeValue(s[12..16])
    ensures Read(s).0.Ok? ==>
              var h := Read(s).0.value.header;
              && h.msgType == s[5] && h.flags == LeValue(s[6..8]) && h.seqNo == LeValue(s[8..12])
              && h.len == LeValue(s[12..16]) && h.crc32 == LeValue(s[16..20])
              && Read(s).0.value.payload == s[20..20 + h.len] && Read(s).1 == s[20 + h.len..]
  {
    hide LeValue;
    assert MAGIC == Ascii("FLX2");
    PeersAgree(s);
  }

  // ---- the connection ---------------------------------------------------------------------------

  /** One direction of a connection, with the bytes in flight. */
  class Conn {
    var buf: seq<byte>

    constructor ()
      ensures buf == []
    {
      buf := [];
    }

    /** writeFrame: header and payload in one write. */
    method WriteFrame(f: Frame)
      requires |f.header.magic| == 4
      modifies this
      ensures buf == old(buf) + Bytes(f)
    {
      var out := new byte[20 + |f.payload|];
      var hdr := Marshal(f.header);
      for i := 0 to 20
        invariant buf == old(buf)
        invariant forall k :: 0 <= k < i ==> out[k] == hdr[k]
      {
        out[i] := hdr[i];
      }
      for i := 0 to |f.payload|
        invariant buf == old(buf)
        invariant forall k :: 0 <= k < 20 ==> out[k] == hdr[k]
        invariant forall k :: 0 <= k < i ==> out[20 + k] == f.payload[k]
      {
        out[20 + i] := f.payload[i];
      }
      assert out[..] == Bytes(f);
      buf := buf + out[..];
    }

    /** io.ReadFull: n bytes, or everything there is and failure. */
    method ReadFull(n: nat) returns (ok: bool, data: seq<byte>)
      modifies this
      ensures ok == (|old(buf)| >= n)
      ensures ok ==> data == old(buf)[..n] && buf == old(buf)[n..]
      ensures !ok ==> buf == []
    {
      ok := |buf| >= n;
      if ok {
        data, buf := buf[..n], buf[n..];
      } else {
        data, buf := [], [];
      }
    }

    /** readFrame. */
    method ReadFrame() returns (r: Result<Frame>)
      modifies this
      ensures (r, buf) == Read(old(buf))
    {
      ghost var s := buf;
      var ok, raw := ReadFull(20);
      if !ok { return Err(ShortHeader); }
      var h := Unmarshal(raw);
      if h.Err? { return Err(h.error); }
      var payload: seq<byte> := [];
      if h.value.len > 0 {
        ok, payload := ReadFull(h.value.len);
        if !ok { return Err(ShortPayload); }
      }
      assert payload == s[20..20 + h.value.len];
      assert buf == s[20 + h.value.len..];
      r := Ok(Frame(h.value, payload));
    }
  }

  /** BuildFrame: the checksum object is fed the header bytes, then the payload. */
  method BuildFrame(msgType: byte, seqNo: nat, flags: nat, payload: seq<byte>) returns (f: Frame)
    ensures f == Build(msgType, seqNo, flags, payload)
  {
    var h := Header(MAGIC, PROTOCOL_VERSION, msgType, flags, seqNo, |payload| % 0x1_0000_0000, 0);
    var bytes := Marshal(h);
    FieldsOf(h);
    var crc := Compute(bytes[..16] + payload);
    f := Frame(h.(crc32 := crc), payload);
  }

  /** Validate. */
  method Validate(f: Frame) returns (ok: bool)
    requires |f.header.magic| == 4
    ensures ok == Valid(f)
  {
    var bytes := Marshal(f.header);
    FieldsOf(f.header);
    var crc := Compute(bytes[..16] + f.payload);
    ok := crc == f.header.crc32;
  }
}
