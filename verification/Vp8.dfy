/** Wrapping a packet in a VP8 key frame and masking it (header layout: section 9.1 of RFC 6386). */
module Vp8 {
  import opened Bytes

  const HEADER: nat := 10
  const MIN_FRAME: nat := 1024
  const WIDTH: nat := 320
  const HEIGHT: nat := 240
  const MAGIC: bytes := [0xCA, 0x11, 0xDA, 0x7A]

  type Key = k: bytes | |k| == 32 witness seq(32, _ => 0)

  /** Everything from offset 10 on is XORed with the key, repeated. */
  ghost function Masked(s: bytes, key: Key): (r: bytes)
    ensures |r| == |s|
    ensures forall i :: 0 <= i < |s| ==> r[i] == if i < HEADER then s[i] else Xor(s[i], key[(i - HEADER) % 32])
  {
    seq(|s|, i requires 0 <= i < |s| => if i < HEADER then s[i] else Xor(s[i], key[(i - HEADER) % 32]))
  }

  /** The frame tag: bit 0 clear for a key frame, version 0, shown, then 19 bits of partition size. */
  function Tag(partLen: nat): (t: bytes)
    ensures |t| == 3
    ensures t[0] % 2 == 0
  {
    [16 + (partLen % 8) * 32, (partLen / 8) % 256, (partLen / 2048) % 256]
  }

  /** The low 19 bits of a number, cut into 3, 8 and 8. */
  lemma Cut19(x: nat)
    ensures x % 8 + 8 * ((x / 8) % 256) + 2048 * ((x / 8 / 256) % 256) == x % 0x8_0000
  {
    var a := x / 8;
    var b := a / 256;
    assert x == 8 * a + x % 8;
    assert a == 256 * b + a % 256;
    assert b == 256 * (b / 256) + b % 256;
    assert x == 0x8_0000 * (b / 256) + (x % 8 + 8 * (a % 256) + 2048 * (b % 256));
  }

  lemma DivTwice(x: nat)
    ensures x / 2048 == x / 8 / 256
  {
  }

  /** Read as section 9.1 of RFC 6386 lays it out, the tag gives back the size modulo 2^19. */
  lemma TagFields(partLen: nat)
    ensures var t0: int, t1: int, t2: int := Tag(partLen)[0], Tag(partLen)[1], Tag(partLen)[2];
            (t0 / 2) % 8 == 0 && (t0 / 16) % 2 == 1 && t0 / 32 + 8 * t1 + 2048 * t2 == partLen % 0x8_0000
  {
    DivTwice(partLen);
    Cut19(partLen);
  }

  function Blank(n: nat): (r: bytes)
    ensures |r| == n
  {
    seq(n, _ => 0)
  }

  function PadLen(data: bytes): nat {
    if 6 + |data| < MIN_FRAME - HEADER then MIN_FRAME - HEADER - (6 + |data|) else 0
  }

  /** Tag, start code, dimensions and marker. */
  function Head(partLen: nat): (h: bytes)
    ensures |h| == 14
    ensures h[0] == Tag(partLen)[0] && h[3..6] == [0x9d, 0x01, 0x2a] && h[10..14] == MAGIC
  {
    Tag(partLen) + [0x9d, 0x01, 0x2a, WIDTH % 256, (WIDTH / 256) % 64, HEIGHT % 256, (HEIGHT / 256) % 64] + MAGIC
  }

  /** The frame before masking: head, length, data, padding. */
  function Plain(data: bytes): (r: bytes)
    ensures |r| == 16 + |data| + PadLen(data)
  {
    Head(13 + |data|) + (PutU16(|data| % M16) + (data + Blank(PadLen(data))))
  }

  ghost function Build(data: bytes, key: Key): bytes {
    Masked(Plain(data), key)
  }

  /** What Extract reads from an unmasked frame. */
  function Body(s: bytes): (r: Option<bytes>)
    requires |s| >= 16
  {
    if s[10..14] != MAGIC then None
    else
      var n := U16(s[14..16]);
      if 16 + n > |s| then None else Some(s[16..16 + n])
  }

  ghost function Extract(frame: bytes, key: Key): Option<bytes> {
    if |frame| < 16 || frame[0] % 2 != 0 || frame[3..6] != [0x9d, 0x01, 0x2a] then None
    else Body(Masked(frame, key))
  }

  lemma MaskTwice(s: bytes, key: Key)
    ensures Masked(Masked(s, key), key) == s
  {
    var r := Masked(Masked(s, key), key);
    forall i | 0 <= i < |s| ensures r[i] == s[i] {
      if i >= HEADER { XorCancel(s[i], key[(i - HEADER) % 32]); }
    }
  }

  lemma PlainParts(data: bytes)
    requires |data| < M16
    ensures var s := Plain(data);
            && s[0] % 2 == 0 && s[3..6] == [0x9d, 0x01, 0x2a] && s[10..14] == MAGIC
            && s[14..16] == PutU16(|data|) && s[16..16 + |data|] == data
  {
    var h, len, pad := Head(13 + |data|), PutU16(|data|), Blank(PadLen(data));
    assert |data| % M16 == |data|;
    assert Plain(data) == h + (len + (data + pad));
    LayoutParts(h, len, data, pad);
  }

  lemma LayoutParts(h: bytes, len: bytes, data: bytes, pad: bytes)
    requires |h| == 14 && |len| == 2
    ensures var s := h + (len + (data + pad));
            && s[0] == h[0] && s[3..6] == h[3..6] && s[10..14] == h[10..14]
            && s[14..16] == len && s[16..16 + |data|] == data
  {
  }

  /** For every payload up to 65535 bytes and every key, extracting a built frame returns the payload. */
  lemma RoundTrip(data: bytes, key: Key)
    requires |data| < M16
    ensures Extract(Build(data, key), key) == Some(data)
  {
    var frame := Build(data, key);
    PlainParts(data);
    MaskTwice(Plain(data), key);
    U16RoundTrip(|data|);
    assert frame[3..6] == Plain(data)[3..6];
  }

  /** Every built frame is at least the minimum size and declares its first partition's length. */
  lemma BuiltSize(data: bytes, key: Key)
    ensures |Build(data, key)| >= MIN_FRAME
    ensures |Build(data, key)| == 16 + |data| + PadLen(data)
  {
  }

  /** The header stays in the clear and is that of a key frame: tag, start code, and the size in pixels, the low 14 bits
      of each pair of bytes. */
  lemma HeaderInClear(data: bytes, key: Key)
    ensures var f := Build(data, key);
            && |f| >= 10 && f[..3] == Tag(13 + |data|) && f[3..6] == [0x9d, 0x01, 0x2a]
            && (var w0: int, w1: int := f[6], f[7]; w0 + 256 * (w1 % 64) == 320)
            && (var h0: int, h1: int := f[8], f[9]; h0 + 256 * (h1 % 64) == 240)
  {
    var f, s := Build(data, key), Plain(data);
    assert f[..10] == s[..10];
    var h := Head(13 + |data|);
    assert s[..14] == h;
    assert h[..3] == Tag(13 + |data|);
    assert f[6] == h[6] && f[7] == h[7] && f[8] == h[8] && f[9] == h[9] && f[3..6] == h[3..6] && f[..3] == h[..3];
  }

  /** Past 65535 bytes the two-byte length wraps and the payload does not come back. */
  lemma RoundTripExact(data: bytes, key: Key)
    ensures Extract(Build(data, key), key) == Some(data) <==> |data| < M16
  {
    if |data| < M16 {
      RoundTrip(data, key);
    } else {
      ExtractShort(Build(data, key), key);
    }
  }

  lemma ExtractShort(frame: bytes, key: Key)
    ensures Extract(frame, key).Some? ==> |Extract(frame, key).value| < M16
  {
  }

  // ---------------------------------------------------------------- in place

  method Mask(buf: array<byte>, key: Key)
    modifies buf
    ensures buf[..] == Masked(old(buf[..]), key)
  {
    var i := HEADER;
    while i < buf.Length
      invariant HEADER <= i
      invariant forall j :: 0 <= j < buf.Length ==>
                  buf[j] == if HEADER <= j < i then Xor(old(buf[j]), key[(j - HEADER) % 32]) else old(buf[j])
    {
      buf[i] := Xor(buf[i], key[(i - HEADER) % 32]);
      i := i + 1;
    }
  }

  method BuildFrame(data: bytes, key: Key) returns (buf: array<byte>)
    ensures fresh(buf) && buf[..] == Build(data, key)
  {
    var plain := Plain(data);
    buf := new byte[|plain|](i requires 0 <= i < |plain| => plain[i]);
    assert buf[..] == plain;
    Mask(buf, key);
  }

  /** The frame is unmasked in place before it is looked at. */
  method ExtractData(vp8: array<byte>, key: Key) returns (r: Option<bytes>)
    modifies vp8
    ensures r == Extract(old(vp8[..]), key)
  {
    if vp8.Length < 16 || vp8[0] % 2 != 0 { return None; }
    if vp8[3] != 0x9d || vp8[4] != 0x01 || vp8[5] != 0x2a {
      assert vp8[..][3..6][0] == vp8[3] && vp8[..][3..6][1] == vp8[4] && vp8[..][3..6][2] == vp8[5];
      return None;
    }
    assert vp8[..][3..6] == [0x9d, 0x01, 0x2a];
    Mask(vp8, key);
    r := Body(vp8[..]);
  }
}
