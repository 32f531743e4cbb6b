/** The WebSocket frame wire format as frameReader.Decode reads it: the base
    framing of section 5.2 of RFC 6455 and the client-to-server masking of
    section 5.3. Everything here is a pure function of a byte sequence; the
    resumable decoder in module FrameReader is proved against ParseFrame. */
module FrameFormat {

  type byte = bv8

  /** The fields of frameHeader that the decoder fills in. `length` is the
      int64 Length, `lengthFields` the number of extended-length bytes
      (0, 2 or 8) and `maskingKey` the key bytes read (none or four). */
  datatype FrameHeader = FrameHeader(
    fin: bool,
    rsv: seq<bool>,
    opCode: byte,
    length: int,
    lengthFields: int,
    maskFlag: bool,
    maskingKey: seq<byte>)

  /** A completed frame: its header and its unmasked payload. */
  datatype Frame = Frame(header: FrameHeader, payload: seq<byte>)

  /** The outcome of reading one frame from the front of a byte sequence:
      the frame and the number of bytes it occupies, or too few bytes. */
  datatype FrameParse = Complete(frame: Frame, size: nat) | Incomplete

  /** The frames at the front of a byte sequence and the bytes after them. */
  datatype Split = Split(frames: seq<Frame>, rest: seq<byte>)

  const MaskKeySize: nat := 4
  const MaxLength16: nat := 0x1_0000
  const MaxLength63: nat := 0x8000_0000_0000_0000

  // First header byte: FIN, RSV1..RSV3, four-bit opcode.

  function FinBit(b: byte): bool { (b >> 7) & 1 != 0 }

  function RsvBits(b: byte): seq<bool> { [(b >> 6) & 1 != 0, (b >> 5) & 1 != 0, (b >> 4) & 1 != 0] }

  function OpCodeBits(b: byte): byte { b & 0x0f }

  // Second header byte: MASK and the seven-bit base length.

  function MaskBit(b: byte): bool { b & 0x80 != 0 }

  function BaseLength(b: byte): byte { b & 0x7f }

  /** How many extended-length bytes follow: none for a base length up to
      125, two for 126 and eight for 127. */
  function ExtLenFields(b: byte): (n: nat)
    ensures n == 0 || n == 2 || n == 8
    ensures n == 0 <==> BaseLength(b) as nat <= 125
    ensures n == 2 <==> BaseLength(b) as nat == 126
  {
    var l := b & 0x7f;
    if l <= 125 then 0 else if l == 126 then 2 else 8
  }

  function Pow256(k: nat): (p: nat)
    ensures p > 0
  {
    if k == 0 then 1 else 256 * Pow256(k - 1)
  }

  /** The unsigned big-endian value of a byte sequence, accumulated from the
      left as the decoder's loop does. */
  function BigEndian(s: seq<byte>): nat
  {
    if s == [] then 0 else BigEndian(s[..|s| - 1]) * 256 + s[|s| - 1] as nat
  }

  lemma BigEndianSnoc(s: seq<byte>, b: byte)
    ensures BigEndian(s + [b]) == BigEndian(s) * 256 + b as nat
  {
    assert (s + [b])[..|s|] == s;
  }

  lemma MulAssoc256(c: nat, p: nat)
    ensures c * (256 * p) == (c * p) * 256
  {
  }

  lemma MulMono(a: nat, b: nat, c: nat)
    requires a <= b
    ensures a * c <= b * c
  {
  }

  /** A big-endian value is below (first byte + 1) * 256^(n-1). */
  lemma {:induction false} BigEndianBound(s: seq<byte>)
    requires s != []
    ensures BigEndian(s) < (s[0] as nat + 1) * Pow256(|s| - 1)
  {
    if |s| > 1 {
      var p := s[..|s| - 1];
      BigEndianBound(p);
      var c := s[0] as nat + 1;
      var q := c * Pow256(|p| - 1);
      assert p[0] == s[0];
      assert BigEndian(p) < q;
      assert BigEndian(s) == BigEndian(p) * 256 + s[|s| - 1] as nat;
      assert BigEndian(s) < q * 256;
      MulAssoc256(c, Pow256(|p| - 1));
    }
  }

  lemma Pow256Values()
    ensures Pow256(2) == MaxLength16
    ensures 128 * Pow256(7) == MaxLength63
    ensures Pow256(8) == 2 * MaxLength63
  {
    assert Pow256(1) == 256;
    assert Pow256(2) == 256 * 256;
    assert Pow256(3) == 256 * 256 * 256;
    assert Pow256(4) == 256 * 256 * 256 * 256;
    assert Pow256(5) == 256 * Pow256(4);
    assert Pow256(6) == 256 * Pow256(5);
    assert Pow256(7) == 256 * Pow256(6);
  }

  /** The extension bytes with the most significant bit of the first of
      eight cleared. */
  function ClearTopBit(ext: seq<byte>): (e: seq<byte>)
    requires |ext| == 2 || |ext| == 8
  {
    if |ext| == 8 then [ext[0] & 0x7f] + ext[1..] else ext
  }

  lemma ClearTopBitAt(ext: seq<byte>, i: nat)
    requires |ext| == 2 || |ext| == 8
    requires i < |ext|
    ensures |ClearTopBit(ext)| == |ext|
    ensures ClearTopBit(ext)[i] == if |ext| == 8 && i == 0 then ext[0] & 0x7f else ext[i]
  {
    if |ext| == 8 && i > 0 {
      assert ClearTopBit(ext)[i] == ext[1..][i - 1];
    }
  }

  /** The extended length: the big-endian value of its two or eight bytes,
      where the most significant bit of the first of eight bytes is cleared
      (not rejected) before the value is formed. */
  function ExtendedLength(ext: seq<byte>): (n: nat)
    requires |ext| == 2 || |ext| == 8
    ensures |ext| == 2 ==> n < MaxLength16
    ensures |ext| == 8 ==> n < MaxLength63
  {
    var e := ClearTopBit(ext);
    BigEndianBound(e);
    Pow256Values();
    if |ext| == 8 then
      assert e[0] as nat < 128;
      MulMono(e[0] as nat + 1, 128, Pow256(7));
      BigEndian(e)
    else
      MulMono(e[0] as nat + 1, 256, Pow256(1));
      BigEndian(e)
  }

  /** Offset of the first payload byte: two header bytes, the extended
      length, and four key bytes when MASK is set. */
  function PayloadStart(s: seq<byte>): nat
    requires |s| >= 2
  {
    2 + ExtLenFields(s[1]) + (if MaskBit(s[1]) then MaskKeySize else 0)
  }

  function PayloadLength(s: seq<byte>): nat
    requires |s| >= 2 && |s| >= 2 + ExtLenFields(s[1])
  {
    var ext := ExtLenFields(s[1]);
    if ext == 0 then BaseLength(s[1]) as nat else ExtendedLength(s[2..2 + ext])
  }

  function MaskingKeyOf(s: seq<byte>): seq<byte>
    requires |s| >= 2 && |s| >= PayloadStart(s)
  {
    if MaskBit(s[1]) then s[2 + ExtLenFields(s[1])..PayloadStart(s)] else []
  }

  /** The header of the frame at the front of `s`, once all of it is there. */
  function HeaderOf(s: seq<byte>): FrameHeader
    requires |s| >= 2 && |s| >= PayloadStart(s)
  {
    FrameHeader(FinBit(s[0]), RsvBits(s[0]), OpCodeBits(s[0]), PayloadLength(s),
                ExtLenFields(s[1]), MaskBit(s[1]), MaskingKeyOf(s))
  }

  /** XOR of every byte with the key byte at its index modulo 4. */
  function Masked(msg: seq<byte>, key: seq<byte>): seq<byte>
    requires |key| == MaskKeySize
  {
    seq(|msg|, i requires 0 <= i < |msg| => msg[i] ^ key[i % 4])
  }

  /** What frameReader.Read does to a payload: unmask with a four-byte key,
      leave it alone with any other key. */
  function Unmask(raw: seq<byte>, key: seq<byte>): seq<byte>
  {
    if |key| == MaskKeySize then Masked(raw, key) else raw
  }

  lemma {:induction false} MaskedInvolutive(msg: seq<byte>, key: seq<byte>)
    requires |key| == MaskKeySize
    ensures Masked(Masked(msg, key), key) == msg
  {
    var m := Masked(msg, key);
    assert |Masked(m, key)| == |msg|;
    forall i | 0 <= i < |msg| ensures Masked(m, key)[i] == msg[i] {
      assert m[i] == msg[i] ^ key[i % 4];
    }
  }

  lemma UnmaskInvolutive(msg: seq<byte>, key: seq<byte>)
    ensures Unmask(Unmask(msg, key), key) == msg
  {
    if |key| == MaskKeySize {
      MaskedInvolutive(msg, key);
    }
  }

  /** One frame from the front of `s`: Incomplete when fewer bytes are there
      than the header, extended length, key and payload need. */
  function ParseFrame(s: seq<byte>): (p: FrameParse)
    ensures p.Complete? ==> 2 <= p.size <= |s|
  {
    if |s| < 2 || |s| < PayloadStart(s) then Incomplete
    else
      var start := PayloadStart(s);
      var h := HeaderOf(s);
      if |s| - start < h.length then Incomplete
      else Complete(Frame(h, Unmask(s[start..start + h.length], h.maskingKey)), start + h.length)
  }

  /** What a completed frame looks like: the payload has the declared
      length and follows the header directly; the key is four bytes exactly
      when MASK is set; the length fits the field it came from. */
  lemma ParseFrameShape(s: seq<byte>)
    requires ParseFrame(s).Complete?
    ensures var p := ParseFrame(s); var h := p.frame.header;
      |p.frame.payload| == h.length &&
      p.size == PayloadStart(s) + h.length &&
      |h.maskingKey| == (if h.maskFlag then MaskKeySize else 0) &&
      (h.lengthFields == 0 ==> h.length <= 125) &&
      (h.lengthFields == 2 ==> h.length < MaxLength16) &&
      (h.lengthFields == 8 ==> h.length < MaxLength63)
  {
  }

  /** Every complete frame at the front of `s`, in order, and what is left. */
  function ParseAll(s: seq<byte>): (p: Split)
    ensures ParseFrame(p.rest).Incomplete?
    ensures |p.rest| <= |s| && p.rest == s[|s| - |p.rest|..]
    ensures 2 * |p.frames| <= |s| - |p.rest|
    decreases |s|
  {
    match ParseFrame(s)
    case Incomplete => Split([], s)
    case Complete(f, n) =>
      var t := ParseAll(s[n..]);
      Split([f] + t.frames, t.rest)
  }

  lemma SliceAppend(s: seq<byte>, t: seq<byte>, i: nat, j: nat)
    requires i <= j <= |s|
    ensures (s + t)[i..j] == s[i..j]
  {
  }

  /** The header fields depend only on the bytes that hold them. */
  lemma PrefixFacts(s: seq<byte>, t: seq<byte>)
    requires |s| >= 2
    ensures (s + t)[0] == s[0] && (s + t)[1] == s[1]
    ensures PayloadStart(s + t) == PayloadStart(s)
    ensures |s| >= 2 + ExtLenFields(s[1]) ==> PayloadLength(s + t) == PayloadLength(s)
    ensures |s| >= PayloadStart(s) ==> HeaderOf(s + t) == HeaderOf(s)
  {
    var u := s + t;
    var ext := ExtLenFields(s[1]);
    assert u[0] == s[0] && u[1] == s[1];
    if |s| >= 2 + ext {
      SliceAppend(s, t, 2, 2 + ext);
    }
    if |s| >= PayloadStart(s) {
      SliceAppend(s, t, 2 + ext, PayloadStart(s));
      assert MaskingKeyOf(u) == MaskingKeyOf(s);
    }
  }

  /** A complete frame stays the same frame whatever bytes follow it. */
  lemma ParseFrameExtend(s: seq<byte>, t: seq<byte>)
    requires ParseFrame(s).Complete?
    ensures ParseFrame(s + t) == ParseFrame(s)
  {
    var u := s + t;
    var start := PayloadStart(s);
    var n := ParseFrame(s).size;
    PrefixFacts(s, t);
    SliceAppend(s, t, start, n);
    assert Unmask(u[start..n], HeaderOf(u).maskingKey) == Unmask(s[start..n], HeaderOf(s).maskingKey);
  }

  /** One step of ParseAll past a complete frame. */
  lemma ParseAllStep(s: seq<byte>)
    requires ParseFrame(s).Complete?
    ensures var n := ParseFrame(s).size;
      ParseAll(s) == Split([ParseFrame(s).frame] + ParseAll(s[n..]).frames, ParseAll(s[n..]).rest)
  {
  }

  /** Splitting the stream anywhere does not change the frames found. */
  lemma {:induction false} ParseAllAppend(s: seq<byte>, t: seq<byte>)
    ensures ParseAll(s + t).frames == ParseAll(s).frames + ParseAll(ParseAll(s).rest + t).frames
    ensures ParseAll(s + t).rest == ParseAll(ParseAll(s).rest + t).rest
    decreases |s|
  {
    if ParseFrame(s).Complete? {
      var n := ParseFrame(s).size;
      ParseFrameExtend(s, t);
      DropAppend(s, t, n);
      ParseAllAppend(s[n..], t);
      ParseAllStep(s);
      ParseAllStep(s + t);
      AppendAssoc([ParseFrame(s).frame], ParseAll(s[n..]).frames, ParseAll(ParseAll(s[n..]).rest + t).frames);
    } else {
      assert ParseAll(s) == Split([], s);
      EmptyAppend(ParseAll(s + t).frames);
    }
  }

  lemma EmptyAppend<T>(a: seq<T>)
    ensures [] + a == a
  {
  }

  lemma DropAppend(s: seq<byte>, t: seq<byte>, n: nat)
    requires n <= |s|
    ensures (s + t)[n..] == s[n..] + t
  {
  }

  lemma AppendAssoc<T>(a: seq<T>, b: seq<T>, c: seq<T>)
    ensures a + (b + c) == (a + b) + c
  {
  }

  function Concat(chunks: seq<seq<byte>>): seq<byte>
  {
    if chunks == [] then [] else chunks[0] + Concat(chunks[1..])
  }

  lemma ConcatFirst(s: seq<byte>, chunks: seq<seq<byte>>)
    requires chunks != []
    ensures s + Concat(chunks) == (s + chunks[0]) + Concat(chunks[1..])
  {
  }

  /** What a reader that drains every complete frame after each delivery
      finds when the chunks arrive one after another on top of `s`. */
  function FeedChunks(s: seq<byte>, chunks: seq<seq<byte>>): Split
    decreases |chunks|
  {
    if chunks == [] then Split([], s)
    else
      var p := ParseAll(s + chunks[0]);
      var q := FeedChunks(p.rest, chunks[1..]);
      Split(p.frames + q.frames, q.rest)
  }

  /** Chunking invariance: delivery in pieces yields the frames, and leaves
      the bytes, that one delivery of all of them would. */
  lemma {:induction false} ChunkingInvariance(s: seq<byte>, chunks: seq<seq<byte>>)
    requires ParseFrame(s).Incomplete?
    ensures FeedChunks(s, chunks) == ParseAll(s + Concat(chunks))
    decreases |chunks|
  {
    if chunks == [] {
      assert s + Concat(chunks) == s;
    } else {
      var p := ParseAll(s + chunks[0]);
      ChunkingInvariance(p.rest, chunks[1..]);
      ConcatFirst(s, chunks);
      ParseAllAppend(s + chunks[0], Concat(chunks[1..]));
    }
  }

  // An encoder, as the independent reference the decoder is checked against.

  /** The k-byte big-endian representation of n. */
  function ToBigEndian(n: nat, k: nat): (r: seq<byte>)
    requires n < Pow256(k)
    ensures |r| == k
  {
    if k == 0 then [] else ToBigEndian(n / 256, k - 1) + [(n % 256) as bv8]
  }

  lemma DivBound(n: nat, p: nat)
    requires n < 256 * p
    ensures n / 256 < p
  {
  }

  lemma ByteRoundTrip(m: nat)
    requires m < 256
    ensures (m as bv8) as nat == m
  {
    if m < 16 {} else if m < 32 {} else if m < 64 {} else if m < 128 {} else {}
  }

  lemma LowByte(n: nat)
    ensures ((n % 256) as bv8) as nat == n % 256
    ensures n / 256 * 256 + n % 256 == n
  {
    ByteRoundTrip(n % 256);
  }

  lemma {:induction false} BigEndianOfToBigEndian(n: nat, k: nat)
    requires n < Pow256(k)
    ensures BigEndian(ToBigEndian(n, k)) == n
  {
    if k > 0 {
      DivBound(n, Pow256(k - 1));
      var p := ToBigEndian(n / 256, k - 1);
      BigEndianOfToBigEndian(n / 256, k - 1);
      BigEndianSnoc(p, (n % 256) as bv8);
      LowByte(n);
    }
  }

  /** A value below 128 * 256^(k-1) leaves the top bit of its first byte clear. */
  lemma {:induction false} ToBigEndianTopBitClear(n: nat, k: nat)
    requires k > 0 && n < 128 * Pow256(k - 1)
    ensures n < Pow256(k) && ToBigEndian(n, k)[0] & 0x80 == 0
  {
    if k > 1 {
      ToBigEndianTopBitClear(n / 256, k - 1);
      assert ToBigEndian(n, k)[0] == ToBigEndian(n / 256, k - 1)[0];
    } else {
      assert ToBigEndian(n, k) == [(n % 256) as bv8];
    }
  }

  function HeaderByte0(fin: bool, rsv: seq<bool>, opCode: byte): byte
    requires |rsv| == 3
  {
    (if fin then 0x80 else 0) | (if rsv[0] then 0x40 else 0) | (if rsv[1] then 0x20 else 0)
      | (if rsv[2] then 0x10 else 0) | (opCode & 0x0f)
  }

  /** The number of extended-length bytes an encoder uses for `n`. */
  function LengthFieldsFor(n: nat): nat
  {
    if n <= 125 then 0 else if n < MaxLength16 then 2 else 8
  }

  /** The second header byte: MASK and the base length (or 126, 127). */
  function LengthByte(n: nat, masked: bool): byte
  {
    var maskBit: byte := if masked then 0x80 else 0;
    if n <= 125 then maskBit | n as bv8
    else if n < MaxLength16 then maskBit | 126
    else maskBit | 127
  }

  /** The extended length in the shortest form. */
  function ExtendedLengthBytes(n: nat): (r: seq<byte>)
    requires n < MaxLength63
    ensures |r| == LengthFieldsFor(n)
  {
    Pow256Values();
    if n <= 125 then [] else if n < MaxLength16 then ToBigEndian(n, 2) else ToBigEndian(n, 8)
  }

  /** The shortest encoding of a frame; `key` is empty or a four-byte key. */
  function EncodeFrame(fin: bool, rsv: seq<bool>, opCode: byte, key: seq<byte>, payload: seq<byte>): seq<byte>
    requires |rsv| == 3 && opCode < 16
    requires |key| == 0 || |key| == MaskKeySize
    requires |payload| < MaxLength63
  {
    [HeaderByte0(fin, rsv, opCode), LengthByte(|payload|, |key| == MaskKeySize)]
      + ExtendedLengthBytes(|payload|) + key + Unmask(payload, key)
  }

  lemma HeaderByte0Fields(fin: bool, rsv: seq<bool>, opCode: byte)
    requires |rsv| == 3 && opCode < 16
    ensures FinBit(HeaderByte0(fin, rsv, opCode)) == fin
    ensures RsvBits(HeaderByte0(fin, rsv, opCode)) == rsv
    ensures OpCodeBits(HeaderByte0(fin, rsv, opCode)) == opCode
  {
  }

  lemma SmallLengthByte(n: nat, maskBit: byte)
    requires n <= 125 && (maskBit == 0 || maskBit == 0x80)
    ensures BaseLength(maskBit | n as bv8) as nat == n
    ensures MaskBit(maskBit | n as bv8) == (maskBit == 0x80)
  {
    ByteRoundTrip(n);
    assert n as bv8 <= 125;
  }

  lemma LengthByteFields(n: nat, masked: bool)
    ensures MaskBit(LengthByte(n, masked)) == masked
    ensures ExtLenFields(LengthByte(n, masked)) == LengthFieldsFor(n)
    ensures n <= 125 ==> BaseLength(LengthByte(n, masked)) as nat == n
  {
    var maskBit: byte := if masked then 0x80 else 0;
    if n <= 125 {
      SmallLengthByte(n, maskBit);
    }
  }

  /** The extended-length bytes read back as the length they encode. */
  lemma ExtendedLengthBytesDecode(n: nat)
    requires 125 < n < MaxLength63
    ensures ExtendedLength(ExtendedLengthBytes(n)) == n
  {
    Pow256Values();
    var be := ExtendedLengthBytes(n);
    BigEndianOfToBigEndian(n, |be|);
    if |be| == 8 {
      ToBigEndianTopBitClear(n, 8);
      assert [be[0] & 0x7f] + be[1..] == be;
    }
  }

  /** Where each part of an encoded frame sits. */
  lemma Layout(h: seq<byte>, ext: seq<byte>, key: seq<byte>, body: seq<byte>, rest: seq<byte>)
    requires |h| == 2
    ensures var s := h + ext + key + body + rest;
      |s| == 2 + |ext| + |key| + |body| + |rest| &&
      s[0] == h[0] && s[1] == h[1] &&
      s[2..2 + |ext|] == ext &&
      s[2 + |ext|..2 + |ext| + |key|] == key &&
      s[2 + |ext| + |key|..2 + |ext| + |key| + |body|] == body
  {
    var s := h + ext + key + body + rest;
    assert s == h + ext + (key + body + rest);
    assert s == (h + ext) + key + (body + rest);
    assert s == (h + ext + key) + body + rest;
  }

  /** The header fields of a stream laid out as two header bytes, the
      extended length, the masking key, the payload and whatever follows. */
  lemma LayoutFields(h: seq<byte>, ext: seq<byte>, key: seq<byte>, body: seq<byte>, rest: seq<byte>)
    requires |h| == 2 && |ext| == ExtLenFields(h[1])
    requires |key| == if MaskBit(h[1]) then MaskKeySize else 0
    ensures var s := h + ext + key + body + rest;
      |s| >= PayloadStart(s) && PayloadStart(s) == 2 + |ext| + |key| &&
      PayloadLength(s) == (if |ext| == 0 then BaseLength(h[1]) as nat else ExtendedLength(ext)) &&
      HeaderOf(s) == FrameHeader(FinBit(h[0]), RsvBits(h[0]), OpCodeBits(h[0]), PayloadLength(s),
                                 |ext|, MaskBit(h[1]), key) &&
      s[2 + |ext| + |key|..2 + |ext| + |key| + |body|] == body
  {
    Layout(h, ext, key, body, rest);
  }

  /** Round trip: the decoder recovers every encoded field and the payload,
      and consumes exactly the encoded bytes, whatever follows them. */
  lemma EncodeThenParse(fin: bool, rsv: seq<bool>, opCode: byte, key: seq<byte>, payload: seq<byte>, rest: seq<byte>)
    requires |rsv| == 3 && opCode < 16
    requires |key| == 0 || |key| == MaskKeySize
    requires |payload| < MaxLength63
    ensures var e := EncodeFrame(fin, rsv, opCode, key, payload);
      ParseFrame(e + rest) == Complete(Frame(FrameHeader(fin, rsv, opCode, |payload|,
        LengthFieldsFor(|payload|), |key| == MaskKeySize, key), payload), |e|)
  {
    var n := |payload|;
    var masked := |key| == MaskKeySize;
    var h := [HeaderByte0(fin, rsv, opCode), LengthByte(n, masked)];
    var ext := ExtendedLengthBytes(n);
    var body := Unmask(payload, key);
    HeaderByte0Fields(fin, rsv, opCode);
    LengthByteFields(n, masked);
    if n > 125 {
      ExtendedLengthBytesDecode(n);
    }
    UnmaskInvolutive(payload, key);
    LayoutFields(h, ext, key, body, rest);
    var s := h + ext + key + body + rest;
    assert PayloadLength(s) == n;
    ParseFrameOf(s, FrameHeader(fin, rsv, opCode, n, LengthFieldsFor(n), masked, key), body);
  }

  /** The frame at the front of `s` once its header and payload position are
      known. */
  lemma ParseFrameOf(s: seq<byte>, h: FrameHeader, body: seq<byte>)
    requires |s| >= 2 && |s| >= PayloadStart(s) && HeaderOf(s) == h
    requires |body| == h.length && PayloadStart(s) + h.length <= |s|
    requires s[PayloadStart(s)..PayloadStart(s) + h.length] == body
    ensures ParseFrame(s) == Complete(Frame(h, Unmask(body, h.maskingKey)), PayloadStart(s) + h.length)
  {
  }

  /** Pipelining: two encoded frames back to back are found as two frames, in
      order, with nothing left over. */
  lemma TwoFramesInOneChunk(f1: Frame, e1: seq<byte>, f2: Frame, e2: seq<byte>)
    requires ParseFrame(e1) == Complete(f1, |e1|)
    requires ParseFrame(e2) == Complete(f2, |e2|)
    ensures ParseAll(e1 + e2) == Split([f1, f2], [])
  {
    ParseFrameExtend(e1, e2);
    assert (e1 + e2)[|e1|..] == e2;
    assert e2[|e2|..] == [];
    assert ParseFrame([]).Incomplete?;
  }
}
