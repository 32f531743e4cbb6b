/** frameReader from test/evio_server/frame.go: a resumable frame decoder
    that keeps one accumulation buffer, the state it is in and the header it
    has filled in so far, and is proved against FrameFormat.ParseFrame. */
module FrameReader {
  import opened FrameFormat

  /** frameDecStatus: the part of the current frame the decoder reads next. */
  datatype DecStatus = DecHeader | DecLength | DecMaskKey | DecPayload

  /** What one Decode call returns: nil, with the payload slice of the frame
      it completed, or io.ErrUnexpectedEOF. */
  datatype DecodeResult = Decoded(payload: seq<byte>) | UnexpectedEOF

  /** Offset in the frame of the section state `st` reads. */
  function SectionStart(s: seq<byte>, st: DecStatus): nat
    requires |s| >= 2 || st == DecHeader
  {
    match st
    case DecHeader => 0
    case DecLength => 2
    case DecMaskKey => 2 + ExtLenFields(s[1])
    case DecPayload => PayloadStart(s)
  }

  /** The state a decoder stops in on `s`: the first section that is not
      fully buffered. */
  function StallStatus(s: seq<byte>): DecStatus
  {
    if |s| < 2 then DecHeader
    else if |s| < 2 + ExtLenFields(s[1]) then DecLength
    else if |s| < PayloadStart(s) then DecMaskKey
    else DecPayload
  }

  /** The header fields that a decoder about to read section `st` of the
      frame at the front of `s` has filled in from the sections before it. */
  ghost predicate HeaderSoFar(h: FrameHeader, s: seq<byte>, st: DecStatus)
  {
    |h.rsv| == 3 &&
    (st != DecHeader ==>
      |s| >= 2 &&
      h.fin == FinBit(s[0]) && h.rsv == RsvBits(s[0]) && h.opCode == OpCodeBits(s[0]) &&
      h.maskFlag == MaskBit(s[1]) && h.lengthFields == ExtLenFields(s[1]) &&
      (st == DecLength ==> h.maskingKey == [] && (h.lengthFields == 0 ==> h.length == BaseLength(s[1]) as int)) &&
      (st == DecMaskKey ==> |s| >= 2 + h.lengthFields && h.maskingKey == [] && h.length == PayloadLength(s)) &&
      (st == DecPayload ==> |s| >= PayloadStart(s) && h == HeaderOf(s)))
  }

  /** A decoder in state `st` that has consumed `p` of the stream `s`, has
      `b` left buffered and holds header `h` is on track: `p` is exactly the
      sections of the front frame before `st`, and `h` holds their fields. */
  ghost predicate At(s: seq<byte>, p: seq<byte>, b: seq<byte>, st: DecStatus, h: FrameHeader)
  {
    p + b == s &&
    (|s| >= 2 || st == DecHeader) &&
    |p| == SectionStart(s, st) &&
    HeaderSoFar(h, s, st)
  }

  /** Between calls a decoder holding `p` and `b` in state `st` is either at
      a frame boundary or stopped in the first section of the front frame
      that is not fully buffered. */
  ghost predicate ValidAt(p: seq<byte>, b: seq<byte>, st: DecStatus, h: FrameHeader)
  {
    At(p + b, p, b, st, h) &&
    (st != DecHeader ==> ParseFrame(p + b).Incomplete? && st == StallStatus(p + b))
  }

  /** What a Decode call on the stream `s` promises about its result and the
      decoder it leaves: without a complete frame it returns
      ErrUnexpectedEOF and keeps every byte; with one it returns that
      frame's payload, keeps its header and buffers what follows. */
  ghost predicate DecodeOutcome(s: seq<byte>, r: DecodeResult, p: seq<byte>, b: seq<byte>, st: DecStatus, h: FrameHeader)
  {
    match ParseFrame(s)
    case Incomplete => r == UnexpectedEOF && p + b == s
    case Complete(f, n) => r == Decoded(f.payload) && h == f.header && st == DecHeader && p == [] && b == s[n..]
  }

  /** One Decode call takes the first step of ParseAll: it returns
      nothing when the stream holds no complete frame, and otherwise the
      first frame, leaving the stream of the frames after it. */
  lemma DecodeOutcomeSplit(s: seq<byte>, r: DecodeResult, p: seq<byte>, b: seq<byte>, st: DecStatus, h: FrameHeader)
    requires DecodeOutcome(s, r, p, b, st, h)
    ensures r.UnexpectedEOF? ==> ParseAll(s) == Split([], p + b)
    ensures r.Decoded? ==> |p + b| < |s|
    ensures r.Decoded? ==> ParseAll(s).frames == [Frame(h, r.payload)] + ParseAll(p + b).frames
    ensures r.Decoded? ==> ParseAll(s).rest == ParseAll(p + b).rest
  {
    if ParseFrame(s).Complete? {
      ParseAllStep(s);
      assert p + b == b;
    }
  }

  /** A call that returns nil has taken exactly the header, the extended
      length, the key and `Length` payload bytes off the stream and is back
      in frameDecHeader; the key is four bytes exactly when MASK is set, and
      the payload is the raw bytes XORed with it, or the raw bytes
      themselves without one. */
  lemma DecodedFrame(s: seq<byte>, payload: seq<byte>, p: seq<byte>, b: seq<byte>, st: DecStatus, h: FrameHeader)
    requires DecodeOutcome(s, Decoded(payload), p, b, st, h)
    ensures |s| >= 2 && PayloadStart(s) + h.length <= |s|
    ensures st == DecHeader && p == [] && b == s[PayloadStart(s) + h.length..]
    ensures h.maskFlag == MaskBit(s[1]) && h.length == |payload|
    ensures h.maskFlag ==> |h.maskingKey| == MaskKeySize
    ensures h.maskFlag ==> payload == Masked(s[PayloadStart(s)..PayloadStart(s) + h.length], h.maskingKey)
    ensures !h.maskFlag ==> h.maskingKey == []
    ensures !h.maskFlag ==> payload == s[PayloadStart(s)..PayloadStart(s) + h.length]
  {
    ParseFrameShape(s);
  }

  /** A call that stops short leaves a valid decoder and every byte. */
  lemma StallOutcome(s: seq<byte>, p: seq<byte>, b: seq<byte>, st: DecStatus, h: FrameHeader)
    requires At(s, p, b, st, h) && ParseFrame(s).Incomplete?
    requires st == DecHeader || st == StallStatus(s)
    ensures ValidAt(p, b, st, h) && DecodeOutcome(s, UnexpectedEOF, p, b, st, h)
  {
  }

  /** A call that reads the payload completes the front frame and leaves a
      decoder at the boundary after it. */
  lemma PayloadOutcome(s: seq<byte>, p: seq<byte>, b: seq<byte>, h: FrameHeader, payload: seq<byte>)
    requires At(s, p, b, DecPayload, h) && h.length <= |b|
    requires payload == Unmask(b[..h.length], h.maskingKey)
    ensures ValidAt([], b[h.length..], DecHeader, h)
    ensures DecodeOutcome(s, Decoded(payload), [], b[h.length..], DecHeader, h)
  {
    PayloadRead(s, p, b, h);
    FrameOutcome(s, b[h.length..], h, payload);
  }

  /** A call that completes a frame leaves a decoder at a frame boundary. */
  lemma FrameOutcome(s: seq<byte>, b: seq<byte>, h: FrameHeader, payload: seq<byte>)
    requires |b| <= |s| && ParseFrame(s) == Complete(Frame(h, payload), |s| - |b|) && b == s[|s| - |b|..]
    ensures ValidAt([], b, DecHeader, h) && DecodeOutcome(s, Decoded(payload), [], b, DecHeader, h)
  {
    ParseFrameShape(s);
  }

  /** Appending received bytes keeps a decoder on track. */
  lemma AtExtend(s: seq<byte>, p: seq<byte>, b: seq<byte>, st: DecStatus, h: FrameHeader, t: seq<byte>)
    requires At(s, p, b, st, h)
    ensures At(s + t, p, b + t, st, h)
  {
    assert p + (b + t) == (p + b) + t;
    if |s| >= 2 {
      PrefixFacts(s, t);
    }
  }

  lemma HeaderShort(s: seq<byte>, p: seq<byte>, b: seq<byte>, h: FrameHeader)
    requires At(s, p, b, DecHeader, h) && |b| < 2
    ensures ParseFrame(s).Incomplete?
  {
  }

  /** The fields read from the first two buffered bytes are those the
      length state expects. */
  lemma HeaderRead(s: seq<byte>, p: seq<byte>, b: seq<byte>, h: FrameHeader, h2: FrameHeader)
    requires At(s, p, b, DecHeader, h) && |b| >= 2
    requires |h2.rsv| == 3 && h2.maskingKey == []
    requires h2.fin == FinBit(b[0]) && h2.rsv == RsvBits(b[0]) && h2.opCode == OpCodeBits(b[0])
    requires h2.maskFlag == MaskBit(b[1]) && h2.lengthFields == ExtLenFields(b[1])
    requires h2.lengthFields == 0 ==> h2.length == BaseLength(b[1]) as int
    ensures At(s, p + [b[0], b[1]], b[2..], DecLength, h2)
  {
    assert [b[0], b[1]] + b[2..] == b;
  }

  lemma LengthShort(s: seq<byte>, p: seq<byte>, b: seq<byte>, h: FrameHeader)
    requires At(s, p, b, DecLength, h) && |b| < h.lengthFields
    ensures ParseFrame(s).Incomplete? && StallStatus(s) == DecLength
  {
  }

  lemma LengthSkip(s: seq<byte>, p: seq<byte>, b: seq<byte>, h: FrameHeader)
    requires At(s, p, b, DecLength, h) && h.lengthFields == 0
    ensures At(s, p, b, DecMaskKey, h)
  {
  }

  /** The extended length read from the buffer is the stream's payload
      length. */
  lemma LengthRead(s: seq<byte>, p: seq<byte>, b: seq<byte>, h: FrameHeader)
    requires At(s, p, b, DecLength, h) && 0 < h.lengthFields <= |b|
    ensures At(s, p + b[..h.lengthFields], b[h.lengthFields..], DecMaskKey, h.(length := ExtendedLength(b[..h.lengthFields])))
  {
    var n := h.lengthFields;
    assert b[..n] + b[n..] == b;
    assert s[2..2 + n] == b[..n];
  }

  lemma MaskShort(s: seq<byte>, p: seq<byte>, b: seq<byte>, h: FrameHeader)
    requires At(s, p, b, DecMaskKey, h) && h.maskFlag && |b| < MaskKeySize
    ensures ParseFrame(s).Incomplete? && StallStatus(s) == DecMaskKey
  {
  }

  lemma MaskSkip(s: seq<byte>, p: seq<byte>, b: seq<byte>, h: FrameHeader)
    requires At(s, p, b, DecMaskKey, h) && !h.maskFlag
    ensures At(s, p, b, DecPayload, h)
  {
  }

  /** The four masking-key bytes read from the buffer are the stream's. */
  lemma MaskRead(s: seq<byte>, p: seq<byte>, b: seq<byte>, h: FrameHeader)
    requires At(s, p, b, DecMaskKey, h) && h.maskFlag && MaskKeySize <= |b|
    ensures At(s, p + b[..4], b[4..], DecPayload, h.(maskingKey := b[..4]))
  {
    assert b[..4] + b[4..] == b;
    assert s[|p|..|p| + 4] == b[..4];
  }

  lemma PayloadShort(s: seq<byte>, p: seq<byte>, b: seq<byte>, h: FrameHeader)
    requires At(s, p, b, DecPayload, h) && |b| < h.length
    ensures ParseFrame(s).Incomplete? && StallStatus(s) == DecPayload
  {
  }

  /** With the payload buffered the stream holds a complete frame: the
      header read so far and the unmasked payload bytes. */
  lemma PayloadRead(s: seq<byte>, p: seq<byte>, b: seq<byte>, h: FrameHeader)
    requires At(s, p, b, DecPayload, h) && h.length <= |b|
    ensures ParseFrame(s) == Complete(Frame(h, Unmask(b[..h.length], h.maskingKey)), |p| + h.length)
    ensures s[|p| + h.length..] == b[h.length..]
  {
    assert s[|p|..|p| + h.length] == b[..h.length];
  }

  /** The first-byte step of frameReader.Decode: FIN, RSV1-3 and the opcode
      from the first header byte. */
  method ReadFirstByte(h0: byte, h: FrameHeader) returns (r: FrameHeader)
    requires |h.rsv| == 3
    ensures r == h.(fin := FinBit(h0), rsv := RsvBits(h0), opCode := OpCodeBits(h0))
  {
    r := h.(fin := ((h0 >> 7) & 1) != 0);
    var rsv := r.rsv;
    for i := 0 to 3
      invariant |rsv| == 3
      invariant forall k :: 0 <= k < i ==> rsv[k] == (((h0 >> (6 - k)) & 1) != 0)
    {
      rsv := rsv[i := ((h0 >> (6 - i)) & 1) != 0];
    }
    RsvFromBits(h0, rsv);
    r := r.(rsv := rsv, opCode := h0 & 0x0f);
  }

  lemma RsvFromBits(h0: byte, rsv: seq<bool>)
    requires |rsv| == 3
    requires forall k :: 0 <= k < 3 ==> rsv[k] == (((h0 >> (6 - k)) & 1) != 0)
    ensures rsv == RsvBits(h0)
  {
    assert rsv[0] == (((h0 >> 6) & 1) != 0);
    assert rsv[1] == (((h0 >> 5) & 1) != 0);
    assert rsv[2] == (((h0 >> 4) & 1) != 0);
  }

  /** The second-byte step of frameReader.Decode: MASK and the base length
      from the second header byte; the masking key is emptied, and the
      length stays as it was when extension bytes follow. */
  method ReadSecondByte(b1: byte, h: FrameHeader) returns (r: FrameHeader)
    ensures r == h.(maskFlag := MaskBit(b1), maskingKey := [], lengthFields := ExtLenFields(b1),
                    length := if ExtLenFields(b1) == 0 then BaseLength(b1) as int else h.length)
  {
    var b := b1;
    r := h.(maskFlag := (b & 0x80) != 0, maskingKey := []);
    b := b & 0x7f;
    var lengthFields := 0;
    var length := r.length;
    if b <= 125 {
      length := b as int;
    } else if b == 126 {
      lengthFields := 2;
    } else if b == 127 {
      lengthFields := 8;
    }
    r := r.(lengthFields := lengthFields, length := length);
  }

  lemma BigEndianSnocPrefix(e: seq<byte>, i: nat)
    requires i < |e|
    ensures BigEndian(e[..i + 1]) == BigEndian(e[..i]) * 256 + e[i] as nat
  {
    assert e[..i + 1] == e[..i] + [e[i]];
    BigEndianSnoc(e[..i], e[i]);
  }

  /** The extended-length loop of frameReader.Decode: the big-endian length
      in the first `n` buffered bytes, with the top bit of the first of eight
      cleared, and what is left. */
  method ReadLength(b0: seq<byte>, n: nat) returns (length: int, rest: seq<byte>)
    requires (n == 2 || n == 8) && n <= |b0|
    ensures length == ExtendedLength(b0[..n]) && rest == b0[n..]
  {
    ghost var ext := b0[..n];
    ghost var cleared := ClearTopBit(ext);
    rest := b0;
    length := 0;
    for i := 0 to n
      invariant rest == b0[i..]
      invariant length == BigEndian(cleared[..i])
    {
      var b := rest[0];
      rest := rest[1..];
      if n == 8 && i == 0 {
        // The most significant bit must be zero; it is cleared, not checked.
        b := b & 0x7f;
      }
      ClearTopBitAt(ext, i);
      BigEndianSnocPrefix(cleared, i);
      length := length * 256 + b as int;
    }
    assert cleared[..n] == cleared;
  }

  /** bytes.Buffer.Read as frameReader.Decode uses it for the payload: copy as many buffered bytes
      as fit into `dst`, and report how many were copied and what is left. */
  method BufferRead(src: seq<byte>, dst: array<byte>) returns (n: int, rest: seq<byte>)
    modifies dst
    ensures n == if |src| < dst.Length then |src| else dst.Length
    ensures dst[..n] == src[..n] && dst[n..] == old(dst[n..]) && rest == src[n..]
  {
    n := if |src| < dst.Length then |src| else dst.Length;
    forall i | 0 <= i < n {
      dst[i] := src[i];
    }
    rest := src[n..];
  }

  /** The masking-key loop of frameReader.Decode: append the next four
      buffered bytes to `key`. */
  method ReadMaskKey(b0: seq<byte>, key: seq<byte>) returns (r: seq<byte>, rest: seq<byte>)
    requires MaskKeySize <= |b0|
    ensures r == key + b0[..4] && rest == b0[4..]
  {
    r := key;
    rest := b0;
    for i := 0 to 4
      invariant rest == b0[i..]
      invariant r == key + b0[..i]
    {
      var b := rest[0];
      rest := rest[1..];
      assert b0[..i + 1] == b0[..i] + [b];
      r := r + [b];
    }
  }

  class FrameReader {
    /** frame.buf: bytes received and not yet consumed. */
    var buf: seq<byte>
    /** frame.status */
    var status: DecStatus
    /** frame.header */
    var header: FrameHeader
    /** The bytes of the current frame consumed so far (model only). */
    ghost var pending: seq<byte>

    /** The bytes of the current frame and after it that the decoder holds. */
    ghost function Stream(): seq<byte>
      reads this
    {
      pending + buf
    }

    /** The decoder has consumed exactly the sections of the frame at the
        front of `s` before its current state, and filled in their fields. */
    ghost predicate Consistent(s: seq<byte>)
      reads this
    {
      At(s, pending, buf, status, header)
    }

    /** Between calls the decoder is either at a frame boundary or stopped
        in the first section that is not fully buffered. */
    ghost predicate Valid()
      reads this
    {
      ValidAt(pending, buf, status, header)
    }

    /** The zero frameReader embedded in a new connContext. */
    constructor ()
      ensures Valid() && status == DecHeader && Stream() == [] && buf == []
    {
      buf := [];
      status := DecHeader;
      header := FrameHeader(false, [false, false, false], 0, 0, 0, false, []);
      pending := [];
    }

    /** frameReader.Read: XOR every byte of `msg` in place with the masking
        key when it holds exactly four bytes; otherwise leave `msg` alone and
        report 0 bytes. */
    method Read(msg: array<byte>) returns (n: int)
      modifies msg
      ensures |header.maskingKey| == MaskKeySize ==> n == msg.Length && msg[..] == Masked(old(msg[..]), header.maskingKey)
      ensures |header.maskingKey| != MaskKeySize ==> n == 0 && msg[..] == old(msg[..])
    {
      n := 0;
      if |header.maskingKey| == 4 {
        n := msg.Length;
        for i := 0 to n
          invariant forall k :: 0 <= k < i ==> msg[k] == old(msg[k]) ^ header.maskingKey[k % 4]
          invariant forall k :: i <= k < n ==> msg[k] == old(msg[k])
        {
          msg[i] := msg[i] ^ header.maskingKey[i % 4];
        }
        assert msg[..] == Masked(old(msg[..]), header.maskingKey);
      }
    }

    /** The frameDecHeader case: with two bytes buffered, read FIN, RSV1-3
        and the opcode from the first, MASK and the base length from the
        second, and move to frameDecLength. */
    method DecodeHeader(ghost s: seq<byte>) returns (eof: bool)
      requires Consistent(s) && status == DecHeader
      modifies this
      ensures eof <==> |old(buf)| < 2
      ensures eof ==> buf == old(buf) && pending == old(pending) && header == old(header) && status == DecHeader
      ensures eof ==> Valid() && DecodeOutcome(s, UnexpectedEOF, pending, buf, status, header)
      ensures !eof ==> Consistent(s) && status == DecLength
    {
      if |buf| < 2 {
        HeaderShort(s, pending, buf, header);
        StallOutcome(s, pending, buf, status, header);
        return true;
      }
      eof := false;
      var h := ReadFirstByte(buf[0], header);
      h := ReadSecondByte(buf[1], h);
      HeaderRead(s, pending, buf, header, h);
      pending := pending + [buf[0], buf[1]];
      buf := buf[2..];
      header := h;
      status := DecLength;
    }

    /** The frameDecLength case: with all extended-length bytes buffered,
        form the big-endian length (clearing the top bit of the first of
        eight), and move to frameDecMaskKey. */
    method DecodeLength(ghost s: seq<byte>) returns (eof: bool)
      requires Consistent(s) && status == DecLength
      modifies this
      ensures eof <==> |old(buf)| < old(header.lengthFields)
      ensures eof ==> buf == old(buf) && pending == old(pending) && header == old(header) && status == DecLength
      ensures eof ==> Valid() && DecodeOutcome(s, UnexpectedEOF, pending, buf, status, header)
      ensures !eof ==> Consistent(s) && status == DecMaskKey
    {
      eof := false;
      if header.lengthFields > 0 {
        if |buf| < header.lengthFields {
          LengthShort(s, pending, buf, header);
          StallOutcome(s, pending, buf, status, header);
          return true;
        }
        var length, rest := ReadLength(buf, header.lengthFields);
        LengthRead(s, pending, buf, header);
        pending := pending + buf[..header.lengthFields];
        buf := rest;
        header := header.(length := length);
      } else {
        LengthSkip(s, pending, buf, header);
      }
      status := DecMaskKey;
    }

    /** The frameDecMaskKey case: when MASK is set and four bytes are
        buffered, append them to the masking key; move to frameDecPayload. */
    method DecodeMaskKey(ghost s: seq<byte>) returns (eof: bool)
      requires Consistent(s) && status == DecMaskKey
      modifies this
      ensures eof <==> old(header.maskFlag) && |old(buf)| < MaskKeySize
      ensures eof ==> buf == old(buf) && pending == old(pending) && header == old(header) && status == DecMaskKey
      ensures eof ==> Valid() && DecodeOutcome(s, UnexpectedEOF, pending, buf, status, header)
      ensures !eof ==> Consistent(s) && status == DecPayload
    {
      eof := false;
      if header.maskFlag {
        if |buf| < 4 {
          MaskShort(s, pending, buf, header);
          StallOutcome(s, pending, buf, status, header);
          return true;
        }
        var key, rest := ReadMaskKey(buf, header.maskingKey);
        MaskRead(s, pending, buf, header);
        pending := pending + buf[..4];
        buf := rest;
        header := header.(maskingKey := key);
      } else {
        MaskSkip(s, pending, buf, header);
      }
      status := DecPayload;
    }

    /** The frameDecPayload case: with `Length` bytes buffered, read them
        into a fresh slice, unmask it with Read and return to
        frameDecHeader. */
    method DecodePayload(ghost s: seq<byte>) returns (r: DecodeResult)
      requires Consistent(s) && status == DecPayload
      modifies this
      ensures r.UnexpectedEOF? <==> |old(buf)| < old(header.length)
      ensures r.UnexpectedEOF? ==> buf == old(buf) && pending == old(pending) && header == old(header) && status == DecPayload
      ensures Valid() && DecodeOutcome(s, r, pending, buf, status, header)
    {
      if |buf| < header.length {
        PayloadShort(s, pending, buf, header);
        StallOutcome(s, pending, buf, status, header);
        return UnexpectedEOF;
      }
      ghost var p0 := pending;
      var b0 := buf;
      var n := header.length;
      var payload := new byte[n];
      var got, rest := BufferRead(b0, payload);
      buf := rest;
      if got != n {
        // The ErrShortBuffer return: the length guard above rules it out.
        assert false;
      }
      assert payload[..] == b0[..n];
      var _ := Read(payload);
      assert payload[..] == Unmask(b0[..n], header.maskingKey);
      PayloadOutcome(s, p0, b0, header, payload[..]);
      pending := [];
      status := DecHeader;
      r := Decoded(payload[..]);
    }

    /** frameReader.Decode: append `msg` to the buffer, then carry on from
        the current state through the states that have their bytes buffered.
        It completes at most one frame, and stops without consuming anything
        of the first section that is short. */
    method Decode(msg: seq<byte>) returns (r: DecodeResult)
      requires Valid()
      modifies this
      ensures Valid()
      ensures DecodeOutcome(old(Stream()) + msg, r, pending, buf, status, header)
      ensures r.UnexpectedEOF? ==> status == StallStatus(old(Stream()) + msg)
    {
      ghost var s := old(Stream()) + msg;
      AtExtend(Stream(), pending, buf, status, header, msg);
      // bytes.NewBuffer(msg) on the first call, buf.Write(msg) after.
      buf := buf + msg;
      assert Consistent(s);
      var eof: bool;
      if status == DecHeader {
        eof := DecodeHeader(s);
        if eof {
          return UnexpectedEOF;
        }
      }
      if status == DecLength {
        eof := DecodeLength(s);
        if eof {
          return UnexpectedEOF;
        }
      }
      if status == DecMaskKey {
        eof := DecodeMaskKey(s);
        if eof {
          return UnexpectedEOF;
        }
      }
      r := DecodePayload(s);
    }
  }
}
