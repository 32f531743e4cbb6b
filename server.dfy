/** The per-connection state and the events.Data callback of
    test/evio_server/evio_server.go: an HTTP upgrade while the connection is
    being established, then WebSocket frames decoded from every delivery. */
module Server {
  import opened FrameFormat
  import opened Handshake
  import FrameReader

  /** Status in evio_server.go. BACKOFF is declared but never assigned. */
  datatype Status = Estab | Ready | Backoff

  /** What fasthttp's Request.Read makes of one delivery: a request, the
      io.ErrUnexpectedEOF of a request cut short, or another error. */
  datatype ReqRead = ReadOk(req: Request) | ReadUnexpectedEOF | ReadError

  /** ctx.req: nil, or an acquired request, which holds the parsed request
      once Read succeeded. */
  datatype ReqSlot = NoRequest | Acquired(parsed: Option<Request>)

  /** evio.Action: carry on, or close the connection. */
  datatype Action = NoAction | Close

  lemma ParseAllEmptyTail(s: seq<byte>)
    requires ParseFrame(s).Incomplete?
    ensures ParseAll(s + []) == Split([], s)
  {
    assert s + [] == s;
  }

  /** A turn of the drive loop that completes a frame keeps what is left
      to decode in step with the frames reported so far; `q` is the
      decoder's stream after the call. */
  lemma DecodeStep(frames: seq<Frame>, target: Split, s: seq<byte>, f: Frame, q: seq<byte>)
    requires frames + ParseAll(s).frames == target.frames && ParseAll(s).rest == target.rest
    requires ParseAll(s).rest == ParseAll(q).rest
    requires ParseAll(s).frames == [f] + ParseAll(q).frames
    ensures (frames + [f]) + ParseAll(q + []).frames == target.frames
    ensures ParseAll(q + []).rest == target.rest
  {
    assert q + [] == q;
    AppendAssoc(frames, [f], ParseAll(q).frames);
  }

  /** The drive loop of events.Data: Decode the delivery, then Decode(nil) until
      ErrUnexpectedEOF. The frames it completes are exactly those of the
      decoder's stream followed by the delivery, and the decoder keeps what
      comes after them. */
  method DecodeFrames(fr: FrameReader.FrameReader, input: seq<byte>) returns (frames: seq<Frame>)
    requires fr.Valid()
    modifies fr
    ensures fr.Valid()
    ensures frames == ParseAll(old(fr.Stream()) + input).frames
    ensures fr.Stream() == ParseAll(old(fr.Stream()) + input).rest
    ensures fr.status == FrameReader.StallStatus(fr.Stream())
  {
    ghost var target := ParseAll(fr.Stream() + input);
    var chunk := input;
    frames := [];
    while true
      invariant fr.Valid()
      invariant frames + ParseAll(fr.Stream() + chunk).frames == target.frames
      invariant ParseAll(fr.Stream() + chunk).rest == target.rest
      decreases |fr.Stream()| + |chunk|
    {
      ghost var s := fr.Stream() + chunk;
      var r := fr.Decode(chunk);
      FrameReader.DecodeOutcomeSplit(s, r, fr.pending, fr.buf, fr.status, fr.header);
      if r.UnexpectedEOF? {
        assert frames + [] == frames;
        assert fr.Stream() == s;
        return;
      }
      DecodeStep(frames, target, s, Frame(fr.header, r.payload), fr.Stream());
      chunk := [];
      frames := frames + [Frame(fr.header, r.payload)];
    }
  }

  /** One delivery of a chunk sequence: what the drive loop reports for the
      first chunk, followed by what remains to be reported for the others. */
  lemma FeedStep(frames: seq<Frame>, target: Split, s: seq<byte>, chunks: seq<seq<byte>>, i: nat)
    requires i < |chunks|
    requires frames + FeedChunks(s, chunks[i..]).frames == target.frames
    requires FeedChunks(s, chunks[i..]).rest == target.rest
    ensures var p := ParseAll(s + chunks[i]);
      (frames + p.frames) + FeedChunks(p.rest, chunks[i + 1..]).frames == target.frames &&
      FeedChunks(p.rest, chunks[i + 1..]).rest == target.rest
  {
    var p := ParseAll(s + chunks[i]);
    assert chunks[i..][0] == chunks[i];
    assert chunks[i..][1..] == chunks[i + 1..];
    AppendAssoc(frames, p.frames, FeedChunks(p.rest, chunks[i + 1..]).frames);
  }

  /** The drive loop run on successive deliveries: however the bytes are cut
      into deliveries, the frames reported are those of all the bytes
      delivered at once, in order, and the decoder is left holding the same
      bytes. */
  method DecodeDeliveries(fr: FrameReader.FrameReader, chunks: seq<seq<byte>>) returns (frames: seq<Frame>)
    requires fr.Valid() && ParseFrame(fr.Stream()).Incomplete?
    modifies fr
    ensures fr.Valid()
    ensures frames == ParseAll(old(fr.Stream()) + Concat(chunks)).frames
    ensures fr.Stream() == ParseAll(old(fr.Stream()) + Concat(chunks)).rest
  {
    ghost var s0 := fr.Stream();
    ghost var target := FeedChunks(s0, chunks);
    assert chunks[0..] == chunks;
    frames := [];
    for i := 0 to |chunks|
      invariant fr.Valid() && ParseFrame(fr.Stream()).Incomplete?
      invariant frames + FeedChunks(fr.Stream(), chunks[i..]).frames == target.frames
      invariant FeedChunks(fr.Stream(), chunks[i..]).rest == target.rest
    {
      FeedStep(frames, target, fr.Stream(), chunks, i);
      var f := DecodeFrames(fr, chunks[i]);
      frames := frames + f;
    }
    assert chunks[|chunks|..] == [];
    assert frames + [] == frames;
    ChunkingInvariance(s0, chunks);
  }

  /** connContext in evio_server.go: one per connection. */
  class Session {
    const id: nat
    var status: Status
    var req: ReqSlot
    const frameReader: FrameReader.FrameReader

    /** Between deliveries the decoder is valid, holds no complete frame
        and is stopped where its stream stalls. */
    ghost predicate Valid()
      reads this, frameReader
    {
      frameReader.Valid() && ParseFrame(frameReader.Stream()).Incomplete? &&
      frameReader.status == FrameReader.StallStatus(frameReader.Stream())
    }

    /** The context events.Opened attaches to a new connection. */
    constructor (id: nat)
      ensures Valid() && this.id == id && status == Estab && req == NoRequest
      ensures fresh(frameReader) && frameReader.Stream() == []
    {
      this.id := id;
      status := Estab;
      req := NoRequest;
      frameReader := new FrameReader.FrameReader();
    }

    /** Whether a delivery goes to the HTTP parser: ESTAB, not empty, and no
        request acquired yet. */
    ghost predicate Handshaking(input: seq<byte>)
      reads this
    {
      status == Estab && |input| > 0 && req == NoRequest
    }

    /** events.Data in evio_server.go for one delivery `input`; `read` is
        fasthttp's parse of it. While handshaking, a parse error or a
        rejected upgrade closes the connection and clears ctx.req, and an
        accepted upgrade answers and moves to READY; in both cases nothing
        is decoded. Otherwise (also after a request cut short, whose bytes
        go on to the decoder) the delivery is decoded into frames. */
    method Data(input: seq<byte>, read: seq<byte> -> ReqRead,
                tokenContains: (seq<byte>, seq<byte>) -> bool, acceptKey: seq<byte> -> seq<byte>)
      returns (out: seq<byte>, action: Action, frames: seq<Frame>)
      requires Valid()
      modifies this, frameReader
      ensures Valid()
      ensures old(Handshaking(input)) && read(input).ReadError? ==>
        out == [] && action == Close && req == NoRequest && status == Estab &&
        frames == [] && frameReader.Stream() == old(frameReader.Stream())
      ensures old(Handshaking(input)) && read(input).ReadOk? ==>
        match Upgrade(read(input).req, tokenContains, acceptKey)
        case BadHandshake =>
          out == [] && action == Close && req == NoRequest && status == Estab &&
          frames == [] && frameReader.Stream() == old(frameReader.Stream())
        case Upgraded(response) =>
          out == response && action == NoAction && req == Acquired(Some(read(input).req)) && status == Ready &&
          frames == [] && frameReader.Stream() == old(frameReader.Stream())
      ensures !old(Handshaking(input)) || read(input).ReadUnexpectedEOF? ==>
        out == [] && action == NoAction && status == old(status) &&
        req == (if old(Handshaking(input)) then Acquired(None) else old(req)) &&
        frames == ParseAll(old(frameReader.Stream()) + input).frames &&
        frameReader.Stream() == ParseAll(old(frameReader.Stream()) + input).rest
      ensures |input| == 0 ==>
        out == [] && action == NoAction && status == old(status) && req == old(req) &&
        frames == [] && frameReader.Stream() == old(frameReader.Stream())
      ensures status != old(status) ==> old(status) == Estab && status == Ready
      ensures |input| == 0 || (old(Handshaking(input)) && !read(input).ReadUnexpectedEOF?) ==>
        unchanged(frameReader)
      ensures (!old(Handshaking(input)) || read(input).ReadUnexpectedEOF?) && |input| > 0 ==>
        frameReader.status == FrameReader.StallStatus(frameReader.Stream())
    {
      out, action, frames := [], NoAction, [];
      if status == Estab && |input| > 0 {
        if req == NoRequest {
          req := Acquired(None);
          var parsed := read(input);
          if !parsed.ReadOk? {
            if parsed.ReadError? {
              req := NoRequest;
              return [], Close, [];
            }
          } else {
            var up := Upgrade(parsed.req, tokenContains, acceptKey);
            if up.BadHandshake? {
              req := NoRequest;
              return [], Close, [];
            }
            req := Acquired(Some(parsed.req));
            out := up.response;
            status := Ready;
            return;
          }
        }
      }
      if |input| == 0 {
        // A wake-up with nothing delivered.
        ParseAllEmptyTail(frameReader.Stream());
      } else {
        frames := DecodeFrames(frameReader, input);
      }
    }
  }
}
