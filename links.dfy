/**
 * The internal link between the two adapters of the plugin: every message is
 * sent as one frame, the varint length of the payload followed by the payload.
 * The pipe underneath is modelled as a sequential byte stream.
 */
module Links {
  import opened Common
  import opened Uvarint

  /** The bytes `Write(p)` puts into the pipe. */
  function Frame(p: Bytes): Bytes
  {
    Encode(|p|) + p
  }

  /** The frames of `ps`, one after the other. */
  function Frames(ps: seq<Bytes>): Bytes
  {
    if ps == [] then [] else Frame(ps[0]) + Frames(ps[1..])
  }

  /** What one `Read` returns, and the bytes left in the stream after it. */
  datatype Outcome = Outcome(result: Result<Bytes, IoError>, rest: Bytes)

  /**
   * One `Read` on the stream `s`, seen to its end: the varint length first,
   * then exactly that many payload bytes (`io.ReadFull`, which reports `EOF`
   * when no payload byte is there and `UnexpectedEOF` when only some are).
   */
  function ReadFrame(s: Bytes): (o: Outcome)
    ensures o.result.Ok? ==> |o.rest| < |s|
  {
    match Decode(s)
    case Err(e) => Outcome(Err(e), [])
    case Ok((l, n)) =>
      var t := s[n..];
      if l <= |t| then Outcome(Ok(t[..l]), t[l..])
      else Outcome(Err(if t == [] then EOF else UnexpectedEOF), [])
  }

  /** The payloads of successive `Read`s until the stream is used up or a read fails. */
  function ReadAll(s: Bytes): seq<Bytes>
    decreases |s|
  {
    if s == [] then []
    else
      var o := ReadFrame(s);
      if o.result.Ok? then [o.result.value] + ReadAll(o.rest) else []
  }

  /** Reading a frame gives back its payload and consumes exactly the frame. */
  lemma FrameRoundTrip(p: Bytes, rest: Bytes)
    ensures ReadFrame(Frame(p) + rest) == Outcome(Ok(p), rest)
  {
    var s := Frame(p) + rest;
    var e := Encode(|p|);
    assert s == e + (p + rest);
    DecodeEncode(|p|, p + rest);
    assert s[|e|..] == p + rest;
    assert (p + rest)[..|p|] == p && (p + rest)[|p|..] == rest;
  }

  /** Frames written one after the other are read back in the same order, none lost or repeated. */
  lemma {:induction false} FramesInOrder(ps: seq<Bytes>)
    ensures ReadAll(Frames(ps)) == ps
  {
    if ps != [] {
      FrameRoundTrip(ps[0], Frames(ps[1..]));
      FramesInOrder(ps[1..]);
    }
  }

  /**
   * A stream that stops inside a frame: `EOF` when it stops before the frame
   * or right after the length, `UnexpectedEOF` inside the length or the payload.
   */
  lemma TruncatedFrame(p: Bytes, k: nat)
    requires k < |Frame(p)|
    ensures ReadFrame(Frame(p)[..k]).result == Err(if k == 0 || k == |Encode(|p|)| then EOF else UnexpectedEOF)
    ensures ReadFrame(Frame(p)[..k]).rest == []
  {
    var e := Encode(|p|);
    var t := Frame(p)[..k];
    if k < |e| {
      TruncatedLength(|p|, t);
    } else {
      assert t == e + p[..k - |e|];
      DecodeEncode(|p|, p[..k - |e|]);
      assert t[|e|..] == p[..k - |e|];
    }
  }

  /** A proper prefix of an encoded length is all continuation bytes. */
  lemma TruncatedLength(n: nat, t: Bytes)
    requires |t| < |Encode(n)| && t == Encode(n)[..|t|]
    ensures Decode(t) == Err(if t == [] then EOF else UnexpectedEOF)
  {
    forall i | 0 <= i < |t|
      ensures Continues(t[i])
    {
      EncodeShape(n, i);
    }
    DecodeFails(t);
  }

  /**
   * One `Link`: the pipe between a writer and a reader. `stream` holds the
   * bytes written and not yet read; `closed` records that the writing end has
   * been closed.
   */
  class Link {
    var stream: Bytes
    var closed: bool

    /** `makeLink`: a fresh, empty, open pipe. */
    constructor ()
      ensures stream == [] && !closed
    {
      stream := [];
      closed := false;
    }

    /**
     * Does a `Read` return now? It waits while it needs bytes that the
     * still-open writer has not written yet.
     */
    predicate Ready()
      reads this
    {
      closed || ReadFrame(stream).result.Ok?
    }

    /**
     * Sends `buf` as one frame. A write to a closed pipe fails at the length
     * prefix, and then the payload is not written either.
     */
    method Write(buf: Bytes) returns (err: Option<IoError>)
      modifies this
      ensures closed == old(closed)
      ensures old(closed) ==> err == Some(ClosedPipe) && stream == old(stream)
      ensures !old(closed) ==> err == None && stream == old(stream) + Frame(buf)
    {
      if closed {
        return Some(ClosedPipe);
      }
      stream := stream + Encode(|buf|);
      stream := stream + buf;
      err := None;
    }

    /** Receives one frame: its payload, or the error and no payload. */
    method Read() returns (pkg: Bytes, err: Option<IoError>)
      requires Ready()
      modifies this
      ensures closed == old(closed)
      ensures stream == ReadFrame(old(stream)).rest
      ensures ReadFrame(old(stream)).result.Ok? ==> err == None && pkg == ReadFrame(old(stream)).result.value
      ensures ReadFrame(old(stream)).result.Err? ==> err == Some(ReadFrame(old(stream)).result.error) && pkg == []
    {
      var d := Decode(stream);
      if d.Err? {
        pkg, err := [], Some(d.error);
        stream := [];
        return;
      }
      var (l, n) := d.value;
      stream := stream[n..];
      if l > |stream| {
        pkg, err := [], Some(if stream == [] then EOF else UnexpectedEOF);
        stream := [];
        return;
      }
      pkg := stream[..l];
      stream := stream[l..];
      err := None;
    }

    /** Reports a failure on the link; it has no effect. */
    method SetError(e: IoError)
      ensures stream == old(stream) && closed == old(closed)
    {
    }

    /** Closes the writing end (`PipeWriter.Close`); later writes fail. */
    method CloseWriter()
      modifies this
      ensures stream == old(stream) && closed
    {
      closed := true;
    }
  }
}
