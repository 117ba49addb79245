/** The two decoders of the wire format: the client's incremental buffer decoder and the
    server's blocking reader over partial receives. Both deliver the parse of the stream. */
module FrameDecoders {
  import opened Framing

  /** What should have arrived after a sequence of chunks. After a length over the bound
      the connection is reset: the buffer is cleared and nothing more arrives. */
  function Feed(chunks: seq<Bytes>): Parsed {
    if chunks == [] then Parsed([], [], false)
    else
      var a := Feed(chunks[..|chunks| - 1]);
      if a.tooLarge then a
      else
        var b := Parse(a.rest + chunks[|chunks| - 1]);
        Parsed(a.frames + b.frames, if b.tooLarge then [] else b.rest, b.tooLarge)
  }

  /** Chunking does not matter: the frames are those of the whole stream, and so is
      what is left over unless the connection was reset. */
  lemma {:induction false} ChunkingInvisible(chunks: seq<Bytes>)
    ensures var a, p := Feed(chunks), Parse(Concat(chunks));
            a.frames == p.frames && a.tooLarge == p.tooLarge && a.rest == if p.tooLarge then [] else p.rest
  {
    hide Parse;
    if chunks == [] {
      assert EncodeAll([]) == [];
      RoundTripExactly([]);
    } else {
      var before, c := chunks[..|chunks| - 1], chunks[|chunks| - 1];
      ChunkingInvisible(before);
      if Feed(before).tooLarge {
        ParseStuck(Concat(before), c);
      } else {
        ParseAppend(Concat(before), c);
      }
    }
  }

  /** The client's test for a whole frame, with the buffer's size cut to 32 bits. */
  predicate Seen(s: Bytes) {
    |s| >= 4 && Length(s) <= MAX_FRAME && U32(|s|) >= 4 + Length(s)
  }

  /** What the client makes of its buffer in one call. */
  function ClientParse(s: Bytes): Parsed
    decreases |s|
  {
    if !Seen(s) then Parsed([], s, Oversized(s))
    else
      assert U32(|s|) <= |s|;
      var n := 4 + Length(s);
      var r := ClientParse(s[n..]);
      r.(frames := [s[4..n]] + r.frames)
  }

  /** The buffer that the client stops at holds no complete frame, unless its size is
      2^32 bytes or more; and whatever it delivers is in front of the buffer. */
  lemma {:induction false} ClientParseReads(s: Bytes)
    ensures var r := ClientParse(s);
            && AllSmall(r.frames) && s == EncodeAll(r.frames) + r.rest && |r.rest| <= |s|
            && r.tooLarge == Oversized(r.rest) && !Seen(r.rest)
            && (|s| < UINT32 ==> r == Parse(s))
    decreases |s|
  {
    hide Parse, Encode, Length, EncodeAll, Seen, Complete;
    ClientParseStep(s);
    if Seen(s) {
      var n := 4 + Length(s);
      ClientParseReads(s[n..]);
      FrontEncodes(s);
      var tail := ClientParse(s[n..]);
      FramesFront(s[4..n], tail.frames);
      assert Encode(s[4..n]) + (EncodeAll(tail.frames) + tail.rest)
          == (Encode(s[4..n]) + EncodeAll(tail.frames)) + tail.rest;
    } else {
      EncodeNone(s);
    }
  }

  /** One round of the client's loop, and of the parse. */
  lemma {:induction false} ClientParseStep(s: Bytes)
    ensures !Seen(s) ==> ClientParse(s) == Parsed([], s, Oversized(s))
    ensures !Seen(s) && |s| < UINT32 ==> Parse(s) == Parsed([], s, Oversized(s))
    ensures Seen(s) ==>
              && Complete(s) && 4 + Length(s) <= |s| && Length(s) <= MAX_FRAME
              && var n := 4 + Length(s); var c, p := ClientParse(s[n..]), Parse(s[n..]);
                 && ClientParse(s) == c.(frames := [s[4..n]] + c.frames)
                 && Parse(s) == p.(frames := [s[4..n]] + p.frames)
  {
    hide Length;
    assert U32(|s|) <= |s|;
  }

  lemma {:induction false} EncodeNone(s: Bytes)
    ensures AllSmall([]) && s == EncodeAll([]) + s
  {
  }

  lemma {:induction false} FramesFront(p: Bytes, frames: seq<Bytes>)
    requires |p| <= MAX_FRAME && AllSmall(frames)
    ensures AllSmall([p] + frames) && EncodeAll([p] + frames) == Encode(p) + EncodeAll(frames)
  {
    assert ([p] + frames)[1..] == frames;
  }

  /** What the client has after a sequence of chunks of any sizes. */
  function ClientFeed(chunks: seq<Bytes>): Parsed {
    if chunks == [] then Parsed([], [], false)
    else
      var a := ClientFeed(chunks[..|chunks| - 1]);
      if a.tooLarge then a
      else
        var b := ClientParse(a.rest + chunks[|chunks| - 1]);
        Parsed(a.frames + b.frames, if b.tooLarge then [] else b.rest, b.tooLarge)
  }

  /** The stream so far is what the client delivered and what it holds, or, after a reset,
      what stopped it. */
  ghost predicate Accounted(chunks: seq<Bytes>) {
    var c := ClientFeed(chunks);
    AllSmall(c.frames) && exists rest :: Concat(chunks) == EncodeAll(c.frames) + rest
                                         && if c.tooLarge then Oversized(rest) && c.rest == [] else c.rest == rest
  }

  lemma {:induction false} ClientAccounts(chunks: seq<Bytes>)
    ensures Accounted(chunks)
  {
    if chunks == [] {
      assert Concat(chunks) == EncodeAll([]) + [];
    } else {
      var before, t := chunks[..|chunks| - 1], chunks[|chunks| - 1];
      ClientAccounts(before);
      var a := ClientFeed(before);
      var rest :| Concat(before) == EncodeAll(a.frames) + rest
                  && if a.tooLarge then Oversized(rest) && a.rest == [] else a.rest == rest;
      AccountedNext(chunks, rest);
    }
  }

  lemma {:induction false} AccountedNext(chunks: seq<Bytes>, rest: Bytes)
    requires chunks != []
    requires var before := chunks[..|chunks| - 1]; var a := ClientFeed(before);
             && AllSmall(a.frames) && Concat(before) == EncodeAll(a.frames) + rest
             && if a.tooLarge then Oversized(rest) && a.rest == [] else a.rest == rest
    ensures Accounted(chunks)
  {
    hide EncodeAll, ClientParse, Length, Oversized, Seen, Parse;
    var before, t := chunks[..|chunks| - 1], chunks[|chunks| - 1];
    var a, c := ClientFeed(before), ClientFeed(chunks);
    if a.tooLarge {
      OversizedStays(rest, t);
      assert Concat(chunks) == EncodeAll(a.frames) + (rest + t);
    } else {
      ClientParseReads(rest + t);
      var b := ClientParse(rest + t);
      EncodeAllAppend(a.frames, b.frames);
      Regroup(Concat(before), t, EncodeAll(a.frames), rest, EncodeAll(b.frames), b.rest);
      assert Concat(chunks) == EncodeAll(a.frames + b.frames) + b.rest;
    }
  }

  lemma {:induction false} Regroup(s: Bytes, t: Bytes, a: Bytes, rest: Bytes, b: Bytes, after: Bytes)
    requires s == a + rest && rest + t == b + after
    ensures s + t == (a + b) + after
  {
    assert s + t == a + (rest + t);
    assert a + (b + after) == (a + b) + after;
  }

  /** For chunks of any sizes, the client delivers a prefix of the frames of the stream, and
      when it was reset or holds no complete frame it has what it should have. */
  lemma {:induction false} ClientFeedEnds(chunks: seq<Bytes>)
    ensures var c, f := ClientFeed(chunks), Feed(chunks);
            c.frames <= f.frames && (c == f <==> c.tooLarge || !Complete(c.rest))
  {
    hide Complete, Oversized, EncodeAll, Length, Concat, ClientFeed, Feed;
    var c := ClientFeed(chunks);
    ClientAccounts(chunks);
    ChunkingInvisible(chunks);
    var rest :| Concat(chunks) == EncodeAll(c.frames) + rest
                && if c.tooLarge then Oversized(rest) && c.rest == [] else c.rest == rest;
    ParseEncoded(c.frames, rest);
    ClientStops(chunks);
    ParseEnds(rest);
    OversizedIncomplete(rest);
  }

  lemma {:induction false} OversizedIncomplete(s: Bytes)
    ensures Oversized(s) ==> !Complete(s)
    ensures Complete(s) ==> Parse(s).frames != []
  {
  }

  lemma {:induction false} ClientStops(chunks: seq<Bytes>)
    ensures !Oversized(ClientFeed(chunks).rest) && !Seen(ClientFeed(chunks).rest)
  {
    if chunks != [] {
      var before, t := chunks[..|chunks| - 1], chunks[|chunks| - 1];
      ClientStops(before);
      ClientParseReads(ClientFeed(before).rest + t);
    }
  }

  /** Chunks no longer than 2^32 bytes less one frame never hide anything. */
  lemma {:induction false} SmallChunksDeliver(chunks: seq<Bytes>)
    requires forall i :: 0 <= i < |chunks| ==> |chunks[i]| <= UINT32 - 4 - MAX_FRAME
    ensures ClientFeed(chunks) == Feed(chunks)
  {
    if chunks != [] {
      hide Parse, ClientParse;
      var before, t := chunks[..|chunks| - 1], chunks[|chunks| - 1];
      SmallChunksDeliver(before);
      var a := ClientFeed(before);
      ClientFeedEnds(before);
      ClientStops(before);
      if !a.tooLarge {
        ghost var _ := UnfinishedShape(a.rest);
        ClientParseReads(a.rest + t);
      }
    }
  }

  /** At frame `i` of a parsed stream, the number of bytes from there on covers the frame
      even when it is cut to 32 bits. */
  predicate Fits(p: Parsed, i: nat)
    requires i < |p.frames|
  {
    U32(|EncodeAll(p.frames[i..])| + |p.rest|) >= 4 + |p.frames[i]|
  }

  predicate NoStall(p: Parsed) {
    forall i :: 0 <= i < |p.frames| ==> Fits(p, i)
  }

  lemma {:induction false} FitsFront(f: Bytes, p: Parsed)
    ensures Fits(p.(frames := [f] + p.frames), 0) <==>
              U32(|Encode(f)| + |EncodeAll(p.frames)| + |p.rest|) >= 4 + |f|
  {
    hide Encode, U32;
    var all := [f] + p.frames;
    assert all[0..] == all && all[1..] == p.frames;
  }

  lemma {:induction false} FitsBehind(f: Bytes, p: Parsed, i: nat)
    requires i < |p.frames|
    ensures Fits(p.(frames := [f] + p.frames), i + 1) <==> Fits(p, i)
  {
    hide EncodeAll, U32;
    assert ([f] + p.frames)[i + 1..] == p.frames[i..];
  }

  lemma {:induction false} NoStallFront(f: Bytes, p: Parsed)
    ensures NoStall(p.(frames := [f] + p.frames)) <==>
              U32(|Encode(f)| + |EncodeAll(p.frames)| + |p.rest|) >= 4 + |f| && NoStall(p)
  {
    hide Fits, Encode, EncodeAll, U32;
    var q := p.(frames := [f] + p.frames);
    FitsFront(f, p);
    forall i | 0 <= i < |p.frames| ensures Fits(q, i + 1) <==> Fits(p, i) {
      FitsBehind(f, p, i);
    }
    if NoStall(p) && Fits(q, 0) {
      forall i | 0 <= i < |q.frames| ensures Fits(q, i) {
        if i > 0 { assert Fits(p, i - 1); }
      }
    }
    if NoStall(q) {
      forall i | 0 <= i < |p.frames| ensures Fits(p, i) {
        assert Fits(q, i + 1);
      }
    }
  }

  /** One call of the client takes all there is to take from its buffer exactly when the
      sizes of the frames in it do not stall. */
  lemma {:induction false} ClientParseExactly(s: Bytes)
    ensures ClientParse(s) == Parse(s) <==> NoStall(Parse(s))
    decreases |s|
  {
    hide Parse, ClientParse, Encode, EncodeAll, NoStall, Length;
    ClientParseStep(s);
    if !Complete(s) {
      ParseEnds(s);
      NothingStalls(s);
    } else {
      var n := 4 + Length(s);
      FrontEncodes(s);
      var p := Parse(s[n..]);
      ParseFront(s);
      ParseReads(s[n..]);
      NoStallFront(s[4..n], p);
      EncodeSize(s[4..n]);
      assert |s[n..]| == |EncodeAll(p.frames)| + |p.rest|;
      if Seen(s) {
        ClientParseExactly(s[n..]);
        FramesCancel(s[4..n], ClientParse(s[n..]), p);
      }
    }
  }

  lemma {:induction false} NothingStalls(s: Bytes)
    ensures NoStall(Parsed([], s, Oversized(s)))
  {
  }

  lemma {:induction false} EncodeSize(p: Bytes)
    ensures |Encode(p)| == 4 + |p|
  {
  }

  lemma {:induction false} ParseFront(s: Bytes)
    requires Complete(s)
    ensures 4 + Length(s) <= |s|
    ensures var n := 4 + Length(s); Parse(s) == Parse(s[n..]).(frames := [s[4..n]] + Parse(s[n..]).frames)
    ensures Parse(s).frames != []
  {
    hide Length;
  }

  lemma {:induction false} FramesCancel(f: Bytes, p: Parsed, q: Parsed)
    ensures p.(frames := [f] + p.frames) == q.(frames := [f] + q.frames) <==> p == q
  {
    assert ([f] + p.frames)[1..] == p.frames && ([f] + q.frames)[1..] == q.frames;
  }

  /** The client stays in step through the next chunk exactly when the connection is over
      or the sizes do not stall. */
  predicate NextChunkFits(chunks: seq<Bytes>, n: nat)
    requires n < |chunks|
  {
    Feed(chunks[..n]).tooLarge || NoStall(Parse(Feed(chunks[..n]).rest + chunks[n]))
  }

  lemma {:induction false} NextChunkExactly(chunks: seq<Bytes>, n: nat)
    requires n < |chunks| && ClientFeed(chunks[..n]) == Feed(chunks[..n])
    ensures ClientFeed(chunks[..n + 1]) == Feed(chunks[..n + 1]) <==> NextChunkFits(chunks, n)
  {
    hide Parse, ClientParse, NoStall;
    var a := Feed(chunks[..n]);
    assert chunks[..n + 1][..n] == chunks[..n];
    if !a.tooLarge {
      var s := a.rest + chunks[n];
      ClientParseExactly(s);
      BothEnd(s);
      FramesAfter(a.frames, ClientParse(s), Parse(s));
    }
  }

  /** If the two readings of a buffer have the same frames and the same end, they are equal
      even when the rest of a reset is forgotten. */
  lemma {:induction false} BothEnd(s: Bytes)
    ensures var c, p := ClientParse(s), Parse(s);
            c.frames == p.frames && c.tooLarge == p.tooLarge ==> c.rest == p.rest
  {
    hide Parse, ClientParse, EncodeAll, Oversized, Seen;
    ClientParseReads(s);
    ParseReads(s);
    var c, p := ClientParse(s), Parse(s);
    assert s[|EncodeAll(c.frames)|..] == c.rest && s[|EncodeAll(p.frames)|..] == p.rest;
  }

  lemma {:induction false} FramesAfter(frames: seq<Bytes>, c: Parsed, p: Parsed)
    ensures frames + c.frames == frames + p.frames <==> c.frames == p.frames
  {
    assert (frames + c.frames)[|frames|..] == c.frames && (frames + p.frames)[|frames|..] == p.frames;
  }

  lemma {:induction false} InStepSoFar(chunks: seq<Bytes>, n: nat)
    requires n <= |chunks| && forall k :: 0 <= k < n ==> NextChunkFits(chunks, k)
    ensures ClientFeed(chunks[..n]) == Feed(chunks[..n])
  {
    hide NextChunkFits;
    assert chunks[..0] == [] && ClientFeed([]) == Feed([]);
    if n > 0 {
      InStepSoFar(chunks, n - 1);
      NextChunkExactly(chunks, n - 1);
    }
  }

  /** Over a connection of chunks of any sizes, the client has at every moment what it
      should have exactly when no chunk completes a buffer whose sizes stall. */
  lemma {:induction false} ClientFeedExactly(chunks: seq<Bytes>)
    ensures (forall n :: 0 <= n <= |chunks| ==> ClientFeed(chunks[..n]) == Feed(chunks[..n])) <==>
            (forall n :: 0 <= n < |chunks| ==> NextChunkFits(chunks, n))
  {
    hide NextChunkFits, ClientFeed, Feed;
    if forall n :: 0 <= n <= |chunks| ==> ClientFeed(chunks[..n]) == Feed(chunks[..n]) {
      forall n | 0 <= n < |chunks| ensures NextChunkFits(chunks, n) {
        assert ClientFeed(chunks[..n + 1]) == Feed(chunks[..n + 1]);
        NextChunkExactly(chunks, n);
      }
    }
    if forall n :: 0 <= n < |chunks| ==> NextChunkFits(chunks, n) {
      forall n | 0 <= n <= |chunks| ensures ClientFeed(chunks[..n]) == Feed(chunks[..n]) {
        InStepSoFar(chunks, n);
      }
    }
  }

  /** One chunk of 2^32 + 3 zero bytes, which are empty frames and three bytes more: the
      client takes the size for 3 and delivers nothing. */
  lemma {:induction false} HugeChunkStalls(s: Bytes)
    requires |s| == UINT32 + 3 && forall i :: 0 <= i < |s| ==> s[i] == 0
    ensures ClientFeed([s]) == Parsed([], s, false)
    ensures Feed([s]).frames != [] && Feed([s]).frames[0] == []
  {
    hide Parse, ClientParse;
    assert [s][..0] == [] && [] + s == s && ClientFeed([]) == Feed([]) == Parsed([], [], false);
    assert Length(s) == 0;
    ClientParseStep(s);
    ParseFront(s);
    assert s[4..4] == [];
  }

  /** Payloads within the bound, encoded, followed by an unfinished tail and cut into
      chunks in any way, come out as they went in, with exactly the tail left over. */
  lemma {:induction false} StreamingRoundTrip(payloads: seq<Bytes>, tail: Bytes, chunks: seq<Bytes>)
    requires AllSmall(payloads) && !Complete(tail) && !Oversized(tail)
    requires Concat(chunks) == EncodeAll(payloads) + tail
    ensures Feed(chunks) == Parsed(payloads, tail, false)
  {
    ReadingUnique(Concat(chunks), payloads, tail);
    ChunkingInvisible(chunks);
  }

  /** What a decoder may hold between chunks is short: part of a length, or a strict
      prefix of one acceptable frame. */
  lemma {:induction false} UnfinishedShape(tail: Bytes) returns (p: Bytes)
    requires !Complete(tail) && !Oversized(tail)
    ensures |tail| < 4 + MAX_FRAME
    ensures |tail| >= 4 ==> |p| <= MAX_FRAME && |tail| < |Encode(p)| && Encode(p)[..|tail|] == tail
  {
    p := [];
    if |tail| >= 4 {
      var n := Length(tail) - (|tail| - 4);
      p := tail[4..] + seq(n, _ => 0);
      LengthRoundTrip(tail[..4]);
      assert Length(tail) == Length(tail[..4]);
      assert Encode(p) == tail[..4] + p;
      assert tail == tail[..4] + tail[4..];
    }
  }

  /** What a parse becomes when `frames` are in front of it. */
  function Behind(frames: seq<Bytes>, p: Parsed): Parsed {
    p.(frames := frames + p.frames)
  }

  lemma {:induction false} BehindNone(p: Parsed)
    ensures Behind([], p) == p
  {
  }

  lemma {:induction false} BehindNext(frames: seq<Bytes>, f: Bytes, p: Parsed)
    ensures Behind(frames, p.(frames := [f] + p.frames)) == Behind(frames + [f], p)
  {
    assert frames + ([f] + p.frames) == (frames + [f]) + p.frames;
  }

  lemma {:induction false} BehindNothing(frames: seq<Bytes>, s: Bytes)
    ensures Behind(frames, Parsed([], s, Oversized(s))) == Parsed(frames, s, Oversized(s))
  {
  }

  class ApiClient {
    /** The socket's state, as `isConnected` reads it. */
    var connected: bool
    var rxBuffer: Bytes
    /** The arguments `processFrame` was called with, in order. */
    var processed: seq<Bytes>
    /** The bytes written to the socket. */
    var sent: Bytes
    var nextRequestId: nat

    constructor ()
      ensures !connected && rxBuffer == [] && processed == [] && sent == [] && nextRequestId == 1
    {
      connected, rxBuffer, processed, sent, nextRequestId := false, [], [], [], 1;
    }

    /** Gives up the current connection, if any; the new one is reported later. */
    method ConnectToHost()
      modifies this`connected, this`rxBuffer
      ensures !connected && rxBuffer == []
    {
      rxBuffer := [];
      Abort();
    }

    /** The socket has connected. */
    method OnConnected()
      modifies this`connected
      ensures connected
    {
      connected := true;
    }

    method OnDisconnected()
      modifies this`rxBuffer
      ensures rxBuffer == []
    {
      rxBuffer := [];
    }

    /** Drops the connection at once; the disconnect handler runs if there was one. */
    method Abort()
      modifies this`connected, this`rxBuffer
      ensures !connected && rxBuffer == if old(connected) then [] else old(rxBuffer)
    {
      if connected {
        connected := false;
        OnDisconnected();
      }
    }

    /** Sends one frame and takes the next id, or does nothing and returns 0. The socket
        takes all of the frame, or only its first `taken` bytes: the id is spent and
        returned either way. */
    method SendRequest(body: Bytes, taken: nat) returns (id: nat)
      modifies this`sent, this`nextRequestId
      ensures !connected ==> id == 0 && sent == old(sent) && nextRequestId == old(nextRequestId)
      ensures connected ==> id == old(nextRequestId) && nextRequestId == id + 1
      ensures connected ==>
                var frame := Encode(body);
                sent == old(sent) + if taken < |frame| then frame[..taken] else frame
    {
      if !connected {
        return 0;
      }
      id := nextRequestId;
      nextRequestId := nextRequestId + 1;
      var len := U32(|body|);
      var frame: Bytes := [];
      frame := frame + [len / 0x100_0000 % 256];
      frame := frame + [len / 0x1_0000 % 256];
      frame := frame + [len / 0x100 % 256];
      frame := frame + [len % 256];
      assert frame == Header(len);
      frame := frame + body;
      sent := sent + if taken < |frame| then frame[..taken] else frame;
    }

    /** Frames are cut off the front of the buffer for as long as the client's test finds
        one. A length over the bound resets the connection, which empties the buffer. */
    method OnReadyRead(chunk: Bytes)
      requires connected
      modifies this`connected, this`rxBuffer, this`processed
      ensures var p := ClientParse(old(rxBuffer) + chunk);
              && processed == old(processed) + p.frames
              && connected == !p.tooLarge && rxBuffer == if p.tooLarge then [] else p.rest
      ensures |old(rxBuffer)| + |chunk| < UINT32 ==>
                ClientParse(old(rxBuffer) + chunk) == Parse(old(rxBuffer) + chunk)
    {
      hide Parse, ClientParse, Length, Encode, EncodeAll, Complete, Behind;
      rxBuffer := rxBuffer + chunk;
      ghost var whole := rxBuffer;
      ghost var frames: seq<Bytes> := [];
      ClientParseReads(whole);
      BehindNone(ClientParse(whole));
      while |rxBuffer| >= 4
        invariant connected && processed == old(processed) + frames
        invariant ClientParse(whole) == Behind(frames, ClientParse(rxBuffer))
        decreases |rxBuffer|
      {
        var len := Length(rxBuffer);
        ClientParseStep(rxBuffer);
        if len > MAX_FRAME {
          BehindNothing(frames, rxBuffer);
          Abort();
          return;
        }
        if U32(|rxBuffer|) < 4 + len {
          break;
        }
        var frame := rxBuffer[4..4 + len];
        BehindNext(frames, frame, ClientParse(rxBuffer[4 + len..]));
        frames := frames + [frame];
        rxBuffer := rxBuffer[4 + len..];
        processed := processed + [frame];
      }
      ClientParseStep(rxBuffer);
      BehindNothing(frames, rxBuffer);
    }

    /** A whole connection: chunks of any sizes arrive until the stream ends or is reset. */
    method Receive(chunks: seq<Bytes>)
      requires connected && rxBuffer == []
      modifies this`connected, this`rxBuffer, this`processed
      ensures var c := ClientFeed(chunks);
              processed == old(processed) + c.frames && connected == !c.tooLarge && rxBuffer == c.rest
      ensures ClientFeed(chunks).frames <= Feed(chunks).frames
      ensures ClientFeed(chunks) == Feed(chunks) <==> !connected || !Complete(rxBuffer)
    {
      hide ClientParse, Complete, Parse, Feed;
      var i := 0;
      while i < |chunks|
        invariant 0 <= i <= |chunks|
        invariant var c := ClientFeed(chunks[..i]);
                  processed == old(processed) + c.frames && connected == !c.tooLarge && rxBuffer == c.rest
      {
        assert chunks[..i + 1][..i] == chunks[..i];
        if connected {
          OnReadyRead(chunks[i]);
        }
        i := i + 1;
      }
      assert chunks[..|chunks|] == chunks;
      ClientFeedEnds(chunks);
    }
  }

  /** The frames cut off so far and the parse of the remaining buffer make up the parse. */
  ghost predicate FramesSoFar(whole: Bytes, frames: seq<Bytes>, buffer: Bytes) {
    var p, q := Parse(whole), Parse(buffer);
    p == Parsed(frames + q.frames, q.rest, q.tooLarge)
  }

  lemma {:induction false} FramesNone(whole: Bytes)
    ensures FramesSoFar(whole, [], whole) && whole == EncodeAll([]) + whole
  {
    assert [] + Parse(whole).frames == Parse(whole).frames;
  }

  lemma {:induction false} ParseEnds(s: Bytes)
    ensures !Complete(s) ==> Parse(s) == Parsed([], s, Oversized(s))
  {
  }

  lemma {:induction false} EncodeOne(p: Bytes)
    ensures EncodeAll([p]) == Encode(p)
  {
    assert EncodeAll([p][1..]) == [];
  }

  lemma {:induction false} FramesNext(whole: Bytes, frames: seq<Bytes>, buffer: Bytes)
    requires Complete(buffer) && FramesSoFar(whole, frames, buffer) && whole == EncodeAll(frames) + buffer
    ensures var n := 4 + Length(buffer); var frames' := frames + [buffer[4..n]];
            FramesSoFar(whole, frames', buffer[n..]) && whole == EncodeAll(frames') + buffer[n..]
  {
    hide Encode, Length;
    var n := 4 + Length(buffer);
    FrontEncodes(buffer);
    EncodeAllAppend(frames, [buffer[4..n]]);
    assert EncodeAll([buffer[4..n]]) == Encode(buffer[4..n]) by { EncodeOne(buffer[4..n]); }
    var tail := Parse(buffer[n..]);
    assert frames + ([buffer[4..n]] + tail.frames) == (frames + [buffer[4..n]]) + tail.frames;
  }

  /** The outcome of one `recv` call, up to the moment the stop flag is raised. */
  datatype Arrival = Deliver(n: nat) | Timeout | Hangup

  datatype Received = Data(bytes: Bytes) | Again | Gone

  /** The server's side of one connection. The stop flag is raised after the last
      scripted call; `Deliver` hands over at most `n` bytes and at least one. */
  class Connection {
    var pending: Bytes
    var script: seq<Arrival>
    var gone: bool

    predicate Stopped()
      reads this
    {
      script == []
    }

    method Recv(max: nat) returns (r: Received)
      requires !Stopped() && max > 0 && !gone
      modifies this
      ensures script == old(script)[1..]
      ensures r.Data? ==> 0 < |r.bytes| <= max && old(pending) == r.bytes + pending && !gone
      ensures !r.Data? ==> pending == old(pending)
      ensures gone == r.Gone?
    {
      var next := script[0];
      script := script[1..];
      match next {
        case Hangup =>
          gone := true;
          r := Gone;
        case Timeout =>
          r := Again;
        case Deliver(n) =>
          if pending == [] {
            r := Again;
          } else {
            var k := if n < 1 then 1 else n;
            k := if k > max then max else k;
            k := if k > |pending| then |pending| else k;
            r := Data(pending[..k]);
            pending := pending[k..];
          }
      }
    }

    /** Reads one frame byte by byte as it arrives. A frame is returned exactly as
        encoded; a failure is a stop, a hang-up inside an incomplete frame, or a length
        over the bound. */
    method ReadFrame() returns (ok: bool, out: Bytes, ghost taken: Bytes)
      requires !gone
      modifies this
      ensures old(pending) == taken + pending
      ensures ok ==> !gone && |out| <= MAX_FRAME && taken == Encode(out) && |script| < |old(script)|
      ensures !ok ==> Stopped() || (gone && !Complete(taken)) || Oversized(taken)
      ensures |script| <= |old(script)|
    {
      hide Complete, Oversized, Encode, Length;
      var header: Bytes := [];
      ok, out, taken := false, [], [];
      while |header| < 4 && !Stopped()
        invariant old(pending) == header + pending && |header| <= 4 && !gone
        invariant |script| <= |old(script)| && (header != [] ==> |script| < |old(script)|)
        decreases |script|
      {
        var r := Recv(4 - |header|);
        match r {
          case Again =>
          case Gone =>
            taken := header;
            ShortIncomplete(header);
            return;
          case Data(bytes) =>
            header := header + bytes;
        }
      }
      taken := header;
      if Stopped() {
        return;
      }
      var len := Length(header);
      if len > MAX_FRAME {
        LongOversized(header);
        return;
      }
      var body: Bytes := [];
      while |body| < len && !Stopped()
        invariant old(pending) == header + body + pending && |body| <= len && !gone
        invariant |script| < |old(script)|
        decreases |script|
      {
        var r := Recv(len - |body|);
        match r {
          case Again =>
          case Gone =>
            taken := header + body;
            PartIncomplete(header, body);
            return;
          case Data(bytes) =>
            body := body + bytes;
        }
      }
      taken := header + body;
      if Stopped() {
        return;
      }
      HeaderBodyEncodes(header, body);
      ok, out := true, body;
    }

    /** The receive loop of one client. Whatever the partial receives, the bodies are a
        prefix of the parse of the stream: all of it when the loop ends at a hang-up
        after the last byte, or at a length over the bound. */
    method ReceiveLoop() returns (bodies: seq<Bytes>)
      requires !gone
      modifies this
      ensures bodies <= Parse(old(pending)).frames
      ensures !Stopped() && gone && pending == [] ==> bodies == Parse(old(pending)).frames
      ensures !Stopped() && !gone ==> bodies == Parse(old(pending)).frames && Parse(old(pending)).tooLarge
    {
      hide Parse, Complete, Oversized, Encode;
      bodies := [];
      ghost var whole := pending;
      FramesNone(whole);
      while !Stopped()
        invariant !gone
        invariant FramesSoFar(whole, bodies, pending) && whole == EncodeAll(bodies) + pending
        decreases |script|
      {
        ghost var before := pending;
        var ok, body, taken := ReadFrame();
        if !ok {
          BrokenOff(before, taken, pending);
          break;
        }
        BodyNext(whole, bodies, body, pending);
        bodies := bodies + [body];
      }
    }
  }

  lemma {:induction false} ShortIncomplete(s: Bytes)
    ensures |s| < 4 ==> !Complete(s) && !Oversized(s)
  {
  }

  lemma {:induction false} LongOversized(header: Bytes)
    ensures |header| >= 4 && Length(header) > MAX_FRAME ==> Oversized(header)
  {
  }

  lemma {:induction false} PartIncomplete(header: Bytes, body: Bytes)
    requires |header| == 4 && |body| < Length(header)
    ensures !Complete(header + body)
  {
    assert (header + body)[..4] == header;
    assert Length(header + body) == Length(header);
  }

  lemma {:induction false} HeaderBodyEncodes(header: Bytes, body: Bytes)
    requires |header| == 4 && |body| == Length(header) <= MAX_FRAME
    ensures header + body == Encode(body)
  {
    LengthRoundTrip(header);
  }

  lemma {:induction false} BodyNext(whole: Bytes, bodies: seq<Bytes>, body: Bytes, pending: Bytes)
    requires |body| <= MAX_FRAME
    requires FramesSoFar(whole, bodies, Encode(body) + pending)
    requires whole == EncodeAll(bodies) + (Encode(body) + pending)
    ensures FramesSoFar(whole, bodies + [body], pending) && whole == EncodeAll(bodies + [body]) + pending
  {
    EncodeFront(body, pending);
    FramesNext(whole, bodies, Encode(body) + pending);
  }

  /** Where a failed read leaves the stream: nothing complete was lost. */
  lemma {:induction false} BrokenOff(before: Bytes, taken: Bytes, pending: Bytes)
    requires before == taken + pending
    ensures !Complete(taken) && pending == [] ==> Parse(before).frames == []
    ensures Oversized(taken) ==> Parse(before) == Parsed([], before, true)
  {
    if pending == [] {
      assert before == taken;
    }
    if Oversized(taken) {
      assert before[..4] == taken[..4];
      assert Length(before) == Length(taken);
    }
  }
}
