/** The wire format `[4 bytes big-endian length][payload]`: one encoding, and the parse
    of a byte stream both decoders must agree with. */
module Framing {
  type Byte = b: int | 0 <= b < 256

  type Bytes = seq<Byte>

  /** The largest payload either decoder accepts. */
  const MAX_FRAME := 65536

  const UINT32 := 0x1_0000_0000

  /** `static_cast<quint32>`. */
  function U32(n: nat): (r: nat)
    ensures r < UINT32
    ensures n < UINT32 ==> r == n
  {
    n % UINT32
  }

  function Header(len: nat): (h: Bytes)
    requires len < UINT32
    ensures |h| == 4
  {
    [len / 0x100_0000 % 256, len / 0x1_0000 % 256, len / 0x100 % 256, len % 256]
  }

  function Length(h: Bytes): (len: nat)
    requires |h| >= 4
    ensures len < UINT32
  {
    var b0: int, b1: int, b2: int, b3: int := h[0], h[1], h[2], h[3];
    b0 * 0x100_0000 + b1 * 0x1_0000 + b2 * 0x100 + b3
  }

  lemma {:induction false} HeaderRoundTrip(len: nat)
    requires len < UINT32
    ensures Length(Header(len)) == len
  {
    assert len / 0x100_0000 < 256;
    assert len / 0x100 == len / 0x1_0000 * 256 + len / 0x100 % 256;
    assert len / 0x1_0000 == len / 0x100_0000 * 256 + len / 0x1_0000 % 256;
  }

  lemma {:induction false} Quotient(q: nat, r: nat, m: nat)
    requires r < m && (m == 0x100 || m == 0x1_0000 || m == 0x100_0000)
    ensures (q * m + r) / m == q
  {
    if m == 0x100 {
    } else if m == 0x1_0000 {
    } else {
    }
  }

  lemma {:induction false} LengthRoundTrip(h: Bytes)
    requires |h| == 4
    ensures Header(Length(h)) == h
  {
    var len := Length(h);
    var b0: int, b1: int, b2: int, b3: int := h[0], h[1], h[2], h[3];
    Quotient(b0 * 0x1_0000 + b1 * 0x100 + b2, b3, 0x100);
    Quotient(b0 * 0x100 + b1, b2 * 0x100 + b3, 0x1_0000);
    Quotient(b0, b1 * 0x1_0000 + b2 * 0x100 + b3, 0x100_0000);
    Quotient(b0 * 0x100 + b1, b2, 0x100);
    Quotient(b0, b1, 0x100);
    assert len / 0x100 == b0 * 0x1_0000 + b1 * 0x100 + b2;
    assert len / 0x1_0000 == b0 * 0x100 + b1;
    assert len / 0x100_0000 == b0;
  }

  /** Four bytes compared from the first on. */
  predicate Precedes(g: Bytes, h: Bytes)
    requires |g| == |h| == 4
  {
    || g[0] < h[0]
    || (g[0] == h[0] && (g[1] < h[1] || (g[1] == h[1] && (g[2] < h[2] || (g[2] == h[2] && g[3] < h[3])))))
  }

  /** The order of the bytes is big-endian: lengths compare as their headers do. */
  lemma {:induction false} HeaderOrdered(m: nat, n: nat)
    requires m < UINT32 && n < UINT32
    ensures m < n <==> Precedes(Header(m), Header(n))
  {
    hide Header;
    HeaderRoundTrip(m);
    HeaderRoundTrip(n);
  }

  /** One frame. A payload of 2^32 bytes or more gets a wrapped length. */
  function Encode(payload: Bytes): Bytes {
    Header(U32(|payload|)) + payload
  }

  function EncodeAll(payloads: seq<Bytes>): Bytes {
    if payloads == [] then [] else Encode(payloads[0]) + EncodeAll(payloads[1..])
  }

  /** A stream read as frames: the complete payloads, the bytes after them, and whether
      reading stopped at a length over the bound. */
  datatype Parsed = Parsed(frames: seq<Bytes>, rest: Bytes, tooLarge: bool)

  predicate Oversized(s: Bytes) {
    |s| >= 4 && Length(s) > MAX_FRAME
  }

  /** A whole acceptable frame is in front. */
  predicate Complete(s: Bytes) {
    |s| >= 4 && Length(s) <= MAX_FRAME && |s| >= 4 + Length(s)
  }

  function Parse(s: Bytes): (r: Parsed)
    decreases |s|
  {
    if !Complete(s) then Parsed([], s, Oversized(s))
    else
      var n := 4 + Length(s);
      var r := Parse(s[n..]);
      r.(frames := [s[4..n]] + r.frames)
  }

  /** A declarative reading of the same stream: it is the encoding of small payloads
      followed by something that starts no acceptable frame. */
  predicate Reads(s: Bytes, frames: seq<Bytes>, rest: Bytes) {
    && (forall i :: 0 <= i < |frames| ==> |frames[i]| <= MAX_FRAME)
    && s == EncodeAll(frames) + rest
    && !Complete(rest)
  }

  lemma {:induction false} EncodeFront(p: Bytes, tail: Bytes)
    requires |p| <= MAX_FRAME
    ensures var s := Encode(p) + tail;
            && |s| >= 4 && Length(s) == |p| && Complete(s) && s[4..4 + |p|] == p && s[4 + |p|..] == tail
  {
    HeaderRoundTrip(|p|);
    var s := Encode(p) + tail;
    assert s[..4] == Header(|p|);
    assert Length(s) == Length(s[..4]);
  }

  lemma {:induction false} FrontEncodes(s: Bytes)
    requires Complete(s)
    ensures var n := 4 + Length(s); s == Encode(s[4..n]) + s[n..]
  {
    var n := 4 + Length(s);
    LengthRoundTrip(s[..4]);
    assert Length(s) == Length(s[..4]);
    assert Encode(s[4..n]) == s[..4] + s[4..n];
  }

  /** The parse is a reading. */
  lemma {:induction false} ParseReads(s: Bytes)
    ensures var r := Parse(s); Reads(s, r.frames, r.rest) && r.tooLarge == Oversized(r.rest)
    decreases |s|
  {
    hide Encode, Length;
    if Complete(s) {
      var n := 4 + Length(s);
      ParseReads(s[n..]);
      FrontEncodes(s);
      var tail := Parse(s[n..]);
      assert EncodeAll([s[4..n]] + tail.frames) == Encode(s[4..n]) + EncodeAll(tail.frames) by {
        assert ([s[4..n]] + tail.frames)[1..] == tail.frames;
      }
      assert Encode(s[4..n]) + (EncodeAll(tail.frames) + tail.rest)
          == (Encode(s[4..n]) + EncodeAll(tail.frames)) + tail.rest;
    } else {
      assert s == EncodeAll([]) + s;
    }
  }

  /** The code is prefix free: a stream has only one reading. */
  lemma {:induction false} ReadingUnique(s: Bytes, frames: seq<Bytes>, rest: Bytes)
    requires Reads(s, frames, rest)
    ensures Parse(s) == Parsed(frames, rest, Oversized(rest))
    decreases |frames|
  {
    hide Complete, Length, Encode;
    if frames == [] {
      assert s == rest;
    } else {
      var tail := EncodeAll(frames[1..]) + rest;
      assert s == Encode(frames[0]) + tail;
      EncodeFront(frames[0], tail);
      ReadingUnique(tail, frames[1..], rest);
      assert frames == [frames[0]] + frames[1..];
    }
  }

  lemma {:induction false} EncodeAllAppend(a: seq<Bytes>, b: seq<Bytes>)
    ensures EncodeAll(a + b) == EncodeAll(a) + EncodeAll(b)
  {
    if a == [] {
      assert a + b == b;
    } else {
      assert (a + b)[1..] == a[1..] + b;
      EncodeAllAppend(a[1..], b);
    }
  }

  /** Acceptable frames in front of any stream are read first. */
  lemma {:induction false} ParseEncoded(frames: seq<Bytes>, rest: Bytes)
    requires AllSmall(frames)
    ensures var b := Parse(rest); Parse(EncodeAll(frames) + rest) == Parsed(frames + b.frames, b.rest, b.tooLarge)
  {
    hide Parse, Complete, Oversized, EncodeAll;
    var b := Parse(rest);
    ParseReads(rest);
    EncodeAllAppend(frames, b.frames);
    assert EncodeAll(frames) + (EncodeAll(b.frames) + b.rest) == (EncodeAll(frames) + EncodeAll(b.frames)) + b.rest;
    ReadingUnique(EncodeAll(frames) + rest, frames + b.frames, b.rest);
  }

  /** Reading a stream in two pieces: what the first piece left over is read again in
      front of the second. */
  lemma {:induction false} ParseAppend(s: Bytes, t: Bytes)
    requires !Parse(s).tooLarge
    ensures var a := Parse(s); var b := Parse(a.rest + t);
            Parse(s + t) == Parsed(a.frames + b.frames, b.rest, b.tooLarge)
  {
    hide Parse, Complete, Oversized, EncodeAll;
    var a := Parse(s);
    ParseReads(s);
    ParseEncoded(a.frames, a.rest + t);
    assert s + t == EncodeAll(a.frames) + (a.rest + t);
  }

  lemma {:induction false} OversizedStays(s: Bytes, t: Bytes)
    requires Oversized(s)
    ensures Oversized(s + t) && !Complete(s + t)
  {
    assert (s + t)[..4] == s[..4];
    assert Length(s + t) == Length(s);
  }

  /** After a length over the bound nothing more is read. */
  lemma {:induction false} ParseStuck(s: Bytes, t: Bytes)
    requires Parse(s).tooLarge
    ensures Parse(s + t) == Parsed(Parse(s).frames, Parse(s).rest + t, true)
  {
    hide Parse, EncodeAll, Complete, Oversized;
    var a := Parse(s);
    ParseReads(s);
    assert s + t == EncodeAll(a.frames) + (a.rest + t);
    OversizedStays(a.rest, t);
    ReadingUnique(s + t, a.frames, a.rest + t);
  }

  predicate AllSmall(payloads: seq<Bytes>) {
    forall i :: 0 <= i < |payloads| ==> |payloads[i]| <= MAX_FRAME
  }

  /** A list of payloads survives encoding and parsing, with nothing left over, exactly
      when every payload respects the bound. */
  lemma {:induction false} RoundTripExactly(payloads: seq<Bytes>)
    ensures Parse(EncodeAll(payloads)) == Parsed(payloads, [], false) <==> AllSmall(payloads)
  {
    var s := EncodeAll(payloads);
    if AllSmall(payloads) {
      assert s == EncodeAll(payloads) + [];
      ReadingUnique(s, payloads, []);
    } else if Parse(s) == Parsed(payloads, [], false) {
      ParseReads(s);
    }
  }

  /** One frame alone: delivered up to 64 KiB of payload, and refused above. */
  lemma {:induction false} OneFrame(payload: Bytes)
    requires |payload| < UINT32
    ensures Parse(Encode(payload)) ==
            if |payload| <= 64 * 1024 then Parsed([payload], [], false) else Parsed([], Encode(payload), true)
  {
    var s := Encode(payload);
    if |payload| <= MAX_FRAME {
      EncodeFront(payload, []);
      assert s == s + [];
      var n := 4 + |payload|;
      assert Parse(s[n..]) == Parsed([], [], false);
    } else {
      HeaderRoundTrip(|payload|);
      assert s[..4] == Header(|payload|) && Length(s) == Length(s[..4]);
    }
  }

  function Concat(chunks: seq<Bytes>): Bytes {
    if chunks == [] then [] else Concat(chunks[..|chunks| - 1]) + chunks[|chunks| - 1]
  }
}
