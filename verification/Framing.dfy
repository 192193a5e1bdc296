/**
 * The packet framing of a stream channel, as a function of the bytes alone:
 * a header of a fixed length, whose contents announce how many body bytes follow.
 */
module Framing {
  import opened Bytes

  /** The static capacity a channel's receive buffer starts with. */
  const MAX_BUFFER_SIZE: nat := 1024

  /** One more than the largest 32-bit unsigned integer. */
  const UINT_LIMIT: nat := 0x1_0000_0000

  /**
   * What the template parameters HEADER and PACKET fix: the header length and how a header announces the
   * body length. `None` stands for a header that leaves the input stream's good bit cleared.
   */
  datatype Wire = Wire(headerSize: nat, bodySize: seq<Octet> -> Option<nat>) {
    ghost predicate Valid() {
      0 < headerSize <= MAX_BUFFER_SIZE
    }

    /** No header announces a body that makes the 32-bit sum of `GrownCapacity` wrap. */
    ghost predicate Bounded() {
      forall h {:trigger Announces(h)} | |h| == headerSize ::
        Announces(h) ==> headerSize + bodySize(h).value + MAX_BUFFER_SIZE < UINT_LIMIT
    }

    ghost predicate Announces(h: seq<Octet>) {
      bodySize(h).Some?
    }

    /** The capacity asked for when the announced body does not fit, summed in 32-bit unsigned arithmetic. */
    function GrownCapacity(body: nat): nat {
      (headerSize + body + MAX_BUFFER_SIZE) % UINT_LIMIT
    }
  }

  /**
   * The grown buffer holds the announced body exactly when the 32-bit sum does not wrap, which is the bound
   * that `Wire.Bounded` puts on what headers may announce.
   */
  lemma GrowthCoversBody(w: Wire, body: nat)
    requires 0 < w.headerSize <= MAX_BUFFER_SIZE && body < UINT_LIMIT
    ensures body <= w.GrownCapacity(body) <==> w.headerSize + body + MAX_BUFFER_SIZE < UINT_LIMIT
  {
    var sum := w.headerSize + body + MAX_BUFFER_SIZE;
    if sum >= UINT_LIMIT {
      assert sum % UINT_LIMIT == sum - UINT_LIMIT;
    }
  }

  /** A header of one octet that announces the largest body: the sum wraps, and the new buffer is too small. */
  lemma GrowthWraps(w: Wire)
    requires w.headerSize == 1
    ensures w.GrownCapacity(UINT_LIMIT - 1) == MAX_BUFFER_SIZE < UINT_LIMIT - 1
  {
    assert (1 + (UINT_LIMIT - 1) + MAX_BUFFER_SIZE) % UINT_LIMIT == MAX_BUFFER_SIZE;
  }

  /** The bytes the packet factory is given: a header and a body of the announced length. */
  datatype Packet = Packet(header: seq<Octet>, body: seq<Octet>)

  ghost predicate WellFormed(w: Wire, p: Packet) {
    |p.header| == w.headerSize && w.bodySize(p.header) == Some(|p.body|)
  }

  ghost predicate AllWellFormed(w: Wire, ps: seq<Packet>) {
    forall i | 0 <= i < |ps| :: WellFormed(w, ps[i])
  }

  function Frame(p: Packet): seq<Octet> {
    p.header + p.body
  }

  /** The bytes a sender puts on the wire for a sequence of packets. */
  ghost function Frames(ps: seq<Packet>): seq<Octet> {
    if ps == [] then [] else Frame(ps[0]) + Frames(ps[1..])
  }

  /** The packets at the front of a byte string, the bytes left over, and whether a bad header stopped the decode. */
  datatype Decoded = Decoded(packets: seq<Packet>, rest: seq<Octet>, malformed: bool)

  /** The one-shot decode of a whole byte string. */
  ghost function Decode(w: Wire, s: seq<Octet>): Decoded
    requires w.Valid()
    decreases |s|
  {
    if |s| < w.headerSize then Decoded([], s, false)
    else
      match w.bodySize(s[..w.headerSize])
      case None => Decoded([], s, true)
      case Some(n) =>
        if |s| < w.headerSize + n then Decoded([], s, false)
        else
          var tail := Decode(w, s[w.headerSize + n..]);
          Decoded([Packet(s[..w.headerSize], s[w.headerSize..w.headerSize + n])] + tail.packets, tail.rest,
              tail.malformed)
  }

  /** The first packet of the one-shot decode, if it has one. */
  ghost function FirstPacket(w: Wire, s: seq<Octet>): Option<Packet>
    requires w.Valid()
  {
    var ps := Decode(w, s).packets;
    if ps == [] then None else Some(ps[0])
  }

  lemma {:induction false} FramesConcat(a: seq<Packet>, b: seq<Packet>)
    ensures Frames(a + b) == Frames(a) + Frames(b)
  {
    if a == [] {
      assert a + b == b;
    } else {
      var head, mid, last := Frame(a[0]), Frames(a[1..]), Frames(b);
      FramesConcat(a[1..], b);
      assert (a + b)[1..] == a[1..] + b && (a + b)[0] == a[0];
      assert Frames(a + b) == head + (mid + last);
      Assoc(head, mid, last);
    }
  }

  lemma FramesSnoc(a: seq<Packet>, p: Packet)
    ensures Frames(a + [p]) == Frames(a) + Frame(p)
  {
    FramesConcat(a, [p]);
    assert Frames([p]) == Frame(p) + Frames([]);
  }

  /** A frame at the front is decoded first, whatever follows it. */
  lemma DecodeFrame(w: Wire, p: Packet, t: seq<Octet>)
    requires w.Valid() && WellFormed(w, p)
    ensures Decode(w, Frame(p) + t) ==
            Decoded([p] + Decode(w, t).packets, Decode(w, t).rest, Decode(w, t).malformed)
  {
    var s := Frame(p) + t;
    assert s[..w.headerSize] == p.header;
    assert s[w.headerSize..w.headerSize + |p.body|] == p.body;
    assert s[w.headerSize + |p.body|..] == t;
  }

  /** Decoding what a sender framed gives the packets back and leaves exactly the bytes that follow them. */
  lemma {:induction false} DecodeRoundTrip(w: Wire, ps: seq<Packet>, t: seq<Octet>)
    requires w.Valid() && AllWellFormed(w, ps)
    ensures Decode(w, Frames(ps) + t) ==
            Decoded(ps + Decode(w, t).packets, Decode(w, t).rest, Decode(w, t).malformed)
  {
    if ps == [] {
      assert Frames(ps) + t == t;
      assert ps + Decode(w, t).packets == Decode(w, t).packets;
    } else {
      var mid := Frames(ps[1..]);
      DecodeRoundTrip(w, ps[1..], t);
      DecodeFrame(w, ps[0], mid + t);
      Assoc(Frame(ps[0]), mid, t);
      Assoc([ps[0]], ps[1..], Decode(w, t).packets);
      assert [ps[0]] + ps[1..] == ps;
    }
  }

  /** Nothing is lost or invented: the packets' frames followed by the rest are the input. */
  lemma {:induction false} DecodeSound(w: Wire, s: seq<Octet>)
    requires w.Valid()
    ensures AllWellFormed(w, Decode(w, s).packets)
    ensures Frames(Decode(w, s).packets) + Decode(w, s).rest == s
    ensures Decode(w, Decode(w, s).rest) == Decoded([], Decode(w, s).rest, Decode(w, s).malformed)
    decreases |s|
  {
    if |s| >= w.headerSize && w.bodySize(s[..w.headerSize]).Some? {
      var n := w.bodySize(s[..w.headerSize]).value;
      if |s| >= w.headerSize + n {
        var t := s[w.headerSize + n..];
        var p := Packet(s[..w.headerSize], s[w.headerSize..w.headerSize + n]);
        DecodeSound(w, t);
        var d := Decode(w, s);
        assert d.packets[0] == p && d.packets[1..] == Decode(w, t).packets;
        Assoc(Frame(p), Frames(d.packets[1..]), d.rest);
        CutTwice(s, w.headerSize, w.headerSize + n);
      }
    }
  }

  /** The decode stops exactly where no whole packet is left: at a bad header, or at bytes that are still too few. */
  lemma {:induction false} DecodeStops(w: Wire, s: seq<Octet>)
    requires w.Valid()
    ensures var d := Decode(w, s);
      && (d.malformed <==> |d.rest| >= w.headerSize && w.bodySize(d.rest[..w.headerSize]).None?)
      && (!d.malformed && |d.rest| >= w.headerSize ==>
            |d.rest| < w.headerSize + w.bodySize(d.rest[..w.headerSize]).value)
    decreases |s|
  {
    if |s| >= w.headerSize && w.bodySize(s[..w.headerSize]).Some? {
      var n := w.bodySize(s[..w.headerSize]).value;
      if |s| >= w.headerSize + n {
        DecodeStops(w, s[w.headerSize + n..]);
      }
    }
  }

  /**
   * Fragmentation independence: decoding a prefix first, and then its leftover with the bytes that arrive later,
   * gives what the one-shot decode of all the bytes gives.
   */
  lemma DecodeInTwoSteps(w: Wire, s: seq<Octet>, t: seq<Octet>)
    requires w.Valid()
    ensures var d := Decode(w, s);
            var e := Decode(w, d.rest + t);
            Decode(w, s + t) == Decoded(d.packets + e.packets, e.rest, e.malformed)
  {
    var d := Decode(w, s);
    DecodeSound(w, s);
    DecodeRoundTrip(w, d.packets, d.rest + t);
    assert Frames(d.packets) + (d.rest + t) == s + t;
  }

  /** Cutting a stream into any sequence of reads, decoding after each, yields the one-shot decode. */
  ghost function DecodeInReads(w: Wire, leftover: seq<Octet>, chunks: seq<seq<Octet>>): Decoded
    requires w.Valid()
    decreases |chunks|
  {
    var d := Decode(w, leftover);
    if chunks == [] then d
    else
      var e := DecodeInReads(w, d.rest + chunks[0], chunks[1..]);
      Decoded(d.packets + e.packets, e.rest, e.malformed)
  }

  lemma {:induction false} FragmentationIndependence(w: Wire, leftover: seq<Octet>, chunks: seq<seq<Octet>>)
    requires w.Valid()
    ensures DecodeInReads(w, leftover, chunks) == Decode(w, leftover + Flatten(chunks))
    decreases |chunks|
  {
    if chunks == [] {
      assert leftover + Flatten(chunks) == leftover;
    } else {
      var d := Decode(w, leftover);
      FragmentationIndependence(w, d.rest + chunks[0], chunks[1..]);
      DecodeInTwoSteps(w, leftover, Flatten(chunks));
      assert d.rest + chunks[0] + Flatten(chunks[1..]) == d.rest + Flatten(chunks);
    }
  }

  /** The packets in a frame string are unique: equal bytes mean equal packets. */
  lemma FramesInjective(w: Wire, a: seq<Packet>, b: seq<Packet>)
    requires w.Valid() && AllWellFormed(w, a) && AllWellFormed(w, b)
    requires Frames(a) == Frames(b)
    ensures a == b
  {
    DecodeRoundTrip(w, a, []);
    DecodeRoundTrip(w, b, []);
    assert Frames(a) + [] == Frames(b) + [];
    assert a + Decode(w, []).packets == a && b + Decode(w, []).packets == b;
  }

  /** If the frames of `a` are followed by more bytes of the frames of `b`, then `a` is a prefix of `b`. */
  lemma PrefixFromFrames(w: Wire, a: seq<Packet>, b: seq<Packet>, t: seq<Octet>)
    requires w.Valid() && AllWellFormed(w, a) && AllWellFormed(w, b)
    requires Frames(a) + t == Frames(b)
    ensures a <= b && Decode(w, t) == Decoded(b[|a|..], [], false)
  {
    DecodeRoundTrip(w, a, t);
    assert Decode(w, Frames(b)) == Decoded(b, [], false) by {
      DecodeRoundTrip(w, b, []);
      assert Frames(b) + [] == Frames(b);
      assert b + [] == b;
    }
    var tail := Decode(w, t).packets;
    assert a + tail == b;
    assert b[|a|..] == tail && b[..|a|] == a;
  }
}
