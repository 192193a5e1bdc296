/**
 * The receiving half of a packet channel: a partial buffer and a pending header that turn an arbitrarily
 * chunked byte stream back into packets, driven synchronously, by a flush or by the reactor.
 */
module PacketChannels {
  import opened Bytes
  import opened Framing

  class PacketChannel {
    const wire: Wire
    var buffer: array<Octet>          // the data of m_partialMessage
    var rd: nat
    var wr: nat
    var header: Option<seq<Octet>>    // m_header, as the bytes it was read from
    var dangling: bool                // m_header points to a bad header that was deleted
    var inbound: seq<Octet>           // bytes sent by the peer that the socket has not handed over yet
    var offers: seq<nat>              // how many bytes the socket is ready to hand over, call by call; 0 for a failure
    var asyncRead: bool
    var closed: bool
    var delivered: seq<Packet>        // every packet built by the factory, in order
    const accepts: seq<Packet> -> bool  // whether the application's handler takes the last of the packets delivered

    ghost var received: seq<Octet>    // every byte the socket has handed over
    ghost var taken: seq<nat>         // the offers already used up

    /** Bytes handed over by the socket that belong to no packet yet. */
    ghost function Unconsumed(): seq<Octet>
      requires rd <= wr <= buffer.Length
      reads this, buffer
    {
      (if header.Some? then header.value else []) + buffer[rd..wr]
    }

    /** A pending header is a good one, announces a body, and the buffer can hold all of that body. */
    ghost predicate HeaderFits()
      reads this
    {
      header.Some? ==>
        && |header.value| == wire.headerSize
        && wire.bodySize(header.value).Some?
        && 0 < wire.bodySize(header.value).value <= buffer.Length
    }

    /**
     * The invariant between calls: the read offset is at the base, the capacity is at least 1024 and covers a
     * pending body, and every byte received is in a delivered frame, in the pending header or in the buffer.
     */
    ghost predicate Valid()
      reads this, buffer
    {
      && wire.Valid() && wire.Bounded()
      && rd == 0 && wr <= buffer.Length && MAX_BUFFER_SIZE <= buffer.Length
      && HeaderFits()
      && AllWellFormed(wire, delivered)
      && received == Frames(delivered) + Unconsumed()
    }

    /** Too few bytes are buffered for the part that comes next, a header or a body. */
    ghost predicate Drained()
      requires Valid()
      reads this, buffer
    {
      if header.Some? then wr < wire.bodySize(header.value).value else wr < wire.headerSize
    }

    constructor (w: Wire, asyncRead: bool, inbound: seq<Octet>, offers: seq<nat>, accepts: seq<Packet> -> bool)
      requires w.Valid() && w.Bounded()
      ensures Valid() && fresh(buffer) && wire == w && this.asyncRead == asyncRead && this.inbound == inbound
      ensures this.offers == offers && this.accepts == accepts
      ensures received == [] && delivered == [] && Unconsumed() == [] && !closed && Drained() && !dangling
    {
      wire := w;
      buffer := new Octet[MAX_BUFFER_SIZE];
      rd, wr, header, dangling := 0, 0, None, false;
      this.inbound, this.offers, this.accepts, this.asyncRead, closed := inbound, offers, accepts, asyncRead, false;
      received, taken, delivered := [], [], [];
    }

    /** At every moment the one-shot decode of all bytes received is what was delivered, then what is waiting. */
    lemma DeliveredIsDecode()
      requires Valid()
      ensures var d := Decode(wire, Unconsumed());
              Decode(wire, received) == Decoded(delivered + d.packets, d.rest, d.malformed)
      ensures Drained() ==> Decode(wire, received) == Decoded(delivered, Unconsumed(), false)
    {
      DecodeRoundTrip(wire, delivered, Unconsumed());
      if Drained() {
        DrainedMeaning();
        assert delivered + [] == delivered;
      }
    }

    /** A drained channel has no packet waiting, and always has room to read into. */
    lemma DrainedMeaning()
      requires Valid() && Drained()
      ensures Decode(wire, Unconsumed()) == Decoded([], Unconsumed(), false)
      ensures wr < buffer.Length
    {
      if header.Some? {
        assert Unconsumed()[..wire.headerSize] == header.value;
      }
    }

    /** Replace the buffer by one of the given capacity holding the same live bytes at its base. */
    method Compact(capacity: nat)
      requires rd <= wr <= buffer.Length && wr - rd <= capacity
      modifies this`buffer, this`rd, this`wr
      ensures fresh(buffer) && buffer.Length == capacity
      ensures rd == 0 && wr == old(wr - rd)
      ensures buffer[rd..wr] == old(buffer[rd..wr])
    {
      var next := new Octet[capacity];
      Copy(next, 0, buffer[rd..wr]);
      buffer, rd, wr := next, 0, wr - rd;
    }

    /** The socket has nothing to hand over: it is closed or fails, or the peer has sent no more. */
    predicate Silent()
      reads this
    {
      offers == [] || offers[0] == 0 || inbound == []
    }

    /**
     * Take what the socket offers, at most the free space, of which there is some; -1 exactly when the socket is
     * silent.
     */
    method ReadInputBuffer() returns (ret: int)
      requires Valid() && wr < buffer.Length
      modifies this`wr, this`inbound, this`offers, this`taken, this`received, buffer
      ensures Valid()
      ensures if old(offers) == [] then offers == [] && taken == old(taken)
              else offers == old(offers)[1..] && taken == old(taken) + [old(offers)[0]]
      ensures ret == -1 <==> old(Silent())
      ensures ret == -1 ==> received == old(received) && inbound == old(inbound) && Unconsumed() == old(Unconsumed())
      ensures ret != -1 ==> ret == Min(old(offers)[0], Min(old(buffer.Length - wr), |old(inbound)|)) > 0
      ensures ret > 0 ==> received == old(received) + old(inbound)[..ret] && inbound == old(inbound)[ret..]
      ensures ret > 0 ==> Unconsumed() == old(Unconsumed()) + old(inbound)[..ret]
      ensures received + inbound == old(received + inbound)
    {
      var offer := if offers == [] then 0 else offers[0];
      if offers != [] {
        taken, offers := taken + [offer], offers[1..];
      }
      var count := Min(offer, Min(buffer.Length - wr, |inbound|));
      if count == 0 {
        return -1;
      }
      var chunk := inbound[..count];
      Append(chunk);
      Assoc(received, chunk, inbound[count..]);
      assert chunk + inbound[count..] == inbound;
      inbound := inbound[count..];
      received := received + chunk;
      return count;
    }

    /** Put bytes behind those buffered. */
    method Append(chunk: seq<Octet>)
      requires Valid() && wr + |chunk| <= buffer.Length
      modifies this`wr, buffer
      ensures rd == 0 && wr == old(wr) + |chunk|
      ensures Unconsumed() == old(Unconsumed()) + chunk && received + chunk == Frames(delivered) + Unconsumed()
    {
      ghost var before, front := buffer[rd..wr], if header.Some? then header.value else [];
      Copy(buffer, wr, chunk);
      assert buffer[rd..wr] == before by { assert buffer[rd..wr] == buffer[..wr]; }
      assert buffer[rd..wr + |chunk|] == before + chunk;
      Assoc(front, before, chunk);
      Assoc(Frames(delivered), front + before, chunk);
      wr := wr + |chunk|;
    }

    /**
     * Parse at most one packet. What comes out is the first packet of the one-shot decode of the unconsumed
     * bytes, if it has one; -1 is returned exactly when a bad header is at the front. The bad header is deleted but
     * not forgotten, and must not be met again.
     */
    method HandleInputParsePacket() returns (ret: int, packet: Option<Packet>)
      requires Valid() && !dangling
      modifies this`buffer, this`rd, this`wr, this`header, this`dangling, this`delivered
      ensures dangling == (ret == -1)
      ensures Valid() && (buffer == old(buffer) || fresh(buffer)) && buffer.Length >= old(buffer.Length)
      ensures packet == FirstPacket(wire, old(Unconsumed()))
      ensures ret == if packet.None? && Decode(wire, old(Unconsumed())).malformed then -1 else 0
      ensures packet.None? ==> Unconsumed() == old(Unconsumed()) && delivered == old(delivered)
      ensures packet.Some? ==> old(Unconsumed()) == Frame(packet.value) + Unconsumed()
      ensures packet.Some? ==> delivered == old(delivered) + [packet.value]
      ensures packet.None? && ret == 0 ==> Drained()
    {
      ghost var before := Unconsumed();
      var readSize := wr - rd;
      if readSize == 0 {
        if header.Some? { assert before[..wire.headerSize] == header.value; }
        return 0, None;
      }
      var bis := buffer[rd..wr];
      if header.None? {
        assert before == bis;
        if readSize < wire.headerSize {
          return 0, None;
        }
        var parsed := bis[..wire.headerSize];
        bis := bis[wire.headerSize..];
        if wire.bodySize(parsed).None? {
          dangling := true;
          return -1, None;
        }
        assert before == parsed + bis;
        TakeHeader(parsed, bis);
      }
      ret, packet := ParseBody(before, bis);
    }

    /** A header has been read: step over it, and make room for its body if some of it is still missing. */
    method TakeHeader(parsed: seq<Octet>, ghost bis: seq<Octet>)
      requires Valid() && header.None? && |parsed| == wire.headerSize && wire.bodySize(parsed).Some?
      requires buffer[..wr] == parsed + bis
      modifies this`buffer, this`rd, this`wr, this`header
      ensures (buffer == old(buffer) || fresh(buffer)) && buffer.Length >= old(buffer.Length)
      ensures var body, rest := wire.bodySize(parsed).value, |bis|;
        buffer.Length == if body > rest && body - rest > old(buffer.Length - wr) then wire.GrownCapacity(body)
                         else old(buffer.Length)
      ensures header == Some(parsed) && rd <= wr <= buffer.Length && buffer[rd..wr] == bis
      ensures wr - rd < wire.bodySize(parsed).value ==> rd == 0 && HeaderFits()
    {
      var announced := wire.bodySize(parsed).value;
      header := Some(parsed);
      rd := rd + wire.headerSize;
      assert buffer[rd..wr] == buffer[..wr][rd..];
      var readSize := wr - rd;
      if announced > readSize {
        if announced - readSize > buffer.Length - wr {
          assert wire.Announces(parsed);
          Compact(wire.GrownCapacity(announced));
        } else {
          Compact(buffer.Length);
        }
      }
    }

    /** The body section: build the packet once the whole announced body is buffered. */
    method ParseBody(ghost before: seq<Octet>, bis: seq<Octet>) returns (ret: int, packet: Option<Packet>)
      requires wire.Valid() && wire.Bounded() && MAX_BUFFER_SIZE <= buffer.Length && rd <= wr <= buffer.Length
      requires header.Some? && |header.value| == wire.headerSize && wire.bodySize(header.value).Some?
      requires bis == buffer[rd..wr] && before == header.value + bis
      requires wr - rd < wire.bodySize(header.value).value ==> rd == 0 && HeaderFits()
      requires AllWellFormed(wire, delivered) && received == Frames(delivered) + before
      modifies this`buffer, this`rd, this`wr, this`header, this`delivered
      ensures Valid() && (buffer == old(buffer) || fresh(buffer)) && buffer.Length >= old(buffer.Length)
      ensures ret == 0
      ensures packet == FirstPacket(wire, before)
      ensures packet.None? ==> Unconsumed() == before && delivered == old(delivered)
      ensures packet.None? ==> Drained() && !Decode(wire, before).malformed
      ensures packet.Some? ==> before == Frame(packet.value) + Unconsumed()
      ensures packet.Some? ==> delivered == old(delivered) + [packet.value]
    {
      var bodySize := wire.bodySize(header.value).value;
      if wr - rd < bodySize {
        DrainedMeaning();
        return 0, None;
      }
      packet := Some(Packet(header.value, bis[..bodySize]));
      var rest := bis[bodySize..];
      assert before == Frame(packet.value) + rest;
      rd := rd + (|bis| - |rest|);
      header := None;
      assert buffer[rd..wr] == rest;
      Compact(buffer.Length);
      Deliver(before, packet.value);
      return 0, packet;
    }

    /** Bookkeeping for a packet whose frame has just been consumed. */
    method Deliver(ghost before: seq<Octet>, p: Packet)
      requires wire.Valid() && wire.Bounded() && rd == 0 && wr <= buffer.Length &&
          MAX_BUFFER_SIZE <= buffer.Length && header.None?
      requires AllWellFormed(wire, delivered) && WellFormed(wire, p)
      requires received == Frames(delivered) + before && before == Frame(p) + buffer[rd..wr]
      modifies this`delivered
      ensures Valid() && delivered == old(delivered) + [p]
      ensures Unconsumed() == buffer[rd..wr] && before == Frame(p) + Unconsumed()
      ensures FirstPacket(wire, before) == Some(p)
    {
      FramesSnoc(delivered, p);
      DecodeFrame(wire, p, buffer[rd..wr]);
      Assoc(Frames(delivered), Frame(p), buffer[rd..wr]);
      NoFront(buffer[rd..wr]);
      delivered := delivered + [p];
    }

    /** Mark the channel closed; the listener protocol is modelled in `ChannelManagers`. */
    method Close()
      requires Valid()
      modifies this`closed
      ensures Valid() && closed
    {
      closed := true;
    }

    /** The application's packet handler: it may refuse a packet. */
    method HandlePacket(packet: Packet) returns (ret: int)
      requires delivered != [] && delivered[|delivered| - 1] == packet
      ensures ret == if accepts(delivered) then 0 else -1
    {
      return if accepts(delivered) then 0 else -1;
    }

    /** The socket fell silent after it had used up so many offers. */
    ghost predicate Ended(before: nat)
      reads this
    {
      inbound == [] || offers == [] || (|taken| > before && taken[|taken| - 1] == 0)
    }

    /**
     * Synchronous receive: parse first, read only when nothing complete is buffered. `turns` is how many turns of the
     * loop begin before the deadline, if there is one. A packet that is complete is returned without touching the
     * socket; without a deadline, the call fails only at a bad header or when the socket falls silent.
     */
    method ReceivePacket(turns: Option<nat>) returns (ret: int, packet: Option<Packet>)
      requires Valid() && (asyncRead || !dangling)
      modifies this, buffer
      ensures Valid() && (buffer == old(buffer) || fresh(buffer)) && asyncRead == old(asyncRead)
      ensures received + inbound == old(received + inbound) && |old(received)| <= |received|
      ensures taken + offers == old(taken + offers) && |old(taken)| <= |taken|
      ensures ret == if packet.Some? then 0 else -1
      ensures ret == 0 ==> delivered == old(delivered) + [packet.value] && closed == old(closed) && !dangling
      ensures ret == -1 ==> delivered == old(delivered)
      ensures old(asyncRead) || turns == Some(0) ==>
        && ret == -1 && received == old(received) && offers == old(offers)
        && closed == old(closed) && Unconsumed() == old(Unconsumed())
      ensures !old(asyncRead) && turns != Some(0) && FirstPacket(wire, old(Unconsumed())).Some? ==>
        ret == 0 && packet == FirstPacket(wire, old(Unconsumed())) && inbound == old(inbound) && offers == old(offers)
      ensures ret == -1 && !old(asyncRead) && turns == None ==> Failed(|old(taken)|)
    {
      if asyncRead {
        return -1, None;
      }
      ret, packet := ReceiveLoop(turns);
    }

    method ReceiveLoop(turns: Option<nat>) returns (ret: int, packet: Option<Packet>)
      requires Valid() && !asyncRead && !dangling
      modifies this, buffer
      ensures Valid() && (buffer == old(buffer) || fresh(buffer)) && !asyncRead
      ensures received + inbound == old(received + inbound) && |old(received)| <= |received|
      ensures taken + offers == old(taken + offers) && |old(taken)| <= |taken|
      ensures ret == if packet.Some? then 0 else -1
      ensures ret == 0 ==> delivered == old(delivered) + [packet.value] && closed == old(closed) && !dangling
      ensures ret == -1 ==> delivered == old(delivered)
      ensures turns == Some(0) ==>
        && ret == -1 && received == old(received) && offers == old(offers)
        && closed == old(closed) && Unconsumed() == old(Unconsumed())
      ensures turns != Some(0) && FirstPacket(wire, old(Unconsumed())).Some? ==>
        ret == 0 && packet == FirstPacket(wire, old(Unconsumed())) && inbound == old(inbound) && offers == old(offers)
      ensures ret == -1 && turns == None ==> Failed(|old(taken)|)
    {
      packet := None;
      var turn := 0;
      while packet.None?
        invariant Valid() && !dangling && (buffer == old(buffer) || fresh(buffer))
        invariant asyncRead == old(asyncRead) && closed == old(closed)
        invariant received + inbound == old(received + inbound) && |old(received)| <= |received|
        invariant taken + offers == old(taken + offers) && |old(taken)| <= |taken|
        invariant packet.None? && delivered == old(delivered)
        invariant turn == 0 ==> offers == old(offers) && inbound == old(inbound) && received == old(received)
        invariant turn == 0 ==> Unconsumed() == old(Unconsumed())
        invariant turn > 0 ==> turns != Some(0) && FirstPacket(wire, old(Unconsumed())).None?
        decreases |inbound|
      {
        if turns == Some(turn) {
          return -1, None;
        }
        ret, packet := ParseOrRead();
        if ret == -1 || packet.Some? {
          return;
        }
        turn := turn + 1;
      }
    }

    /** The channel is closed with no packet buffered, at a bad header or because the socket fell silent. */
    ghost predicate Failed(before: nat)
      requires Valid()
      reads this, buffer
    {
      && closed && FirstPacket(wire, Unconsumed()).None?
      && if dangling then Decode(wire, Unconsumed()).malformed else Ended(before)
    }

    /** One turn of the receive loop: a packet if one is buffered, otherwise more bytes; failure closes the channel. */
    method ParseOrRead() returns (ret: int, packet: Option<Packet>)
      requires Valid() && !dangling
      modifies this, buffer
      ensures Valid() && (buffer == old(buffer) || fresh(buffer)) && asyncRead == old(asyncRead)
      ensures received + inbound == old(received + inbound) && |old(received)| <= |received|
      ensures packet == FirstPacket(wire, old(Unconsumed()))
      ensures packet.Some? ==>
        && ret == 0 && delivered == old(delivered) + [packet.value] && received == old(received)
        && inbound == old(inbound) && offers == old(offers)
      ensures packet.None? ==> delivered == old(delivered)
      ensures packet.None? ==> ret == if old(Decode(wire, Unconsumed()).malformed || Silent()) then -1 else 0
      ensures packet.None? && ret == 0 ==> |inbound| < |old(inbound)|
      ensures taken + offers == old(taken + offers) && |old(taken)| <= |taken|
      ensures ret == 0 ==> closed == old(closed) && !dangling
      ensures ret == -1 ==> closed && Unconsumed() == old(Unconsumed()) && inbound == old(inbound)
      ensures ret == -1 ==> dangling == old(Decode(wire, Unconsumed()).malformed)
      ensures ret == -1 && !dangling ==> Ended(|old(taken)|)
    {
      ret, packet := HandleInputParsePacket();
      if ret == -1 {
        Close();
        return;
      }
      if packet.Some? {
        return;
      }
      ret := ReadMore();
    }

    /** More bytes from the socket, or its silence, which closes the channel. */
    method ReadMore() returns (ret: int)
      requires Valid() && Drained()
      modifies this`wr, this`inbound, this`offers, this`taken, this`received, this`closed, buffer
      ensures Valid()
      ensures received + inbound == old(received + inbound) && |old(received)| <= |received|
      ensures taken + offers == old(taken + offers) && |old(taken)| <= |taken|
      ensures ret == if old(Silent()) then -1 else 0
      ensures ret == 0 ==> closed == old(closed) && |inbound| < |old(inbound)|
      ensures ret == -1 ==> closed && Unconsumed() == old(Unconsumed()) && inbound == old(inbound)
      ensures ret == -1 ==> Ended(|old(taken)|)
    {
      DrainedMeaning();
      var count := ReadInputBuffer();
      if count == -1 {
        Close();
        return -1;
      }
      return 0;
    }

    /** Of some complete packets, those handed to the handler: all of them, or up to the first it refuses. */
    ghost function Handled(before: seq<Packet>, ps: seq<Packet>): seq<Packet>
      decreases |ps|
    {
      if ps == [] then []
      else [ps[0]] + if accepts(before + [ps[0]]) then Handled(before + [ps[0]], ps[1..]) else []
    }

    ghost predicate AllAccepted(before: seq<Packet>, ps: seq<Packet>)
      decreases |ps|
    {
      ps == [] || (accepts(before + [ps[0]]) && AllAccepted(before + [ps[0]], ps[1..]))
    }

    /** Hand every complete packet to the handler. Shared by the flush and by the reactor callback. */
    method Drain() returns (ret: int, badHeader: bool)
      requires Valid() && !dangling
      modifies this`buffer, this`rd, this`wr, this`header, this`dangling, this`delivered
      ensures dangling == badHeader
      ensures Valid() && (buffer == old(buffer) || fresh(buffer))
      ensures Drains(old(delivered), old(Decode(wire, Unconsumed())), delivered, ret, badHeader)
      ensures ret == 0 ==> Drained() && Decode(wire, received) == Decoded(delivered, Unconsumed(), false)
      ensures badHeader ==> Decode(wire, received).packets == delivered && Decode(wire, received).malformed
    {
      ghost var before, first := delivered, Decode(wire, Unconsumed());
      var more := true;
      ret := 0;
      while more
        invariant Valid() && (buffer == old(buffer) || fresh(buffer))
        invariant more ==> !dangling && Continues(before, first, delivered, Decode(wire, Unconsumed()))
        invariant !more ==> Drains(before, first, delivered, ret, dangling)
        invariant !more && ret == 0 ==> Drained()
        invariant !more && dangling ==> Decode(wire, Unconsumed()).packets == [] && Decode(wire, Unconsumed()).malformed
        decreases more, |Unconsumed()|
      {
        ret, more := HandleNext(before, first);
      }
      DeliveredIsDecode();
      badHeader := dangling;
    }

    /** Parse one packet and hand it over; `more` says whether to go on. */
    method HandleNext(ghost before: seq<Packet>, ghost first: Decoded) returns (ret: int, more: bool)
      requires Valid() && !dangling && Continues(before, first, delivered, Decode(wire, Unconsumed()))
      modifies this`buffer, this`rd, this`wr, this`header, this`dangling, this`delivered
      ensures Valid() && (buffer == old(buffer) || fresh(buffer))
      ensures more ==> !dangling && Continues(before, first, delivered, Decode(wire, Unconsumed()))
      ensures more ==> |Unconsumed()| < |old(Unconsumed())|
      ensures !more ==> Drains(before, first, delivered, ret, dangling)
      ensures !more && ret == 0 ==> Drained()
      ensures !more && dangling ==> Decode(wire, Unconsumed()).packets == [] && Decode(wire, Unconsumed()).malformed
    {
      ghost var now := delivered;
      var packet;
      ret, packet := HandleInputParsePacket();
      if packet.None? {
        ContinuesToEnd(before, first, now, Decode(wire, Unconsumed()));
        return ret, false;
      }
      DecodeFrame(wire, packet.value, Unconsumed());
      ContinuesOn(before, first, now, packet.value, Decode(wire, Unconsumed()));
      ret := HandlePacket(packet.value);
      more := ret != -1;
    }

    /** What draining does: the handler gets the packets, and it succeeds if all are taken and no bad header follows. */
    ghost predicate Drains(before: seq<Packet>, d: Decoded, after: seq<Packet>, ret: int, badHeader: bool) {
      && after == before + Handled(before, d.packets)
      && ret == (if AllAccepted(before, d.packets) && !d.malformed then 0 else -1)
      && (badHeader <==> AllAccepted(before, d.packets) && d.malformed)
    }

    lemma ContinuesOn(before: seq<Packet>, first: Decoded, now: seq<Packet>, p: Packet, d: Decoded)
      requires Continues(before, first, now, Decoded([p] + d.packets, d.rest, d.malformed))
      ensures accepts(now + [p]) ==> Continues(before, first, now + [p], d)
      ensures !accepts(now + [p]) ==> Drains(before, first, now + [p], -1, false)
    {
      assert ([p] + d.packets)[1..] == d.packets;
      Assoc(now, [p], Handled(now + [p], d.packets));
    }

    lemma ContinuesToEnd(before: seq<Packet>, first: Decoded, now: seq<Packet>, d: Decoded)
      requires Continues(before, first, now, d) && d.packets == []
      ensures Drains(before, first, now, if d.malformed then -1 else 0, d.malformed)
    {
    }

    /** From `now` on, draining does what it does from `before` on. */
    ghost predicate Continues(before: seq<Packet>, first: Decoded, now: seq<Packet>, d: Decoded) {
      && before + Handled(before, first.packets) == now + Handled(now, d.packets)
      && (AllAccepted(before, first.packets) <==> AllAccepted(now, d.packets))
      && first.malformed == d.malformed
    }

    /** Switch to reactor-driven reads, flushing first what the synchronous mode left buffered. */
    method Asynchronous(readAsync: bool, hasReactor: bool) returns (ret: int)
      requires Valid() && (readAsync ==> !dangling)
      modifies this, buffer
      ensures Valid() && (buffer == old(buffer) || fresh(buffer))
      ensures received == old(received) && inbound == old(inbound) && offers == old(offers)
      ensures asyncRead == if ret == 0 then readAsync else old(asyncRead)
      ensures !readAsync ==>
        delivered == old(delivered) && closed == old(closed) && ret == if hasReactor then 0 else -1
      ensures readAsync ==>
        && delivered == old(delivered) + Handled(old(delivered), old(Decode(wire, Unconsumed())).packets)
        && (dangling <==> AllAccepted(old(delivered), old(Decode(wire, Unconsumed())).packets)
                          && old(Decode(wire, Unconsumed())).malformed)
        && closed == (old(closed) || dangling)
        && (ret == 0 || ret == -1)
        && (ret == 0 <==> hasReactor && !dangling
                          && AllAccepted(old(delivered), old(Decode(wire, Unconsumed())).packets))
      ensures ret == 0 && readAsync ==> Drained() && Decode(wire, received) == Decoded(delivered, Unconsumed(), false)
    {
      if readAsync {
        var badHeader;
        ret, badHeader := Drain();
        if badHeader {
          Close();
          return;
        }
        if ret == -1 {
          return;
        }
      }
      if !hasReactor {
        return -1;
      }
      asyncRead := readAsync;
      return 0;
    }

    /**
     * The reactor callback: one read, then every complete packet. It finds nothing complete buffered: neither a
     * new channel, nor the switch to reactor-driven reads, nor an earlier callback that succeeded leaves anything.
     * When it succeeds, the packets delivered so far are exactly the one-shot decode of everything received, in
     * whatever modes and reads it arrived.
     */
    method HandleInput() returns (ret: int)
      requires Valid() && Drained() && !dangling
      modifies this, buffer
      ensures Valid() && (buffer == old(buffer) || fresh(buffer))
      ensures received + inbound == old(received + inbound) && |old(received)| <= |received|
      ensures asyncRead == old(asyncRead) && closed == old(closed)
      ensures |received| - |old(received)| ==
        if old(Silent()) then 0 else Min(old(offers)[0], Min(old(buffer.Length - wr), |old(inbound)|))
      ensures |received| > |old(received)| <==> !old(Silent())
      ensures old(Silent()) ==> ret == -1 && delivered == old(delivered)
      ensures !old(Silent()) ==>
        Drains(old(delivered), Decode(wire, old(Unconsumed()) + received[|old(received)|..]), delivered, ret, dangling)
      ensures ret == 0 ==> Drained() && !dangling && Decode(wire, received) == Decoded(delivered, Unconsumed(), false)
    {
      DrainedMeaning();
      var count := ReadInputBuffer();
      if count == -1 {
        return -1;
      }
      var badHeader;
      ret, badHeader := Drain();
    }
  }
}
