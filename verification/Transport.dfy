/**
 * A sender's output queue, the network and a receiver's packet parser put together. Runs are arbitrary
 * interleavings of queueing, partial socket writes, partial delivery, reads of any size and parse attempts.
 */
module Transport {
  import opened Bytes
  import opened Framing
  import opened StreamOutputs

  datatype State = State(
    enqueued: seq<Packet>,      // packets handed to the sending channel
    sender: Sender,             // its output queue
    inflight: seq<Octet>,       // bytes the sending socket accepted
    arrived: seq<Octet>,        // bytes in the receiving socket
    unconsumed: seq<Octet>,     // bytes read by the receiving channel that are in no packet yet
    delivered: seq<Packet>,     // packets built by the receiving channel
    failed: bool                // the receiving channel met a bad header
  )

  datatype Step = Enqueue(p: Packet) | Output(n: nat) | Deliver(n: nat) | Read(n: nat) | Parse

  ghost function Init(): State {
    State([], Sender([], 0, 0), [], [], [], [], false)
  }

  /** One atomic step; a step that is not possible in `s` leaves it unchanged. */
  ghost function Apply(w: Wire, s: State, step: Step): State
    requires w.Valid() && s.sender.Valid()
  {
    match step
    case Enqueue(p) =>
      if WellFormed(w, p) then s.(enqueued := s.enqueued + [p], sender := s.sender.Enqueue(Frame(p))) else s
    case Output(n) =>
      if s.sender.CanWrite(n) && n <= |s.sender.Owed()| then
          s.(sender := s.sender.Write(n), inflight := s.inflight + s.sender.Owed()[..n]) else s
    case Deliver(n) =>
      if n <= |s.inflight| then s.(inflight := s.inflight[n..], arrived := s.arrived + s.inflight[..n]) else s
    case Read(n) =>
      if n <= |s.arrived| then s.(arrived := s.arrived[n..], unconsumed := s.unconsumed + s.arrived[..n]) else s
    case Parse =>
      DecodeSound(w, s.unconsumed);
      match FirstPacket(w, s.unconsumed)
      case Some(p) => s.(unconsumed := s.unconsumed[|Frame(p)|..], delivered := s.delivered + [p])
      case None => s.(failed := s.failed || Decode(w, s.unconsumed).malformed)
  }

  ghost function Execute(w: Wire, s: State, steps: seq<Step>): State
    requires w.Valid() && Inv(w, s)
    ensures Inv(w, Execute(w, s, steps))
    decreases |steps|
  {
    if steps == [] then s
    else
      StepKeepsInv(w, s, steps[0]);
      Execute(w, Apply(w, s, steps[0]), steps[1..])
  }

  /** Every byte accepted by the sending socket is in flight, arrived, unconsumed, or in a delivered frame. */
  ghost predicate Inv(w: Wire, s: State) {
    && s.sender.Valid()
    && AllWellFormed(w, s.enqueued) && AllWellFormed(w, s.delivered)
    && Flatten(s.sender.blocks) == Frames(s.enqueued)
    && |s.sender.blocks| == |s.enqueued|
    && (forall i | 0 <= i < |s.enqueued| :: s.sender.blocks[i] == Frame(s.enqueued[i]))
    && s.sender.Written() == Frames(s.delivered) + s.unconsumed + s.arrived + s.inflight
    && !s.failed
  }

  /** What is on the way is exactly the frames of the packets not delivered yet. */
  lemma InvMeansPrefix(w: Wire, s: State)
    requires w.Valid() && Inv(w, s)
    ensures s.delivered <= s.enqueued
    ensures Decode(w, s.unconsumed + s.arrived + s.inflight + s.sender.Owed()) ==
            Decoded(s.enqueued[|s.delivered|..], [], false)
  {
    SenderConserves(s.sender);
    var t := s.unconsumed + s.arrived + s.inflight + s.sender.Owed();
    AssocFour(Frames(s.delivered), s.unconsumed, s.arrived, s.inflight);
    Assoc(Frames(s.delivered), s.unconsumed + s.arrived + s.inflight, s.sender.Owed());
    PrefixFromFrames(w, s.delivered, s.enqueued, t);
  }

  /** A bad header stays bad whatever bytes follow. */
  lemma BadHeaderStays(w: Wire, s: seq<Octet>, t: seq<Octet>)
    requires w.Valid() && !Decode(w, s + t).malformed
    ensures Decode(w, s).packets == [] ==> !Decode(w, s).malformed
  {
    if w.headerSize <= |s| {
      assert (s + t)[..w.headerSize] == s[..w.headerSize];
    }
  }

  lemma NoBadHeaderInFront(w: Wire, s: State)
    requires w.Valid() && Inv(w, s)
    ensures Decode(w, s.unconsumed).packets == [] ==> !Decode(w, s.unconsumed).malformed
  {
    InvMeansPrefix(w, s);
    var t := s.arrived + s.inflight + s.sender.Owed();
    AssocFour(s.unconsumed, s.arrived, s.inflight, s.sender.Owed());
    BadHeaderStays(w, s.unconsumed, t);
  }

  lemma ParseKeepsInv(w: Wire, s: State)
    requires w.Valid() && Inv(w, s)
    ensures Inv(w, Apply(w, s, Parse))
  {
    NoBadHeaderInFront(w, s);
    DecodeSound(w, s.unconsumed);
    var first := FirstPacket(w, s.unconsumed);
    if first.Some? {
      var rest := s.unconsumed[|Frame(first.value)|..];
      FramesSnoc(s.delivered, first.value);
      assert s.unconsumed == Frame(first.value) + rest;
      Assoc(Frames(s.delivered), Frame(first.value), rest);
    }
  }

  lemma StepKeepsInv(w: Wire, s: State, step: Step)
    requires w.Valid() && Inv(w, s)
    ensures Inv(w, Apply(w, s, step))
  {
    match step
    case Enqueue(p) =>
      if WellFormed(w, p) {
        EnqueueKeepsWritten(s.sender, Frame(p));
        FramesSnoc(s.enqueued, p);
      }
    case Output(n) =>
      if s.sender.CanWrite(n) && n <= |s.sender.Owed()| {
        WriteAppends(s.sender, n);
        Assoc(Frames(s.delivered) + s.unconsumed + s.arrived, s.inflight, s.sender.Owed()[..n]);
      }
    case Deliver(n) =>
      if n <= |s.inflight| {
        assert s.inflight == s.inflight[..n] + s.inflight[n..];
        assert s.arrived + (s.inflight[..n] + s.inflight[n..]) == s.arrived + s.inflight[..n] + s.inflight[n..];
        var front := Frames(s.delivered) + s.unconsumed;
        Assoc(front, s.arrived, s.inflight);
        Assoc(front, s.arrived + s.inflight[..n], s.inflight[n..]);
      }
    case Read(n) =>
      if n <= |s.arrived| {
        assert s.arrived == s.arrived[..n] + s.arrived[n..];
        var front := Frames(s.delivered);
        assert front + s.unconsumed + (s.arrived[..n] + s.arrived[n..]) ==
            front + (s.unconsumed + s.arrived[..n]) + s.arrived[n..];
      }
    case Parse => ParseKeepsInv(w, s);
  }

  /** The sending socket has accepted every byte of the first `i + 1` packets. */
  /** The packets a run is given to send, read off its steps. */
  ghost function Given(w: Wire, steps: seq<Step>): seq<Packet> {
    if steps == [] then []
    else (if steps[0].Enqueue? && WellFormed(w, steps[0].p) then [steps[0].p] else []) + Given(w, steps[1..])
  }

  /** Each packet given is queued once, in order, and nothing else is. */
  lemma {:induction false} EnqueuedIsGiven(w: Wire, s: State, steps: seq<Step>)
    requires w.Valid() && Inv(w, s)
    ensures Execute(w, s, steps).enqueued == s.enqueued + Given(w, steps)
    decreases |steps|
  {
    if steps != [] {
      StepKeepsInv(w, s, steps[0]);
      var t := Apply(w, s, steps[0]);
      EnqueuedIsGiven(w, t, steps[1..]);
      var first := if steps[0].Enqueue? && WellFormed(w, steps[0].p) then [steps[0].p] else [];
      assert t.enqueued == s.enqueued + first;
      Assoc(s.enqueued, first, Given(w, steps[1..]));
    }
  }

  ghost predicate WrittenThrough(s: State, i: nat)
    requires s.sender.Valid()
  {
    i < |s.enqueued| && Frames(s.enqueued[..i + 1]) <= s.sender.Written()
  }

  /**
   * End to end, for every interleaving: packets are delivered in order and without loss, repetition or invention, as
   * a prefix of those the run was given; the receiver never has a bad header in front; and a block reported written
   * (all indices below `done`) has all its bytes and all earlier blocks' bytes with the sending socket.
   */
  lemma EndToEnd(w: Wire, steps: seq<Step>)
    requires w.Valid()
    ensures Inv(w, Init())
    ensures var s := Execute(w, Init(), steps);
            && s.enqueued == Given(w, steps) && s.delivered <= Given(w, steps)
            && !s.failed && (FirstPacket(w, s.unconsumed) == None ==> !Decode(w, s.unconsumed).malformed)
            && forall i | 0 <= i < s.sender.done :: WrittenThrough(s, i)
  {
    assert Frames([]) + [] + [] + [] == [];
    assert Flatten<Octet>([]) == [] && Frames([]) == [];
    var s := Execute(w, Init(), steps);
    InvMeansPrefix(w, s);
    NoBadHeaderInFront(w, s);
    EnqueuedIsGiven(w, Init(), steps);
    assert [] + Given(w, steps) == Given(w, steps);
    forall i | 0 <= i < s.sender.done
      ensures WrittenThrough(s, i)
    {
      ReportedMeansWritten(w, s, i);
    }
  }

  lemma ReportedMeansWritten(w: Wire, s: State, i: nat)
    requires w.Valid() && Inv(w, s) && i < s.sender.done
    ensures WrittenThrough(s, i)
  {
    FramesAreBlocks(s.enqueued[..i + 1], s.sender.blocks[..i + 1]);
    var done := s.sender.blocks[..s.sender.done];
    assert done == s.sender.blocks[..i + 1] + done[i + 1..];
    FlattenConcat(s.sender.blocks[..i + 1], done[i + 1..]);
  }

  lemma {:induction false} FramesAreBlocks(ps: seq<Packet>, blocks: seq<seq<Octet>>)
    requires |ps| == |blocks| && forall i | 0 <= i < |ps| :: blocks[i] == Frame(ps[i])
    ensures Flatten(blocks) == Frames(ps)
  {
    if ps != [] {
      FramesAreBlocks(ps[1..], blocks[1..]);
    }
  }

  /** When nothing is on the way and the receiver has no packet left to parse, everything given was delivered. */
  lemma QuiescentIsComplete(w: Wire, steps: seq<Step>)
    requires w.Valid() && Inv(w, Init())
    requires var s := Execute(w, Init(), steps);
             s.sender.Owed() == [] && s.inflight == [] && s.arrived == [] && FirstPacket(w, s.unconsumed) == None
    ensures var s := Execute(w, Init(), steps);
            s.delivered == Given(w, steps) && s.unconsumed == []
  {
    var s := Execute(w, Init(), steps);
    EnqueuedIsGiven(w, Init(), steps);
    assert [] + Given(w, steps) == Given(w, steps);
    InvMeansPrefix(w, s);
    assert s.unconsumed + [] + [] + [] == s.unconsumed;
    DecodeSound(w, s.unconsumed);
    assert s.enqueued[|s.delivered|..] == [];
  }

  /** Work left: bytes weighted by how far they still have to go, plus the blocks still to be reported written. */
  ghost function Work(s: State): nat
    requires s.sender.Valid()
  {
    4 * |s.sender.Owed()| + 3 * |s.inflight| + 2 * |s.arrived| + |s.unconsumed| + |s.sender.blocks| - s.sender.done
  }

  /** Every step that changes the state, other than queueing a new packet, leaves less work. */
  lemma EveryStepMakesProgress(w: Wire, s: State, step: Step)
    requires w.Valid() && Inv(w, s) && !step.Enqueue? && Apply(w, s, step) != s
    ensures Inv(w, Apply(w, s, step)) && Work(Apply(w, s, step)) < Work(s)
  {
    StepKeepsInv(w, s, step);
    match step
    case Output(n) =>
      WriteAppends(s.sender, n);
      SenderConserves(s.sender);
      SenderConserves(s.sender.Write(n));
    case Deliver(n) =>
    case Read(n) =>
    case Parse => DecodeSound(w, s.unconsumed);
  }

  /** Progress: while bytes are owed, in flight, arrived or complete in the buffer, some step moves the system. */
  lemma NotStuck(w: Wire, s: State)
    requires w.Valid() && Inv(w, s)
    requires s.delivered != s.enqueued
    ensures exists step: Step :: !step.Enqueue? && Apply(w, s, step) != s
  {
    if s.sender.done < |s.sender.blocks| {
      var n := |s.sender.blocks[s.sender.done]| - s.sender.offset;
      WriteAppends(s.sender, n);
      assert Apply(w, s, Output(n)).sender.done == s.sender.done + 1;
      assert Apply(w, s, Output(n)) != s;
    } else if s.inflight != [] {
      assert |Apply(w, s, Deliver(|s.inflight|)).inflight| == 0;
      assert Apply(w, s, Deliver(|s.inflight|)) != s;
    } else if s.arrived != [] {
      assert |Apply(w, s, Read(1)).arrived| == |s.arrived| - 1;
      assert Apply(w, s, Read(1)) != s;
    } else {
      InvMeansPrefix(w, s);
      assert s.unconsumed + [] + [] + [] == s.unconsumed;
      assert |s.enqueued[|s.delivered|..]| > 0;
      assert |Apply(w, s, Parse).delivered| == |s.delivered| + 1;
      assert Apply(w, s, Parse) != s;
    }
  }
}
