/**
 * The sending half of a stream channel: a queue of write blocks drained by partial socket writes, with the
 * unfinished head pushed back, and the events that tell callers when a block has been written.
 */
module StreamOutputs {
  import opened Bytes

  /** Event.h, in the order of the enumeration. */
  datatype EventState = Idle | Active | Success | Error | Timeout | Cancel

  /** The queue seen as a value: all blocks ever queued, how many are written, and how much of the next one. */
  datatype Sender = Sender(blocks: seq<seq<Octet>>, done: nat, offset: nat) {
    ghost predicate Valid() {
      done <= |blocks| && offset <= if done < |blocks| then |blocks[done]| else 0
    }

    /** The bytes the socket has accepted. */
    ghost function Written(): seq<Octet>
      requires Valid()
    {
      Flatten(blocks[..done]) + if done < |blocks| then blocks[done][..offset] else []
    }

    /** The bytes still owed to the peer. */
    ghost function Owed(): seq<Octet>
      requires Valid()
    {
      if done < |blocks| then blocks[done][offset..] + Flatten(blocks[done + 1..]) else []
    }

    function Enqueue(data: seq<Octet>): Sender {
      Sender(blocks + [data], done, offset)
    }

    /** One output callback in which the socket accepts `n` bytes of the block at the head of the queue. */
    function Write(n: nat): Sender
      requires done < |blocks|
    {
      if offset + n < |blocks[done]| then Sender(blocks, done, offset + n) else Sender(blocks, done + 1, 0)
    }

    /** How much of the block at the head is left. */
    function Left(): nat
      requires done < |blocks| && offset <= |blocks[done]|
    {
      |blocks[done]| - offset
    }

    predicate CanWrite(n: nat) {
      done < |blocks| && offset + n <= |blocks[done]|
    }
  }

  /** Written and owed bytes always make up, in order, everything queued. */
  lemma SenderConserves(s: Sender)
    requires s.Valid()
    ensures s.Written() + s.Owed() == Flatten(s.blocks)
  {
    if s.done < |s.blocks| {
      var front, b, back := s.blocks[..s.done], s.blocks[s.done], s.blocks[s.done + 1..];
      assert s.blocks == (front + [b]) + back;
      FlattenConcat(front + [b], back);
      FlattenSnoc(front, b);
      assert b == b[..s.offset] + b[s.offset..];
      assert (Flatten(front) + b[..s.offset]) + (b[s.offset..] + Flatten(back)) == (Flatten(front) + b) + Flatten(back);
    } else {
      assert s.blocks[..s.done] == s.blocks;
    }
  }

  lemma EnqueueKeepsWritten(s: Sender, data: seq<Octet>)
    requires s.Valid()
    ensures s.Enqueue(data).Valid() && s.Enqueue(data).Written() == s.Written()
    ensures Flatten(s.Enqueue(data).blocks) == Flatten(s.blocks) + data
  {
    assert s.Enqueue(data).blocks[..s.done] == s.blocks[..s.done];
    FlattenSnoc(s.blocks, data);
  }

  /** A write appends to the accepted bytes exactly the next `n` bytes owed. */
  lemma WriteAppends(s: Sender, n: nat)
    requires s.Valid() && s.CanWrite(n)
    ensures s.Write(n).Valid()
    ensures n <= |s.Owed()| && s.Write(n).Written() == s.Written() + s.Owed()[..n]
  {
    var b, front := s.blocks[s.done], Flatten(s.blocks[..s.done]);
    assert s.Owed()[..n] == b[s.offset..s.offset + n];
    assert b[..s.offset] + b[s.offset..s.offset + n] == b[..s.offset + n];
    Assoc(front, b[..s.offset], b[s.offset..s.offset + n]);
    if s.offset + n == |b| {
      assert s.blocks[..s.done + 1] == s.blocks[..s.done] + [b];
      FlattenSnoc(s.blocks[..s.done], b);
      assert b[..s.offset + n] == b;
      if s.done + 1 < |s.blocks| {
        assert s.blocks[s.done + 1][..0] == [];
      }
    }
  }

  /** Those bytes are the next ones of the head block. */
  lemma WriteTakesHead(s: Sender, n: nat)
    requires s.Valid() && s.CanWrite(n)
    ensures s.Write(n).Valid() && s.Write(n).Written() == s.Written() + s.blocks[s.done][s.offset..s.offset + n]
  {
    WriteAppends(s, n);
    assert s.Owed()[..n] == s.blocks[s.done][s.offset..s.offset + n];
  }

  /** An event that also carries the message block to write. */
  class WriteBlock {
    const data: seq<Octet>
    var rd: nat
    var state: EventState

    constructor (data: seq<Octet>)
      ensures this.data == data && rd == 0 && state == Idle
    {
      this.data, rd, state := data, 0, Idle;
    }
  }

  ghost function Payloads(log: seq<WriteBlock>): seq<seq<Octet>> {
    seq(|log|, i requires 0 <= i < |log| => log[i].data)
  }

  class StreamOutput {
    var outputQueue: seq<WriteBlock>
    var sent: seq<Octet>         // bytes the peer's socket has accepted
    var closed: bool

    ghost var log: seq<WriteBlock>  // every block ever queued
    ghost var done: nat             // how many of them have left the queue written

    ghost predicate Distinct()
      reads this
    {
      forall i, j | 0 <= i < j < |log| :: log[i] != log[j]
    }

    ghost function Value(): Sender
      reads this, log
    {
      Sender(Payloads(log), done, if done < |log| then log[done].rd else 0)
    }

    /**
     * Blocks leave the queue in the order they came; exactly those that left written are in state Success; only
     * the head may be partly written; and the socket has accepted exactly the bytes this accounts for.
     */
    ghost predicate Valid()
      reads this, log
    {
      && Distinct()
      && done <= |log|
      && (!closed ==> outputQueue == log[done..])
      && (forall i | 0 <= i < |log| :: log[i].state == if i < done then Success else Idle)
      && (forall i | done < i < |log| :: log[i].rd == 0)
      && Value().Valid()
      && sent == Value().Written()
    }

    constructor ()
      ensures Valid() && !closed && log == [] && sent == [] && Value() == Sender([], 0, 0)
    {
      outputQueue, sent, closed, log, done := [], [], false, [], 0;
      new;
      assert Payloads([]) == [];
    }

    /** Queue a fresh block behind everything queued so far, unless the queue is full. */
    method QueueOutput(wb: WriteBlock, full: bool) returns (ret: int)
      requires Valid()
      requires wb !in log && wb.rd == 0 && wb.state == Idle
      modifies this`outputQueue, this`log
      ensures Valid() && ret == (if full then -1 else 0)
      ensures !full ==> log == old(log) + [wb] && Value() == old(Value()).Enqueue(wb.data)
      ensures outputQueue == old(outputQueue) + if full then [] else [wb]
      ensures full ==> log == old(log)
    {
      if full {
        return -1;
      }
      EnqueueKeepsWritten(Value(), wb.data);
      assert Payloads(log + [wb]) == Payloads(log) + [wb.data];
      assert (log + [wb])[done..] == log[done..] + [wb];
      outputQueue := outputQueue + [wb];
      log := log + [wb];
      return 0;
    }

    /**
     * The reactor's output callback. The socket accepts what it offers to take of the head, `offer`, or fails; the
     * head stays at the head while it has bytes left, if the queue is not `full`, and otherwise it leaves the queue in
     * state Success.
     */
    method HandleOutput(offer: Option<nat>, full: bool) returns (ret: int)
      requires Valid() && !closed
      modifies this, log
      ensures Valid() && log == old(log)
      ensures closed <==> ret == -1
      ensures ret == 0 || ret == -1
      ensures old(outputQueue) == [] || offer == None ==> Value() == old(Value())
      ensures old(outputQueue) == [] ==> ret == 0
      ensures old(outputQueue) != [] && offer == None ==> ret == -1
      ensures old(outputQueue) != [] && offer.Some? ==>
        var n := Min(offer.value, old(Value()).Left());
        && old(Value()).CanWrite(n) && Value() == old(Value()).Write(n)
        && (ret == -1 <==> full && n < old(Value()).Left())
    {
      if outputQueue == [] {
        return 0;
      }
      var wb := outputQueue[0];
      ghost var before := Value();
      assert wb == log[done] && before.blocks[done] == wb.data;
      outputQueue := outputQueue[1..];
      var count := SendSync(wb, offer);
      if count == -1 {
        return -1;
      }
      ghost var n: nat := count;
      assert Payloads(log) == before.blocks;
      WriteTakesHead(before, n);
      ret := Settle(wb, full, before, n);
    }

    /** After a write: push an unfinished head back, or take a finished one off for good. */
    method Settle(wb: WriteBlock, full: bool, ghost before: Sender, ghost n: nat) returns (ret: int)
      requires Distinct() && done < |log| && wb == log[done] && !closed && outputQueue == log[done + 1..]
      requires forall i | 0 <= i < |log| :: log[i].state == if i < done then Success else Idle
      requires forall i | done < i < |log| :: log[i].rd == 0
      requires before.blocks == Payloads(log) && before.done == done && before.CanWrite(n) && wb.rd == before.offset + n
      requires before.Write(n).Valid() && sent == before.Write(n).Written()
      modifies this`outputQueue, this`closed, this`done, wb`state
      ensures Valid() && (ret == 0 || ret == -1) && Value() == before.Write(n) && (ret == -1 <==> closed)
      ensures ret == -1 <==> full && n < before.Left()
    {
      if wb.rd < |wb.data| {
        assert Value() == before.Write(n);
        if full {
          closed := true;
          return -1;
        }
        outputQueue := [wb] + outputQueue;
      } else {
        wb.state := Success;
        done := done + 1;
        assert Value() == before.Write(n);
      }
      return 0;
    }

    /** Give the socket the rest of a block; it takes what it offers to, or fails and the channel closes. */
    method SendSync(wb: WriteBlock, offer: Option<nat>) returns (ret: int)
      requires wb.rd <= |wb.data|
      modifies this`sent, this`closed, wb`rd
      ensures ret == if offer == None then -1 else Min(offer.value, |wb.data| - old(wb.rd))
      ensures ret == -1 ==> closed && wb.rd == old(wb.rd) && sent == old(sent)
      ensures ret != -1 ==> 0 <= ret && closed == old(closed) && wb.rd == old(wb.rd) + ret <= |wb.data|
      ensures ret != -1 ==> sent == old(sent) + wb.data[old(wb.rd)..wb.rd]
    {
      if offer == None {
        closed := true;
        return -1;
      }
      var count := Min(offer.value, |wb.data| - wb.rd);
      sent := sent + wb.data[wb.rd..wb.rd + count];
      wb.rd := wb.rd + count;
      return count;
    }

    /** A block is in state Success only once its bytes and those of all earlier blocks are with the socket. */
    lemma SuccessMeansWritten(i: nat)
      requires Valid() && i < |log| && log[i].state == Success
      ensures Flatten(Payloads(log)[..i + 1]) <= sent
    {
      var ds := Payloads(log);
      assert ds[..done] == ds[..i + 1] + ds[i + 1..done];
      FlattenConcat(ds[..i + 1], ds[i + 1..done]);
    }
  }
}
