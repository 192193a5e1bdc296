/** Writing items into a stream, predicting their size, and the two ways a packet is turned into one block. */
module Marshalling {
  import opened Bytes
  import opened Codec
  import opened ByteOutputStreams

  /** The memory image of an array of wide characters, narrowed one by one. */
  method NarrowAll(h: Host, cs: seq<UInt>) returns (bytes: seq<Octet>)
    requires h.Valid()
    ensures bytes == WideBytesAll(h, cs)
  {
    bytes := [];
    for i := |cs| downto 0
      invariant bytes == WideBytesAll(h, cs[i..])
    {
      assert cs[i..][0] == cs[i] && cs[i..][1..] == cs[i + 1..];
      bytes := WideBytes(h, cs[i]) + bytes;
    }
  }

  /** Write a boolean array one octet at a time. */
  method WriteBools(os: ByteOutputStream, flags: seq<bool>)
    requires os.Valid()
    modifies os, os.current, os.OwnBuffer()
    ensures os.Valid() && (old(os.good) ==> os.good)
    ensures os.Contents() == old(os.Contents()) + BoolBytes(flags)
    ensures os.Moved(old(os.current), old(os.current.data), old(os.writable))
    ensures os.current != old(os.current) ==> fresh(os.current) && (os.writable ==> fresh(os.current.data))
    ensures old(os.Room(|flags|)) ==> os.chain == old(os.chain) && os.current.wr == old(os.current.wr) + |flags|
    ensures os.Behind() >= old(os.Behind())
    ensures flags != [] && !old(os.writable) ==> os.Behind() >= |old(os.Contents())|
    ensures flags == [] ==>
        os.chain == old(os.chain) && os.Behind() == old(os.Behind()) && os.current.wr == old(os.current.wr)
  {
    ghost var bytes := BoolBytes(flags);
    assert os.Contents() + bytes[..0] == os.Contents();
    for i := 0 to |flags|
      invariant os.Valid() && (old(os.good) ==> os.good)
      invariant os.Contents() == old(os.Contents()) + bytes[..i]
      invariant os.Moved(old(os.current), old(os.current.data), old(os.writable))
      invariant os.current != old(os.current) ==> fresh(os.current) && (os.writable ==> fresh(os.current.data))
      invariant old(os.Room(|flags|)) ==> os.chain == old(os.chain) && os.current.wr == old(os.current.wr) + i
      invariant os.Behind() >= old(os.Behind())
      invariant i == 0 ==> os.writable == old(os.writable) && os.chain == old(os.chain)
      invariant i == 0 ==> os.Behind() == old(os.Behind()) && os.current.wr == old(os.current.wr)
      invariant i > 0 && !old(os.writable) ==> os.Behind() >= |old(os.Contents())|
    {
      os.WriteArray([BoolByte(flags[i])]);
      assert bytes[..i + 1] == bytes[..i] + [BoolByte(flags[i])];
      Assoc(old(os.Contents()), bytes[..i], [BoolByte(flags[i])]);
    }
    assert bytes[..|flags|] == bytes;
  }

  /** Write two byte strings one behind the other: a length prefix or width octet, and what it announces. */
  method WriteTwo(os: ByteOutputStream, a: seq<Octet>, b: seq<Octet>)
    requires os.Valid()
    modifies os, os.current, os.OwnBuffer()
    ensures os.Valid() && (old(os.good) ==> os.good)
    ensures os.Contents() == old(os.Contents()) + (a + b)
    ensures os.Moved(old(os.current), old(os.current.data), old(os.writable))
    ensures os.current != old(os.current) ==> fresh(os.current) && (os.writable ==> fresh(os.current.data))
    ensures old(os.Room(|a| + |b|)) ==> os.chain == old(os.chain) && os.current.wr == old(os.current.wr) + |a| + |b|
    ensures os.Behind() >= old(os.Behind())
    ensures a != [] && !old(os.writable) ==> os.Behind() >= |old(os.Contents())|
  {
    os.WriteArray(a);
    os.WriteArray(b);
    Assoc(old(os.Contents()), a, b);
  }

  /** Write one item. The contents grow by exactly its encoding, in the same block if there is room for it. */
  method WriteItem(os: ByteOutputStream, h: Host, x: Item)
    requires os.Valid() && h.Valid() && Encodable(h, x)
    modifies os, os.current, os.OwnBuffer()
    ensures os.Valid() && (old(os.good) ==> os.good)
    ensures os.Contents() == old(os.Contents()) + Encode(h, x)
    ensures os.Moved(old(os.current), old(os.current.data), old(os.writable))
    ensures os.current != old(os.current) ==> fresh(os.current) && (os.writable ==> fresh(os.current.data))
    ensures old(os.Room(|Encode(h, x)|)) ==>
        os.chain == old(os.chain) && os.current.wr == old(os.current.wr) + |Encode(h, x)|
    ensures os.Behind() >= old(os.Behind())
    ensures Encode(h, x) != [] && !old(os.writable) ==> os.Behind() >= |old(os.Contents())|
    ensures Encode(h, x) == [] ==>
        os.chain == old(os.chain) && os.Behind() == old(os.Behind()) && os.current.wr == old(os.current.wr)
  {
    if x.Array? || x.Bools? || x.Wides? {
      WriteSequence(os, h, x);
    } else if x.Wide? || x.Text? || x.WideText? {
      WritePrefixed(os, h, x);
    } else {
      WriteScalar(os, h, x);
    }
  }

  method WriteScalar(os: ByteOutputStream, h: Host, x: Item)
    requires os.Valid() && h.Valid() && Encodable(h, x)
    requires x.OneByte? || x.Bool? || x.TwoBytes? || x.FourBytes? || x.SixteenBytes?
    modifies os, os.current, os.OwnBuffer()
    ensures os.Valid() && (old(os.good) ==> os.good)
    ensures os.Contents() == old(os.Contents()) + Encode(h, x)
    ensures os.Moved(old(os.current), old(os.current.data), old(os.writable))
    ensures os.current != old(os.current) ==> fresh(os.current) && (os.writable ==> fresh(os.current.data))
    ensures old(os.Room(|Encode(h, x)|)) ==>
        os.chain == old(os.chain) && os.current.wr == old(os.current.wr) + |Encode(h, x)|
    ensures os.Behind() >= old(os.Behind())
    ensures Encode(h, x) != [] && !old(os.writable) ==> os.Behind() >= |old(os.Contents())|
    ensures Encode(h, x) == [] ==>
        os.chain == old(os.chain) && os.Behind() == old(os.Behind()) && os.current.wr == old(os.current.wr)
  {
    match x
    case OneByte(octet) => os.WriteArray([octet]);
    case Bool(flag) => os.WriteArray([BoolByte(flag)]);
    case TwoBytes(short) => os.WriteArray(Bytes2(h, short));
    case FourBytes(long) => os.WriteArray(Bytes4(h, long));
    case SixteenBytes(image) => os.WriteArray(image);
  }

  /** A length or width, and what it announces. */
  method WritePrefixed(os: ByteOutputStream, h: Host, x: Item)
    requires os.Valid() && h.Valid() && Encodable(h, x) && (x.Wide? || x.Text? || x.WideText?)
    modifies os, os.current, os.OwnBuffer()
    ensures os.Valid() && (old(os.good) ==> os.good)
    ensures os.Contents() == old(os.Contents()) + Encode(h, x)
    ensures os.Moved(old(os.current), old(os.current.data), old(os.writable))
    ensures os.current != old(os.current) ==> fresh(os.current) && (os.writable ==> fresh(os.current.data))
    ensures old(os.Room(|Encode(h, x)|)) ==>
        os.chain == old(os.chain) && os.current.wr == old(os.current.wr) + |Encode(h, x)|
    ensures os.Behind() >= old(os.Behind())
    ensures Encode(h, x) != [] && !old(os.writable) ==> os.Behind() >= |old(os.Contents())|
    ensures Encode(h, x) == [] ==>
        os.chain == old(os.chain) && os.Behind() == old(os.Behind()) && os.current.wr == old(os.current.wr)
  {
    match x
    case Wide(wchar) => WriteTwo(os, [h.wcharBytes], WideBytes(h, wchar));
    case Text(text) => WriteTwo(os, Bytes4(h, |text| + 1), text + [0]);
    case WideText(wtext) =>
      var units := NarrowAll(h, wtext);
      WriteTwo(os, Bytes4(h, h.wcharBytes * |wtext|), units);
  }

  method WriteSequence(os: ByteOutputStream, h: Host, x: Item)
    requires os.Valid() && h.Valid() && Encodable(h, x) && (x.Array? || x.Bools? || x.Wides?)
    modifies os, os.current, os.OwnBuffer()
    ensures os.Valid() && (old(os.good) ==> os.good)
    ensures os.Contents() == old(os.Contents()) + Encode(h, x)
    ensures os.Moved(old(os.current), old(os.current.data), old(os.writable))
    ensures os.current != old(os.current) ==> fresh(os.current) && (os.writable ==> fresh(os.current.data))
    ensures old(os.Room(|Encode(h, x)|)) ==>
        os.chain == old(os.chain) && os.current.wr == old(os.current.wr) + |Encode(h, x)|
    ensures os.Behind() >= old(os.Behind())
    ensures Encode(h, x) != [] && !old(os.writable) ==> os.Behind() >= |old(os.Contents())|
    ensures Encode(h, x) == [] ==>
        os.chain == old(os.chain) && os.Behind() == old(os.Behind()) && os.current.wr == old(os.current.wr)
  {
    match x
    case Array(_, elements) => os.WriteArray(elements);
    case Bools(flags) => WriteBools(os, flags);
    case Wides(wchars) =>
      var units := NarrowAll(h, wchars);
      os.WriteArray(units);
  }

  // ----- Size prediction -----

  class StreamSize {
    var size: nat

    constructor ()
      ensures size == 0
    {
      size := 0;
    }

    method Adjust(n: nat)
      modifies this
      ensures size == old(size) + n
    {
      size := size + n;
    }

    /** Predict one item: exactly the length of its encoding is added. */
    method AddItem(h: Host, x: Item)
      requires h.Valid() && Encodable(h, x)
      modifies this
      ensures size == old(size) + |Encode(h, x)|
    {
      match x
      case OneByte(_) => Adjust(1);
      case Bool(_) => Adjust(1);
      case TwoBytes(_) => Adjust(2);
      case FourBytes(_) => Adjust(4);
      case SixteenBytes(_) => Adjust(16);
      case Wide(_) => Adjust(1); Adjust(h.wcharBytes);
      case Text(text) => Adjust(4); Adjust(|text| + 1);
      case WideText(wtext) => Adjust(4); Adjust(h.wcharBytes * |wtext|);
      case Array(_, elements) => Adjust(|elements|);
      case Bools(flags) => Adjust(|flags|);
      case Wides(wchars) => Adjust(h.wcharBytes * |wchars|);
    }

    /** Predict a chain of blocks: the length of the first block is added once for every link. */
    method AddBlocks(mb: Block, ghost source: seq<Block>, ghost pieces: seq<seq<Octet>>)
      requires IsChain(source, pieces) && source[0] == mb
      modifies this
      ensures size == old(size) + |source| * |pieces[0]|
      ensures |source| == 1 ==> size == old(size) + |Flatten(pieces)|
    {
      var block: Block? := mb;
      ghost var k := 0;
      while block != null
        invariant 0 <= k <= |source| && block == (if k < |source| then source[k] else null)
        invariant size == old(size) + k * |pieces[0]|
        decreases |source| - k
      {
        assert block == source[k] && mb == source[0];
        size := size + (mb.wr - mb.rd);
        assert (k + 1) * |pieces[0]| == k * |pieces[0]| + |pieces[0]|;
        block := block.cont;
        k := k + 1;
      }
      if |source| == 1 {
        assert pieces == [pieces[0]];
        FlattenOne(pieces[0]);
      }
    }
  }

  // ----- Whole packets -----

  /** A packet is serialised as a script of items and single caller blocks. */
  datatype Part = Field(item: Item) | Message(block: Block)

  ghost function BlocksOf(parts: seq<Part>): set<object> {
    set p | p in parts && p.Message? :: p.block
  }

  ghost function BuffersOf(parts: seq<Part>): set<object>
    reads BlocksOf(parts)
  {
    set p | p in parts && p.Message? :: p.block.data
  }

  /** `bytes` is what one part contributes to the packet. */
  ghost predicate PartIs(h: Host, part: Part, bytes: seq<Octet>)
    requires h.Valid()
    reads if part.Message? then {part.block, part.block.data} else {}
  {
    match part
    case Field(item) => Encodable(h, item) && bytes == Encode(h, item)
    case Message(block) => block.Ok() && block.cont == null && bytes == block.Live()
  }

  ghost predicate PartsAre(h: Host, parts: seq<Part>, bytes: seq<seq<Octet>>)
    requires h.Valid()
    reads BlocksOf(parts), BuffersOf(parts)
  {
    |parts| == |bytes| && forall i {:trigger parts[i]} | 0 <= i < |parts| :: PartIs(h, parts[i], bytes[i])
  }

  /** The part is not a large block that owns its data, so its bytes are copied as long as there is room. */
  ghost predicate Small(tradeoff: nat, part: Part, bytes: seq<Octet>) {
    part.Message? ==> part.block.dontDelete || |bytes| < tradeoff
  }

  ghost predicate AllSmall(tradeoff: nat, parts: seq<Part>, bytes: seq<seq<Octet>>)
    requires |parts| == |bytes|
  {
    forall i {:trigger parts[i]} | 0 <= i < |parts| :: Small(tradeoff, parts[i], bytes[i])
  }

  /** No caller block is empty; fields may be. */
  ghost predicate NoEmptyBlocks(parts: seq<Part>, bytes: seq<seq<Octet>>)
    requires |parts| == |bytes|
  {
    forall i {:trigger parts[i]} | 0 <= i < |parts| :: parts[i].Message? ==> bytes[i] != []
  }

  /** A large block is the only part with bytes. */
  ghost predicate LargeAlone(tradeoff: nat, parts: seq<Part>, bytes: seq<seq<Octet>>)
    requires |parts| == |bytes|
  {
    forall i {:trigger parts[i]} | 0 <= i < |parts| ::
      Small(tradeoff, parts[i], bytes[i]) || forall j {:trigger bytes[j]} | 0 <= j < |bytes| && j != i :: bytes[j] == []
  }

  /** The part is a caller block whose buffer has no room behind its bytes. */
  ghost predicate IsFull(part: Part)
    reads if part.Message? then {part.block} else {}
  {
    part.Message? && part.block.wr == part.block.data.Length
  }

  ghost predicate FullAre(parts: seq<Part>, full: seq<bool>)
    reads BlocksOf(parts)
  {
    |parts| == |full| && forall i {:trigger parts[i]} | 0 <= i < |parts| :: full[i] == IsFull(parts[i])
  }

  /** The part is an empty block that owns its data: it is skipped, or shared if the current block is full. */
  ghost predicate Hollow(part: Part, bytes: seq<Octet>) {
    part.Message? && !part.block.dontDelete && bytes == []
  }

  /** No large block is full. */
  ghost predicate LargeSpare(tradeoff: nat, parts: seq<Part>, bytes: seq<seq<Octet>>, full: seq<bool>)
    requires |parts| == |bytes| == |full|
  {
    forall i {:trigger parts[i]} | 0 <= i < |parts| :: Small(tradeoff, parts[i], bytes[i]) || !full[i]
  }

  /** No empty block that owns its data comes behind a large block that is full. */
  ghost predicate Uncovered(tradeoff: nat, parts: seq<Part>, bytes: seq<seq<Octet>>, full: seq<bool>)
    requires |parts| == |bytes| == |full|
  {
    forall i, j {:trigger parts[i], parts[j]} | 0 <= i < j < |parts| ::
      Small(tradeoff, parts[i], bytes[i]) || !full[i] || !Hollow(parts[j], bytes[j])
  }

  ghost predicate Apart(os: ByteOutputStream, part: Part)
    reads os, os.current, if part.Message? then {part.block} else {}
  {
    part.Message? ==> part.block != os.current && part.block.data !in os.OwnBuffer()
  }

  method WritePart(os: ByteOutputStream, h: Host, part: Part, ghost bytes: seq<Octet>, ghost full: bool)
    requires os.Valid() && h.Valid() && PartIs(h, part, bytes) && full == IsFull(part)
    requires Apart(os, part)
    modifies os, os.current, os.OwnBuffer()
    ensures os.Valid() && (old(os.good) ==> os.good)
    ensures os.Contents() == old(os.Contents()) + bytes
    ensures os.Moved(old(os.current), old(os.current.data), old(os.writable))
    ensures os.current != old(os.current) ==> fresh(os.current) && (os.writable ==> fresh(os.current.data))
    ensures Small(os.memcpyTradeoff, part, bytes) && old(os.Room(|bytes| + 1)) ==>
        os.chain == old(os.chain) && os.current.wr == old(os.current.wr) + |bytes|
    ensures !Small(os.memcpyTradeoff, part, bytes) ==> !os.writable && os.Behind() == |old(os.Contents())|
    ensures os.Behind() >= old(os.Behind())
    ensures bytes != [] && !old(os.writable) ==> os.Behind() >= |old(os.Contents())|
    ensures !Small(os.memcpyTradeoff, part, bytes) ==> (os.current.wr < os.current.data.Length <==> !full)
    ensures bytes == [] && Small(os.memcpyTradeoff, part, bytes) ==>
      if Hollow(part, bytes) && !old(os.current.wr < os.current.data.Length)
      then os.Behind() == |old(os.Contents())|
      else os.chain == old(os.chain) && os.Behind() == old(os.Behind()) && os.current.wr == old(os.current.wr)
  {
    match part
    case Field(item) => WriteItem(os, h, item);
    case Message(block) => os.WriteBlock(block);
  }

  /**
   * What is known after writing the first parts of a script into a fresh stream whose first block has room for
   * all of it: as long as every part is small they are all in the first block. Once a large block was spliced in,
   * the blocks before the current one hold nothing exactly while that block is the only part with bytes and has not
   * been covered by an empty one. With a threshold of zero, empty blocks are large, and are left aside.
   */
  ghost predicate Placed(os: ByteOutputStream, parts: seq<Part>, bytes: seq<seq<Octet>>, full: seq<bool>,
                         total: nat, capacity: nat)
    requires |parts| == |bytes| == |full| && os.pieces != []
    reads os, os.current
  {
    total < capacity ==>
      && (AllSmall(os.memcpyTradeoff, parts, bytes) ==>
            && os.chain == [os.start] && os.current == os.start && os.writable && os.Behind() == 0
            && os.current.wr == |Flatten(bytes)| && os.current.data.Length == capacity)
      && (!AllSmall(os.memcpyTradeoff, parts, bytes) && (os.memcpyTradeoff > 0 || NoEmptyBlocks(parts, bytes)) ==>
            && |Flatten(bytes)| > 0
            && if LargeAlone(os.memcpyTradeoff, parts, bytes) && Uncovered(os.memcpyTradeoff, parts, bytes, full)
               then && os.Behind() == 0 && !os.writable
                    && (os.current.wr < os.current.data.Length <==> LargeSpare(os.memcpyTradeoff, parts, bytes, full))
               else os.Behind() > 0)
  }

  lemma AllSmallSnoc(tradeoff: nat, done: seq<Part>, doneBytes: seq<seq<Octet>>, part: Part, bytes: seq<Octet>)
    requires |done| == |doneBytes|
    ensures AllSmall(tradeoff, done + [part], doneBytes + [bytes]) <==>
            AllSmall(tradeoff, done, doneBytes) && Small(tradeoff, part, bytes)
  {
    var parts, all, n := done + [part], doneBytes + [bytes], |done|;
    assert parts[n] == part && all[n] == bytes;
    assert forall i {:trigger parts[i]} {:trigger done[i]} | 0 <= i < n ::
        parts[i] == done[i] && all[i] == doneBytes[i];
  }

  lemma NoEmptyBlocksSnoc(done: seq<Part>, doneBytes: seq<seq<Octet>>, part: Part, bytes: seq<Octet>)
    requires |done| == |doneBytes|
    ensures NoEmptyBlocks(done + [part], doneBytes + [bytes]) <==>
            NoEmptyBlocks(done, doneBytes) && (part.Message? ==> bytes != [])
  {
    var parts, all, n := done + [part], doneBytes + [bytes], |done|;
    assert parts[n] == part && all[n] == bytes;
    assert forall i {:trigger parts[i]} {:trigger done[i]} | 0 <= i < n ::
        parts[i] == done[i] && all[i] == doneBytes[i];
  }

  lemma {:induction false} FlattenEmpty(pieces: seq<seq<Octet>>)
    ensures Flatten(pieces) == [] <==> forall i | 0 <= i < |pieces| :: pieces[i] == []
  {
    if pieces != [] {
      FlattenEmpty(pieces[1..]);
      assert forall i | 0 < i < |pieces| :: pieces[i] == pieces[1..][i - 1];
    }
  }

  /** One more part: a large one must find nothing in front of it, and behind one there must be nothing. */
  lemma LargeAloneSnoc(tradeoff: nat, done: seq<Part>, doneBytes: seq<seq<Octet>>, part: Part, bytes: seq<Octet>)
    requires |done| == |doneBytes|
    ensures LargeAlone(tradeoff, done + [part], doneBytes + [bytes]) <==>
      && LargeAlone(tradeoff, done, doneBytes)
      && (bytes == [] || AllSmall(tradeoff, done, doneBytes))
      && (Small(tradeoff, part, bytes) || Flatten(doneBytes) == [])
  {
    var parts, all, n := done + [part], doneBytes + [bytes], |done|;
    FlattenEmpty(doneBytes);
    assert parts[n] == part && all[n] == bytes;
    assert forall i {:trigger parts[i]} {:trigger done[i]} | 0 <= i < n :: parts[i] == done[i];
    assert forall i {:trigger all[i]} {:trigger doneBytes[i]} | 0 <= i < n :: all[i] == doneBytes[i];
  }

  lemma LargeSpareSnoc(tradeoff: nat, done: seq<Part>, doneBytes: seq<seq<Octet>>, doneFull: seq<bool>,
                       part: Part, bytes: seq<Octet>, full: bool)
    requires |done| == |doneBytes| == |doneFull|
    ensures LargeSpare(tradeoff, done + [part], doneBytes + [bytes], doneFull + [full]) <==>
            LargeSpare(tradeoff, done, doneBytes, doneFull) && (Small(tradeoff, part, bytes) || !full)
  {
    var parts, all, fulls, n := done + [part], doneBytes + [bytes], doneFull + [full], |done|;
    assert parts[n] == part && all[n] == bytes && fulls[n] == full;
    assert forall i {:trigger parts[i]} {:trigger done[i]} | 0 <= i < n ::
        parts[i] == done[i] && all[i] == doneBytes[i] && fulls[i] == doneFull[i];
  }

  lemma UncoveredSnoc(tradeoff: nat, done: seq<Part>, doneBytes: seq<seq<Octet>>, doneFull: seq<bool>,
                      part: Part, bytes: seq<Octet>, full: bool)
    requires |done| == |doneBytes| == |doneFull|
    ensures Uncovered(tradeoff, done + [part], doneBytes + [bytes], doneFull + [full]) <==>
            Uncovered(tradeoff, done, doneBytes, doneFull)
            && (Hollow(part, bytes) ==> LargeSpare(tradeoff, done, doneBytes, doneFull))
  {
    var parts, all, fulls, n := done + [part], doneBytes + [bytes], doneFull + [full], |done|;
    assert parts[n] == part && all[n] == bytes && fulls[n] == full;
    assert forall i {:trigger parts[i]} {:trigger done[i]} | 0 <= i < n ::
        parts[i] == done[i] && all[i] == doneBytes[i] && fulls[i] == doneFull[i];
  }

  lemma SpareWhenSmall(tradeoff: nat, parts: seq<Part>, bytes: seq<seq<Octet>>, full: seq<bool>)
    requires |parts| == |bytes| == |full| && AllSmall(tradeoff, parts, bytes)
    ensures LargeSpare(tradeoff, parts, bytes, full) && Uncovered(tradeoff, parts, bytes, full)
  {
  }

  /** Write the next part of a script. */
  method WriteNext(os: ByteOutputStream, h: Host, ghost done: seq<Part>, ghost doneBytes: seq<seq<Octet>>,
                   ghost doneFull: seq<bool>, part: Part, ghost bytes: seq<Octet>, ghost full: bool,
                   ghost total: nat, ghost capacity: nat)
    requires os.Valid() && h.Valid() && PartIs(h, part, bytes) && Apart(os, part) && full == IsFull(part)
    requires |done| == |doneBytes| == |doneFull| && os.Contents() == Flatten(doneBytes)
    requires |Flatten(doneBytes)| + |bytes| <= total
    requires Placed(os, done, doneBytes, doneFull, total, capacity)
    modifies os, os.current, os.OwnBuffer()
    ensures os.Valid() && os.Contents() == Flatten(doneBytes + [bytes])
    ensures Placed(os, done + [part], doneBytes + [bytes], doneFull + [full], total, capacity)
    ensures os.Moved(old(os.current), old(os.current.data), old(os.writable))
    ensures os.current != old(os.current) ==> fresh(os.current) && (os.writable ==> fresh(os.current.data))
  {
    FlattenSnoc(doneBytes, bytes);
    AllSmallSnoc(os.memcpyTradeoff, done, doneBytes, part, bytes);
    NoEmptyBlocksSnoc(done, doneBytes, part, bytes);
    LargeAloneSnoc(os.memcpyTradeoff, done, doneBytes, part, bytes);
    LargeSpareSnoc(os.memcpyTradeoff, done, doneBytes, doneFull, part, bytes, full);
    UncoveredSnoc(os.memcpyTradeoff, done, doneBytes, doneFull, part, bytes, full);
    if AllSmall(os.memcpyTradeoff, done, doneBytes) {
      SpareWhenSmall(os.memcpyTradeoff, done, doneBytes, doneFull);
    }
    WritePart(os, h, part, bytes, full);
  }

  /** The first i parts of a script have been written, and none of its blocks has been modified. */
  ghost predicate Written(os: ByteOutputStream, h: Host, parts: seq<Part>, bytes: seq<seq<Octet>>, full: seq<bool>,
                          i: nat, capacity: nat)
    requires h.Valid() && i <= |parts| && os.pieces != []
    reads os, os.current, BlocksOf(parts), BuffersOf(parts)
  {
    && PartsAre(h, parts, bytes) && FullAre(parts, full) && os.Contents() == Flatten(bytes[..i])
    && Placed(os, parts[..i], bytes[..i], full[..i], |Flatten(bytes)|, capacity)
  }

  /** Write part i of a script whose first i parts have been written. */
  method WriteAt(os: ByteOutputStream, h: Host, parts: seq<Part>, ghost bytes: seq<seq<Octet>>, i: nat,
                 ghost full: seq<bool>, ghost capacity: nat)
    requires os.Valid() && h.Valid() && i < |parts| && Written(os, h, parts, bytes, full, i, capacity)
    requires forall j {:trigger parts[j]} | 0 <= j < |parts| :: Apart(os, parts[j])
    modifies os, os.current, os.OwnBuffer()
    ensures os.Valid() && Written(os, h, parts, bytes, full, i + 1, capacity)
    ensures os.Moved(old(os.current), old(os.current.data), old(os.writable))
    ensures os.current != old(os.current) ==> fresh(os.current) && (os.writable ==> fresh(os.current.data))
  {
    FlattenTake(bytes, i);
    Longer(parts, i);
    Longer(bytes, i);
    Longer(full, i);
    WriteNext(os, h, parts[..i], bytes[..i], full[..i], parts[i], bytes[i], full[i], |Flatten(bytes)|, capacity);
  }

  /** Write a whole script into a fresh stream. What callers handed over is appended in order and left unmodified. */
  method WriteParts(os: ByteOutputStream, h: Host, parts: seq<Part>, ghost bytes: seq<seq<Octet>>,
                    ghost full: seq<bool>)
    requires os.Valid() && h.Valid() && PartsAre(h, parts, bytes) && FullAre(parts, full)
    requires os.chain == [os.start] && os.writable && os.start.wr == 0 && os.Contents() == []
    requires forall i {:trigger parts[i]} | 0 <= i < |parts| :: Apart(os, parts[i])
    modifies os, os.current, os.OwnBuffer()
    ensures os.Valid() && os.Contents() == Flatten(bytes) && PartsAre(h, parts, bytes)
    ensures Placed(os, parts, bytes, full, |Flatten(bytes)|, old(os.start.data.Length))
  {
    ghost var capacity := os.start.data.Length;
    TakeAll(parts);
    TakeAll(bytes);
    TakeAll(full);
    for i := 0 to |parts|
      invariant os.Valid() && Written(os, h, parts, bytes, full, i, capacity)
      invariant os.Moved(old(os.current), old(os.current.data), old(os.writable))
      invariant os.current != old(os.current) ==> fresh(os.current) && (os.writable ==> fresh(os.current.data))
    {
      WriteAt(os, h, parts, bytes, i, full, capacity);
    }
  }

  /** Which parts are full, at the start. */
  ghost function FullOnes(parts: seq<Part>): (full: seq<bool>)
    reads BlocksOf(parts)
    ensures FullAre(parts, full)
  {
    seq(|parts|, i requires 0 <= i < |parts| reads BlocksOf(parts) => IsFull(parts[i]))
  }

  /** The stream path: serialise into a growing chain, consolidate from its first block. Always the whole packet. */
  method SerializePacket(h: Host, g: Growth, tradeoff: nat, parts: seq<Part>,
                         ghost bytes: seq<seq<Octet>>)
    returns (mb: Block)
    requires h.Valid() && g.Valid() && PartsAre(h, parts, bytes)
    ensures fresh(mb) && mb.Ok() && mb.Live() == Flatten(bytes) && PartsAre(h, parts, bytes)
  {
    ghost var full := FullOnes(parts);
    var os := new ByteOutputStream(0, tradeoff, g);
    WriteParts(os, h, parts, bytes, full);
    mb := Consolidate(g, os.start, os.chain, os.pieces);
  }

  /** The predicted size of a script is exactly the number of bytes it writes. */
  method PredictSize(h: Host, parts: seq<Part>, ghost bytes: seq<seq<Octet>>) returns (size: nat)
    requires h.Valid() && PartsAre(h, parts, bytes)
    ensures size == |Flatten(bytes)|
  {
    var ss := new StreamSize();
    for i := 0 to |parts|
      invariant ss.size == |Flatten(bytes[..i])|
    {
      FlattenTake(bytes, i);
      match parts[i]
      case Field(item) => ss.AddItem(h, item);
      case Message(block) =>
        FlattenOne(bytes[i]);
        ss.AddBlocks(block, [block], [bytes[i]]);
    }
    assert bytes[..|parts|] == bytes;
    size := ss.size;
  }

  /**
   * The datagram path: presize the stream, serialise, and consolidate from the current block. The whole packet
   * is sent when every part is small; and exactly when every large block is the only part with bytes and, if it is
   * full, has no empty block that owns its data behind it. With a threshold of zero, empty blocks are left aside.
   */
  method SerializeDatagram(h: Host, g: Growth, tradeoff: nat, parts: seq<Part>,
                           ghost bytes: seq<seq<Octet>>)
    returns (mb: Block)
    requires h.Valid() && g.Valid() && PartsAre(h, parts, bytes)
    ensures fresh(mb) && mb.Ok() && PartsAre(h, parts, bytes)
    ensures AllSmall(tradeoff, parts, bytes) ==> mb.Live() == Flatten(bytes)
    ensures tradeoff > 0 || NoEmptyBlocks(parts, bytes) ==>
      (mb.Live() == Flatten(bytes) <==>
        LargeAlone(tradeoff, parts, bytes) && Uncovered(tradeoff, parts, bytes, old(FullOnes(parts))))
  {
    ghost var full := FullOnes(parts);
    var size := PredictSize(h, parts, bytes);
    var os := new ByteOutputStream(size, tradeoff, g);
    WriteParts(os, h, parts, bytes, full);
    mb := ConsolidateLast(g, os);
  }

  /** Consolidate from the current block: everything if the blocks before it are empty. */
  method ConsolidateLast(g: Growth, os: ByteOutputStream) returns (mb: Block)
    requires g.Valid() && os.Valid()
    ensures fresh(mb) && mb.Ok() && (mb.Live() == os.Contents() <==> os.Behind() == 0)
  {
    ghost var last := os.pieces[|os.pieces| - 1];
    LastIsAll(os.pieces);
    FlattenOne(last);
    mb := Consolidate(g, os.current, [os.current], [last]);
  }
}
