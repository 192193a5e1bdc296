/**
 * Marshalling into a chain of message blocks: buffer growth, in-place appends, splicing of caller blocks, and
 * the flat byte string the chain stands for.
 */
module ByteOutputStreams {
  import opened Bytes

  const MAX_ALIGNMENT: nat := 8

  // ----- Buffer sizes -----

  /** The constants of the growth policy: exponential up to `expMax`, then linear by `chunk`. */
  datatype Growth = Growth(bufsize: nat, expMax: nat, chunk: nat) {
    ghost predicate Valid() {
      bufsize > 0 && chunk > 0
    }

    /** The next buffer size after `n`. */
    function Step(n: nat): nat {
      if n < expMax then 2 * n else n + chunk
    }

    /** The ladder of buffer sizes. */
    ghost function Rung(k: nat): nat {
      if k == 0 then bufsize else Step(Rung(k - 1))
    }
  }

  /** `n` is the smallest buffer size that is at least `least`. */
  ghost predicate SmallestRung(g: Growth, n: nat, least: nat) {
    n >= least && exists k: nat :: n == g.Rung(k) && (k > 0 ==> g.Rung(k - 1) < least)
  }

  /** The smallest buffer size that can hold `minsize` bytes. */
  method FirstSize(g: Growth, minsize: nat) returns (newsize: nat)
    requires g.Valid()
    ensures SmallestRung(g, newsize, minsize)
  {
    newsize := g.bufsize;
    if minsize == 0 {
      assert newsize == g.Rung(0);
      return;
    }
    ghost var k: nat := 0;
    while newsize < minsize
      invariant newsize == g.Rung(k) && newsize > 0 && (k > 0 ==> g.Rung(k - 1) < minsize)
      decreases minsize - newsize
    {
      newsize := if newsize < g.expMax then 2 * newsize else newsize + g.chunk;
      k := k + 1;
    }
  }

  /** The smallest buffer size strictly larger than `minsize`. */
  method NextSize(g: Growth, minsize: nat) returns (newsize: nat)
    requires g.Valid()
    ensures SmallestRung(g, newsize, minsize + 1)
  {
    newsize := FirstSize(g, minsize);
    ghost var k: nat :| newsize == g.Rung(k) && (k > 0 ==> g.Rung(k - 1) < minsize);
    RungPositive(g, k);
    if newsize == minsize {
      newsize := if newsize < g.expMax then 2 * newsize else newsize + g.chunk;
      assert newsize == g.Rung(k + 1);
    }
  }

  lemma RungPositive(g: Growth, k: nat)
    requires g.Valid()
    ensures g.Rung(k) > 0
  {
  }

  function PowerOfTwo(k: nat): nat {
    if k == 0 then 1 else 2 * PowerOfTwo(k - 1)
  }

  /** Below the limit of exponential growth the sizes double. */
  lemma {:induction false} LadderDoubles(g: Growth, k: nat)
    requires forall j: nat | j < k :: g.Rung(j) < g.expMax
    ensures g.Rung(k) == g.bufsize * PowerOfTwo(k)
  {
    if k > 0 {
      LadderDoubles(g, k - 1);
    }
  }

  lemma OneMoreTime(j: nat, n: nat)
    requires j > 0
    ensures j * n == (j - 1) * n + n && (j - 1) * n >= 0
  {
  }

  /** From the limit on they grow by one chunk at a time. */
  lemma {:induction false} LadderClimbs(g: Growth, k: nat, j: nat)
    requires g.Rung(k) >= g.expMax
    ensures g.Rung(k + j) == g.Rung(k) + j * g.chunk
  {
    if j > 0 {
      LadderClimbs(g, k, j - 1);
      OneMoreTime(j, g.chunk);
      assert g.Rung(k + j) == g.Step(g.Rung(k + j - 1));
    }
  }

  lemma {:induction false} LadderRises(g: Growth, k: nat, j: nat)
    requires g.Valid() && k <= j
    ensures g.Rung(k) <= g.Rung(j)
    decreases j
  {
    if k < j {
      LadderRises(g, k, j - 1);
    }
  }

  /** No other buffer size that is large enough is smaller. */
  lemma SmallestIsLeast(g: Growth, n: nat, least: nat, j: nat)
    requires g.Valid() && SmallestRung(g, n, least) && g.Rung(j) >= least
    ensures n <= g.Rung(j)
  {
    var k: nat :| n == g.Rung(k) && (k > 0 ==> g.Rung(k - 1) < least);
    if j < k {
      LadderRises(g, j, k - 1);
    } else {
      LadderRises(g, k, j);
    }
  }

  // ----- Message blocks -----

  class Block {
    var data: array<Octet>
    var rd: nat
    var wr: nat
    var cont: Block?
    const dontDelete: bool   // the block does not own its data

    constructor (data: array<Octet>, rd: nat, wr: nat, dontDelete: bool)
      ensures this.data == data && this.rd == rd && this.wr == wr && cont == null && this.dontDelete == dontDelete
    {
      this.data, this.rd, this.wr, cont, this.dontDelete := data, rd, wr, null, dontDelete;
    }

    ghost predicate Ok()
      reads this
    {
      rd <= wr <= data.Length
    }

    ghost function Live(): seq<Octet>
      requires Ok()
      reads this, data
    {
      data[rd..wr]
    }
  }

  ghost function ChainBuffers(chain: seq<Block>): set<array<Octet>>
    reads chain
  {
    set b | b in chain :: b.data
  }

  /** `chain` lists the blocks reachable from its first one, in order, and `pieces` their live bytes. */
  ghost predicate IsChain(chain: seq<Block>, pieces: seq<seq<Octet>>)
    reads chain, ChainBuffers(chain)
  {
    && |chain| == |pieces| > 0
    && (forall i {:trigger chain[i].cont} | 0 <= i < |chain| - 1 :: chain[i].cont == chain[i + 1])
    && chain[|chain| - 1].cont == null
    && (forall i {:trigger chain[i]} | 0 <= i < |chain| :: chain[i].Ok() && chain[i].Live() == pieces[i])
  }

  method EmptyBlock(size: nat) returns (block: Block)
    ensures fresh(block) && fresh(block.data) && block.data.Length == size && block.cont == null &&
        block.rd == block.wr == 0
  {
    var data := new Octet[size];
    block := new Block(data, 0, 0, false);
  }

  class ByteOutputStream {
    const growth: Growth
    const memcpyTradeoff: nat
    const start: Block
    var current: Block
    var writable: bool        // current_is_writable_
    var good: bool

    ghost var chain: seq<Block>
    ghost var pieces: seq<seq<Octet>>

    /** The one buffer the stream may write into: the current block's, unless it was spliced in by the caller. */
    ghost function OwnBuffer(): set<object>
      reads this, current
    {
      if writable then {current.data} else {}
    }

    /** The current block is the last link, and no other block of the chain shares a buffer it may write. */
    ghost predicate Valid()
      reads this, chain, ChainBuffers(chain), current
    {
      && growth.Valid()
      && IsChain(chain, pieces)
      && chain[0] == start && chain[|chain| - 1] == current
      && (forall i {:trigger chain[i]} | 0 <= i < |chain| - 1 ::
            chain[i] != current && (writable ==> chain[i].data != current.data))
    }

    /** The flat byte string the chain stands for. */
    ghost function Contents(): seq<Octet>
      reads this
    {
      Flatten(pieces)
    }

    /** How many bytes lie in blocks before the current one. */
    ghost function Behind(): nat
      requires pieces != []
      reads this
    {
      |Flatten(pieces[..|pieces| - 1])|
    }

    constructor (size: nat, tradeoff: nat, g: Growth)
      requires g.Valid()
      ensures Valid() && writable && good && chain == [start] && Contents() == []
      ensures fresh(start) && fresh(start.data) &&
          start.data.Length == (if size != 0 then size else g.bufsize) + MAX_ALIGNMENT
      ensures start.wr == 0 && memcpyTradeoff == tradeoff && growth == g
    {
      var capacity := (if size != 0 then size else g.bufsize) + MAX_ALIGNMENT;
      var data := new Octet[capacity];
      var first := new Block(data, 0, 0, false);
      start, current, writable, good := first, first, true, true;
      growth, memcpyTradeoff := g, tradeoff;
      chain, pieces := [first], [[]];
      new;
      FlattenOne<Octet>([]);
    }

    /**
     * Reserve `size` bytes at the end of the current block, moving on to a new block when they do not fit. The
     * reserved bytes are the last `size` of the contents, behind everything written before.
     */
    method Adjust(size: nat) returns (at: nat)
      requires Valid()
      modifies this`current, this`writable, this`good, this`chain, this`pieces, current`wr, current`cont
      ensures Reserved(size, at, old(chain), old(Contents()), old(Room(size)))
      ensures old(good) ==> good
      ensures current != old(current) ==> fresh(current) && fresh(current.data)
      ensures old(chain) <= chain && forall b | b in old(chain) :: b.data == old(b.data) && b.rd == old(b.rd)
      ensures current == old(current) ==> old(writable) && current.data == old(current.data)
      ensures old(Room(size)) ==> at == old(current.wr)
      ensures Behind() == if old(Room(size)) then old(Behind()) else |old(Contents())|
      ensures |chain| == |old(chain)| + if old(Room(size)) then 0 else 1
      ensures !old(Room(size)) ==> SmallestRung(growth, current.data.Length, Max(size, old(current.data.Length)) + 1)
      decreases if Room(size) then 0 else 2
    {
      if !writable {
        at := GrowAndAdjust(size);
        return;
      }
      at := current.wr;
      if at + size <= current.data.Length {
        ghost var last := |chain| - 1;
        FlattenLast(pieces);
        current.wr := at + size;
        pieces := pieces[last := current.Live()];
        return;
      }
      at := GrowAndAdjust(size);
    }

    /** The current block is the stream's own and has `size` bytes free. */
    ghost predicate Room(size: nat)
      reads this, current
    {
      writable && current.wr + size <= current.data.Length
    }

    ghost predicate Reserved(size: nat, at: nat, before: seq<Block>, contents: seq<Octet>, roomy: bool)
      reads this, chain, ChainBuffers(chain), current
    {
      && Valid() && writable
      && at + size == current.wr && current.rd <= at
      && Flatten(pieces[..|pieces| - 1]) + current.data[current.rd..at] == contents
      && (roomy ==> chain == before)
    }

    method GrowAndAdjust(size: nat) returns (at: nat)
      requires Valid()
      modifies this`current, this`writable, this`good, this`chain, this`pieces, current`cont
      ensures Reserved(size, at, old(chain), old(Contents()), false)
      ensures fresh(current) && fresh(current.data) && good && |chain| == |old(chain)| + 1
      ensures SmallestRung(growth, current.data.Length, Max(size, old(current.data.Length)) + 1)
      ensures old(chain) < chain && forall b | b in old(chain) :: b.data == old(b.data) && b.rd == old(b.rd)
      ensures Behind() == |old(Contents())|
      decreases 1
    {
      Grow(size);
      at := Adjust(size);
    }

    /**
     * Append a new, empty block of the stream's own: of the smallest size above both the bytes wanted and the size of
     * the block so far.
     */
    method Grow(size: nat)
      requires Valid()
      modifies this`current, this`writable, this`good, this`chain, this`pieces, current`cont
      ensures Valid() && writable && good
      ensures SmallestRung(growth, current.data.Length, Max(size, old(current.data.Length)) + 1)
      ensures fresh(current) && fresh(current.data) && current.rd == current.wr == 0 && size <= current.data.Length
      ensures chain == old(chain) + [current] && Contents() == old(Contents()) && Behind() == |old(Contents())|
    {
      var minsize := size;
      if minsize < current.data.Length {
        minsize := current.data.Length;
      }
      var newsize := NextSize(growth, minsize);
      good := false;
      var tmp := EmptyBlock(newsize);
      good := true;
      Link(tmp, true);
      assert Contents() == old(Contents()) + [];
      assert pieces[..|pieces| - 1] == old(pieces);
    }

    /** Make `next` the new last link. `own` says whether its buffer is the stream's to write. */
    method Link(next: Block, own: bool)
      requires Valid() && next !in chain && next.cont == null && next.Ok()
      requires own ==> forall i | 0 <= i < |chain| :: chain[i].data != next.data
      modifies this`current, this`writable, this`chain, this`pieces, current`cont
      ensures Valid() && current == next && writable == own
      ensures chain == old(chain) + [next] && pieces == old(pieces) + [next.Live()]
      ensures Contents() == old(Contents()) + next.Live()
    {
      FlattenSnoc(pieces, next.Live());
      current.cont := next;
      ghost var n := |chain|;
      chain := chain + [next];
      pieces := pieces + [next.Live()];
      current := next;
      writable := own;
      assert forall i | 0 <= i < n :: chain[i] == old(chain)[i] && pieces[i] == old(pieces)[i];
    }

    /** Append bytes: reserve room for them, then copy them in. Every scalar and array write comes down to this. */
    method WriteArray(bytes: seq<Octet>)
      requires Valid()
      modifies this`current, this`writable, this`good, this`chain, this`pieces, current`wr, current`cont, OwnBuffer()
      ensures Valid() && (old(good) ==> good)
      ensures Contents() == old(Contents()) + bytes
      ensures old(Room(|bytes|)) ==> chain == old(chain) && current.wr == old(current.wr) + |bytes|
      ensures bytes == [] ==> chain == old(chain) && Behind() == old(Behind()) && current.wr == old(current.wr)
      ensures Behind() >= old(Behind())
      ensures bytes != [] && !old(writable) ==> Behind() >= |old(Contents())|
      ensures Moved(old(current), old(current.data), old(writable))
      ensures current != old(current) ==> fresh(current) && fresh(current.data)
    {
      if |bytes| == 0 {
        assert Contents() + [] == Contents();
        return;
      }
      FlattenLast(pieces);
      var at := Adjust(|bytes|);
      Fill(at, bytes, old(Contents()));
    }

    /** Copy bytes into the room reserved for them. */
    method Fill(at: nat, bytes: seq<Octet>, ghost before: seq<Octet>)
      requires Reserved(|bytes|, at, chain, before, false)
      modifies this`pieces, current.data
      ensures Valid() && Contents() == before + bytes && Behind() == old(Behind())
    {
      ghost var last := |chain| - 1;
      ghost var front, kept := Flatten(pieces[..last]), current.data[current.rd..at];
      Copy(current.data, at, bytes);
      assert current.data[current.rd..at] == kept by {
        assert current.data[..at][current.rd..] == current.data[current.rd..at];
      }
      assert current.Live() == kept + bytes;
      pieces := pieces[last := current.Live()];
      assert pieces[..last] == old(pieces)[..last];
      FlattenLast(pieces);
      Assoc(front, kept, bytes);
    }

    /** The current block is the old one, as it was, or a new one. */
    ghost predicate Moved(block: Block, buffer: array<Octet>, wasWritable: bool)
      reads this, current
    {
      current == block ==> current.data == buffer && writable == wasWritable
    }

    /** Whether appending a caller's block copies its bytes rather than splicing the block in. */
    ghost predicate Copies(block: Block)
      requires block.Ok()
      reads this, current, block
    {
      || block.dontDelete
      || (block.wr - block.rd < memcpyTradeoff && current.wr + (block.wr - block.rd) < current.data.Length)
    }

    /** Append one block of the caller's: copy it when it is small or not owned, otherwise share its buffer. */
    method WriteBlock(block: Block)
      requires Valid() && block.Ok() && block != current && block.data !in OwnBuffer()
      modifies this`current, this`writable, this`good, this`chain, this`pieces, current`wr, current`cont, OwnBuffer()
      ensures Valid() && (old(good) ==> good)
      ensures Contents() == old(Contents()) + old(block.Live())
      ensures old(Copies(block) && Room(block.wr - block.rd)) ==>
          chain == old(chain) && current.wr == old(current.wr + (block.wr - block.rd))
      ensures old(!Copies(block)) ==> chain == old(chain) + [current] && !writable && Behind() == |old(Contents())|
      ensures old(!Copies(block)) ==> current.wr == old(block.wr) && current.data == old(block.data)
      ensures old(Copies(block) && block.Live() == []) ==>
          chain == old(chain) && Behind() == old(Behind()) && current.wr == old(current.wr)
      ensures Behind() >= old(Behind())
      ensures old(block.Live()) != [] && !old(writable) ==> Behind() >= |old(Contents())|
      ensures Moved(old(current), old(current.data), old(writable))
      ensures current != old(current) ==> fresh(current) && (writable ==> fresh(current.data))
    {
      var length := block.wr - block.rd;
      if block.dontDelete {
        WriteArray(block.data[block.rd..block.wr]);
        return;
      }
      if length < memcpyTradeoff && current.wr + length < current.data.Length {
        WriteArray(block.data[block.rd..block.wr]);
        return;
      }
      Share(block);
    }

    /** Splice in a duplicate of the caller's block, sharing its buffer. */
    method Share(block: Block)
      requires Valid() && block.Ok() && block != current
      modifies this`current, this`writable, this`good, this`chain, this`pieces, current`cont
      ensures Valid() && good && !writable && fresh(current)
      ensures current.rd == block.rd && current.wr == block.wr && current.data == block.data
      ensures Contents() == old(Contents()) + old(block.Live())
      ensures chain == old(chain) + [current] && Behind() == |old(Contents())| && Behind() >= old(Behind())
    {
      good := false;
      var shared := new Block(block.data, block.rd, block.wr, false);
      good := true;
      FlattenLast(pieces);
      Link(shared, false);
      assert pieces[..|pieces| - 1] == old(pieces);
    }

    /** Append one block of a caller's chain, which stays intact. */
    method WriteLink(block: Block, ghost k: nat, ghost source: seq<Block>, ghost sourcePieces: seq<seq<Octet>>)
      requires Valid() && IsChain(source, sourcePieces) && k < |source| && source[k] == block
      requires forall i {:trigger source[i]} | 0 <= i < |source| ::
        source[i] != current && source[i].data !in OwnBuffer()
      modifies this`current, this`writable, this`good, this`chain, this`pieces, current`wr, current`cont, OwnBuffer()
      ensures Valid() && (old(good) ==> good) && IsChain(source, sourcePieces)
      ensures Contents() == old(Contents()) + sourcePieces[k]
      ensures Moved(old(current), old(current.data), old(writable))
      ensures current != old(current) ==> fresh(current) && (writable ==> fresh(current.data))
    {
      WriteBlock(block);
    }

    /**
     * Append every block of a caller's chain. The contents grow by the chain's bytes, and neither the caller's
     * blocks nor their buffers are modified.
     */
    method WriteOctetArrayMb(mb: Block, ghost source: seq<Block>, ghost sourcePieces: seq<seq<Octet>>)
      requires Valid() && IsChain(source, sourcePieces) && source[0] == mb
      requires forall i | 0 <= i < |source| :: source[i] != current && source[i].data !in OwnBuffer()
      modifies this`current, this`writable, this`good, this`chain, this`pieces, current`wr, current`cont, OwnBuffer()
      ensures Valid() && (old(good) ==> good)
      ensures Contents() == old(Contents()) + Flatten(sourcePieces)
      ensures IsChain(source, sourcePieces)
      ensures Moved(old(current), old(current.data), old(writable))
      ensures current != old(current) ==> fresh(current) && (writable ==> fresh(current.data))
    {
      var block: Block? := mb;
      ghost var k := 0;
      assert sourcePieces[..0] == [];
      assert Contents() + [] == Contents();
      while block != null
        invariant 0 <= k <= |source| && block == (if k < |source| then source[k] else null)
        invariant Valid() && (old(good) ==> good)
        invariant Moved(old(current), old(current.data), old(writable))
        invariant current != old(current) ==> fresh(current) && (writable ==> fresh(current.data))
        invariant IsChain(source, sourcePieces)
        invariant Contents() == old(Contents()) + Flatten(sourcePieces[..k])
        decreases |source| - k
      {
        WriteLink(block, k, source, sourcePieces);
        FlattenTake(sourcePieces, k);
        Assoc(old(Contents()), Flatten(sourcePieces[..k]), sourcePieces[k]);
        block := block.cont;
        k := k + 1;
      }
      assert sourcePieces[..k] == sourcePieces;
    }

    /** Start over in the first block, letting go of all the others. */
    method Reset()
      requires Valid()
      modifies this`current, this`writable, this`chain, this`pieces, start
      ensures Valid() && writable && chain == [start] && Contents() == [] && start.data == old(start.data)
    {
      current, writable := start, true;
      start.rd, start.wr := 0, 0;
      start.cont := null;
      chain, pieces := [start], [[]];
      FlattenOne<Octet>([]);
    }
  }

  /** The number of live bytes in a chain. */
  method TotalLength(begin: Block, ghost chain: seq<Block>, ghost pieces: seq<seq<Octet>>) returns (length: nat)
    requires IsChain(chain, pieces) && chain[0] == begin
    ensures length == |Flatten(pieces)|
  {
    length := 0;
    var block: Block? := begin;
    ghost var k := 0;
    while block != null
      invariant 0 <= k <= |chain| && block == (if k < |chain| then chain[k] else null)
      invariant length == |Flatten(pieces[..k])|
      decreases |chain| - k
    {
      assert block == chain[k];
      length := length + (block.wr - block.rd);
      FlattenTake(pieces, k);
      block := block.cont;
      k := k + 1;
    }
    assert pieces[..k] == pieces;
  }

  /** A single block holding a chain's bytes, followed by zeros up to its capacity. */
  method Consolidate(g: Growth, src: Block, ghost chain: seq<Block>, ghost pieces: seq<seq<Octet>>) returns (dst: Block)
    requires g.Valid() && IsChain(chain, pieces) && chain[0] == src
    ensures fresh(dst) && fresh(dst.data) && dst.cont == null && dst.rd == 0 && dst.Ok() &&
        dst.Live() == Flatten(pieces)
    ensures SmallestRung(g, dst.data.Length, |Flatten(pieces)| + MAX_ALIGNMENT)
    ensures forall i | dst.wr <= i < dst.data.Length :: dst.data[i] == 0
  {
    var total := TotalLength(src, chain, pieces);
    var newsize := FirstSize(g, total + MAX_ALIGNMENT);
    var data := new Octet[newsize](_ => 0);
    CopyChain(data, src, chain, pieces);
    dst := new Block(data, 0, total, false);
  }

  /** Copy the live bytes of a chain, one block behind the other. */
  method CopyChain(data: array<Octet>, src: Block, ghost chain: seq<Block>, ghost pieces: seq<seq<Octet>>)
    requires IsChain(chain, pieces) && chain[0] == src && |Flatten(pieces)| <= data.Length
    requires forall i | 0 <= i < |chain| :: chain[i].data != data
    modifies data
    ensures data[..|Flatten(pieces)|] == Flatten(pieces)
    ensures forall i | |Flatten(pieces)| <= i < data.Length :: data[i] == old(data[i])
  {
    var wr: nat := 0;
    var block: Block? := src;
    ghost var k := 0;
    while block != null
      invariant 0 <= k <= |chain| && block == (if k < |chain| then chain[k] else null)
      invariant IsChain(chain, pieces) && wr == |Flatten(pieces[..k])| <= |Flatten(pieces)|
      invariant data[..wr] == Flatten(pieces[..k])
      invariant forall i | wr <= i < data.Length :: data[i] == old(data[i])
      decreases |chain| - k
    {
      assert block == chain[k];
      FlattenTake(pieces, k);
      FlattenPrefix(pieces, k + 1);
      var length := block.wr - block.rd;
      Copy(data, wr, block.data[block.rd..block.wr]);
      assert data[..wr + length] == data[..wr] + data[wr..wr + length];
      wr := wr + length;
      block := block.cont;
      k := k + 1;
    }
    TakeAll(pieces);
  }

  lemma FlattenPrefix(pieces: seq<seq<Octet>>, k: nat)
    requires k <= |pieces|
    ensures |Flatten(pieces[..k])| <= |Flatten(pieces)|
  {
    FlattenConcat(pieces[..k], pieces[k..]);
    assert pieces[..k] + pieces[k..] == pieces;
  }
}
