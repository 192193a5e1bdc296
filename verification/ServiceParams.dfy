/**
 * The parameters of a service on the wire: its identifier, an optional fault-tolerance block and an opaque blob held
 * in a chain of blocks.
 */
module ServiceParameters {
  import opened Bytes
  import opened Codec
  import opened CodecLaws
  import opened ByteOutputStreams
  import opened ByteInputStreams

  datatype FtParams = FtParams(replicaCount: UInt, policy: Octet)

  // ----- What is on the wire -----

  ghost function FtBytes(h: Host, ft: Option<FtParams>): seq<Octet> {
    match ft
    case None => [0]
    case Some(p) => [1] + (Bytes4(h, p.replicaCount) + [p.policy])
  }

  /** The length field has 32 bits. */
  function Field(length: nat): UInt {
    length % 0x1_0000_0000
  }

  type Key = s: seq<Octet> | |s| < 0x1_0000_0000

  ghost function SidBytes(h: Host, sid: Key): seq<Octet> {
    Bytes4(h, |sid|) + sid
  }

  ghost function BlobBytes(h: Host, blob: seq<Octet>): seq<Octet> {
    Bytes4(h, Field(|blob|)) + blob
  }

  ghost function WireForm(h: Host, sid: Key, ft: Option<FtParams>, blob: seq<Octet>): seq<Octet> {
    SidBytes(h, sid) + (FtBytes(h, ft) + BlobBytes(h, blob))
  }

  /** A length in four octets, and so many octets. */
  ghost predicate Counted(h: Host, b: seq<Octet>, octets: seq<Octet>) {
    |b| == 4 + |octets| && NumberIn(h, b[..4]) == |octets| % 0x1_0000_0000 && b[4..] == octets
  }

  /** A flag, and behind a set one the replica count in four octets and the policy in one. */
  ghost predicate Flagged(h: Host, b: seq<Octet>, ft: Option<FtParams>) {
    match ft
    case None => b == [0]
    case Some(p) => |b| == 6 && b[0] == 1 && NumberIn(h, b[1..5]) == p.replicaCount && b[5] == p.policy
  }

  /** The identifier comes first, then the fault-tolerance block, then the blob. */
  lemma Layout(h: Host, sid: Key, ft: Option<FtParams>, blob: seq<Octet>)
    ensures var b, k, n := WireForm(h, sid, ft, blob), 4 + |sid|, if ft.None? then 1 else 6;
      && |b| == k + n + 4 + |blob|
      && Counted(h, b[..k], sid) && Flagged(h, b[k..k + n], ft) && Counted(h, b[k + n..], blob)
  {
    CutThree(SidBytes(h, sid), FtBytes(h, ft), BlobBytes(h, blob));
    Assoc(SidBytes(h, sid), FtBytes(h, ft), BlobBytes(h, blob));
    CountedBytes(h, |sid|, sid);
    CountedBytes(h, Field(|blob|), blob);
    FlaggedBytes(h, ft);
  }

  lemma CountedBytes(h: Host, n: UInt, octets: seq<Octet>)
    requires n == |octets| % 0x1_0000_0000
    ensures Counted(h, Bytes4(h, n) + octets, octets)
  {
    Cut(Bytes4(h, n), octets);
    FourOnTheWire(h, n);
  }

  lemma FlaggedBytes(h: Host, ft: Option<FtParams>)
    ensures Flagged(h, FtBytes(h, ft), ft)
  {
    if ft.Some? {
      FourOnTheWire(h, ft.value.replicaCount);
      assert FtBytes(h, ft)[1..5] == Bytes4(h, ft.value.replicaCount);
    }
  }

  /** The stream's blocks and buffer are not those of the chain about to be appended. */
  ghost predicate ApartFrom(os: ByteOutputStream, source: seq<Block>)
    reads os, os.current, source
  {
    forall i | 0 <= i < |source| :: source[i] != os.current && source[i].data !in os.OwnBuffer()
  }

  // ----- Writing -----

  method WriteSid(os: ByteOutputStream, h: Host, sid: Key)
    requires os.Valid()
    modifies os, os.current, os.OwnBuffer()
    ensures os.Valid() && os.Contents() == old(os.Contents()) + SidBytes(h, sid)
    ensures os.Moved(old(os.current), old(os.current.data), old(os.writable))
    ensures os.current != old(os.current) ==> fresh(os.current) && fresh(os.current.data)
  {
    os.WriteArray(Bytes4(h, |sid|));
    os.WriteArray(sid);
    Assoc(old(os.Contents()), Bytes4(h, |sid|), sid);
  }

  method WriteFt(os: ByteOutputStream, h: Host, ft: Option<FtParams>)
    requires os.Valid()
    modifies os, os.current, os.OwnBuffer()
    ensures os.Valid() && os.Contents() == old(os.Contents()) + FtBytes(h, ft)
    ensures os.Moved(old(os.current), old(os.current.data), old(os.writable))
    ensures os.current != old(os.current) ==> fresh(os.current) && fresh(os.current.data)
  {
    match ft
    case None => os.WriteArray([0]);
    case Some(p) =>
      os.WriteArray([1]);
      WriteFtFields(os, h, p);
      Assoc(old(os.Contents()), [1], Bytes4(h, p.replicaCount) + [p.policy]);
  }

  method WriteFtFields(os: ByteOutputStream, h: Host, p: FtParams)
    requires os.Valid()
    modifies os, os.current, os.OwnBuffer()
    ensures os.Valid() && os.Contents() == old(os.Contents()) + (Bytes4(h, p.replicaCount) + [p.policy])
    ensures os.Moved(old(os.current), old(os.current.data), old(os.writable))
    ensures os.current != old(os.current) ==> fresh(os.current) && fresh(os.current.data)
  {
    os.WriteArray(Bytes4(h, p.replicaCount));
    os.WriteArray([p.policy]);
    Assoc(old(os.Contents()), Bytes4(h, p.replicaCount), [p.policy]);
  }

  method WriteMetadata(os: ByteOutputStream, h: Host, sid: Key, ft: Option<FtParams>)
    requires os.Valid()
    modifies os, os.current, os.OwnBuffer()
    ensures os.Valid() && os.Contents() == old(os.Contents()) + (SidBytes(h, sid) + FtBytes(h, ft))
    ensures os.Moved(old(os.current), old(os.current.data), old(os.writable))
    ensures os.current != old(os.current) ==> fresh(os.current) && fresh(os.current.data)
  {
    ghost var c := os.Contents();
    WriteSid(os, h, sid);
    WriteFt(os, h, ft);
    Assoc(c, SidBytes(h, sid), FtBytes(h, ft));
  }

  /** A length field and the whole chain. */
  method WriteChain(os: ByteOutputStream, h: Host, mb: Block, ghost source: seq<Block>, ghost pieces: seq<seq<Octet>>)
    requires os.Valid() && IsChain(source, pieces) && source[0] == mb && ApartFrom(os, source)
    modifies os, os.current, os.OwnBuffer()
    ensures os.Valid() && IsChain(source, pieces)
    ensures os.Contents() == old(os.Contents()) + BlobBytes(h, Flatten(pieces))
  {
    var size := TotalLength(mb, source, pieces);
    WriteLength(os, h, size, source, pieces);
    os.WriteOctetArrayMb(mb, source, pieces);
    Assoc(old(os.Contents()), Bytes4(h, Field(size)), Flatten(pieces));
  }

  /** A length field, written while a chain waits to be appended. */
  method WriteLength(os: ByteOutputStream, h: Host, size: nat, ghost source: seq<Block>, ghost pieces: seq<seq<Octet>>)
    requires os.Valid() && IsChain(source, pieces) && ApartFrom(os, source)
    modifies os, os.current, os.OwnBuffer()
    ensures os.Valid() && os.Contents() == old(os.Contents()) + Bytes4(h, Field(size))
    ensures IsChain(source, pieces) && ApartFrom(os, source)
    ensures os.current == old(os.current) || fresh(os.current)
    ensures os.OwnBuffer() == old(os.OwnBuffer()) || fresh(os.OwnBuffer())
  {
    os.WriteArray(Bytes4(h, Field(size)));
  }

  // ----- Reading -----

  /** A key of the announced size; if the octets are not there, its contents are whatever the allocator left. */
  method ReadSid(bis: ByteInputStream, h: Host, ghost sid: Key, ghost rest: seq<Octet>) returns (key: Key)
    requires bis.Valid() && h.Valid()
    modifies bis`rd, bis`good
    ensures bis.Valid()
    ensures old(bis.good && bis.Remaining() == SidBytes(h, sid) + rest) ==>
        bis.good && bis.Remaining() == rest && key == sid
  {
    Assoc(Bytes4(h, |sid|), sid, rest);
    Cut(Bytes4(h, |sid|), sid + rest);
    Cut(sid, rest);
    RoundTrip4(h, |sid|);
    var ok, size := bis.Read4(h);
    var found, image := bis.ReadArray(1, size);
    if found {
      key := image;
    } else {
      var unset := new Octet[size];
      key := unset[..];
    }
  }

  method ReadFt(bis: ByteInputStream, h: Host, ghost ft: Option<FtParams>, ghost rest: seq<Octet>)
    returns (out: Option<FtParams>)
    requires bis.Valid() && h.Valid()
    modifies bis`rd, bis`good
    ensures bis.Valid()
    ensures old(bis.good && bis.Remaining() == FtBytes(h, ft) + rest) ==>
        bis.good && bis.Remaining() == rest && out == ft
  {
    FtCut(h, ft, rest);
    var ok, flag := bis.Read1();
    if flag == 0 {
      return None;
    }
    var count, policy;
    ok, count := bis.Read4(h);
    ok, policy := bis.Read1();
    out := Some(FtParams(count, policy));
  }

  lemma FtCut(h: Host, ft: Option<FtParams>, rest: seq<Octet>)
    ensures var s := FtBytes(h, ft) + rest;
      match ft
      case None => s[0] == 0 && s[1..] == rest
      case Some(p) =>
        var t := s[1..];
        |t| >= 5 && s[0] == 1 && Value4(h, t[..4]) == p.replicaCount && t[4..][0] == p.policy && t[4..][1..] == rest
  {
    match ft
    case None => Cut([0], rest);
    case Some(p) =>
      var b := Bytes4(h, p.replicaCount);
      RoundTrip4(h, p.replicaCount);
      Assoc([1], b + [p.policy], rest);
      Cut([1], (b + [p.policy]) + rest);
      Assoc(b, [p.policy], rest);
      Cut(b, [p.policy] + rest);
      Cut([p.policy], rest);
  }

  /** Metadata and blob, appended one after the other, are the wire form. */
  lemma Appended(h: Host, before: seq<Octet>, sid: Key, ft: Option<FtParams>, all: seq<Octet>)
    ensures (before + (SidBytes(h, sid) + FtBytes(h, ft))) + BlobBytes(h, all) == before + WireForm(h, sid, ft, all)
  {
    Assoc(before, SidBytes(h, sid) + FtBytes(h, ft), BlobBytes(h, all));
    Assoc(SidBytes(h, sid), FtBytes(h, ft), BlobBytes(h, all));
  }

  class ServiceParams {
    var sid: Key
    var ft: Option<FtParams>
    var blob: Block?

    constructor (sid: Key, ft: Option<FtParams>, blob: Block?)
      ensures this.sid == sid && this.ft == ft && this.blob == blob
    {
      this.sid, this.ft, this.blob := sid, ft, blob;
    }

    /** `source` is the chain the blob heads and `pieces` its live bytes; both are empty when there is no blob. */
    ghost predicate Holds(source: seq<Block>, pieces: seq<seq<Octet>>)
      reads this, source, ChainBuffers(source)
    {
      if blob == null then source == [] && pieces == []
      else IsChain(source, pieces) && source[0] == blob
    }

    /** Append the parameters to a stream. The blob's chain is left as it was. */
    method Serialize(os: ByteOutputStream, h: Host, ghost source: seq<Block>, ghost pieces: seq<seq<Octet>>)
      requires os.Valid() && Holds(source, pieces) && ApartFrom(os, source)
      modifies os, os.current, os.OwnBuffer()
      ensures os.Valid() && Holds(source, pieces)
      ensures os.Contents() == old(os.Contents()) + WireForm(h, sid, ft, Flatten(pieces))
    {
      WriteMetadata(os, h, sid, ft);
      SerializeBlob(os, h, source, pieces);
      Appended(h, old(os.Contents()), sid, ft, Flatten(pieces));
    }

    method SerializeBlob(os: ByteOutputStream, h: Host, ghost source: seq<Block>, ghost pieces: seq<seq<Octet>>)
      requires os.Valid() && Holds(source, pieces) && ApartFrom(os, source)
      modifies os, os.current, os.OwnBuffer()
      ensures os.Valid() && Holds(source, pieces)
      ensures os.Contents() == old(os.Contents()) + BlobBytes(h, Flatten(pieces))
    {
      if blob != null {
        WriteChain(os, h, blob, source, pieces);
      } else {
        os.WriteArray(Bytes4(h, 0));
        assert BlobBytes(h, []) == Bytes4(h, 0);
      }
    }

    /**
     * Replace all fields by what the stream holds. From the wire form of some parameters it takes back the
     * identifier and the fault-tolerance block, and as much of the blob as its length field announces.
     */
    method Deserialize(bis: ByteInputStream, h: Host, ghost from: (Key, Option<FtParams>, seq<Octet>),
                       ghost rest: seq<Octet>)
      requires bis.Valid() && h.Valid()
      modifies this, bis`rd, bis`good
      ensures bis.Valid() && (blob != null ==> fresh(blob) && fresh(blob.data) && blob.Ok() && blob.cont == null)
      ensures old(bis.good && bis.Remaining() == WireForm(h, from.0, from.1, from.2) + rest) ==>
        && bis.good && sid == from.0 && ft == from.1 && bis.Remaining() == from.2[Field(|from.2|)..] + rest
        && (blob == null <==> Field(|from.2|) == 0)
        && (blob != null ==> blob.Live() == from.2[..Field(|from.2|)])
    {
      ghost var s, f, b := SidBytes(h, from.0), FtBytes(h, from.1), BlobBytes(h, from.2);
      Assoc(s, f + b, rest);
      Assoc(f, b, rest);
      sid := ReadSid(bis, h, from.0, (f + b) + rest);
      ft := ReadFt(bis, h, from.1, b + rest);
      blob := ReadBlob(bis, h, from.2, rest);
    }
  }

  method ReadBlob(bis: ByteInputStream, h: Host, ghost all: seq<Octet>, ghost rest: seq<Octet>) returns (blob: Block?)
    requires bis.Valid() && h.Valid()
    modifies bis`rd, bis`good
    ensures bis.Valid() && (blob != null ==> fresh(blob) && fresh(blob.data) && blob.Ok() && blob.cont == null)
    ensures old(bis.good && bis.Remaining() == BlobBytes(h, all) + rest) ==>
      && bis.good && bis.Remaining() == all[Field(|all|)..] + rest
      && (blob == null <==> Field(|all|) == 0)
      && (blob != null ==> blob.Live() == all[..Field(|all|)])
  {
    ghost var n := Field(|all|);
    RoundTrip4(h, n);
    Assoc(Bytes4(h, n), all, rest);
    Cut(Bytes4(h, n), all + rest);
    assert (all + rest)[..n] == all[..n] && (all + rest)[n..] == all[n..] + rest;
    var ok, size := bis.Read4(h);
    if size == 0 {
      return null;
    }
    var data := new Octet[size];
    var found, image := bis.ReadArray(1, size);
    if found {
      Copy(data, 0, image);
      assert data[..size] == image;
    }
    blob := new Block(data, 0, size, false);
  }

  /** The blob comes back: there is none, or its length is neither zero nor beyond the length field. */
  predicate Restorable(present: bool, length: nat) {
    !present || 0 < length < 0x1_0000_0000
  }

  /** Serialise through any chain of blocks and consolidate: one block with the wire form. */
  method Pack(p: ServiceParams, h: Host, g: Growth, tradeoff: nat, ghost source: seq<Block>,
              ghost pieces: seq<seq<Octet>>)
    returns (mb: Block)
    requires g.Valid() && p.Holds(source, pieces)
    ensures fresh(mb) && mb.Ok() && mb.Live() == WireForm(h, p.sid, p.ft, Flatten(pieces))
  {
    var os := new ByteOutputStream(0, tradeoff, g);
    p.Serialize(os, h, source, pieces);
    mb := Consolidate(g, os.start, os.chain, os.pieces);
  }

  /** Read new parameters from one block with a wire form. */
  method Unpack(mb: Block, h: Host, ghost sid: Key, ghost ft: Option<FtParams>,
                ghost all: seq<Octet>)
    returns (q: ServiceParams)
    requires h.Valid() && mb.Ok() && mb.Live() == WireForm(h, sid, ft, all)
    ensures fresh(q) && q.sid == sid && q.ft == ft && (q.blob != null ==> q.blob.Ok())
    ensures q.blob == null <==> Field(|all|) == 0
    ensures q.blob != null ==> q.blob.Live() == all[..Field(|all|)]
  {
    var bis := new ByteInputStream(mb.data, mb.rd, mb.wr);
    q := new ServiceParams([], None, null);
    assert bis.Remaining() == WireForm(h, sid, ft, all) + [];
    q.Deserialize(bis, h, (sid, ft, all), []);
  }

  /** Parameters written and read back are the same exactly when the blob is restorable; the rest always is. */
  method RoundTrip(p: ServiceParams, h: Host, g: Growth, tradeoff: nat,
                   ghost source: seq<Block>, ghost pieces: seq<seq<Octet>>)
    returns (q: ServiceParams)
    requires h.Valid() && g.Valid() && p.Holds(source, pieces)
    ensures fresh(q) && q.sid == p.sid && q.ft == p.ft && (q.blob != null ==> q.blob.Ok())
    ensures q.blob == null <==> Field(|Flatten(pieces)|) == 0
    ensures ((p.blob == null <==> q.blob == null) && (q.blob != null ==> q.blob.Live() == Flatten(pieces)))
         <==> Restorable(p.blob != null, |Flatten(pieces)|)
  {
    ghost var all := Flatten(pieces);
    assert p.blob == null ==> all == [];
    var mb := Pack(p, h, g, tradeoff, source, pieces);
    q := Unpack(mb, h, p.sid, p.ft, all);
    CutRestores(all);
  }

  /** The announced part of the blob is all of it exactly when the length fits the field. */
  lemma CutRestores(all: seq<Octet>)
    ensures all[..Field(|all|)] == all <==> |all| < 0x1_0000_0000
    ensures Field(|all|) == 0 && all != [] ==> |all| >= 0x1_0000_0000
  {
    assert |all| < 0x1_0000_0000 <==> |all[..Field(|all|)]| == |all|;
  }

  /** A blob that is present but empty comes back as none. */
  method EmptyBlobIsLost(h: Host, g: Growth, tradeoff: nat) returns (p: ServiceParams, q: ServiceParams)
    requires h.Valid() && g.Valid()
    ensures p.blob != null && q.blob == null
  {
    var data := new Octet[0];
    var blob := new Block(data, 0, 0, false);
    p := new ServiceParams([], None, blob);
    FlattenOne(blob.Live());
    q := RoundTrip(p, h, g, tradeoff, [blob], [blob.Live()]);
  }
}
