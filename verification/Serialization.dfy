/** Writer and reader put together: through any chain of blocks, what was written is what is read. */
module Serialization {
  import opened Bytes
  import opened Codec
  import opened ByteOutputStreams
  import opened Marshalling
  import opened ByteInputStreams

  /** A wide character at the front of its own encoding announces the width of the host. */
  lemma EncodedWidthAgrees(h: Host, x: Item, rest: seq<Octet>)
    requires h.Valid() && Encodable(h, x)
    ensures x.Wide? ==> WidthAgrees(h, Encode(h, x) + rest)
  {
  }

  lemma {:induction false} EncodeAllIsFlatten(h: Host, xs: seq<Item>, bytes: seq<seq<Octet>>)
    requires h.Valid() && AllEncodable(h, xs) && |xs| == |bytes|
    requires forall i | 0 <= i < |xs| :: bytes[i] == Encode(h, xs[i])
    ensures EncodeAll(h, xs) == Flatten(bytes)
  {
    if xs != [] {
      EncodeAllIsFlatten(h, xs[1..], bytes[1..]);
    }
  }

  /** Read the first of the items a stream starts with. */
  method ReadNext(bis: ByteInputStream, h: Host, ghost items: seq<Item>, shape: Shape, ghost rest: seq<Octet>)
    returns (ok: bool, x: Item)
    requires bis.Valid() && bis.good && h.Valid() && AllEncodable(h, items) && items != [] &&
        shape == ShapeOf(h, items[0])
    requires bis.Remaining() == EncodeAll(h, items) + rest
    modifies bis`rd, bis`good
    ensures bis.Valid() && bis.good && ok && x == ReadBack(h, items[0])
    ensures bis.Remaining() == EncodeAll(h, items[1..]) + rest
  {
    ghost var tail := EncodeAll(h, items[1..]);
    Assoc(Encode(h, items[0]), tail, rest);
    ItemRoundTrip(h, items[0], tail + rest);
    EncodedWidthAgrees(h, items[0], tail + rest);
    ok, x := bis.ReadItem(h, shape);
  }

  /** Read items of known shapes from a stream that starts with their encodings; what follows them is left unread. */
  method ReadBackItems(bis: ByteInputStream, h: Host, ghost items: seq<Item>, shapes: seq<Shape>,
                       ghost rest: seq<Octet>)
    returns (ok: bool, out: seq<Item>)
    requires bis.Valid() && bis.good && h.Valid() && AllEncodable(h, items) && shapes == ShapesOf(h, items)
    requires bis.Remaining() == EncodeAll(h, items) + rest
    modifies bis`rd, bis`good
    ensures bis.Valid() && bis.good && ok && bis.Remaining() == rest
    ensures out == ReadBackAll(h, items)
  {
    ok, out := true, [];
    assert items[0..] == items && ReadBackAll(h, items)[..0] == [];
    for i := 0 to |shapes|
      invariant bis.Valid() && bis.good && ok
      invariant bis.Remaining() == EncodeAll(h, items[i..]) + rest
      invariant out == ReadBackAll(h, items)[..i]
    {
      var x;
      ok, x := ReadNext(bis, h, items[i..], shapes[i], rest);
      out := out + [x];
      assert items[i..][1..] == items[i + 1..];
    }
    assert EncodeAll(h, items[|items|..]) + rest == rest;
  }

  /**
   * Write any sequence of items through a growing chain of blocks, consolidate it, and read it back: all items
   * come back, and unchanged exactly when each is faithful.
   */
  method RoundTrip(h: Host, g: Growth, tradeoff: nat, items: seq<Item>) returns (ok: bool, out: seq<Item>)
    requires h.Valid() && g.Valid() && AllEncodable(h, items)
    ensures ok && out == ReadBackAll(h, items)
    ensures out == items <==> forall i | 0 <= i < |items| :: Faithful(h, items[i])
  {
    var parts := seq(|items|, i requires 0 <= i < |items| => Field(items[i]));
    ghost var bytes := seq(|items|, i requires 0 <= i < |items| => Encode(h, items[i]));
    var shapes := seq(|items|, i requires 0 <= i < |items| => ShapeOf(h, items[i]));
    var mb := SerializePacket(h, g, tradeoff, parts, bytes);
    EncodeAllIsFlatten(h, items, bytes);
    var bis := new ByteInputStream(mb.data, mb.rd, mb.wr);
    assert bis.Remaining() == EncodeAll(h, items) + [];
    ok, out := ReadBackItems(bis, h, items, shapes, []);
    SequenceFaithfulExactly(h, items);
  }

  /** A header octet in front of a block at the copy threshold: the datagram carries the block and loses the octet. */
  method DatagramLosesFront(h: Host, g: Growth, tradeoff: nat) returns (mb: Block, ghost packet: seq<Octet>)
    requires h.Valid() && g.Valid() && tradeoff > 0
    ensures mb.Ok() && |packet| == tradeoff + 1 && mb.Live() != packet
  {
    var data := new Octet[tradeoff](_ => 0);
    var block := new Block(data, 0, tradeoff, false);
    var parts := [Field(OneByte(7)), Message(block)];
    ghost var bytes := [[7], block.Live()];
    packet := Flatten(bytes);
    assert packet == [7] + Flatten([block.Live()]) by { assert bytes[1..] == [block.Live()]; }
    FlattenOne(block.Live());
    assert Encode(h, OneByte(7)) == [7];
    assert !Small(tradeoff, parts[1], bytes[1]);
    mb := SerializeDatagram(h, g, tradeoff, parts, bytes);
  }
}
