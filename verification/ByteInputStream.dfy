/** Reading items back from a single block: every read call, with its failure path and the sticky good bit. */
module ByteInputStreams {
  import opened Bytes
  import opened Codec

  class ByteInputStream {
    const data: array<Octet>
    var rd: nat
    var wr: nat
    var good: bool

    ghost predicate Valid()
      reads this
    {
      rd <= wr <= data.Length
    }

    ghost function Remaining(): seq<Octet>
      requires Valid()
      reads this, data
    {
      data[rd..wr]
    }

    constructor (data: array<Octet>, rd: nat, wr: nat)
      requires rd <= wr <= data.Length
      ensures Valid() && good && this.data == data && this.rd == rd && this.wr == wr
    {
      this.data, this.rd, this.wr, good := data, rd, wr, true;
    }

    /** Step over `size` bytes if there are that many, otherwise clear the good bit and stay. */
    method Adjust(size: nat) returns (ok: bool, at: nat)
      requires Valid()
      modifies this`rd, this`good
      ensures Valid() && at == old(rd)
      ensures ok == (size <= |old(Remaining())|)
      ensures rd == (if ok then old(rd) + size else old(rd)) && good == (old(good) && ok)
      ensures ok ==> data[at..at + size] == old(Remaining())[..size] && Remaining() == old(Remaining())[size..]
    {
      at := rd;
      if rd + size <= wr {
        assert data[rd..wr][..size] == data[rd..rd + size] && data[rd..wr][size..] == data[rd + size..wr];
        rd := rd + size;
        return true, at;
      }
      good := false;
      return false, at;
    }

    method Read1() returns (ok: bool, x: Octet)
      requires Valid()
      modifies this`rd, this`good
      ensures Valid() && ok == (1 <= |old(Remaining())|) && good == (old(good) && ok)
      ensures ok ==> x == old(Remaining())[0] && Remaining() == old(Remaining())[1..]
      ensures !ok ==> x == 0 && rd == old(rd)
    {
      if rd < wr {
        x := data[rd];
        rd := rd + 1;
        return true, x;
      }
      good := false;
      return false, 0;
    }

    /** Two-, four- and sixteen-byte scalars: the memory image of the value. */
    method ReadImage(size: nat) returns (ok: bool, image: seq<Octet>)
      requires Valid()
      modifies this`rd, this`good
      ensures Valid() && ok == (size <= |old(Remaining())|) && good == (old(good) && ok)
      ensures ok ==> image == old(Remaining())[..size] && Remaining() == old(Remaining())[size..]
      ensures !ok ==> image == [] && rd == old(rd)
    {
      var at;
      ok, at := Adjust(size);
      image := if ok then data[at..at + size] else [];
    }

    method Read4(h: Host) returns (ok: bool, x: UInt)
      requires Valid()
      modifies this`rd, this`good
      ensures Valid() && ok == (4 <= |old(Remaining())|) && good == (old(good) && ok)
      ensures ok ==> x == Value4(h, old(Remaining())[..4]) && Remaining() == old(Remaining())[4..]
      ensures !ok ==> rd == old(rd)
    {
      var image;
      ok, image := ReadImage(4);
      x := if ok then Value4(h, image) else 0;
    }

    /**
     * A fixed-width array read, with the caller's pre-check on the 32-bit product. It succeeds exactly when the
     * good bit is set and the true product fits what remains, also where the 32-bit product wraps; an empty
     * array always succeeds. It consumes the bytes even when the good bit was already cleared.
     */
    method ReadArray(size: nat, count: UInt) returns (ok: bool, image: seq<Octet>)
      requires Valid() && 0 < size <= 16
      modifies this`rd, this`good
      ensures Valid()
      ensures var fits := size * count <= |old(Remaining())|;
              && ok == (fits && (old(good) || count == 0))
              && good == (old(good) && fits)
              && (fits ==> image == old(Remaining())[..size * count] && Remaining() == old(Remaining())[size * count..])
              && (!fits ==> rd == old(rd))
    {
      if (count * size) % 0x1_0000_0000 > wr - rd {
        assert count * size >= (count * size) % 0x1_0000_0000;
        good := false;
        return false, [];
      }
      if count == 0 {
        return true, [];
      }
      ok, image := ReadImage(size * count);
      ok := ok && good;
    }

    /** The outcome of a read call is what the value-level parse says, position included. */
    ghost predicate Agrees(expected: Parsed, ok: bool, item: Item)
      requires Valid()
      reads this, data
    {
      match expected
      case Failed => !ok
      case Parsed(value, rest) => ok && item == value && Remaining() == rest
    }

    /** A length-prefixed string; a zero length stands for the empty string. */
    method ReadString(h: Host) returns (ok: bool, text: seq<Octet>)
      requires Valid() && h.Valid()
      modifies this`rd, this`good
      ensures Valid() && (good ==> old(good))
      ensures old(good) ==> ok == good && Agrees(Parse(h, IsText, old(Remaining())), ok, Text(text))
    {
      ghost var s := Remaining();
      var length;
      ok, length := Read4(h);
      if !ok {
        return false, [];
      }
      if length <= |s| - 4 {
        assert s[4..][length..] == s[4 + length..] && s[4..][..length] == s[4..4 + length];
      }
      ok, text := ReadStringBody(length);
    }

    method ReadStringBody(length: UInt) returns (ok: bool, text: seq<Octet>)
      requires Valid()
      modifies this`rd, this`good
      ensures Valid() && (good ==> old(good))
      ensures old(good) ==> ok == good == (length <= |old(Remaining())|)
      ensures old(good) && ok ==>
        && text == old(Remaining())[..length][..Strlen(old(Remaining())[..length])] &&
            Remaining() == old(Remaining())[length..]
    {
      if 0 < length <= wr - rd {
        var image;
        ok, image := ReadArray(1, length);
        if ok {
          return true, image[..Strlen(image)];
        }
      } else if length == 0 {
        return true, [];
      }
      good := false;
      return false, [];
    }

    /** Widen an array of narrowed wide characters, one by one. */
    method WidenAll(h: Host, image: seq<Octet>, count: nat) returns (cs: seq<UInt>)
      requires h.Valid() && |image| == h.wcharBytes * count
      ensures cs == WideValues(h, image, count)
    {
      cs := [];
      var w := h.wcharBytes;
      for i := count downto 0
        invariant w * i <= |image| == w * count && |image[w * i..]| == w * (count - i)
        invariant cs == WideValues(h, image[w * i..], count - i)
      {
        assert w * (i + 1) == w * i + w;
        assert image[w * i..][w..] == image[w * (i + 1)..] && image[w * i..][..w] == image[w * i..w * i + w];
        cs := [WideValue(h, image[w * i..w * i + w])] + cs;
      }
      assert image[w * 0..] == image;
    }

    /** A wide array read: the same pre-check, then the whole array at once. */
    method ReadWideArray(h: Host, count: UInt) returns (ok: bool, cs: seq<UInt>)
      requires Valid() && h.Valid()
      modifies this`rd, this`good
      ensures Valid() && (good ==> old(good))
      ensures old(good) ==> ok == good && Agrees(Parse(h, IsWides(count), old(Remaining())), ok, Wides(cs))
    {
      var image;
      ok, image := ReadArray(h.wcharBytes, count);
      if !ok {
        return false, [];
      }
      cs := WidenAll(h, image, count);
    }

    /** A wide string: the prefix counts bytes, and a remainder of a partial character is left unread. */
    method ReadWString(h: Host) returns (ok: bool, wtext: seq<UInt>)
      requires Valid() && h.Valid()
      modifies this`rd, this`good
      ensures Valid() && (good ==> old(good))
      ensures old(good) ==> ok == good && Agrees(Parse(h, IsWideText, old(Remaining())), ok, WideText(wtext))
    {
      var length;
      ok, length := Read4(h);
      if !ok {
        return false, [];
      }
      ok, wtext := ReadWStringBody(h, length);
    }

    method ReadWStringBody(h: Host, length: UInt) returns (ok: bool, wtext: seq<UInt>)
      requires Valid() && h.Valid()
      modifies this`rd, this`good
      ensures Valid() && (good ==> old(good))
      ensures old(good) ==> ok == good == (length <= |old(Remaining())|)
      ensures old(good) && ok ==> Agrees(WideTextAt(h, old(Remaining()), length / h.wcharBytes), ok, WideText(wtext))
    {
      ghost var body, count := Remaining(), length / h.wcharBytes;
      assert h.wcharBytes * count <= length;
      if 0 < length <= wr - rd {
        var cs;
        ok, cs := ReadWideArray(h, length / h.wcharBytes);
        if ok {
          return true, cs[..Strlen(cs)];
        }
      } else if length == 0 {
        assert WideTextAt(h, body, 0) == Parsed(WideText([]), body);
        return true, [];
      }
      good := false;
      return false, [];
    }

    /** Read booleans one by one; any non-zero octet counts as true. */
    method ReadBools(count: UInt) returns (ok: bool, flags: seq<bool>)
      requires Valid()
      modifies this`rd, this`good
      ensures Valid() && (good ==> old(good)) && ok == good
      ensures old(good) ==> ok == (count <= |old(Remaining())|)
      ensures ok ==> flags == BoolValues(old(Remaining())[..count]) && Remaining() == old(Remaining())[count..]
    {
      flags := [];
      if count > wr - rd {
        good := false;
        return false, [];
      }
      ghost var s := Remaining();
      var i := 0;
      while i != count && good
        invariant 0 <= i <= count && Valid() && good == old(good)
        invariant Remaining() == s[i..] && flags == BoolValues(s[..i])
        decreases count - i
      {
        var octet;
        ok, octet := Read1();
        assert s[i..][0] == s[i] && s[i..][1..] == s[i + 1..];
        flags := flags + [octet != 0];
        i := i + 1;
      }
      ok := good;
    }

    /** A single wide character: a width octet and that many bytes. The peer must use this host's width. */
    method ReadWChar(h: Host) returns (ok: bool, c: UInt)
      requires Valid() && h.Valid() && WidthAgrees(h, Remaining())
      modifies this`rd, this`good
      ensures Valid() && (good ==> old(good))
      ensures old(good) ==> ok == good && Agrees(Parse(h, IsWide, old(Remaining())), ok, Wide(c))
    {
      ghost var s := Remaining();
      var width;
      ok, width := Read1();
      if !ok {
        return false, 0;
      }
      var image;
      ok, image := ReadArray(width, 1);
      if ok {
        assert image == s[1..1 + width] && s[1..][width..] == s[1 + width..];
        c := if width == 2 then SignExtend(Value2(h, image)) else WideValue(h, image);
      } else {
        good := false;
        c := 0;
      }
    }

    /** One read call of the given shape: on a stream whose good bit is set, what the value-level parse says. */
    method ReadItem(h: Host, g: Shape) returns (ok: bool, x: Item)
      requires Valid() && h.Valid() && Readable(g) && (g.IsWide? ==> WidthAgrees(h, Remaining()))
      modifies this`rd, this`good
      ensures Valid() && (good ==> old(good))
      ensures old(good) ==> ok == good && Agrees(Parse(h, g, old(Remaining())), ok, x)
    {
      match g
      case IsOneByte =>
        var octet;
        ok, octet := Read1();
        x := OneByte(octet);
      case IsBool =>
        var octet;
        ok, octet := Read1();
        x := Bool(octet != 0);
      case IsTwoBytes =>
        var image;
        ok, image := ReadImage(2);
        x := TwoBytes(if ok then Value2(h, image) else 0);
      case IsFourBytes =>
        var long;
        ok, long := Read4(h);
        x := FourBytes(long);
      case IsSixteenBytes =>
        var image;
        ok, image := ReadImage(16);
        x := SixteenBytes(image);
      case IsWide =>
        var c;
        ok, c := ReadWChar(h);
        x := Wide(c);
      case IsText =>
        var text;
        ok, text := ReadString(h);
        x := Text(text);
      case IsWideText =>
        var wtext;
        ok, wtext := ReadWString(h);
        x := WideText(wtext);
      case IsArray(size, count) =>
        var image;
        ok, image := ReadArray(size, count);
        x := Array(size, image);
      case IsBools(count) =>
        var flags;
        ok, flags := ReadBools(count);
        x := Bools(flags);
      case IsWides(count) =>
        var cs;
        ok, cs := ReadWideArray(h, count);
        x := Wides(cs);
    }

    /** Step over a string without looking at it. */
    method SkipString(h: Host) returns (ok: bool)
      requires Valid() && h.Valid()
      modifies this`rd, this`good
      ensures Valid() && (good ==> old(good))
      ensures old(good) ==> ok == Parse(h, IsText, old(Remaining())).Parsed? && ok == good
      ensures ok ==>
        && Parse(h, IsText, old(Remaining())).Parsed?
        && Remaining() == Parse(h, IsText, old(Remaining())).rest
    {
      ghost var s := Remaining();
      var length;
      ok, length := Read4(h);
      if ok {
        if rd + length <= wr {
          rd := rd + length;
          assert s[4..][length..] == s[4 + length..];
          return true;
        }
        good := false;
      }
      return false;
    }
  }

  /** The width octet at the front, if any, is the one this host uses. */
  ghost predicate WidthAgrees(h: Host, s: seq<Octet>) {
    |s| > 0 ==> s[0] == h.wcharBytes
  }
}
