/**
 * What the encoding looks like on the wire, and what reading makes of arbitrary bytes, each said without the other:
 * numbers by their octets' weights, strings by their terminator and length field.
 */
module CodecLaws {
  import opened Bytes
  import opened Codec

  /** The number whose octets, least significant first, are these. */
  function LittleValue(b: seq<Octet>): nat {
    if b == [] then 0 else b[0] as nat + 256 * LittleValue(b[1..])
  }

  /** The number whose octets, in the order of the host, are these. */
  function NumberIn(h: Host, b: seq<Octet>): nat {
    LittleValue(if h.littleEndian then b else Reversed(b))
  }

  /** One more than the largest number of so many octets. */
  function Limit(octets: nat): (limit: nat)
    ensures limit > 0
  {
    if octets == 0 then 1 else 256 * Limit(octets - 1)
  }

  lemma LittleStep(b: seq<Octet>)
    requires b != []
    ensures LittleValue(b) == (b[0] as nat) + 256 * LittleValue(b[1..])
  {
  }

  lemma LittleTwo(a: Octet, b: Octet)
    ensures LittleValue([a]) == a as nat && LittleValue([a, b]) == (a as nat) + 256 * (b as nat)
  {
    LittleStep([a]);
    LittleStep([b]);
    LittleStep([a, b]);
    assert [a, b][1..] == [b] && [a][1..] == [] && [b][1..] == [];
  }

  lemma NumberOfOne(h: Host, b: seq<Octet>)
    requires |b| == 1
    ensures NumberIn(h, b) == b[0]
  {
    LittleTwo(b[0], 0);
    assert b == [b[0]] && Reversed(b) == [b[0]];
  }

  lemma NumberOfTwo(h: Host, b: seq<Octet>)
    requires |b| == 2
    ensures NumberIn(h, b) == Value2(h, b)
  {
    LittleTwo(b[0], b[1]);
    LittleTwo(b[1], b[0]);
    assert b == [b[0], b[1]] && Reversed(b) == [b[1], b[0]];
  }

  lemma LittleFour(a: Octet, b: Octet, c: Octet, d: Octet)
    ensures LittleValue([a, b, c, d]) == LittleValue([a, b]) + 0x1_0000 * LittleValue([c, d])
  {
    LittleTwo(a, b);
    LittleStep([a, b, c, d]);
    LittleStep([b, c, d]);
    assert [a, b, c, d][1..] == [b, c, d] && [b, c, d][1..] == [c, d];
  }

  lemma NumberOfFour(h: Host, b: seq<Octet>)
    requires |b| == 4
    ensures NumberIn(h, b) == Value4(h, b)
  {
    LittleFour(b[0], b[1], b[2], b[3]);
    LittleFour(b[3], b[2], b[1], b[0]);
    assert b == [b[0], b[1], b[2], b[3]] && Reversed(b) == [b[3], b[2], b[1], b[0]];
    NumberOfTwo(h, b[..2]);
    NumberOfTwo(h, b[2..]);
    assert b[..2] == [b[0], b[1]] && b[2..] == [b[2], b[3]];
    assert Reversed(b[..2]) == [b[1], b[0]] && Reversed(b[2..]) == [b[3], b[2]];
  }

  lemma TwoOnTheWire(h: Host, n: UShort)
    ensures NumberIn(h, Bytes2(h, n)) == n
  {
    NumberOfTwo(h, Bytes2(h, n));
    RoundTrip2(h, n);
  }

  lemma FourOnTheWire(h: Host, n: UInt)
    ensures NumberIn(h, Bytes4(h, n)) == n
  {
    NumberOfFour(h, Bytes4(h, n));
    RoundTrip4(h, n);
  }

  /** A wide character is written as the number of its low octets. */
  lemma WideOnTheWire(h: Host, c: UInt)
    requires h.Valid()
    ensures NumberIn(h, WideBytes(h, c)) == c % Limit(h.wcharBytes)
  {
    if h.wcharBytes == 4 {
      FourOnTheWire(h, c);
      assert Limit(4) == 0x1_0000_0000;
    } else if h.wcharBytes == 2 {
      TwoOnTheWire(h, c % 0x1_0000);
      assert Limit(2) == 0x1_0000;
    } else {
      NumberOfOne(h, WideBytes(h, c));
      assert Limit(1) == 256;
    }
  }

  /** A row of numbers of `w` octets each. */
  ghost predicate Row(h: Host, w: nat, b: seq<Octet>, ns: seq<nat>) {
    |b| == w * |ns| && (ns != [] ==> w <= |b| && NumberIn(h, b[..w]) == ns[0] && Row(h, w, b[w..], ns[1..]))
  }

  function LowNumber(h: Host, c: UInt): nat {
    c % Limit(h.wcharBytes)
  }

  /** What wide characters amount to on the wire. */
  ghost function LowOctets(h: Host, cs: seq<UInt>): seq<nat> {
    seq<nat>(|cs|, i requires 0 <= i < |cs| => LowNumber(h, cs[i]))
  }

  lemma {:induction false} WidesOnTheWire(h: Host, cs: seq<UInt>)
    requires h.Valid()
    ensures Row(h, h.wcharBytes, WideBytesAll(h, cs), LowOctets(h, cs))
  {
    if cs != [] {
      WideOnTheWire(h, cs[0]);
      Cut(WideBytes(h, cs[0]), WideBytesAll(h, cs[1..]));
      WidesOnTheWire(h, cs[1..]);
      assert LowOctets(h, cs)[1..] == LowOctets(h, cs[1..]);
    }
  }

  /** What every kind of item looks like on the wire. */
  ghost predicate WireImage(h: Host, x: Item, b: seq<Octet>) {
    match x
    case OneByte(octet) => b == [octet]
    case Bool(flag) => |b| == 1 && b[0] == if flag then 1 else 0
    case TwoBytes(short) => |b| == 2 && NumberIn(h, b) == short
    case FourBytes(long) => |b| == 4 && NumberIn(h, b) == long
    case SixteenBytes(image) => b == image
    case Wide(wchar) =>
      b != [] && b[0] == h.wcharBytes == |b| - 1 && NumberIn(h, b[1..]) == wchar % Limit(h.wcharBytes)
    case Text(text) => |b| > 4 && NumberIn(h, b[..4]) == |b| - 4 && b[4..|b| - 1] == text && b[|b| - 1] == 0
    case WideText(wtext) =>
      |b| >= 4 && NumberIn(h, b[..4]) == |b| - 4 && Row(h, h.wcharBytes, b[4..], LowOctets(h, wtext))
    case Array(_, elements) => b == elements
    case Bools(flags) => |b| == |flags| && forall i | 0 <= i < |b| :: b[i] == if flags[i] then 1 else 0
    case Wides(wchars) => Row(h, h.wcharBytes, b, LowOctets(h, wchars))
  }

  lemma OnTheWire(h: Host, x: Item)
    requires h.Valid() && Encodable(h, x)
    ensures WireImage(h, x, Encode(h, x))
  {
    match x
    case TwoBytes(short) => TwoOnTheWire(h, short);
    case FourBytes(long) => FourOnTheWire(h, long);
    case Wide(wchar) =>
      Cut([h.wcharBytes], WideBytes(h, wchar));
      WideOnTheWire(h, wchar);
    case Text(text) =>
      Cut(Bytes4(h, |text| + 1), text + [0]);
      FourOnTheWire(h, |text| + 1);
    case WideText(wtext) =>
      Cut(Bytes4(h, h.wcharBytes * |wtext|), WideBytesAll(h, wtext));
      FourOnTheWire(h, h.wcharBytes * |wtext|);
      WidesOnTheWire(h, wtext);
    case Wides(wchars) => WidesOnTheWire(h, wchars);
    case _ =>
  }

  /** The string "ab" and a short as a big-endian host writes them. */
  lemma OnABigEndianWire(h: Host)
    requires h.Valid() && !h.littleEndian
    ensures Encode(h, Text([0x61, 0x62])) == [0, 0, 0, 3, 0x61, 0x62, 0]
    ensures Encode(h, TwoBytes(0x1234)) == [0x12, 0x34]
  {
  }

  // ----- Reading arbitrary bytes -----

  /** How many bytes must be there for a read to succeed. */
  function Needed(h: Host, g: Shape, s: seq<Octet>): nat {
    match g
    case IsOneByte => 1
    case IsBool => 1
    case IsTwoBytes => 2
    case IsFourBytes => 4
    case IsSixteenBytes => 16
    case IsWide => 1 + h.wcharBytes
    case IsText => if |s| < 4 then 4 else 4 + NumberIn(h, s[..4])
    case IsWideText => if |s| < 4 then 4 else 4 + NumberIn(h, s[..4])
    case IsArray(size, count) => size * count
    case IsBools(count) => count
    case IsWides(count) => h.wcharBytes * count
  }

  /** A read fails exactly when too few bytes are there, or a wide character announces another width than the host's. */
  lemma FailsExactly(h: Host, g: Shape, s: seq<Octet>)
    requires h.Valid() && Readable(g)
    ensures Parse(h, g, s).Failed? <==> |s| < Needed(h, g, s) || (g.IsWide? && s[0] != h.wcharBytes)
  {
    if |s| >= 4 {
      NumberOfFour(h, s[..4]);
    }
  }

  /** How many bytes a successful read uses up: what it needs, but for a partial last wide character of a string. */
  function UsedUp(h: Host, g: Shape, s: seq<Octet>): nat
    requires h.Valid()
  {
    var n := Needed(h, g, s);
    if g.IsWideText? then n - (n - 4) % h.wcharBytes else n
  }

  lemma LeavesExactly(h: Host, g: Shape, s: seq<Octet>)
    requires h.Valid() && Readable(g) && Parse(h, g, s).Parsed?
    ensures UsedUp(h, g, s) <= |s| && Parse(h, g, s).rest == s[UsedUp(h, g, s)..]
  {
    if g.IsText? {
      NumberOfFour(h, s[..4]);
    } else if g.IsWideText? {
      WideTextUses(h, s);
      var used := UsedUp(h, g, s) - 4;
      assert s[4..][used..] == s[4 + used..];
    }
  }

  lemma WholeCharacters(h: Host, n: nat)
    requires h.Valid()
    ensures h.wcharBytes * (n / h.wcharBytes) == n - n % h.wcharBytes
  {
  }

  /** A single wide character of two octets is a signed number, in a variable of four. */
  function Signed(h: Host, n: nat): nat {
    if h.wcharBytes == 2 && n >= 0x8000 then n + 0xFFFF_0000 else n
  }

  /** What bytes mean when they are read. */
  ghost predicate Meaning(h: Host, g: Shape, s: seq<Octet>, x: Item)
    requires h.Valid() && |s| >= Needed(h, g, s)
  {
    match g
    case IsOneByte => x == OneByte(s[0])
    case IsBool => x == Bool(s[0] != 0)
    case IsTwoBytes => x.TwoBytes? && x.short == NumberIn(h, s[..2])
    case IsFourBytes => x.FourBytes? && x.long == NumberIn(h, s[..4])
    case IsSixteenBytes => x == SixteenBytes(s[..16])
    case IsWide => x.Wide? && x.wchar == Signed(h, NumberIn(h, s[1..1 + h.wcharBytes]))
    case IsText => x.Text? && UpToZero(s[4..Needed(h, g, s)], x.text)
    case IsWideText => UsedUp(h, g, s) >= 4 && x.WideText? && RowUpToZero(h, s[4..UsedUp(h, g, s)], x.wtext)
    case IsArray(size, count) => x == Array(size, s[..size * count])
    case IsBools(count) => x.Bools? && |x.flags| == count && forall i | 0 <= i < count :: x.flags[i] <==> s[i] != 0
    case IsWides(count) => x.Wides? && Row(h, h.wcharBytes, s[..h.wcharBytes * count], x.wchars)
  }

  ghost predicate UpToZero(b: seq<int>, text: seq<int>) {
    |text| <= |b| && text == b[..|text|] && 0 !in text && (|text| < |b| ==> b[|text|] == 0)
  }

  ghost predicate RowUpToZero(h: Host, b: seq<Octet>, wtext: seq<UInt>) {
    exists cs: seq<UInt> :: Row(h, h.wcharBytes, b, cs) && UpToZero(cs, wtext)
  }

  lemma WideTextMeans(h: Host, s: seq<Octet>)
    requires h.Valid() && Parse(h, IsWideText, s).Parsed?
    ensures |s| >= Needed(h, IsWideText, s) && Meaning(h, IsWideText, s, Parse(h, IsWideText, s).item)
  {
    WideTextUses(h, s);
    var used, count := UsedUp(h, IsWideText, s) - 4, Value4(h, s[..4]) / h.wcharBytes;
    assert s[4..][..used] == s[4..4 + used];
    ValuesUpToZero(h, s[4..4 + used], count);
  }

  lemma ValuesUpToZero(h: Host, b: seq<Octet>, count: nat)
    requires h.Valid() && |b| == h.wcharBytes * count
    ensures var cs := WideValues(h, b, count); RowUpToZero(h, b, cs[..Strlen(cs)])
  {
    ValuesAreRow(h, b, count);
    var cs := WideValues(h, b, count);
    assert UpToZero(cs, cs[..Strlen(cs)]);
  }

  /** A wide string uses up its length field and whole characters. */
  lemma WideTextUses(h: Host, s: seq<Octet>)
    requires h.Valid() && |s| >= 4
    ensures Needed(h, IsWideText, s) == 4 + Value4(h, s[..4])
    ensures UsedUp(h, IsWideText, s) == 4 + h.wcharBytes * (Value4(h, s[..4]) / h.wcharBytes)
    ensures 4 <= UsedUp(h, IsWideText, s) <= Needed(h, IsWideText, s)
  {
    NumberOfFour(h, s[..4]);
    WholeCharacters(h, Value4(h, s[..4]));
  }

  lemma MeansExactly(h: Host, g: Shape, s: seq<Octet>)
    requires h.Valid() && Readable(g) && Parse(h, g, s).Parsed?
    ensures |s| >= Needed(h, g, s) && Meaning(h, g, s, Parse(h, g, s).item)
  {
    match g
    case IsTwoBytes => NumberOfTwo(h, s[..2]);
    case IsFourBytes => NumberOfFour(h, s[..4]);
    case IsWide => ScalarMeans(h, s[1..1 + h.wcharBytes]);
    case IsText => NumberOfFour(h, s[..4]);
    case IsWideText => WideTextMeans(h, s);
    case IsWides(count) => ValuesAreRow(h, s[..h.wcharBytes * count], count);
    case _ =>
  }

  lemma WideMeans(h: Host, b: seq<Octet>)
    requires h.Valid() && |b| == h.wcharBytes
    ensures WideValue(h, b) == NumberIn(h, b)
  {
    if h.wcharBytes == 4 {
      NumberOfFour(h, b);
    } else if h.wcharBytes == 2 {
      NumberOfTwo(h, b);
    } else {
      NumberOfOne(h, b);
    }
  }

  lemma ScalarMeans(h: Host, b: seq<Octet>)
    requires h.Valid() && |b| == h.wcharBytes
    ensures ScalarWideValue(h, b) == Signed(h, NumberIn(h, b))
  {
    WideMeans(h, b);
  }

  lemma {:induction false} ValuesAreRow(h: Host, b: seq<Octet>, n: nat)
    requires h.Valid() && |b| == h.wcharBytes * n
    ensures Row(h, h.wcharBytes, b, WideValues(h, b, n))
    decreases n
  {
    if n > 0 {
      WideMeans(h, b[..h.wcharBytes]);
      ValuesAreRow(h, b[h.wcharBytes..], n - 1);
      assert WideValues(h, b, n)[1..] == WideValues(h, b[h.wcharBytes..], n - 1);
    }
  }
}
