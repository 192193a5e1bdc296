/**
 * The unaligned CDR encoding as functions on values: what each write operation appends, what the matching read
 * operation returns, and exactly which values survive the trip.
 */
module Codec {
  import opened Bytes

  type UShort = x: int | 0 <= x < 0x1_0000
  type UInt = x: int | 0 <= x < 0x1_0000_0000

  /**
   * The host: its byte order (values are stored as they are in memory, and never swapped), and how many bytes a
   * wide character takes on the wire (`wchar_maxbytes_`; a wide character takes four in memory).
   */
  datatype Host = Host(littleEndian: bool, wcharBytes: nat) {
    predicate Valid() {
      wcharBytes == 1 || wcharBytes == 2 || wcharBytes == 4
    }
  }

  // ----- Scalars -----

  function Bytes2(h: Host, n: UShort): (b: seq<Octet>)
    ensures |b| == 2
  {
    if h.littleEndian then [n % 256, n / 256] else [n / 256, n % 256]
  }

  function Value2(h: Host, b: seq<Octet>): UShort
    requires |b| == 2
  {
    if h.littleEndian then (b[0] as int) + 256 * (b[1] as int) else (b[1] as int) + 256 * (b[0] as int)
  }

  function Bytes4(h: Host, n: UInt): (b: seq<Octet>)
    ensures |b| == 4
  {
    var low, high := Bytes2(h, n % 0x1_0000), Bytes2(h, n / 0x1_0000);
    if h.littleEndian then low + high else high + low
  }

  function Value4(h: Host, b: seq<Octet>): UInt
    requires |b| == 4
  {
    if h.littleEndian then Value2(h, b[..2]) + 0x1_0000 * Value2(h, b[2..])
    else Value2(h, b[2..]) + 0x1_0000 * Value2(h, b[..2])
  }

  lemma RoundTrip2(h: Host, n: UShort)
    ensures Value2(h, Bytes2(h, n)) == n
  {
  }

  lemma RoundTrip4(h: Host, n: UInt)
    ensures Value4(h, Bytes4(h, n)) == n
  {
    var low, high := Bytes2(h, n % 0x1_0000), Bytes2(h, n / 0x1_0000);
    RoundTrip2(h, n % 0x1_0000);
    RoundTrip2(h, n / 0x1_0000);
    if h.littleEndian {
      assert (low + high)[..2] == low && (low + high)[2..] == high;
    } else {
      assert (high + low)[..2] == high && (high + low)[2..] == low;
    }
  }

  // ----- Wide characters -----

  /** One wide character on the wire: all four bytes, the low two, or the low one. */
  function WideBytes(h: Host, c: UInt): (b: seq<Octet>)
    requires h.Valid()
    ensures |b| == h.wcharBytes
  {
    if h.wcharBytes == 4 then Bytes4(h, c)
    else if h.wcharBytes == 2 then Bytes2(h, c % 0x1_0000)
    else [c % 256]
  }

  /** How an element of a wide array or wide string is widened back: zero-extended. */
  function WideValue(h: Host, b: seq<Octet>): UInt
    requires h.Valid() && |b| == h.wcharBytes
  {
    if h.wcharBytes == 4 then Value4(h, b)
    else if h.wcharBytes == 2 then Value2(h, b)
    else b[0]
  }

  /** How a single wide character is widened back: two-byte ones pass through a signed 16-bit variable. */
  function SignExtend(n: UShort): UInt {
    if n < 0x8000 then n else n + 0xFFFF_0000
  }

  function ScalarWideValue(h: Host, b: seq<Octet>): UInt
    requires h.Valid() && |b| == h.wcharBytes
  {
    if h.wcharBytes == 2 then SignExtend(Value2(h, b)) else WideValue(h, b)
  }

  ghost function WideBytesAll(h: Host, cs: seq<UInt>): (b: seq<Octet>)
    requires h.Valid()
    ensures |b| == h.wcharBytes * |cs|
  {
    if cs == [] then [] else WideBytes(h, cs[0]) + WideBytesAll(h, cs[1..])
  }

  ghost function WideValues(h: Host, b: seq<Octet>, n: nat): (cs: seq<UInt>)
    requires h.Valid() && |b| == h.wcharBytes * n
    ensures |cs| == n
    decreases n
  {
    if n == 0 then [] else [WideValue(h, b[..h.wcharBytes])] + WideValues(h, b[h.wcharBytes..], n - 1)
  }

  /** What a wide character becomes after being narrowed for the wire and zero-extended back. */
  function Narrowed(h: Host, c: UInt): UInt
    requires h.Valid()
  {
    if h.wcharBytes == 4 then c else if h.wcharBytes == 2 then c % 0x1_0000 else c % 256
  }

  ghost function NarrowedAll(h: Host, cs: seq<UInt>): seq<UInt>
    requires h.Valid()
  {
    seq(|cs|, i requires 0 <= i < |cs| => Narrowed(h, cs[i]))
  }

  lemma WideRoundTrip(h: Host, c: UInt)
    requires h.Valid()
    ensures WideValue(h, WideBytes(h, c)) == Narrowed(h, c)
  {
    if h.wcharBytes == 4 {
      RoundTrip4(h, c);
    } else if h.wcharBytes == 2 {
      RoundTrip2(h, c % 0x1_0000);
    }
  }

  lemma {:induction false} WideRoundTripAll(h: Host, cs: seq<UInt>)
    requires h.Valid()
    ensures WideValues(h, WideBytesAll(h, cs), |cs|) == NarrowedAll(h, cs)
  {
    if cs != [] {
      var head, tail := WideBytes(h, cs[0]), WideBytesAll(h, cs[1..]);
      assert (head + tail)[..h.wcharBytes] == head && (head + tail)[h.wcharBytes..] == tail;
      WideRoundTrip(h, cs[0]);
      WideRoundTripAll(h, cs[1..]);
      assert NarrowedAll(h, cs) == [Narrowed(h, cs[0])] + NarrowedAll(h, cs[1..]);
    }
  }

  // ----- Booleans and terminated strings -----

  function BoolByte(v: bool): Octet {
    if v then 1 else 0
  }

  function BoolBytes(vs: seq<bool>): (b: seq<Octet>)
    ensures |b| == |vs| && forall i | 0 <= i < |vs| :: b[i] == BoolByte(vs[i])
  {
    seq(|vs|, i requires 0 <= i < |vs| => BoolByte(vs[i]))
  }

  function BoolValues(b: seq<Octet>): (vs: seq<bool>)
    ensures |vs| == |b| && forall i | 0 <= i < |b| :: vs[i] == (b[i] != 0)
  {
    seq(|b|, i requires 0 <= i < |b| => b[i] != 0)
  }

  /** Where the C-string view of a buffer ends: at its first zero, or at the end of the buffer. */
  function Strlen(s: seq<int>): (n: nat)
    ensures n <= |s| && 0 !in s[..n] && (n < |s| ==> s[n] == 0)
    ensures n == |s| <==> 0 !in s
  {
    if s == [] || s[0] == 0 then 0
    else
      assert s[1..][..Strlen(s[1..])] == s[1..Strlen(s[1..]) + 1];
      1 + Strlen(s[1..])
  }

  lemma StrlenUnique(s: seq<int>, n: nat)
    requires n <= |s| && 0 !in s[..n] && (n < |s| ==> s[n] == 0)
    ensures Strlen(s) == n
  {
    assert forall i | 0 <= i < n :: s[..n][i] != 0;
  }

  // ----- Items -----

  /** The values a serialiser hands to the stream. Array elements are given by their memory image. */
  datatype Item =
    | OneByte(octet: Octet)
    | Bool(flag: bool)
    | TwoBytes(short: UShort)
    | FourBytes(long: UInt)
    | SixteenBytes(image: seq<Octet>)
    | Wide(wchar: UInt)
    | Text(text: seq<Octet>)
    | WideText(wtext: seq<UInt>)
    | Array(size: nat, elements: seq<Octet>)
    | Bools(flags: seq<bool>)
    | Wides(wchars: seq<UInt>)

  /** The lengths the 32-bit length parameters and prefixes can express. */
  predicate Encodable(h: Host, x: Item) {
    match x
    case SixteenBytes(image) => |image| == 16
    case Text(text) => |text| + 1 < 0x1_0000_0000
    case WideText(wtext) => h.wcharBytes * |wtext| < 0x1_0000_0000
    case Array(size, elements) => size in {1, 2, 4, 8, 16} && |elements| % size == 0 &&
        |elements| / size < 0x1_0000_0000
    case Bools(flags) => |flags| < 0x1_0000_0000
    case Wides(wchars) => |wchars| < 0x1_0000_0000
    case _ => true
  }

  ghost function Encode(h: Host, x: Item): seq<Octet>
    requires h.Valid() && Encodable(h, x)
  {
    match x
    case OneByte(octet) => [octet]
    case Bool(flag) => [BoolByte(flag)]
    case TwoBytes(short) => Bytes2(h, short)
    case FourBytes(long) => Bytes4(h, long)
    case SixteenBytes(image) => image
    case Wide(wchar) => [h.wcharBytes] + WideBytes(h, wchar)
    case Text(text) => Bytes4(h, |text| + 1) + (text + [0])
    case WideText(wtext) => Bytes4(h, h.wcharBytes * |wtext|) + WideBytesAll(h, wtext)
    case Array(_, elements) => elements
    case Bools(flags) => BoolBytes(flags)
    case Wides(wchars) => WideBytesAll(h, wchars)
  }

  /** What the reader has to know in advance: the kind of item, and for arrays the element size and count. */
  datatype Shape =
    | IsOneByte | IsBool | IsTwoBytes | IsFourBytes | IsSixteenBytes | IsWide | IsText | IsWideText
    | IsArray(size: nat, count: UInt) | IsBools(count: UInt) | IsWides(count: UInt)

  predicate Readable(g: Shape) {
    g.IsArray? ==> g.size in {1, 2, 4, 8, 16}
  }

  function ShapeOf(h: Host, x: Item): Shape
    requires Encodable(h, x)
  {
    match x
    case OneByte(_) => IsOneByte
    case Bool(_) => IsBool
    case TwoBytes(_) => IsTwoBytes
    case FourBytes(_) => IsFourBytes
    case SixteenBytes(_) => IsSixteenBytes
    case Wide(_) => IsWide
    case Text(_) => IsText
    case WideText(_) => IsWideText
    case Array(size, elements) => IsArray(size, |elements| / size)
    case Bools(flags) => IsBools(|flags|)
    case Wides(wchars) => IsWides(|wchars|)
  }

  /** The first `n` bytes interpreted by `f`, and the rest; nothing when there are fewer. */
  datatype Parsed = Failed | Parsed(item: Item, rest: seq<Octet>)

  /** The C-string view of `count` wide characters. */
  ghost function WideTextAt(h: Host, s: seq<Octet>, count: nat): Parsed
    requires h.Valid() && h.wcharBytes * count <= |s|
  {
    var n := h.wcharBytes * count;
    var cs := WideValues(h, s[..n], count);
    Parsed(WideText(cs[..Strlen(cs)]), s[n..])
  }

  /** What the matching read call makes of the bytes at the front. */
  ghost function Parse(h: Host, g: Shape, s: seq<Octet>): Parsed
    requires h.Valid() && Readable(g)
  {
    match g
    case IsOneByte => if |s| < 1 then Failed else Parsed(OneByte(s[0]), s[1..])
    case IsBool => if |s| < 1 then Failed else Parsed(Bool(s[0] != 0), s[1..])
    case IsTwoBytes => if |s| < 2 then Failed else Parsed(TwoBytes(Value2(h, s[..2])), s[2..])
    case IsFourBytes => if |s| < 4 then Failed else Parsed(FourBytes(Value4(h, s[..4])), s[4..])
    case IsSixteenBytes => if |s| < 16 then Failed else Parsed(SixteenBytes(s[..16]), s[16..])
    case IsWide =>
      // A peer that announces another width is not understood.
      if |s| < 1 + h.wcharBytes || s[0] != h.wcharBytes then Failed
      else Parsed(Wide(ScalarWideValue(h, s[1..1 + h.wcharBytes])), s[1 + h.wcharBytes..])
    case IsText =>
      if |s| < 4 then Failed
      else
        var n := Value4(h, s[..4]);
        if |s| < 4 + n then Failed else Parsed(Text(s[4..4 + n][..Strlen(s[4..4 + n])]), s[4 + n..])
    case IsWideText =>
      if |s| < 4 then Failed
      else
        var n := Value4(h, s[..4]);
        if |s| < 4 + n then Failed else WideTextAt(h, s[4..], n / h.wcharBytes)
    case IsArray(size, count) =>
      if |s| < size * count then Failed else Parsed(Array(size, s[..size * count]), s[size * count..])
    case IsBools(count) => if |s| < count then Failed else Parsed(Bools(BoolValues(s[..count])), s[count..])
    case IsWides(count) =>
      var n := h.wcharBytes * count;
      if |s| < n then Failed else Parsed(Wides(WideValues(h, s[..n], count)), s[n..])
  }

  /** What an item reads back as: strings stop at a zero, wide characters are narrowed and widened again. */
  ghost function ReadBack(h: Host, x: Item): Item
    requires h.Valid()
  {
    match x
    case Wide(wchar) => Wide(if h.wcharBytes == 2 then SignExtend(wchar % 0x1_0000) else Narrowed(h, wchar))
    case Text(text) => Text(text[..Strlen(text)])
    case WideText(wtext) => var cs := NarrowedAll(h, wtext); WideText(cs[..Strlen(cs)])
    case Wides(wchars) => Wides(NarrowedAll(h, wchars))
    case _ => x
  }

  /** A caller-checkable condition: strings without zeros, and wide characters that fit their width on the wire. */
  ghost predicate Faithful(h: Host, x: Item)
    requires h.Valid()
  {
    match x
    case Wide(wchar) =>
      if h.wcharBytes == 4 then true
      else if h.wcharBytes == 2 then wchar < 0x8000 || wchar >= 0xFFFF_8000
      else wchar < 256
    case Text(text) => 0 !in text
    case WideText(wtext) => 0 !in wtext && forall i | 0 <= i < |wtext| :: FitsWidth(h, wtext[i])
    case Wides(wchars) => forall i | 0 <= i < |wchars| :: FitsWidth(h, wchars[i])
    case _ => true
  }

  predicate FitsWidth(h: Host, c: UInt) {
    h.wcharBytes == 4 || (h.wcharBytes == 2 && c < 0x1_0000) || c < 256
  }

  /** An item survives encoding and decoding unchanged exactly when it is faithful. */
  lemma FaithfulExactly(h: Host, x: Item)
    requires h.Valid() && Encodable(h, x)
    ensures ReadBack(h, x) == x <==> Faithful(h, x)
  {
    match x
    case WideText(wtext) => WideTextFaithful(h, wtext);
    case Wides(wchars) => NarrowedExactly(h, wchars);
    case _ =>
  }

  lemma WideTextFaithful(h: Host, wtext: seq<UInt>)
    requires h.Valid()
    ensures ReadBack(h, WideText(wtext)) == WideText(wtext) <==> Faithful(h, WideText(wtext))
  {
    NarrowedExactly(h, wtext);
    var cs := NarrowedAll(h, wtext);
    assert cs[..Strlen(cs)] == wtext ==> Strlen(cs) == |cs|;
    assert cs[..|cs|] == cs;
  }

  lemma NarrowedExactly(h: Host, cs: seq<UInt>)
    requires h.Valid()
    ensures NarrowedAll(h, cs) == cs <==> forall i | 0 <= i < |cs| :: FitsWidth(h, cs[i])
  {
    var out := NarrowedAll(h, cs);
    assert forall i | 0 <= i < |cs| :: out[i] == cs[i] <==> FitsWidth(h, cs[i]);
  }

  // ----- Round trip -----

  /** Reading what was written, with anything behind it, gives the item as it reads back and leaves exactly the rest. */
  lemma ItemRoundTrip(h: Host, x: Item, rest: seq<Octet>)
    requires h.Valid() && Encodable(h, x)
    ensures Readable(ShapeOf(h, x))
    ensures Parse(h, ShapeOf(h, x), Encode(h, x) + rest) == Parsed(ReadBack(h, x), rest)
  {
    var s := Encode(h, x) + rest;
    match x
    case TwoBytes(short) =>
      RoundTrip2(h, short);
      Cut(Bytes2(h, short), rest);
    case FourBytes(long) =>
      RoundTrip4(h, long);
      Cut(Bytes4(h, long), rest);
    case SixteenBytes(image) => Cut(image, rest);
    case Wide(wchar) => WideItemRoundTrip(h, wchar, rest);
    case Text(text) => TextRoundTrip(h, text, rest);
    case WideText(wtext) => WideTextRoundTrip(h, wtext, rest);
    case Array(size, elements) => ArrayRoundTrip(h, size, elements, rest);
    case Bools(flags) => BoolsRoundTrip(h, flags, rest);
    case Wides(wchars) => WidesRoundTrip(h, wchars, rest);
    case _ => Cut(Encode(h, x), rest);
  }

  lemma ArrayRoundTrip(h: Host, size: nat, elements: seq<Octet>, rest: seq<Octet>)
    requires h.Valid() && Encodable(h, Array(size, elements))
    ensures var g := IsArray(size, |elements| / size);
            Readable(g) && Parse(h, g, elements + rest) == Parsed(Array(size, elements), rest)
  {
    assert size * (|elements| / size) == |elements|;
    Cut(elements, rest);
  }

  lemma BoolsRoundTrip(h: Host, flags: seq<bool>, rest: seq<Octet>)
    requires h.Valid() && Encodable(h, Bools(flags))
    ensures Parse(h, IsBools(|flags|), BoolBytes(flags) + rest) == Parsed(Bools(flags), rest)
  {
    Cut(BoolBytes(flags), rest);
    assert BoolValues(BoolBytes(flags)) == flags;
  }

  lemma WidesRoundTrip(h: Host, wchars: seq<UInt>, rest: seq<Octet>)
    requires h.Valid() && Encodable(h, Wides(wchars))
    ensures Parse(h, IsWides(|wchars|), WideBytesAll(h, wchars) + rest) == Parsed(Wides(NarrowedAll(h, wchars)), rest)
  {
    WideRoundTripAll(h, wchars);
    Cut(WideBytesAll(h, wchars), rest);
  }

  lemma WideItemRoundTrip(h: Host, c: UInt, rest: seq<Octet>)
    requires h.Valid()
    ensures Parse(h, IsWide, Encode(h, Wide(c)) + rest) == Parsed(ReadBack(h, Wide(c)), rest)
  {
    var s := Encode(h, Wide(c)) + rest;
    CutThree([h.wcharBytes], WideBytes(h, c), rest);
    WideRoundTrip(h, c);
  }

  lemma TextRoundTrip(h: Host, text: seq<Octet>, rest: seq<Octet>)
    requires h.Valid() && Encodable(h, Text(text))
    ensures Parse(h, IsText, Encode(h, Text(text)) + rest) == Parsed(ReadBack(h, Text(text)), rest)
  {
    var n := |text| + 1;
    RoundTrip4(h, n);
    CutThree(Bytes4(h, n), text + [0], rest);
    StrlenClosed(text);
  }

  /** A terminating zero does not change where the string ends. */
  lemma StrlenClosed(text: seq<Octet>)
    ensures Strlen(text + [0]) == Strlen(text) && (text + [0])[..Strlen(text)] == text[..Strlen(text)]
  {
    var k := Strlen(text);
    assert (text + [0])[..k] == text[..k];
    StrlenUnique(text + [0], k);
  }

  lemma WideTextRoundTrip(h: Host, wtext: seq<UInt>, rest: seq<Octet>)
    requires h.Valid() && Encodable(h, WideText(wtext))
    ensures Parse(h, IsWideText, Encode(h, WideText(wtext)) + rest) == Parsed(ReadBack(h, WideText(wtext)), rest)
  {
    var n, body := h.wcharBytes * |wtext|, WideBytesAll(h, wtext);
    RoundTrip4(h, n);
    Assoc(Bytes4(h, n), body, rest);
    Cut(Bytes4(h, n), body + rest);
    WideCount(h, |wtext|);
    WideBodyRoundTrip(h, wtext, rest);
  }

  /** The characters behind the length field. */
  lemma WideBodyRoundTrip(h: Host, wtext: seq<UInt>, rest: seq<Octet>)
    requires h.Valid()
    ensures WideTextAt(h, WideBytesAll(h, wtext) + rest, |wtext|) == Parsed(ReadBack(h, WideText(wtext)), rest)
  {
    Cut(WideBytesAll(h, wtext), rest);
    WideRoundTripAll(h, wtext);
  }

  lemma WideCount(h: Host, count: nat)
    requires h.Valid()
    ensures h.wcharBytes * count / h.wcharBytes == count
  {
    if h.wcharBytes == 2 {
      assert 2 * count / 2 == count;
    } else if h.wcharBytes == 4 {
      assert 4 * count / 4 == count;
    }
  }

  ghost predicate AllEncodable(h: Host, xs: seq<Item>) {
    forall i | 0 <= i < |xs| :: Encodable(h, xs[i])
  }

  ghost function EncodeAll(h: Host, xs: seq<Item>): seq<Octet>
    requires h.Valid() && AllEncodable(h, xs)
  {
    if xs == [] then [] else Encode(h, xs[0]) + EncodeAll(h, xs[1..])
  }

  ghost function ShapesOf(h: Host, xs: seq<Item>): seq<Shape>
    requires AllEncodable(h, xs)
  {
    seq(|xs|, i requires 0 <= i < |xs| => ShapeOf(h, xs[i]))
  }

  ghost function ReadBackAll(h: Host, xs: seq<Item>): seq<Item>
    requires h.Valid()
  {
    seq(|xs|, i requires 0 <= i < |xs| => ReadBack(h, xs[i]))
  }

  datatype ParsedAll = FailedAll | ParsedAll(items: seq<Item>, rest: seq<Octet>)

  ghost predicate AllReadable(gs: seq<Shape>) {
    forall i | 0 <= i < |gs| :: Readable(gs[i])
  }

  /** A sequence of read calls, stopping at the first that fails. */
  ghost function ParseAll(h: Host, gs: seq<Shape>, s: seq<Octet>): ParsedAll
    requires h.Valid() && AllReadable(gs)
  {
    if gs == [] then ParsedAll([], s)
    else
      match Parse(h, gs[0], s)
      case Failed => FailedAll
      case Parsed(item, rest) =>
        match ParseAll(h, gs[1..], rest)
        case FailedAll => FailedAll
        case ParsedAll(items, end) => ParsedAll([item] + items, end)
  }

  /** The codec round trip with remainder, for every sequence of items and every trailing bytes. */
  lemma {:induction false} SequenceRoundTrip(h: Host, xs: seq<Item>, rest: seq<Octet>)
    requires h.Valid() && AllEncodable(h, xs)
    ensures AllReadable(ShapesOf(h, xs))
    ensures ParseAll(h, ShapesOf(h, xs), EncodeAll(h, xs) + rest) == ParsedAll(ReadBackAll(h, xs), rest)
    decreases |xs|
  {
    if xs == [] {
      assert EncodeAll(h, xs) + rest == rest;
    } else {
      var tail := xs[1..];
      ItemRoundTrip(h, xs[0], EncodeAll(h, tail) + rest);
      SequenceRoundTrip(h, tail, rest);
      Assoc(Encode(h, xs[0]), EncodeAll(h, tail), rest);
      assert ShapesOf(h, xs)[1..] == ShapesOf(h, tail);
      assert ShapesOf(h, xs)[0] == ShapeOf(h, xs[0]);
      assert AllReadable(ShapesOf(h, xs)) by {
        assert forall i | 0 < i < |xs| :: ShapesOf(h, xs)[i] == ShapesOf(h, tail)[i - 1];
      }
      assert [ReadBack(h, xs[0])] + ReadBackAll(h, tail) == ReadBackAll(h, xs);
    }
  }

  /** A sequence comes back unchanged exactly when every item in it is faithful. */
  lemma SequenceFaithfulExactly(h: Host, xs: seq<Item>)
    requires h.Valid() && AllEncodable(h, xs)
    ensures ReadBackAll(h, xs) == xs <==> forall i | 0 <= i < |xs| :: Faithful(h, xs[i])
  {
    var out := ReadBackAll(h, xs);
    forall i | 0 <= i < |xs|
      ensures out[i] == xs[i] <==> Faithful(h, xs[i])
    {
      FaithfulExactly(h, xs[i]);
    }
  }
}
