/** The text form of a universal identifier: two hexadecimal digits for each octet. */
module UUIDText {
  import opened Bytes

  type Digit = x: int | 0 <= x < 16

  function DigitChar(d: Digit): char {
    if d < 10 then '0' + d as char else 'A' + (d - 10) as char
  }

  predicate IsHex(c: char) {
    '0' <= c <= '9' || 'A' <= c <= 'F' || 'a' <= c <= 'f'
  }

  function DigitValue(c: char): Digit
    requires IsHex(c)
  {
    if c <= '9' then c as int - '0' as int
    else if c <= 'F' then c as int - 'A' as int + 10
    else c as int - 'a' as int + 10
  }

  function Upper(c: char): char {
    if 'a' <= c <= 'z' then 'A' + (c - 'a') else c
  }

  function UpperAll(s: string): string {
    seq(|s|, i requires 0 <= i < |s| => Upper(s[i]))
  }

  predicate AllHex(s: string) {
    forall i | 0 <= i < |s| :: IsHex(s[i])
  }

  /** One octet as printed by the format %02X. */
  function Print1(b: Octet): (s: string)
    ensures |s| == 2 && AllHex(s)
  {
    [DigitChar(b / 16), DigitChar(b % 16)]
  }

  /** One octet as scanned from two digits. */
  function Scan1(high: char, low: char): Octet
    requires IsHex(high) && IsHex(low)
  {
    16 * DigitValue(high) + DigitValue(low)
  }

  function Printed(key: seq<Octet>): (s: string)
    ensures |s| == 2 * |key|
  {
    if key == [] then "" else Print1(key[0]) + Printed(key[1..])
  }

  function Scanned(s: string): (key: seq<Octet>)
    requires |s| % 2 == 0 && AllHex(s)
    ensures |key| == |s| / 2
  {
    if s == "" then [] else [Scan1(s[0], s[1])] + Scanned(s[2..])
  }

  // ----- The two conversions -----

  /** The whole key, octet by octet. */
  method ToString(key: seq<Octet>) returns (s: string)
    ensures s == Printed(key)
  {
    s := "";
    for i := 0 to |key|
      invariant s == Printed(key[..i])
    {
      PrintedSnoc(key[..i], key[i]);
      assert key[..i + 1] == key[..i] + [key[i]];
      s := s + Print1(key[i]);
    }
    assert key[..|key|] == key;
  }

  /** The empty string and odd lengths are rejected; of a hexadecimal string every two digits give one octet. */
  method Parse(s: string) returns (r: Option<seq<Octet>>)
    requires AllHex(s)
    ensures r == if s == "" || |s| % 2 != 0 then None else Some(Scanned(s))
  {
    if |s| == 0 || |s| % 2 != 0 {
      return None;
    }
    var key: seq<Octet> := [];
    var size := |s| / 2;
    for i := 0 to size
      invariant key + Scanned(s[2 * i..]) == Scanned(s)
    {
      var rest := s[2 * i..];
      assert rest[2..] == s[2 * (i + 1)..] && rest[0] == s[2 * i] && rest[1] == s[2 * i + 1];
      Assoc(key, [Scan1(s[2 * i], s[2 * i + 1])], Scanned(rest[2..]));
      key := key + [Scan1(s[2 * i], s[2 * i + 1])];
    }
    assert key + [] == key;
    r := Some(key);
  }

  lemma {:induction false} PrintedSnoc(key: seq<Octet>, b: Octet)
    ensures Printed(key + [b]) == Printed(key) + Print1(b)
  {
    if key == [] {
      assert key + [b] == [b] && [b][1..] == [];
    } else {
      assert (key + [b])[1..] == key[1..] + [b];
      PrintedSnoc(key[1..], b);
    }
  }

  lemma {:induction false} PrintedIsHex(key: seq<Octet>)
    ensures AllHex(Printed(key))
  {
    if key != [] {
      PrintedIsHex(key[1..]);
    }
  }

  lemma Scan1Print1(b: Octet)
    ensures var s := Print1(b); Scan1(s[0], s[1]) == b
  {
    DigitRoundTrip(b / 16);
    DigitRoundTrip(b % 16);
  }

  lemma DigitRoundTrip(d: Digit)
    ensures IsHex(DigitChar(d)) && DigitValue(DigitChar(d)) == d
  {
  }

  lemma CharRoundTrip(c: char)
    requires IsHex(c)
    ensures DigitChar(DigitValue(c)) == Upper(c)
  {
  }

  lemma Print1Scan1(high: char, low: char)
    requires IsHex(high) && IsHex(low)
    ensures Print1(Scan1(high, low)) == [Upper(high), Upper(low)]
  {
    CharRoundTrip(high);
    CharRoundTrip(low);
  }

  /** Scanning a printed key gives the key. */
  lemma {:induction false} ScannedPrinted(key: seq<Octet>)
    ensures AllHex(Printed(key)) && Scanned(Printed(key)) == key
  {
    PrintedIsHex(key);
    if key != [] {
      Scan1Print1(key[0]);
      Cut(Print1(key[0]), Printed(key[1..]));
      ScannedPrinted(key[1..]);
    }
  }

  /** Printing a scanned string gives its upper-case form. */
  lemma {:induction false} PrintedScanned(s: string)
    requires |s| % 2 == 0 && AllHex(s)
    ensures Printed(Scanned(s)) == UpperAll(s)
  {
    if s != "" {
      PrintedScanned(s[2..]);
      Print1Scan1(s[0], s[1]);
      assert UpperAll(s) == [Upper(s[0]), Upper(s[1])] + UpperAll(s[2..]);
    }
  }

  /** Print and parse: every key but the empty one comes back. */
  method PrintAndParse(key: seq<Octet>) returns (r: Option<seq<Octet>>)
    ensures r == Some(key) <==> key != []
    ensures r == None <==> key == []
  {
    ScannedPrinted(key);
    var s := ToString(key);
    r := Parse(s);
  }

  // ----- Order -----

  /** The sign of strcmp: by the first character that differs, a proper prefix being less. */
  function Strcmp(a: string, b: string): int {
    if a == "" then (if b == "" then 0 else -1)
    else if b == "" then 1
    else if a[0] == b[0] then Strcmp(a[1..], b[1..])
    else if a[0] < b[0] then -1 else 1
  }

  /** The unsigned lexicographic order of the octets. */
  function Lexicographic(a: seq<Octet>, b: seq<Octet>): int {
    if a == [] then (if b == [] then 0 else -1)
    else if b == [] then 1
    else if a[0] == b[0] then Lexicographic(a[1..], b[1..])
    else if a[0] < b[0] then -1 else 1
  }

  /** The sign of memcmp over the first `size` octets. */
  function Memcmp(a: seq<Octet>, b: seq<Octet>, size: nat): int
    requires size <= |a| && size <= |b|
  {
    if size == 0 then 0
    else if a[0] == b[0] then Memcmp(a[1..], b[1..], size - 1)
    else if a[0] < b[0] then -1 else 1
  }

  /** The equality test of the raw data. */
  predicate SameData(a: seq<Octet>, b: seq<Octet>) {
    if |a| != |b| then false else Memcmp(a, b, |a|) == 0
  }

  /** The comparison of two identifiers: through their text forms. */
  method Compare(a: seq<Octet>, b: seq<Octet>) returns (sign: int)
    ensures sign == Lexicographic(a, b)
    ensures sign == 0 <==> SameData(a, b)
    ensures SameData(a, b) <==> a == b
  {
    var s := ToString(a);
    var t := ToString(b);
    sign := Strcmp(s, t);
    TextOrder(a, b);
    LexicographicZero(a, b);
    SameDataExactly(a, b);
  }

  lemma DigitOrder(c: Digit, d: Digit)
    ensures DigitChar(c) < DigitChar(d) <==> c < d
    ensures DigitChar(c) == DigitChar(d) <==> c == d
  {
  }

  /** Text order is octet order. */
  lemma {:induction false} TextOrder(a: seq<Octet>, b: seq<Octet>)
    ensures Strcmp(Printed(a), Printed(b)) == Lexicographic(a, b)
  {
    if a != [] && b != [] {
      var x, y := Printed(a), Printed(b);
      assert x == Print1(a[0]) + Printed(a[1..]) && y == Print1(b[0]) + Printed(b[1..]);
      assert x[1..][1..] == Printed(a[1..]) && y[1..][1..] == Printed(b[1..]);
      DigitOrder(a[0] / 16, b[0] / 16);
      DigitOrder(a[0] % 16, b[0] % 16);
      TextOrder(a[1..], b[1..]);
    }
  }

  lemma {:induction false} LexicographicZero(a: seq<Octet>, b: seq<Octet>)
    ensures Lexicographic(a, b) == 0 <==> a == b
  {
    if a != [] && b != [] {
      LexicographicZero(a[1..], b[1..]);
      assert a == [a[0]] + a[1..] && b == [b[0]] + b[1..];
    }
  }

  lemma {:induction false} MemcmpZero(a: seq<Octet>, b: seq<Octet>)
    requires |a| == |b|
    ensures Memcmp(a, b, |a|) == 0 <==> a == b
  {
    if a != [] {
      MemcmpZero(a[1..], b[1..]);
      assert a == [a[0]] + a[1..] && b == [b[0]] + b[1..];
    }
  }

  lemma SameDataExactly(a: seq<Octet>, b: seq<Octet>)
    ensures SameData(a, b) <==> a == b
  {
    if |a| == |b| {
      MemcmpZero(a, b);
    }
  }
}
