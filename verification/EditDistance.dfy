/** Levenshtein distance by dynamic programming, and why the number it computes is a distance. */
module EditDistance {

  function Min(a: int, b: int): int {
    if b < a then b else a
  }

  /** The least of three values, taken in the order the comparisons are made. */
  function Minimum(a: int, b: int, c: int): int {
    Min(Min(a, b), c)
  }

  function Cost(a: char, b: char): nat {
    if a == b then 0 else 1
  }

  /** Everything but the last character. */
  function Init(s: string): string
    requires s != []
  {
    s[..|s| - 1]
  }

  function Last(s: string): char
    requires s != []
  {
    s[|s| - 1]
  }

  /** The recurrence over prefixes that the matrix tabulates. */
  function Dist(s: string, t: string): nat
    decreases |s| + |t|
  {
    if s == [] then |t|
    else if t == [] then |s|
    else Minimum(Dist(Init(s), t) + 1, Dist(s, Init(t)) + 1, Dist(Init(s), Init(t)) + Cost(Last(s), Last(t)))
  }

  /** The value of a cell from the three cells it is computed from. */
  lemma NextCell(s: string, t: string, i: nat, j: nat, above: nat, left: nat, corner: nat)
    requires 0 < i <= |s| && 0 < j <= |t|
    requires above == Dist(s[..i - 1], t[..j]) && left == Dist(s[..i], t[..j - 1]) &&
        corner == Dist(s[..i - 1], t[..j - 1])
    ensures Minimum(above + 1, left + 1, corner + Cost(s[i - 1], t[j - 1])) == Dist(s[..i], t[..j])
  {
    InitOfPrefix(s, i);
    InitOfPrefix(t, j);
  }

  lemma InitOfPrefix(s: string, i: nat)
    requires 0 < i <= |s|
    ensures Init(s[..i]) == s[..i - 1] && Last(s[..i]) == s[i - 1]
  {
  }

  /** The matrix algorithm: cell (i, j) ends up holding the distance between the first i and the first j characters. */
  method LD(s: string, t: string) returns (distance: nat)
    ensures distance == Dist(s, t)
  {
    var n, m := |s|, |t|;
    if n == 0 {
      return m;
    }
    if m == 0 {
      return n;
    }
    var d := new nat[n + 1, m + 1];
    FillBorders(d, n, m);
    for i := 1 to n + 1
      invariant forall a {:trigger d[a, 0]} | 0 <= a <= n :: d[a, 0] == a
      invariant forall a, b {:trigger d[a, b]} | 0 <= a < i && 0 <= b <= m :: d[a, b] == Dist(s[..a], t[..b])
    {
      FillRow(d, s, t, i);
    }
    assert s[..n] == s && t[..m] == t;
    distance := d[n, m];
  }

  /** The distances to and from the empty prefix. */
  method FillBorders(d: array2<nat>, n: nat, m: nat)
    requires d.Length0 == n + 1 && d.Length1 == m + 1
    modifies d
    ensures forall a {:trigger d[a, 0]} | 0 <= a <= n :: d[a, 0] == a
    ensures forall b {:trigger d[0, b]} | 0 <= b <= m :: d[0, b] == b
  {
    for i := 0 to n + 1
      invariant forall a | 0 <= a < i :: d[a, 0] == a
    {
      d[i, 0] := i;
    }
    for j := 0 to m + 1
      invariant forall a | 0 <= a <= n :: d[a, 0] == a
      invariant forall b | 0 <= b < j :: d[0, b] == b
    {
      d[0, j] := j;
    }
  }

  /** One row from the row above. */
  method FillRow(d: array2<nat>, s: string, t: string, i: nat)
    requires d.Length0 == |s| + 1 && d.Length1 == |t| + 1 && 1 <= i <= |s| && d[i, 0] == i
    requires forall b {:trigger d[i - 1, b]} | 0 <= b <= |t| :: d[i - 1, b] == Dist(s[..i - 1], t[..b])
    modifies d
    ensures forall b {:trigger d[i, b]} | 0 <= b <= |t| :: d[i, b] == Dist(s[..i], t[..b])
    ensures forall a, b {:trigger d[a, b]} | 0 <= a <= |s| && 0 <= b <= |t| && a != i :: d[a, b] == old(d[a, b])
    ensures d[i, 0] == i
  {
    for j := 1 to |t| + 1
      invariant forall a, b {:trigger d[a, b]} | 0 <= a <= |s| && 0 <= b <= |t| && a != i :: d[a, b] == old(d[a, b])
      invariant d[i, 0] == i && forall b {:trigger d[i, b]} | 0 <= b < j :: d[i, b] == Dist(s[..i], t[..b])
    {
      var cost := if s[i - 1] == t[j - 1] then 0 else 1;
      NextCell(s, t, i, j, d[i - 1, j], d[i, j - 1], d[i - 1, j - 1]);
      d[i, j] := Minimum(d[i - 1, j] + 1, d[i, j - 1] + 1, d[i - 1, j - 1] + cost);
    }
  }

  // ----- Single edits and edit scripts -----

  datatype Edit = Insert(at: nat, c: char) | Delete(at: nat) | Substitute(at: nat, c: char)

  predicate Applies(e: Edit, s: string) {
    if e.Insert? then e.at <= |s| else e.at < |s|
  }

  function ApplyEdit(e: Edit, s: string): string
    requires Applies(e, s)
  {
    match e
    case Insert(at, c) => s[..at] + [c] + s[at..]
    case Delete(at) => s[..at] + s[at + 1..]
    case Substitute(at, c) => s[at := c]
  }

  /** A script of single edits at arbitrary positions that turns `s` into `t`. */
  ghost predicate Transforms(script: seq<Edit>, s: string, t: string)
    decreases |script|
  {
    if script == [] then s == t
    else Applies(script[0], s) && Transforms(script[1..], ApplyEdit(script[0], s), t)
  }

  // ----- Laws of the distance -----

  lemma {:induction false} DistBounds(s: string, t: string)
    ensures |s| - |t| <= Dist(s, t) && |t| - |s| <= Dist(s, t)
    ensures Dist(s, t) <= if |s| < |t| then |t| else |s|
    decreases |s| + |t|
  {
    if s != [] && t != [] {
      DistBounds(Init(s), t);
      DistBounds(s, Init(t));
      DistBounds(Init(s), Init(t));
    }
  }

  lemma {:induction false} DistSymmetric(s: string, t: string)
    ensures Dist(s, t) == Dist(t, s)
    decreases |s| + |t|
  {
    if s != [] && t != [] {
      DistSymmetric(Init(s), t);
      DistSymmetric(s, Init(t));
      DistSymmetric(Init(s), Init(t));
    }
  }

  lemma {:induction false} DistZero(s: string, t: string)
    ensures Dist(s, t) == 0 <==> s == t
    decreases |s| + |t|
  {
    if s != [] && t != [] {
      DistZero(Init(s), Init(t));
      assert s == Init(s) + [Last(s)] && t == Init(t) + [Last(t)];
    }
  }

  /** One more character on either side changes the distance by at most one. */
  lemma OneStep(s: string, t: string)
    ensures s != [] ==> Dist(s, t) <= Dist(Init(s), t) + 1
    ensures t != [] ==> Dist(s, t) <= Dist(s, Init(t)) + 1
    ensures s != [] && t != [] ==> Dist(s, t) <= Dist(Init(s), Init(t)) + Cost(Last(s), Last(t))
  {
    DistBounds(s, t);
    if s != [] && t == [] { assert Dist(Init(s), t) == |s| - 1; }
    if s == [] && t != [] { assert Dist(s, Init(t)) == |t| - 1; }
  }

  lemma {:induction false} Triangle(s: string, t: string, u: string)
    ensures Dist(s, u) <= Dist(s, t) + Dist(t, u)
    decreases |s| + |t| + |u|
  {
    if s == [] || t == [] || u == [] {
      DistBounds(s, t); DistBounds(t, u); DistBounds(s, u);
    } else {
      OneStep(s, u);
      if Dist(s, t) == Dist(Init(s), t) + 1 {
        Triangle(Init(s), t, u);
      } else if Dist(t, u) == Dist(t, Init(u)) + 1 {
        Triangle(s, t, Init(u));
      } else if Dist(s, t) == Dist(s, Init(t)) + 1 {
        if Dist(t, u) == Dist(Init(t), u) + 1 {
          Triangle(s, Init(t), u);
        } else {
          Triangle(s, Init(t), Init(u));
        }
      } else if Dist(t, u) == Dist(Init(t), u) + 1 {
        Triangle(Init(s), Init(t), u);
      } else {
        Triangle(Init(s), Init(t), Init(u));
      }
    }
  }

  /** A common suffix costs nothing. */
  lemma {:induction false} CommonSuffix(x: string, y: string, z: string)
    ensures Dist(x + z, y + z) <= Dist(x, y)
    decreases |z|
  {
    if z == [] {
      assert x + z == x && y + z == y;
    } else {
      OneStep(x + z, y + z);
      assert Init(x + z) == x + Init(z) && Init(y + z) == y + Init(z);
      CommonSuffix(x, y, Init(z));
    }
  }

  /** Growing or shrinking a prefix by one character, under any suffix, moves a string by at most one. */
  lemma OneMore(x: string, c: char, z: string)
    ensures Dist(x + z, x + [c] + z) <= 1 && Dist(x + [c] + z, x + z) <= 1
  {
    DistZero(x, x);
    assert Init(x + [c]) == x;
    OneStep(x, x + [c]);
    CommonSuffix(x, x + [c], z);
    DistSymmetric(x + z, x + [c] + z);
  }

  lemma OneOther(x: string, a: char, b: char, z: string)
    ensures Dist(x + [a] + z, x + [b] + z) <= 1
  {
    DistZero(x, x);
    assert Init(x + [a]) == x && Init(x + [b]) == x;
    OneStep(x + [a], x + [b]);
    CommonSuffix(x + [a], x + [b], z);
  }

  /** A single edit anywhere moves a string by at most one. */
  lemma EditIsShort(e: Edit, s: string)
    requires Applies(e, s)
    ensures Dist(s, ApplyEdit(e, s)) <= 1
  {
    var x := s[..e.at];
    match e
    case Insert(at, c) =>
      OneMore(x, c, s[at..]);
      assert s == x + s[at..];
    case Delete(at) =>
      OneMore(x, s[at], s[at + 1..]);
      Around(s, at, s[at]);
    case Substitute(at, c) =>
      OneOther(x, s[at], c, s[at + 1..]);
      Around(s, at, c);
  }

  lemma Around(s: string, at: nat, c: char)
    requires at < |s|
    ensures s == s[..at] + [s[at]] + s[at + 1..] && s[at := c] == s[..at] + [c] + s[at + 1..]
  {
  }

  /** No script is shorter than the distance. */
  lemma {:induction false} ScriptsAreNoShorter(script: seq<Edit>, s: string, t: string)
    requires Transforms(script, s, t)
    ensures Dist(s, t) <= |script|
    decreases |script|
  {
    if script == [] {
      DistZero(s, t);
    } else {
      var next := ApplyEdit(script[0], s);
      EditIsShort(script[0], s);
      ScriptsAreNoShorter(script[1..], next, t);
      Triangle(s, next, t);
    }
  }

  lemma {:induction false} TransformsConcat(a: seq<Edit>, b: seq<Edit>, s: string, t: string, u: string)
    requires Transforms(a, s, t) && Transforms(b, t, u)
    ensures Transforms(a + b, s, u)
    decreases |a|
  {
    if a == [] {
      assert a + b == b;
    } else {
      TransformsConcat(a[1..], b, ApplyEdit(a[0], s), t, u);
      assert (a + b)[1..] == a[1..] + b;
    }
  }

  lemma OneEdit(e: Edit, s: string)
    requires Applies(e, s)
    ensures Transforms([e], s, ApplyEdit(e, s))
  {
    assert Transforms([], ApplyEdit(e, s), ApplyEdit(e, s));
  }

  /** A script that leaves the last character alone works on the longer string too. */
  lemma {:induction false} TransformsUnderSuffix(script: seq<Edit>, s: string, t: string, c: char)
    requires Transforms(script, s, t)
    ensures Transforms(script, s + [c], t + [c])
    decreases |script|
  {
    if script != [] {
      var e := script[0];
      TransformsUnderSuffix(script[1..], ApplyEdit(e, s), t, c);
      assert ApplyEdit(e, s + [c]) == ApplyEdit(e, s) + [c];
    }
  }

  lemma ExtendByDelete(rest: seq<Edit>, s: string, t: string)
    requires s != [] && Transforms(rest, Init(s), t)
    ensures Transforms([Delete(|s| - 1)] + rest, s, t)
  {
    var e := Delete(|s| - 1);
    assert ApplyEdit(e, s) == Init(s);
    OneEdit(e, s);
    TransformsConcat([e], rest, s, Init(s), t);
  }

  lemma ExtendByInsert(rest: seq<Edit>, s: string, t: string)
    requires t != [] && Transforms(rest, s, Init(t))
    ensures Transforms(rest + [Insert(|t| - 1, Last(t))], s, t)
  {
    var e := Insert(|t| - 1, Last(t));
    assert ApplyEdit(e, Init(t)) == t;
    OneEdit(e, Init(t));
    TransformsConcat(rest, [e], s, Init(t), t);
  }

  lemma ExtendBySubstitute(rest: seq<Edit>, s: string, t: string)
    requires s != [] && t != [] && Transforms(rest, Init(s), Init(t))
    ensures Transforms(rest + [Substitute(|t| - 1, Last(t))], s, t)
  {
    var e, mid := Substitute(|t| - 1, Last(t)), Init(t) + [Last(s)];
    TransformsUnderSuffix(rest, Init(s), Init(t), Last(s));
    assert s == Init(s) + [Last(s)];
    assert ApplyEdit(e, mid) == t;
    OneEdit(e, mid);
    TransformsConcat(rest, [e], s, mid, t);
  }

  lemma ExtendByKeep(rest: seq<Edit>, s: string, t: string)
    requires s != [] && t != [] && Last(s) == Last(t) && Transforms(rest, Init(s), Init(t))
    ensures Transforms(rest, s, t)
  {
    TransformsUnderSuffix(rest, Init(s), Init(t), Last(s));
    assert s == Init(s) + [Last(s)] && t == Init(t) + [Last(t)];
  }

  /** A script of exactly the distance exists. */
  lemma {:induction false} ShortestScript(s: string, t: string) returns (script: seq<Edit>)
    ensures Transforms(script, s, t) && |script| == Dist(s, t)
    decreases |s| + |t|
  {
    if s == [] && t == [] {
      script := [];
    } else if t == [] || (s != [] && Dist(s, t) == Dist(Init(s), t) + 1) {
      var rest := ShortestScript(Init(s), t);
      ExtendByDelete(rest, s, t);
      script := [Delete(|s| - 1)] + rest;
    } else if s == [] || Dist(s, t) == Dist(s, Init(t)) + 1 {
      var rest := ShortestScript(s, Init(t));
      ExtendByInsert(rest, s, t);
      script := rest + [Insert(|t| - 1, Last(t))];
    } else {
      script := ShortestScript(Init(s), Init(t));
      if Last(s) == Last(t) {
        ExtendByKeep(script, s, t);
      } else {
        ExtendBySubstitute(script, s, t);
        script := script + [Substitute(|t| - 1, Last(t))];
      }
    }
  }

  /** The number computed is the length of the shortest edit script: one exists, and none is shorter. */
  lemma DistIsShortest(s: string, t: string)
    ensures exists script :: Transforms(script, s, t) && |script| == Dist(s, t)
    ensures forall script :: Transforms(script, s, t) ==> Dist(s, t) <= |script|
  {
    var best := ShortestScript(s, t);
    forall script | Transforms(script, s, t)
      ensures Dist(s, t) <= |script|
    {
      ScriptsAreNoShorter(script, s, t);
    }
  }
}
