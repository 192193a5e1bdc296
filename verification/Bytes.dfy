/** Vocabulary shared by the models: octets, options and event states. */
module Bytes {

  /** An unsigned 8-bit cell of a message block. */
  type Octet = x: int | 0 <= x < 256

  datatype Option<+T> = None | Some(value: T)

  function Min(a: nat, b: nat): nat {
    if a < b then a else b
  }

  function Max(a: nat, b: nat): nat {
    if a < b then b else a
  }

  /** Concatenation of the live parts of a chain of blocks. */
  ghost function Flatten<T>(pieces: seq<seq<T>>): seq<T> {
    if pieces == [] then [] else pieces[0] + Flatten(pieces[1..])
  }

  function Reversed<T>(s: seq<T>): (r: seq<T>)
    ensures |r| == |s| && forall i | 0 <= i < |s| :: r[i] == s[|s| - 1 - i]
  {
    seq(|s|, i requires 0 <= i < |s| => s[|s| - 1 - i])
  }

  lemma ReversedTwice<T>(s: seq<T>)
    ensures Reversed(Reversed(s)) == s
  {
  }

  lemma Assoc<T>(a: seq<T>, b: seq<T>, c: seq<T>)
    ensures (a + b) + c == a + (b + c)
  {
  }

  lemma AssocFour<T>(a: seq<T>, b: seq<T>, c: seq<T>, d: seq<T>)
    ensures a + (b + c + d) == a + b + c + d
  {
    Assoc(a, b + c, d);
    Assoc(a, b, c);
  }

  lemma NoFront<T>(a: seq<T>)
    ensures [] + a == a
  {
  }

  lemma Cut<T>(a: seq<T>, b: seq<T>)
    ensures (a + b)[..|a|] == a && (a + b)[|a|..] == b
  {
  }

  lemma CutThree<T>(a: seq<T>, b: seq<T>, c: seq<T>)
    ensures var s := (a + b) + c; s[..|a|] == a && s[|a|..|a| + |b|] == b && s[|a| + |b|..] == c
  {
  }

  lemma CutTwice<T>(s: seq<T>, i: nat, j: nat)
    requires i <= j <= |s|
    ensures s[..i] + s[i..j] + s[j..] == s
  {
    assert s[..i] + s[i..j] == s[..j];
  }

  lemma TakeAll<T>(s: seq<T>)
    ensures s[..|s|] == s && s[..0] == []
  {
  }

  /** The last piece is everything exactly when those before it are empty. */
  lemma LastIsAll<T>(pieces: seq<seq<T>>)
    requires pieces != []
    ensures var n := |pieces| - 1; Flatten(pieces[..n]) == [] <==> pieces[n] == Flatten(pieces)
  {
    FlattenLast(pieces);
    var n := |pieces| - 1;
    if Flatten(pieces[..n]) == [] {
      NoFront(pieces[n]);
    }
  }

  lemma Longer<T>(s: seq<T>, i: nat)
    requires i < |s|
    ensures s[..i + 1] == s[..i] + [s[i]]
  {
  }

  lemma {:induction false} FlattenConcat<T>(a: seq<seq<T>>, b: seq<seq<T>>)
    ensures Flatten(a + b) == Flatten(a) + Flatten(b)
  {
    if a == [] {
      assert a + b == b;
    } else {
      FlattenConcat(a[1..], b);
      assert (a + b)[1..] == a[1..] + b && (a + b)[0] == a[0];
      Assoc(a[0], Flatten(a[1..]), Flatten(b));
    }
  }

  lemma FlattenOne<T>(a: seq<T>)
    ensures Flatten([a]) == a
  {
    assert Flatten([a]) == a + Flatten([]);
  }

  lemma FlattenSnoc<T>(a: seq<seq<T>>, x: seq<T>)
    ensures Flatten(a + [x]) == Flatten(a) + x
  {
    FlattenConcat(a, [x]);
    FlattenOne(x);
  }

  lemma FlattenLast<T>(a: seq<seq<T>>)
    requires a != []
    ensures Flatten(a[..|a| - 1]) + a[|a| - 1] == Flatten(a)
  {
    assert a == a[..|a| - 1] + [a[|a| - 1]];
    FlattenSnoc(a[..|a| - 1], a[|a| - 1]);
  }

  /** Taking one more piece appends it, and never takes more than there is. */
  lemma FlattenTake<T>(a: seq<seq<T>>, k: nat)
    requires k < |a|
    ensures Flatten(a[..k + 1]) == Flatten(a[..k]) + a[k]
    ensures |Flatten(a[..k])| + |a[k]| <= |Flatten(a)|
  {
    assert a[..k + 1] == a[..k] + [a[k]];
    FlattenSnoc(a[..k], a[k]);
    assert a == a[..k + 1] + a[k + 1..];
    FlattenConcat(a[..k + 1], a[k + 1..]);
  }

  /** memcpy: overwrite `|bytes|` cells of `target` from offset `at`, and nothing else. */
  method Copy(target: array<Octet>, at: nat, bytes: seq<Octet>)
    requires at + |bytes| <= target.Length
    modifies target
    ensures target[..at] == old(target[..at])
    ensures target[at..at + |bytes|] == bytes
    ensures target[at + |bytes|..] == old(target[at + |bytes|..])
  {
    for i := 0 to |bytes|
      invariant forall k | 0 <= k < target.Length ::
          target[k] == if at <= k < at + i then bytes[k - at] else old(target[k])
    {
      target[at + i] := bytes[i];
    }
  }
}
