/** Slash-separated paths: splitting into components and joining two paths. */
module HierarchicalPaths {

  predicate SlashFree(s: string) {
    forall i | 0 <= i < |s| :: s[i] != '/'
  }

  /** Components, each closed by a slash. */
  ghost function Joined(parts: seq<string>): string {
    if parts == [] then "" else parts[0] + "/" + Joined(parts[1..])
  }

  ghost predicate AllSlashFree(parts: seq<string>) {
    forall i | 0 <= i < |parts| :: SlashFree(parts[i])
  }

  /** The one way to write `path` as a slash followed by closed components. */
  ghost predicate Splits(path: string, parts: seq<string>) {
    AllSlashFree(parts) && path == "/" + Joined(parts)
  }

  /** A path with its closing slash. */
  ghost function Closed(path: string): string {
    if path != "" && path[|path| - 1] == '/' then path else path + "/"
  }

  lemma {:induction false} JoinedConcat(a: seq<string>, b: seq<string>)
    ensures Joined(a + b) == Joined(a) + Joined(b)
  {
    if a == [] {
      assert a + b == b;
    } else {
      assert (a + b)[1..] == a[1..] + b;
      JoinedConcat(a[1..], b);
    }
  }

  lemma {:induction false} JoinedCloses(parts: seq<string>)
    requires parts != []
    ensures Joined(parts) != "" && Joined(parts)[|Joined(parts)| - 1] == '/'
  {
    if |parts| > 1 {
      JoinedCloses(parts[1..]);
    }
  }

  /** The first slash ends the first component. */
  lemma FirstSlash(a: string, x: string, b: string, y: string)
    requires SlashFree(a) && SlashFree(b) && a + "/" + x == b + "/" + y
    ensures a == b && x == y
  {
    var s := a + "/" + x;
    assert s[|a|] == '/' && s[|b|] == '/';
    assert forall i | 0 <= i < |a| :: s[i] == a[i] && a[i] != '/';
    assert forall i | 0 <= i < |b| :: s[i] == b[i] && b[i] != '/';
    assert a == s[..|a|] && b == s[..|b|];
    assert x == s[|a| + 1..] && y == s[|b| + 1..];
  }

  lemma {:induction false} JoinedInjective(a: seq<string>, b: seq<string>)
    requires AllSlashFree(a) && AllSlashFree(b) && Joined(a) == Joined(b)
    ensures a == b
  {
    if a != [] && b != [] {
      FirstSlash(a[0], Joined(a[1..]), b[0], Joined(b[1..]));
      JoinedInjective(a[1..], b[1..]);
      assert a == [a[0]] + a[1..] && b == [b[0]] + b[1..];
    }
  }

  /** A path has at most one list of components. */
  lemma SplitsUniquely(path: string, a: seq<string>, b: seq<string>)
    requires Splits(path, a) && Splits(path, b)
    ensures a == b
  {
    assert Joined(a) == path[1..] && Joined(b) == path[1..];
    JoinedInjective(a, b);
  }

  /** The position of the first slash at or behind `pos`, or the length of the string if there is none. */
  method Find(s: string, pos: nat) returns (at: nat)
    requires pos <= |s|
    ensures pos <= at <= |s| && (at < |s| ==> s[at] == '/') && SlashFree(s[pos..at])
  {
    at := pos;
    while at < |s| && s[at] != '/'
      invariant pos <= at <= |s| && SlashFree(s[pos..at])
    {
      assert s[pos..at + 1] == s[pos..at] + [s[at]];
      at := at + 1;
    }
  }

  class HierarchicalPath {
    var path: string
    var partials: seq<string>

    constructor ()
      ensures path == "" && partials == []
    {
      path, partials := "", [];
    }

    /**
     * Parse the stored path, appending its components; false stands for the malformed-path exception. A path of
     * at most one character is accepted as it is, whatever that character.
     */
    method ParsePath() returns (ok: bool)
      modifies this
      ensures ok <==> |old(path)| <= 1 || old(path)[0] == '/'
      ensures !ok || |old(path)| <= 1 ==> path == old(path) && partials == old(partials)
      ensures old(path) != "" && old(path)[0] == '/' ==>
        && path == Closed(old(path)) && old(partials) <= partials && Splits(path, partials[|old(partials)|..])
    {
      if |path| <= 1 {
        assert path != "" && path[0] == '/' ==> path == "/" + Joined([]);
        return true;
      }
      if path[0] != '/' {
        return false;
      }
      if path[|path| - 1] != '/' {
        path := path + "/";
      }
      SplitLoop();
      ok := true;
    }

    method SplitLoop()
      requires |path| > 1 && path[0] == '/' && path[|path| - 1] == '/'
      modifies this`partials
      ensures old(partials) <= partials && Splits(path, partials[|old(partials)|..])
    {
      var pos := 1;
      ghost var parts: seq<string> := [];
      while true
        invariant 1 <= pos < |path|
        invariant partials == old(partials) + parts && AllSlashFree(parts) && path[1..pos] == Joined(parts)
        decreases |path| - pos
      {
        var at := Find(path, pos);
        ClosingSlash(path, pos, at);
        var partial := path[pos..at];
        NextPart(path, pos, at, parts);
        partials := partials + [partial];
        parts := parts + [partial];
        pos := at + 1;
        if pos >= |path| {
          assert path == "/" + path[1..pos];
          assert partials[|old(partials)|..] == parts;
          break;
        }
      }
    }

    /** Replace the path and its components. */
    method SetPath(newPath: string) returns (ok: bool)
      modifies this
      ensures ok <==> |newPath| <= 1 || newPath[0] == '/'
      ensures newPath != "" && newPath[0] == '/' ==> path == Closed(newPath) && Splits(path, partials)
    {
      path, partials := newPath, [];
      ok := ParsePath();
    }
  }

  /** In a closed path a next slash is always found. */
  lemma ClosingSlash(path: string, pos: nat, at: nat)
    requires pos < |path| && pos <= at <= |path| && path[|path| - 1] == '/' && SlashFree(path[pos..at])
    ensures at < |path|
  {
    assert forall i | pos <= i < at :: path[i] == path[pos..at][i - pos];
  }

  lemma NextPart(path: string, pos: nat, at: nat, parts: seq<string>)
    requires 1 <= pos <= at < |path| && path[at] == '/' && path[1..pos] == Joined(parts)
    ensures path[1..at + 1] == Joined(parts + [path[pos..at]])
  {
    var part := path[pos..at];
    JoinedConcat(parts, [part]);
    assert Joined([part]) == part + "/";
    assert path[1..at + 1] == path[1..pos] + (path[pos..at] + "/");
  }

  /** Append a path to another in place, with exactly one slash between them where either side has one. */
  method AppendPaths(path1: string, path2: string) returns (path: string)
    requires path1 != ""
    ensures path == Appended(path1, path2)
  {
    path := path1;
    if path[|path| - 1] == '/' {
      if path2 != "" && path2[0] == '/' {
        path := path[..|path| - 1];
      }
    } else {
      if path2 == "" || path2[0] != '/' {
        path := path + "/";
      }
    }
    path := path + path2;
  }

  ghost function Rooted(path: string): string {
    if path != "" && path[0] == '/' then path else "/" + path
  }

  /** What lies between the closing slash of the first path and the leading slash of the second is one slash. */
  ghost function Appended(path1: string, path2: string): string
    requires path1 != ""
  {
    if path1[|path1| - 1] == '/' then path1 + Rooted(path2)[1..] else path1 + Rooted(path2)
  }

  /** The components of an appended path are those of the first, then those of the second with its leading slash. */
  lemma AppendedSplits(p: string, q: string, ps: seq<string>, qs: seq<string>)
    requires p != "" && p[0] == '/' && Splits(Closed(p), ps) && Splits(Closed(Rooted(q)), qs)
    ensures Appended(p, q)[0] == '/' && Splits(Closed(Appended(p, q)), ps + qs)
  {
    JoinedConcat(ps, qs);
    ClosedAppended(p, Rooted(q));
    assert Closed(Rooted(q))[1..] == Joined(qs);
    assert "/" + (Joined(ps) + Joined(qs)) == ("/" + Joined(ps)) + Joined(qs);
  }

  lemma ClosedAppended(p: string, r: string)
    requires p != "" && r != "" && r[0] == '/'
    ensures Closed(if p[|p| - 1] == '/' then p + r[1..] else p + r) == Closed(p) + Closed(r)[1..]
  {
    if p[|p| - 1] == '/' {
      if |r| == 1 {
        assert r[1..] == "" && p + r[1..] == p && Closed(r)[1..] == "";
      } else {
        var s := p + r[1..];
        assert s[|s| - 1] == r[|r| - 1];
        assert (p + r[1..]) + "/" == p + (r + "/")[1..];
      }
    } else {
      var s := p + r;
      assert s[|s| - 1] == r[|r| - 1];
      assert p + r == (p + "/") + r[1..];
      assert (p + r) + "/" == (p + "/") + (r + "/")[1..];
    }
  }

  /** The canonical path is already closed, so parsing it again changes nothing. */
  lemma CanonicalIsFixed(path: string)
    ensures Closed(Closed(path)) == Closed(path)
  {
  }

  /** Parse twice: the same canonical path, the same components. */
  method ParseAgain(text: string) returns (first: HierarchicalPath, second: HierarchicalPath)
    requires text != "" && text[0] == '/'
    ensures first.path == second.path == "/" + Joined(first.partials) && first.partials == second.partials
  {
    first := new HierarchicalPath();
    second := new HierarchicalPath();
    var ok := first.SetPath(text);
    ok := second.SetPath(first.path);
    CanonicalIsFixed(text);
    SplitsUniquely(first.path, first.partials, second.partials);
  }

  /** Append two paths and parse: the components one after the other. */
  method ParseAppended(p: string, q: string)
    returns (whole: HierarchicalPath, left: HierarchicalPath, right: HierarchicalPath)
    requires p != "" && p[0] == '/'
    ensures left.path == Closed(p) && right.path == Closed(Rooted(q)) && Splits(left.path, left.partials)
    ensures Splits(right.path, right.partials) && whole.partials == left.partials + right.partials
  {
    whole := new HierarchicalPath();
    left := new HierarchicalPath();
    right := new HierarchicalPath();
    var ok := left.SetPath(p);
    ok := right.SetPath(if q != "" && q[0] == '/' then q else "/" + q);
    var joined := AppendPaths(p, q);
    AppendedSplits(p, q, left.partials, right.partials);
    ok := whole.SetPath(joined);
    SplitsUniquely(whole.path, whole.partials, left.partials + right.partials);
  }
}
