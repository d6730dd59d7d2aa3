/** Slash-separated paths as strings and as segment lists. */
module Paths {
  import opened Unicode
  import opened Json

  type Path = seq<Text>

  const MAX_PATH := 4096
  const MAX_SEGMENT := 255
  const THIS_DIR: Text := [46]
  const PARENT_DIR: Text := [46, 46]

  /** path.split("/") */
  function Split(s: Text): (r: Path)
    ensures |r| >= 1
    ensures forall i :: 0 <= i < |r| ==> SLASH !in r[i]
  {
    if s == [] then [[]]
    else
      var rest := Split(s[1..]);
      if s[0] == SLASH then [[]] + rest else [[s[0]] + rest[0]] + rest[1..]
  }

  /** "/".join(segments) */
  function Join(p: Path): Text
    requires p != []
  {
    if |p| == 1 then p[0] else p[0] + [SLASH] + Join(p[1..])
  }

  lemma {:induction false} JoinSplit(s: Text)
    ensures Join(Split(s)) == s
  {
    if s != [] {
      JoinSplit(s[1..]);
      var rest := Split(s[1..]);
      assert s == [s[0]] + s[1..];
      if s[0] == SLASH {
        assert Split(s)[1..] == rest;
        assert Split(s)[0] + [SLASH] + Join(rest) == s;
      } else {
        assert Split(s)[1..] == rest[1..];
      }
    }
  }

  lemma {:induction false} SplitSegment(a: Text)
    requires SLASH !in a
    ensures Split(a) == [a]
  {
    if a != [] {
      SplitSegment(a[1..]);
      assert [a[0]] + a[1..] == a;
    }
  }

  lemma {:induction false} SplitFirst(a: Text, b: Text)
    requires SLASH !in a
    ensures Split(a + [SLASH] + b) == [a] + Split(b)
  {
    var s := a + [SLASH] + b;
    if a == [] {
      assert s[0] == SLASH && s[1..] == b;
    } else {
      assert s[0] == a[0] && s[1..] == a[1..] + [SLASH] + b;
      SplitFirst(a[1..], b);
      assert [a[0]] + a[1..] == a;
    }
  }

  lemma {:induction false} SplitJoin(p: Path)
    requires p != [] && forall i :: 0 <= i < |p| ==> SLASH !in p[i]
    ensures Split(Join(p)) == p
  {
    if |p| == 1 {
      SplitSegment(p[0]);
    } else {
      SplitJoin(p[1..]);
      SplitFirst(p[0], Join(p[1..]));
      assert [p[0]] + p[1..] == p;
    }
  }

  /** The string test for "p is a directory above q" is exactly proper prefix of the
      segment lists, for all strings. */
  lemma {:induction false} PrefixBySegments(p: Text, q: Text)
    ensures StartsWith(q, p + [SLASH]) <==> Split(p) < Split(q)
  {
    var p', ps, qs := p + [SLASH], Split(p), Split(q);
    if q == [] {
      assert !(ps < qs);
    } else if p == [] {
      assert p' == [SLASH];
      if q[0] == SLASH {
        assert qs == [[]] + Split(q[1..]);
      } else {
        assert qs[0] != [];
      }
    } else {
      assert p'[0] == p[0] && p'[1..] == p[1..] + [SLASH];
      PrefixBySegments(p[1..], q[1..]);
      var pr, qr := Split(p[1..]), Split(q[1..]);
      if p[0] == q[0] {
        StartsTail(q, p');
        if p[0] == SLASH {
          ConsSegment([], pr, qr);
        } else {
          ConsFirst(p[0], pr, qr);
        }
      } else {
        assert ps[0] != qs[0] by {
          assert ps[0] != [] ==> p[0] != SLASH && ps[0][0] == p[0];
          assert qs[0] != [] ==> q[0] != SLASH && qs[0][0] == q[0];
        }
        assert !StartsWith(q, p');
      }
    }
  }

  lemma StartsTail(q: Text, p: Text)
    requires q != [] && p != [] && q[0] == p[0]
    ensures StartsWith(q, p) <==> StartsWith(q[1..], p[1..])
  {
    if StartsWith(q[1..], p[1..]) {
      forall i | 0 <= i < |p| ensures q[i] == p[i] {
        if i > 0 { assert q[1..][i - 1] == p[1..][i - 1]; }
      }
    }
  }

  lemma ConsSegment(a: Text, p: Path, q: Path)
    ensures ([a] + p) < ([a] + q) <==> p < q
  {
    if p < q {
      assert [a] + p == ([a] + q)[..|p| + 1];
    }
    if ([a] + p) < ([a] + q) {
      assert p == ([a] + p)[1..] && q == ([a] + q)[1..];
      assert p == q[..|p|];
    }
  }

  lemma ConsFirst(c: CodePoint, p: Path, q: Path)
    requires p != [] && q != []
    ensures ([[c] + p[0]] + p[1..]) < ([[c] + q[0]] + q[1..]) <==> p < q
  {
    var p', q' := [[c] + p[0]] + p[1..], [[c] + q[0]] + q[1..];
    assert p'[0][1..] == p[0] && q'[0][1..] == q[0];
    if p' < q' {
      forall i | 0 <= i < |p| ensures p[i] == q[i] {
        if i > 0 { assert p'[i] == p[i] && q'[i] == q[i]; }
      }
      assert p == q[..|p|];
    }
    if p < q {
      assert p[0] == q[0];
      assert p' == q'[..|p|];
    }
  }

  /* -- what a manifest may name ------------------------------------------------------ */

  /** unicodedata.category(c) == "Cc" */
  predicate Control(c: CodePoint) {
    c < 32 || 127 <= c < 160
  }

  predicate SafeSegment(s: Text) {
    s != [] && s != THIS_DIR && s != PARENT_DIR && |s| <= MAX_SEGMENT
  }

  predicate SafePath(path: Text) {
    && path != [] && |path| <= MAX_PATH
    && path[0] != SLASH && BACKSLASH !in path
    && (forall i :: 0 <= i < |path| ==> !Control(path[i]))
    && (forall i :: 0 <= i < |Split(path)| ==> SafeSegment(Split(path)[i]))
  }

  /** _check_relative_path */
  method CheckRelativePath(path: Text) returns (ok: bool)
    ensures ok <==> SafePath(path)
  {
    if path == [] || |path| > MAX_PATH {
      return false;
    }
    if path[0] == SLASH || BACKSLASH in path {
      return false;
    }
    if exists i :: 0 <= i < |path| && Control(path[i]) {
      return false;
    }
    var segments := Split(path);
    for i := 0 to |segments|
      invariant forall k :: 0 <= k < i ==> SafeSegment(segments[k])
    {
      if !SafeSegment(segments[i]) {
        return false;
      }
    }
    return true;
  }

  /** Lexical resolution of a relative path under a directory without symlinks. */
  function Resolve(base: Path, segments: Path): Path
    decreases |segments|
  {
    if segments == [] then base
    else if segments[0] == [] || segments[0] == THIS_DIR then Resolve(base, segments[1..])
    else if segments[0] == PARENT_DIR then
      Resolve(if base == [] then [] else base[..|base| - 1], segments[1..])
    else Resolve(base + [segments[0]], segments[1..])
  }

  /** A safe path resolves to itself, strictly below whatever it is joined to. */
  lemma SafeResolves(base: Path, path: Text)
    requires SafePath(path)
    ensures Resolve(base, Split(path)) == base + Split(path)
    ensures base < Resolve(base, Split(path))
  {
    PlainResolves(base, Split(path));
  }

  lemma {:induction false} PlainResolves(base: Path, segments: Path)
    requires forall i :: 0 <= i < |segments| ==> SafeSegment(segments[i])
    ensures Resolve(base, segments) == base + segments
    decreases |segments|
  {
    if segments == [] {
      assert base + segments == base;
    } else {
      PlainResolves(base + [segments[0]], segments[1..]);
      assert base + [segments[0]] + segments[1..] == base + segments;
    }
  }
}
