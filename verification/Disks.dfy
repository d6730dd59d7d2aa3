/** A file system as a map from segment lists to nodes, and the tree of an artifact. */
module Disks {
  import opened Unicode
  import opened Json
  import opened Paths

  datatype Node = File(content: Bytes) | Dir

  type Tree = map<Path, Node>

  function Parent(p: Path): Path {
    if p == [] then [] else p[..|p| - 1]
  }

  function Prefixes(p: Path): (r: set<Path>)
    ensures forall q :: q in r <==> q <= p
  {
    var r := set i | 0 <= i <= |p| :: p[..i];
    assert forall q :: q <= p ==> q == p[..|q|];
    r
  }

  /** The root is a directory and every node hangs below a directory. */
  ghost predicate Rooted(t: Tree) {
    && [] in t && t[[]].Dir?
    && forall p :: p in t && p != [] ==> Parent(p) in t && t[Parent(p)].Dir?
  }

  /** No name on the disk holds a slash. */
  ghost predicate Named(t: Tree) {
    forall p, i :: p in t && 0 <= i < |p| ==> SLASH !in p[i]
  }

  /** mkdir -p would not meet a file. */
  predicate CanHold(t: Tree, p: Path) {
    forall q :: q in Prefixes(p) && q in t ==> t[q].Dir?
  }

  /** The effect of mkdir -p. */
  function WithDirs(t: Tree, p: Path): (r: Tree)
    ensures forall q :: q in r <==> q in t || q <= p
    ensures forall q :: q in r ==> r[q] == if q in t then t[q] else Dir
  {
    map q | q in t.Keys + Prefixes(p) :: if q in t then t[q] else Dir
  }

  lemma {:induction false} RootedPrefix(t: Tree, p: Path, q: Path)
    requires Rooted(t) && p in t && q < p
    ensures q in t && t[q].Dir?
    decreases |p|
  {
    if q != Parent(p) {
      assert q < Parent(p);
      RootedPrefix(t, Parent(p), q);
    }
  }

  lemma WithDirsRooted(t: Tree, p: Path)
    requires Rooted(t) && CanHold(t, p)
    ensures Rooted(WithDirs(t, p))
  {
    var r := WithDirs(t, p);
    assert [] <= p;
    forall q | q in r && q != [] ensures Parent(q) in r && r[Parent(q)].Dir? {
      if q !in t { assert Parent(q) <= p; }
    }
  }

  /* -- subtrees ------------------------------------------------------------------------ */

  ghost predicate Clear(t: Tree, root: Path) {
    forall q :: q in t ==> !(root <= q)
  }

  /** base with sub placed at root. */
  function Graft(base: Tree, root: Path, sub: Tree): (r: Tree)
    requires Clear(base, root)
    ensures forall q :: q in r <==> q in base || (root <= q && q[|root|..] in sub)
    ensures forall q :: q in r ==> r[q] == if root <= q then sub[q[|root|..]] else base[q]
  {
    var below := set p | p in sub :: root + p;
    assert forall q :: root <= q && q[|root|..] in sub ==> q == root + q[|root|..];
    assert forall p: Path :: (root + p)[|root|..] == p;
    map q | q in base.Keys + below :: if root <= q then sub[q[|root|..]] else base[q]
  }

  function Cut(t: Tree, root: Path): Tree {
    map q | q in t && !(root <= q) :: t[q]
  }

  function Subtree(t: Tree, root: Path): (r: Tree)
    ensures forall p :: p in r <==> root + p in t
    ensures forall p :: p in r ==> r[p] == t[root + p]
  {
    var names := set q | q in t && root <= q :: q[|root|..];
    assert forall q :: root <= q ==> q == root + q[|root|..];
    assert forall p: Path :: (root + p)[|root|..] == p;
    map p | p in names :: t[root + p]
  }

  lemma CutGraft(base: Tree, root: Path, sub: Tree)
    requires Clear(base, root)
    ensures Cut(Graft(base, root, sub), root) == base
    ensures Subtree(Graft(base, root, sub), root) == sub
  {
    hide Cut, Graft, Subtree;
    CutOfGraft(base, root, sub);
    SubtreeOfGraft(base, root, sub);
  }

  lemma CutOfGraft(base: Tree, root: Path, sub: Tree)
    requires Clear(base, root)
    ensures Cut(Graft(base, root, sub), root) == base
  {
  }

  lemma SubtreeOfGraft(base: Tree, root: Path, sub: Tree)
    requires Clear(base, root)
    ensures Subtree(Graft(base, root, sub), root) == sub
  {
    hide Subtree, Graft, Clear;
    var t := Subtree(Graft(base, root, sub), root);
    forall p: Path ensures (p in t <==> p in sub) && (p in t ==> t[p] == sub[p]) {
      GraftedAt(base, root, sub, p);
    }
    SameTrees(t, sub);
  }

  lemma GraftedAt(base: Tree, root: Path, sub: Tree, p: Path)
    requires Clear(base, root)
    ensures var g := Graft(base, root, sub);
      (root + p in g <==> p in sub) && (p in sub ==> g[root + p] == sub[p])
  {
    hide Graft;
    assert root <= root + p && (root + p)[|root|..] == p;
  }

  lemma SameTrees(a: Tree, b: Tree)
    requires forall p: Path :: (p in a <==> p in b) && (p in a ==> a[p] == b[p])
    ensures a == b
  {
  }

  lemma GraftFile(base: Tree, root: Path, sub: Tree, p: Path, c: Bytes)
    requires Clear(base, root)
    ensures Graft(base, root, sub)[root + p := File(c)] == Graft(base, root, sub[p := File(c)])
  {
    assert (root + p)[|root|..] == p;
    forall q | root <= q && q[|root|..] == p ensures q == root + p {
      assert q == root + q[|root|..];
    }
  }

  lemma PrefixChain(a: Path, b: Path, w: Path)
    requires a <= w && b <= w
    ensures a <= b || b < a
  {
    if |b| >= |a| {
      assert a == w[..|a|] == b[..|a|];
    } else {
      assert b == w[..|b|] == a[..|b|];
    }
  }

  /** Paths above root, or beside it on the way to something below it, are directories
      of the base. */
  lemma AboveRoot(base: Tree, root: Path, p: Path, q: Path)
    requires Rooted(base) && root != [] && Parent(root) in base && base[Parent(root)].Dir?
    requires q <= root + p && !(root <= q)
    ensures q in base && base[q].Dir?
  {
    PrefixChain(root, q, root + p);
    if q != Parent(root) {
      assert q < Parent(root);
      RootedPrefix(base, Parent(root), q);
    }
  }

  lemma PrefixShift(root: Path, p: Path, q: Path)
    ensures root + q <= root + p <==> q <= p
    ensures (root + q)[|root|..] == q
  {
    if root + q <= root + p {
      assert q == (root + q)[|root|..] == (root + p)[..|root| + |q|][|root|..] == p[..|q|];
    }
    if q <= p {
      assert root + q == (root + p)[..|root| + |q|];
    }
  }

  lemma GraftCanHold(base: Tree, root: Path, sub: Tree, p: Path)
    requires Clear(base, root) && Rooted(base)
    requires root != [] && Parent(root) in base && base[Parent(root)].Dir?
    ensures CanHold(Graft(base, root, sub), root + p) <==> CanHold(sub, p)
  {
    var g := Graft(base, root, sub);
    if CanHold(g, root + p) {
      forall q | q in Prefixes(p) && q in sub ensures sub[q].Dir? {
        PrefixShift(root, p, q);
        assert g[root + q] == sub[q];
      }
    }
    if CanHold(sub, p) {
      forall q | q in Prefixes(root + p) && q in g ensures g[q].Dir? {
        if root <= q {
          var r := q[|root|..];
          assert q == root + r;
          PrefixShift(root, p, r);
        } else {
          AboveRoot(base, root, p, q);
        }
      }
    }
  }

  lemma GraftDirs(base: Tree, root: Path, sub: Tree, p: Path)
    requires Clear(base, root) && Rooted(base)
    requires root != [] && Parent(root) in base && base[Parent(root)].Dir?
    ensures WithDirs(Graft(base, root, sub), root + p) == Graft(base, root, WithDirs(sub, p))
  {
    var g := Graft(base, root, sub);
    var a, b := WithDirs(g, root + p), Graft(base, root, WithDirs(sub, p));
    forall q
      ensures q in a <==> q in b
      ensures q in a ==> a[q] == b[q]
    {
      if root <= q {
        var r := q[|root|..];
        assert q == root + r;
        PrefixShift(root, p, r);
      } else if q <= root + p {
        AboveRoot(base, root, p, q);
      }
    }
  }

  lemma GraftRooted(base: Tree, root: Path, sub: Tree)
    requires Clear(base, root) && Rooted(base) && Rooted(sub)
    requires root != [] && Parent(root) in base && base[Parent(root)].Dir?
    ensures Rooted(Graft(base, root, sub))
  {
    var g := Graft(base, root, sub);
    forall q | q in g && q != [] ensures Parent(q) in g && g[Parent(q)].Dir? {
      if root <= q {
        if root == q {
        } else {
          assert Parent(q)[|root|..] == Parent(q[|root|..]);
          assert root <= Parent(q);
        }
      } else {
        assert !(root <= Parent(q));
      }
    }
  }

  /** Nothing lies at or below a path that is absent from a rooted tree. */
  lemma AbsentIsClear(t: Tree, root: Path)
    requires Rooted(t) && root !in t
    ensures Clear(t, root)
  {
    forall q | q in t ensures !(root <= q) {
      if root <= q && root != q { RootedPrefix(t, q, root); }
    }
  }

  /* -- the tree of an artifact ------------------------------------------------------------ */

  /** p names a file of the map. */
  predicate IsFileAt(files: map<Text, Bytes>, p: Path) {
    p != [] && Join(p) in files && Split(Join(p)) == p
  }

  /** p is the root, a file, or a directory a file needs. */
  predicate InTree(files: map<Text, Bytes>, p: Path) {
    p == [] || exists k :: k in files && p <= Split(k)
  }

  lemma FileIsInTree(files: map<Text, Bytes>, p: Path)
    requires IsFileAt(files, p)
    ensures InTree(files, p)
  {
    assert p <= Split(Join(p));
  }

  lemma IsFileAtSplit(files: map<Text, Bytes>, k: Text)
    ensures IsFileAt(files, Split(k)) <==> k in files
    ensures Join(Split(k)) == k
  {
    JoinSplit(k);
  }

  /** The tree that holds exactly these files, and no directory they do not need. */
  function TreeOf(files: map<Text, Bytes>): (t: Tree)
    ensures forall p :: p in t <==> InTree(files, p)
    ensures forall p :: p in t ==> t[p] == if IsFileAt(files, p) then File(files[Join(p)]) else Dir
  {
    var below := set k, p | k in files && p in Prefixes(Split(k)) :: p;
    assert forall p :: p in {[]} + below <==> InTree(files, p) by {
      forall p ensures p in {[]} + below <==> InTree(files, p) {
        if k :| k in files && p <= Split(k) {
          assert p in Prefixes(Split(k));
        }
      }
    }
    map p | p in {[]} + below :: if IsFileAt(files, p) then File(files[Join(p)]) else Dir
  }

  /** No file of the map lies above another, seen as paths. */
  ghost predicate Disjoint(files: map<Text, Bytes>) {
    forall k, l :: k in files && l in files ==> !(Split(k) < Split(l))
  }

  lemma TreeOfRooted(files: map<Text, Bytes>)
    requires Disjoint(files)
    ensures Rooted(TreeOf(files))
  {
    hide Split, Join;
    var t := TreeOf(files);
    forall p | p in t && p != [] ensures Parent(p) in t && t[Parent(p)].Dir? {
      assert InTree(files, p);
      var k :| k in files && p <= Split(k);
      assert Parent(p) < Split(k);
      assert InTree(files, Parent(p));
    }
  }

  lemma InTreeAdd(files: map<Text, Bytes>, k: Text, c: Bytes, q: Path)
    ensures InTree(files[k := c], q) <==> InTree(files, q) || q <= Split(k)
  {
    hide Split;
    var more := files[k := c];
    if InTree(files, q) && q != [] {
      var l :| l in files && q <= Split(l);
      assert l in more;
    }
    if q <= Split(k) {
      assert k in more;
    }
  }

  lemma IsFileAtAdd(files: map<Text, Bytes>, k: Text, c: Bytes, q: Path)
    ensures IsFileAt(files[k := c], q) <==> IsFileAt(files, q) || q == Split(k)
  {
    hide Split, Join;
    JoinSplit(k);
  }

  lemma PrefixCases(a: Path, b: Path)
    requires a <= b
    ensures a == b || a < b
  {
    if |a| == |b| { assert a == b[..|a|] == b; }
  }

  lemma AddIsNew(files: map<Text, Bytes>, k: Text, c: Bytes)
    requires k !in files && Disjoint(files[k := c])
    ensures !InTree(files, Split(k))
    ensures forall q :: q < Split(k) ==> !IsFileAt(files, q)
  {
    hide Split, Join;
    JoinSplit(k);
    SplitNonEmpty(k);
    var more := files[k := c];
    assert k in more;
    if InTree(files, Split(k)) && Split(k) != [] {
      var l :| l in files && Split(k) <= Split(l);
      JoinSplit(l);
      assert l in more && l != k;
      PrefixCases(Split(k), Split(l));
    }
    forall q | IsFileAt(files, q) ensures !(q < Split(k)) {
      assert Join(q) in more;
    }
  }

  lemma SplitNonEmpty(k: Text)
    ensures Split(k) != []
  {
  }

  lemma TreeOfAddAt(files: map<Text, Bytes>, k: Text, c: Bytes, q: Path)
    requires k !in files && Disjoint(files[k := c])
    ensures var t, p, b := TreeOf(files), Split(k), TreeOf(files[k := c]);
      (q in b <==> q in t || q <= Parent(p) || q == p)
      && (q in b ==> b[q] == if q == p then File(c) else if q in t then t[q] else Dir)
  {
    hide Split, Join, InTree, IsFileAt;
    var p := Split(k);
    InTreeAdd(files, k, c, q);
    IsFileAtAdd(files, k, c, q);
    JoinSplit(k);
    assert q <= p <==> q <= Parent(p) || q == p by { SplitNonEmpty(k); }
    if IsFileAt(files, q) {
      FileIsInTree(files, q);
      FilePath(files, q);
    }
  }

  predicate Agree(a: Tree, b: Tree, q: Path) {
    (q in a <==> q in b) && (q in b && q in a ==> a[q] == b[q])
  }

  lemma SameTree(a: Tree, b: Tree)
    requires forall q: Path :: Agree(a, b, q)
    ensures a == b
  {
    assert forall q: Path :: q in a <==> q in b by {
      forall q: Path ensures q in a <==> q in b { assert Agree(a, b, q); }
    }
    forall q | q in a ensures a[q] == b[q] { assert Agree(a, b, q); }
  }

  lemma TreeOfAddAgrees(files: map<Text, Bytes>, k: Text, c: Bytes, q: Path)
    requires k !in files && Disjoint(files[k := c])
    ensures Agree(WithDirs(TreeOf(files), Parent(Split(k)))[Split(k) := File(c)], TreeOf(files[k := c]), q)
  {
    hide Split, Join, InTree, IsFileAt;
    TreeOfAddAt(files, k, c, q);
  }

  /** Adding one more file, its directories first, gives the tree of the larger map. */
  lemma TreeOfAdd(files: map<Text, Bytes>, k: Text, c: Bytes)
    requires k !in files && Disjoint(files[k := c])
    ensures WithDirs(TreeOf(files), Parent(Split(k)))[Split(k) := File(c)] == TreeOf(files[k := c])
  {
    hide *;
    var a, b := WithDirs(TreeOf(files), Parent(Split(k)))[Split(k) := File(c)], TreeOf(files[k := c]);
    forall q: Path ensures Agree(a, b, q) {
      TreeOfAddAgrees(files, k, c, q);
    }
    SameTree(a, b);
  }

  /** A file that is disjoint from the others finds its place free and its directories
      not taken by files. */
  lemma TreeOfHasRoom(files: map<Text, Bytes>, k: Text, c: Bytes)
    requires k !in files && Disjoint(files[k := c])
    ensures Split(k) !in TreeOf(files) && CanHold(TreeOf(files), Parent(Split(k)))
  {
    hide Split, Join, InTree, IsFileAt;
    SplitNonEmpty(k);
    AddIsNew(files, k, c);
    var t := TreeOf(files);
    forall q | q in Prefixes(Parent(Split(k))) && q in t ensures t[q].Dir? {
      assert q < Split(k);
    }
  }

  lemma FilePath(files: map<Text, Bytes>, q: Path)
    requires IsFileAt(files, q)
    ensures q != [] && Join(q) in files && Split(Join(q)) == q
  {
  }

  /** The files below root, by relative path. */
  ghost function FilesUnder(t: Tree, root: Path): (r: map<Text, Bytes>)
    ensures forall k :: k in r <==> root + Split(k) in t && t[root + Split(k)].File?
    ensures forall k :: k in r ==> r[k] == t[root + Split(k)].content
  {
    var names := set q | q in t && root < q && t[q].File? :: Join(q[|root|..]);
    assert forall k :: root + Split(k) in t && t[root + Split(k)].File? ==> k in names by {
      forall k | root + Split(k) in t && t[root + Split(k)].File? ensures k in names {
        var q := root + Split(k);
        assert q[|root|..] == Split(k);
        JoinSplit(k);
      }
    }
    map k | k in names && root + Split(k) in t && t[root + Split(k)].File? :: t[root + Split(k)].content
  }

  lemma GraftFileAt(base: Tree, root: Path, files: map<Text, Bytes>, k: Text)
    requires Clear(base, root)
    ensures var g, p := Graft(base, root, TreeOf(files)), root + Split(k);
      (p in g && g[p].File? <==> k in files) && (k in files ==> g[p] == File(files[k]))
  {
    hide Split, Join, InTree, IsFileAt, Clear;
    assert (root + Split(k))[|root|..] == Split(k);
    IsFileAtSplit(files, k);
    if k in files { FileIsInTree(files, Split(k)); }
  }

  lemma FilesOfTree(base: Tree, root: Path, files: map<Text, Bytes>)
    requires Clear(base, root)
    ensures FilesUnder(Graft(base, root, TreeOf(files)), root) == files
  {
    hide *;
    var r := FilesUnder(Graft(base, root, TreeOf(files)), root);
    forall k: Text
      ensures k in r <==> k in files
      ensures k in r ==> r[k] == files[k]
    {
      GraftFileAt(base, root, files, k);
    }
  }
}
