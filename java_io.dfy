/**
 * The part of `java.io` the plugin touches, as a model of a file system.
 *
 * A file system is a finite map from paths to nodes. A path is the sequence of
 * its name components; `new File(dir, child)` is `dir + [child]`. A directory
 * node keeps its listing, the names `File.list()` returns, in the order it
 * returns them.
 */
module JavaIo {

  const Separator: char := '/'

  type Path = seq<string>

  datatype Node = File(content: string) | Dir(listing: seq<string>)

  type Tree = map<Path, Node>

  function Parent(p: Path): Path
    requires |p| > 0
  {
    p[..|p| - 1]
  }

  function Name(p: Path): string
    requires |p| > 0
  {
    p[|p| - 1]
  }

  /** `q` is `p` or lies below `p`. */
  predicate Within(q: Path, p: Path)
  {
    |p| <= |q| && q[..|p|] == p
  }

  /** The paths of `t` at or below `p`. */
  function Subtree(t: Tree, p: Path): set<Path>
  {
    set q | q in t && Within(q, p)
  }

  predicate FileAt(t: Tree, p: Path)
  {
    p in t && t[p].File?
  }

  predicate DirectoryAt(t: Tree, p: Path)
  {
    p in t && t[p].Dir?
  }

  /** Nothing of `t` lies strictly below `p`. */
  predicate IsEmpty(t: Tree, p: Path)
  {
    forall q :: q in t && Within(q, p) ==> q == p
  }

  // ---------------------------------------------------------------------------
  // Paths written as Java strings
  // ---------------------------------------------------------------------------

  /** The index of the first separator of `s` at or after `i`, or `|s|`. */
  function SegmentEnd(s: string, i: nat): (k: nat)
    requires i <= |s|
    ensures i <= k <= |s|
    ensures forall j :: i <= j < k ==> s[j] != Separator
    ensures k < |s| ==> s[k] == Separator
    decreases |s| - i
  {
    if i == |s| || s[i] == Separator then i else SegmentEnd(s, i + 1)
  }

  /**
   * The components of a path string: the maximal runs of characters between
   * separators. Empty runs are dropped, as `java.io.File` normalises "a//b"
   * and a trailing separator away.
   */
  function Split(s: string): (r: Path)
    ensures forall i :: 0 <= i < |r| ==> r[i] != [] && Separator !in r[i]
    decreases |s|
  {
    if s == [] then []
    else if s[0] == Separator then Split(s[1..])
    else
      var k := SegmentEnd(s, 0);
      [s[..k]] + Split(s[k..])
  }

  /** A non-empty string without separators is a single component. */
  lemma SplitSingle(s: string)
    requires s != [] && Separator !in s
    ensures Split(s) == [s]
  {
    var k := SegmentEnd(s, 0);
    assert s[..k] == s;
    assert s[k..] == [];
  }

  /** Appending `c`, which begins with a separator, does not move the end of a segment of `a`. */
  lemma {:induction false} SegmentEndAppend(a: string, c: string, i: nat)
    requires i <= |a| && c != [] && c[0] == Separator
    ensures SegmentEnd(a + c, i) == SegmentEnd(a, i)
    decreases |a| - i
  {
    if i < |a| {
      assert (a + c)[i] == a[i];
      if a[i] != Separator {
        SegmentEndAppend(a, c, i + 1);
      }
    } else {
      assert (a + c)[i] == c[0];
    }
  }

  /** The components of two path strings joined by a separator are those of each, in order. */
  lemma {:induction false} SplitAppend(a: string, b: string)
    ensures Split(a + [Separator] + b) == Split(a) + Split(b)
    decreases |a|
  {
    var s := a + [Separator] + b;
    if a == [] {
      assert s[1..] == b;
    } else if a[0] == Separator {
      assert s[1..] == a[1..] + [Separator] + b;
      SplitAppend(a[1..], b);
    } else {
      assert s == a + ([Separator] + b);
      SegmentEndAppend(a, [Separator] + b, 0);
      var k := SegmentEnd(a, 0);
      assert k > 0 by {
        assert k == SegmentEnd(a, 1);
      }
      assert s[..k] == a[..k];
      assert s[k..] == a[k..] + [Separator] + b;
      SplitAppend(a[k..], b);
    }
  }

  /** An ending of `s` is an ending of every suffix of `s` at least as long. */
  lemma SuffixOfSuffix(s: string, w: string, k: nat)
    requires k <= |s| - |w| && s[|s| - |w|..] == w
    ensures s[k..][|s| - k - |w|..] == w
  {
    assert s[k..][|s| - k - |w|..] == s[|s| - |w|..];
  }

  /** A separator in `s` lies before a separator-free ending `w`. */
  lemma SeparatorBeforeEnding(s: string, w: string, k: nat)
    requires Separator !in w && |w| <= |s| && s[|s| - |w|..] == w
    requires k < |s| && s[k] == Separator
    ensures k < |s| - |w|
  {
  }

  /** A path string ending in a name without separators has that ending in its last component. */
  lemma {:induction false} LastComponentEndsWith(s: string, w: string)
    requires w != [] && Separator !in w
    requires |w| <= |s| && s[|s| - |w|..] == w
    ensures |Split(s)| > 0
    ensures var last := Name(Split(s));
            |w| <= |last| && last[|last| - |w|..] == w
    decreases |s|
  {
    var n := |s| - |w|;
    assert s[n] == w[0] != Separator;
    if s[0] == Separator {
      SuffixOfSuffix(s, w, 1);
      LastComponentEndsWith(s[1..], w);
    } else {
      var k := SegmentEnd(s, 0);
      if k < |s| {
        SeparatorBeforeEnding(s, w, k);
        SuffixOfSuffix(s, w, k);
        LastComponentEndsWith(s[k..], w);
        var rest := Split(s[k..]);
        assert Split(s) == [s[..k]] + rest;
        assert Name(Split(s)) == Name(rest);
      } else {
        assert s[..k] == s;
      }
    }
  }

  // ---------------------------------------------------------------------------
  // Single-node updates
  // ---------------------------------------------------------------------------

  /** Every occurrence of `n` removed from `names`. */
  function Remove(names: seq<string>, n: string): (r: seq<string>)
    ensures n !in r
    ensures forall m :: m in r <==> m in names && m != n
  {
    if names == [] then []
    else if names[0] == n then Remove(names[1..], n)
    else [names[0]] + Remove(names[1..], n)
  }

  /** A node with `n` removed from its listing (a file is left as it is). */
  function Unlisted(node: Node, n: string): (r: Node)
    ensures r.Dir? == node.Dir?
  {
    match node
    case File(_) => node
    case Dir(names) => Dir(Remove(names, n))
  }

  /** A node with `n` added at the end of its listing, unless it is there already. */
  function Listed(node: Node, n: string): (r: Node)
    ensures r.Dir? == node.Dir?
    ensures r.Dir? ==> n in r.listing
  {
    match node
    case File(_) => node
    case Dir(names) => if n in names then node else Dir(names + [n])
  }

  /** `t` without `p`, and without `p`'s name in its parent's listing. */
  function Unlink(t: Tree, p: Path): (r: Tree)
    ensures r.Keys == t.Keys - {p}
    ensures forall q :: q in r && (|p| == 0 || q != Parent(p)) ==> r[q] == t[q]
    ensures |p| > 0 && Parent(p) in t ==> r[Parent(p)] == Unlisted(t[Parent(p)], Name(p))
  {
    var rest := t - {p};
    if |p| > 0 && Parent(p) in rest then rest[Parent(p) := Unlisted(rest[Parent(p)], Name(p))]
    else rest
  }

  /** `t` with `node` stored at `p` and `p`'s name in its parent's listing. */
  function Link(t: Tree, p: Path, node: Node): (r: Tree)
    requires |p| > 0 && Parent(p) in t
    ensures r.Keys == t.Keys + {p}
    ensures r[p] == node
    ensures r[Parent(p)] == Listed(t[Parent(p)], Name(p))
    ensures forall q :: q in t && q != p && q != Parent(p) ==> r[q] == t[q]
  {
    t[Parent(p) := Listed(t[Parent(p)], Name(p))][p := node]
  }

  /**
   * `new File(p).delete()`: it succeeds when `p` exists, is not locked
   * (the model's stand-in for permissions) and nothing lies below it (a
   * directory must be empty; below a file nothing can lie).
   */
  function DeleteNode(t: Tree, locked: set<Path>, p: Path): (r: (bool, Tree))
    ensures r.0 <==> p in t && p !in locked && IsEmpty(t, p)
    ensures !r.0 ==> r.1 == t
    ensures r.0 ==> r.1.Keys == t.Keys - {p}
    ensures r.0 && |p| > 0 && Parent(p) in t ==> r.1[Parent(p)] == Unlisted(t[Parent(p)], Name(p))
    ensures r.0 ==> forall q :: q in r.1 && (|p| == 0 || q != Parent(p)) ==> r.1[q] == t[q]
  {
    if p in t && p !in locked && IsEmpty(t, p) then (true, Unlink(t, p))
    else (false, t)
  }

  /** `new FileOutputStream(p)` succeeds: the parent is a directory and `p` is not. */
  predicate CanCreate(t: Tree, p: Path)
  {
    |p| > 0 && DirectoryAt(t, Parent(p)) && !DirectoryAt(t, p)
  }

  /** `new FileOutputStream(p)`: `p` becomes an empty file, created or truncated. */
  function Create(t: Tree, p: Path): (r: Tree)
    requires CanCreate(t, p)
    ensures FileAt(r, p) && r[p].content == ""
    ensures t.Keys <= r.Keys
    ensures forall q :: FileAt(t, q) ==> FileAt(r, q)
    ensures forall q :: DirectoryAt(t, q) ==> DirectoryAt(r, q)
  {
    Link(t, p, File(""))
  }

  /**
   * `new File(p).mkdirs()`: every missing directory on the way to `p` is
   * created, from the top down, as long as its parent is a directory.
   */
  function MkDirs(t: Tree, p: Path): (r: Tree)
    ensures t.Keys <= r.Keys
    ensures forall q :: FileAt(t, q) ==> q in r && r[q] == t[q]
    ensures forall q :: DirectoryAt(t, q) ==> DirectoryAt(r, q)
    decreases |p|
  {
    if p == [] || p in t then t
    else
      var t1 := MkDirs(t, Parent(p));
      if DirectoryAt(t1, Parent(p)) then Link(t1, p, Dir([])) else t1
  }

  /** The file system as the running program sees it. */
  class FileSystem {
    var tree: Tree
    /** The nodes whose `delete()` fails. */
    const locked: set<Path>

    constructor (tree: Tree, locked: set<Path>)
      ensures this.tree == tree && this.locked == locked
    {
      this.tree := tree;
      this.locked := locked;
    }

    /** `File.exists()` */
    predicate Exists(p: Path)
      reads this
    {
      p in tree
    }

    /** `File.isDirectory()` */
    predicate IsDirectory(p: Path)
      reads this
    {
      DirectoryAt(tree, p)
    }

    /** `File.isFile()`: what `new FileInputStream(p)` needs in order to open. */
    predicate IsFile(p: Path)
      reads this
    {
      FileAt(tree, p)
    }

    /** `File.list()` */
    function List(p: Path): seq<string>
      requires IsDirectory(p)
      reads this
    {
      tree[p].listing
    }

    /** Everything a `FileInputStream` on `p` reads. */
    function Read(p: Path): string
      requires IsFile(p)
      reads this
    {
      tree[p].content
    }

    /** `File.delete()` */
    method Delete(p: Path) returns (ok: bool)
      modifies this
      ensures (ok, tree) == DeleteNode(old(tree), locked, p)
    {
      ok, tree := DeleteNode(tree, locked, p).0, DeleteNode(tree, locked, p).1;
    }

    /** `File.mkdirs()`, whose result the plugin ignores. */
    method MakeDirs(p: Path)
      modifies this
      ensures tree == MkDirs(old(tree), p)
    {
      tree := MkDirs(tree, p);
    }

    /** `new FileOutputStream(p)`; `ok` is false where the constructor throws. */
    method OpenOutput(p: Path) returns (ok: bool)
      modifies this
      ensures ok == CanCreate(old(tree), p)
      ensures tree == if ok then Create(old(tree), p) else old(tree)
    {
      ok := CanCreate(tree, p);
      if ok {
        tree := Create(tree, p);
      }
    }

    /** `PrintStream.print(text)` on a freshly opened `p`. */
    method Print(p: Path, text: string)
      requires IsFile(p)
      modifies this
      ensures tree == old(tree)[p := File(text)]
    {
      tree := tree[p := File(text)];
    }
  }
}
