/**
 * What `deleteDir` promises: it stops at the first child it cannot delete,
 * and on a well-formed tree in which every node can be deleted it removes
 * the whole tree and returns true.
 */
module DeleteDirProperties {
  import opened JavaIo
  import opened ProtocolMojo

  /** No name occurs twice. */
  ghost predicate NoDup(names: seq<string>)
  {
    forall i, j :: 0 <= i < j < |names| ==> names[i] != names[j]
  }

  /**
   * The part of `t` at and below `p` is a proper directory tree: every node
   * below `p` is listed by its parent, which is a directory, and every
   * directory lists each of its children once, and only children that exist.
   */
  ghost predicate Tidy(t: Tree, p: Path)
  {
    && (forall q :: q in t && Within(q, p) && q != p ==>
          |q| > 0 && DirectoryAt(t, Parent(q)) && Name(q) in t[Parent(q)].listing)
    && (forall d :: DirectoryAt(t, d) && Within(d, p) ==>
          NoDup(t[d].listing) && forall n :: n in t[d].listing ==> d + [n] in t)
  }

  /** No node at or below `p` is locked. */
  ghost predicate Deletable(t: Tree, locked: set<Path>, p: Path)
  {
    forall q :: q in t && Within(q, p) ==> q !in locked
  }

  // ---------------------------------------------------------------------------
  // What keeps a tree tidy
  // ---------------------------------------------------------------------------

  /** A name added to a listing that does not hold it keeps the listing free of duplicates. */
  lemma NoDupAppend(names: seq<string>, n: string)
    requires NoDup(names) && n !in names
    ensures NoDup(names + [n])
  {
    forall i, j | 0 <= i < j < |names| + 1 ensures (names + [n])[i] != (names + [n])[j] {
      if j == |names| {
        assert (names + [n])[i] == names[i];
      }
    }
  }

  /** After a new node is stored under a directory, every node below `x` is still listed by its parent. */
  lemma LinkListed(t: Tree, x: Path, p: Path, node: Node)
    requires Tidy(t, x)
    requires |p| > 0 && DirectoryAt(t, Parent(p)) && !DirectoryAt(t, p)
    ensures var r := Link(t, p, node);
            forall q :: q in r && Within(q, x) && q != x ==>
              |q| > 0 && DirectoryAt(r, Parent(q)) && Name(q) in r[Parent(q)].listing
  {
    var r := Link(t, p, node);
    var up := Parent(p);
    forall q | q in r && Within(q, x) && q != x
      ensures |q| > 0 && DirectoryAt(r, Parent(q)) && Name(q) in r[Parent(q)].listing
    {
      if q != p {
        assert q in t;
        var above := Parent(q);
        assert DirectoryAt(t, above) && Name(q) in t[above].listing;
        assert above != p;
        if above == up {
          assert r[up] == Listed(t[up], Name(p));
        } else {
          assert r[above] == t[above];
        }
      }
    }
  }

  /** The parent of a new node lists it once, next to the children it already had. */
  lemma ParentAfterLink(t: Tree, p: Path, node: Node)
    requires |p| > 0 && DirectoryAt(t, Parent(p))
    requires NoDup(t[Parent(p)].listing) && forall n :: n in t[Parent(p)].listing ==> Parent(p) + [n] in t
    ensures var r := Link(t, p, node);
            NoDup(r[Parent(p)].listing) && forall n :: n in r[Parent(p)].listing ==> Parent(p) + [n] in r
  {
    var up, names := Parent(p), t[Parent(p)].listing;
    var r := Link(t, p, node);
    assert p == up + [Name(p)];
    if Name(p) !in names {
      NoDupAppend(names, Name(p));
      assert r[up].listing == names + [Name(p)];
    } else {
      assert r[up].listing == names;
    }
  }

  /** After a new file or empty directory is stored under a directory, every directory below `x` still lists what exists, once. */
  lemma LinkChildrenExist(t: Tree, x: Path, p: Path, node: Node)
    requires Tidy(t, x)
    requires |p| > 0 && DirectoryAt(t, Parent(p)) && !DirectoryAt(t, p)
    requires node.File? || node == Dir([])
    ensures var r := Link(t, p, node);
            forall d :: DirectoryAt(r, d) && Within(d, x) ==>
              NoDup(r[d].listing) && forall n :: n in r[d].listing ==> d + [n] in r
  {
    var r := Link(t, p, node);
    var up := Parent(p);
    forall d | DirectoryAt(r, d) && Within(d, x)
      ensures NoDup(r[d].listing) && forall n :: n in r[d].listing ==> d + [n] in r
    {
      if d == up {
        ParentAfterLink(t, p, node);
      } else if d == p {
        assert r[d].listing == [];
      } else {
        assert d in t && r[d] == t[d];
        assert NoDup(t[d].listing);
        forall n | n in r[d].listing ensures d + [n] in r {
          assert d + [n] in t;
        }
      }
    }
  }

  /**
   * Storing a new file, or a new empty directory, under a directory keeps
   * every part of the tree tidy: the new node is listed by its parent, and
   * nothing already there loses its place.
   */
  lemma TidyLink(t: Tree, x: Path, p: Path, node: Node)
    requires Tidy(t, x)
    requires |p| > 0 && DirectoryAt(t, Parent(p)) && !DirectoryAt(t, p)
    requires node.File? || node == Dir([])
    ensures Tidy(Link(t, p, node), x)
  {
    LinkListed(t, x, p, node);
    LinkChildrenExist(t, x, p, node);
  }

  /** Overwriting the content of a file changes no listing. */
  lemma TidyRewrite(t: Tree, x: Path, p: Path, text: string)
    requires Tidy(t, x) && FileAt(t, p)
    ensures Tidy(t[p := File(text)], x)
  {
  }

  /** Every node `mkdirs()` adds lies on the way to `p`. */
  lemma {:induction false} MkDirsOnTheWay(t: Tree, p: Path)
    ensures forall q :: q in MkDirs(t, p) && q !in t ==> Within(p, q)
    decreases |p|
  {
    if p != [] && p !in t {
      var up := Parent(p);
      MkDirsOnTheWay(t, up);
      var t1 := MkDirs(t, up);
      forall q | q in MkDirs(t, p) && q !in t ensures Within(p, q) {
        if q != p {
          assert q in t1 && Within(up, q);
          assert p[..|q|] == up[..|q|];
        }
      }
    }
  }

  /** `mkdirs()` keeps every part of the tree tidy. */
  lemma {:induction false} TidyMkDirs(t: Tree, x: Path, p: Path)
    requires Tidy(t, x)
    ensures Tidy(MkDirs(t, p), x)
    decreases |p|
  {
    if p != [] && p !in t {
      var up := Parent(p);
      TidyMkDirs(t, x, up);
      MkDirsOnTheWay(t, up);
      var t1 := MkDirs(t, up);
      assert !Within(up, p);
      if DirectoryAt(t1, up) {
        TidyLink(t1, x, p, Dir([]));
      }
    }
  }

  // ---------------------------------------------------------------------------
  // Stopping at the first failure
  // ---------------------------------------------------------------------------

  /**
   * Once a child cannot be deleted the loop is over: any siblings listed
   * after it are never attempted, so they change neither the result nor the
   * file system.
   */
  lemma {:induction false} LaterSiblingsUntouched(t: Tree, locked: set<Path>, p: Path, children: seq<string>, later: seq<string>, i: nat)
    requires DirectoryAt(t, p) && i <= |children|
    requires !DeleteChildren(t, locked, p, children, i).0
    ensures DeleteChildren(t, locked, p, children + later, i) == DeleteChildren(t, locked, p, children, i)
    decreases |children| - i
  {
    assert i < |children|;
    var child := p + [children[i]];
    assert (children + later)[i] == children[i];
    assert Parent(child) == p;
    var r := DeleteTree(t, locked, child);
    if r.0 {
      assert DirectoryAt(r.1, p);
      LaterSiblingsUntouched(r.1, locked, p, children, later, i + 1);
    }
  }

  /** The loop over `a + b` from position `|a| + j` is the loop over `b` from `j`. */
  lemma {:induction false} ChildrenShift(t: Tree, locked: set<Path>, p: Path, a: seq<string>, b: seq<string>, j: nat)
    requires DirectoryAt(t, p) && j <= |b|
    ensures DeleteChildren(t, locked, p, a + b, |a| + j) == DeleteChildren(t, locked, p, b, j)
    decreases |b| - j
  {
    if j < |b| {
      assert (a + b)[|a| + j] == b[j];
      var r := DeleteTree(t, locked, p + [b[j]]);
      if r.0 {
        ChildrenShift(r.1, locked, p, a, b, j + 1);
      }
    }
  }

  /**
   * Deleting the children `a + b` is deleting `a` and then, unless one of
   * them failed, deleting `b` from where that left the file system.
   */
  lemma {:induction false} ChildrenAppend(t: Tree, locked: set<Path>, p: Path, a: seq<string>, b: seq<string>, i: nat)
    requires DirectoryAt(t, p) && i <= |a|
    ensures var ra := DeleteChildren(t, locked, p, a, i);
            DeleteChildren(t, locked, p, a + b, i) == if ra.0 then DeleteChildren(ra.1, locked, p, b, 0) else ra
    decreases |a| - i
  {
    if i == |a| {
      ChildrenShift(t, locked, p, a, b, 0);
    } else {
      assert (a + b)[i] == a[i];
      var r := DeleteTree(t, locked, p + [a[i]]);
      ChildrenUnfold(t, locked, p, a, i);
      ChildrenUnfold(t, locked, p, a + b, i);
      if r.0 {
        ChildrenAppend(r.1, locked, p, a, b, i + 1);
      }
    }
  }

  /** One turn of the loop of `deleteDir`: child `i`, then the rest unless it failed. */
  lemma ChildrenUnfold(t: Tree, locked: set<Path>, p: Path, children: seq<string>, i: nat)
    requires DirectoryAt(t, p) && i < |children|
    ensures var r := DeleteTree(t, locked, p + [children[i]]);
            DirectoryAt(r.1, p) &&
            DeleteChildren(t, locked, p, children, i) == if r.0 then DeleteChildren(r.1, locked, p, children, i + 1) else r
  {
    SubtreeOfChild(t, p, children[i]);
    assert !Within(p, p + [children[i]]);
  }

  /**
   * When the children listed before position `k` are all deleted, in listing
   * order, leaving `tk`, and the child at `k` is not, `deleteDir` returns
   * false with what that child's `deleteDir` left: no later sibling is
   * attempted and the directory is still there.
   */
  lemma FirstChildFailure(t: Tree, locked: set<Path>, p: Path, k: nat, tk: Tree)
    requires DirectoryAt(t, p) && k < |t[p].listing|
    requires DeleteChildren(t, locked, p, t[p].listing[..k], 0) == (true, tk)
    requires !DeleteTree(tk, locked, p + [t[p].listing[k]]).0
    ensures !DeleteTree(t, locked, p).0
    ensures DeleteTree(t, locked, p).1 == DeleteTree(tk, locked, p + [t[p].listing[k]]).1
    ensures DirectoryAt(DeleteTree(t, locked, p).1, p)
  {
    ChildrenFailAt(t, locked, p, t[p].listing, k, tk);
  }

  /** The loop of `deleteDir` ends with child `k` when that is the first child that fails. */
  lemma ChildrenFailAt(t: Tree, locked: set<Path>, p: Path, names: seq<string>, k: nat, tk: Tree)
    requires DirectoryAt(t, p) && k < |names|
    requires DeleteChildren(t, locked, p, names[..k], 0) == (true, tk)
    requires !DeleteTree(tk, locked, p + [names[k]]).0
    ensures DeleteChildren(t, locked, p, names, 0) == DeleteTree(tk, locked, p + [names[k]])
  {
    assert names[..k] + names[k..] == names;
    ChildrenAppend(t, locked, p, names[..k], names[k..], 0);
    assert names[k..][0] == names[k];
    ChildrenUnfold(tk, locked, p, names[k..], 0);
  }

  /** For anything but a directory, `deleteDir` is a single `delete()`. */
  lemma NonDirectoryDelete(t: Tree, locked: set<Path>, p: Path)
    requires !DirectoryAt(t, p)
    ensures DeleteTree(t, locked, p) == DeleteNode(t, locked, p)
    ensures DeleteTree(t, locked, p).0 <==> p in t && p !in locked && IsEmpty(t, p)
  {
  }

  // ---------------------------------------------------------------------------
  // Deleting everything
  // ---------------------------------------------------------------------------

  lemma WithinChild(q: Path, p: Path, c: string)
    requires Within(q, p + [c])
    ensures Within(q, p) && |q| > |p| && q[|p|] == c
  {
    assert q[..|p|] == q[..|p| + 1][..|p|];
    assert q[|p|] == q[..|p| + 1][|p|];
  }

  lemma WithinOfParent(q: Path, x: Path)
    requires |q| > 0
    ensures Within(Parent(q), x) ==> Within(q, x)
    ensures q == Parent(q) + [Name(q)]
  {
    if |x| <= |Parent(q)| {
      assert q[..|x|] == Parent(q)[..|x|];
    }
  }

  lemma SiblingWithin(p: Path, n: string, c: string)
    ensures Within(p + [n], p + [c]) <==> n == c
  {
    assert (p + [n])[..|p| + 1] == p + [n];
    assert (p + [n])[|p|] == n && (p + [c])[|p|] == c;
  }

  lemma DeeperWithin(d: Path, n: string, x: Path)
    requires |d| >= |x|
    ensures Within(d + [n], x) <==> Within(d, x)
  {
    assert d[..|x|] == (d + [n])[..|x|];
  }

  lemma SameLengthWithin(d: Path, p: Path)
    ensures Within(d, p) && |d| == |p| ==> d == p
  {
  }

  /** A listing with `c` at its head loses exactly its head. */
  lemma RemoveHead(c: string, rest: seq<string>)
    requires c !in rest
    ensures Remove([c] + rest, c) == rest
  {
    assert ([c] + rest)[1..] == rest;
    RemoveAbsent(rest, c);
  }

  lemma {:induction false} RemoveAbsent(names: seq<string>, n: string)
    requires n !in names
    ensures Remove(names, n) == names
  {
    if names != [] {
      RemoveAbsent(names[1..], n);
      assert names == [names[0]] + names[1..];
    }
  }

  /** Every node strictly below `p` hangs under a child that `p`'s listing names. */
  lemma {:induction false} AncestorListed(t: Tree, p: Path, q: Path)
    requires Tidy(t, p) && q in t && Within(q, p) && q != p
    ensures DirectoryAt(t, p) && q[|p|] in t[p].listing
    decreases |q|
  {
    if |q| == |p| + 1 {
      assert Parent(q) == p;
    } else {
      var up := Parent(q);
      assert up[..|p|] == q[..|p|];
      AncestorListed(t, p, up);
      assert up[|p|] == q[|p|];
    }
  }

  lemma TidyChild(t: Tree, p: Path, c: string)
    requires Tidy(t, p)
    ensures Tidy(t, p + [c])
  {
    forall q | Within(q, p + [c]) ensures Within(q, p) {
      WithinChild(q, p, c);
    }
  }

  /** The facts about `t1 == DeleteTree(t, locked, p + [c]).1` that hold when that call succeeds. */
  ghost predicate ChildDeleted(t: Tree, t1: Tree, p: Path, c: string)
    requires p in t
  {
    && t1.Keys <= t.Keys
    && p in t1
    && (forall q :: q in t && !Within(q, p + [c]) ==> q in t1)
    && (forall q :: q in t1 && !Within(q, p + [c]) && q != p ==> t1[q] == t[q])
    && t1[p] == Unlisted(t[p], c)
    && (forall q :: q in t1 ==> !Within(q, p + [c]))
  }

  lemma ChildDeletedHolds(t: Tree, locked: set<Path>, p: Path, c: string)
    requires p in t && DeleteTree(t, locked, p + [c]).0
    ensures ChildDeleted(t, DeleteTree(t, locked, p + [c]).1, p, c)
  {
    var child := p + [c];
    assert Parent(child) == p;
    assert !Within(p, child);
  }

  /** The head of a listing without duplicates does not occur in its tail, and the tail has none. */
  lemma NoDupTail(c: string, rest: seq<string>)
    requires NoDup([c] + rest)
    ensures c !in rest && NoDup(rest)
  {
    forall j | 0 <= j < |rest| ensures rest[j] != c {
      assert ([c] + rest)[0] == c && ([c] + rest)[j + 1] == rest[j];
    }
    forall i, j | 0 <= i < j < |rest| ensures rest[i] != rest[j] {
      assert ([c] + rest)[i + 1] == rest[i] && ([c] + rest)[j + 1] == rest[j];
    }
  }

  /** After the first listed child `c` of `p` has been deleted, every node below `p` is still listed by its parent. */
  lemma ListedAfterChild(t: Tree, t1: Tree, p: Path, c: string, rest: seq<string>)
    requires Tidy(t, p) && DirectoryAt(t, p) && t[p].listing == [c] + rest
    requires ChildDeleted(t, t1, p, c)
    requires c !in rest
    ensures DirectoryAt(t1, p) && t1[p].listing == rest
    ensures forall q :: q in t1 && Within(q, p) && q != p ==>
              |q| > 0 && DirectoryAt(t1, Parent(q)) && Name(q) in t1[Parent(q)].listing
  {
    var child := p + [c];
    RemoveHead(c, rest);
    forall q | q in t1 && Within(q, p) && q != p
      ensures |q| > 0 && DirectoryAt(t1, Parent(q)) && Name(q) in t1[Parent(q)].listing
    {
      var up := Parent(q);
      WithinOfParent(q, child);
      assert up in t1;
      SiblingWithin(p, Name(q), c);
    }
  }

  /** After the first listed child `c` of `p` has been deleted, every directory below `p` still lists only what exists. */
  lemma ChildrenExistAfterChild(t: Tree, t1: Tree, p: Path, c: string, rest: seq<string>)
    requires Tidy(t, p) && DirectoryAt(t, p) && t[p].listing == [c] + rest
    requires ChildDeleted(t, t1, p, c)
    requires c !in rest && NoDup(rest)
    requires DirectoryAt(t1, p) && t1[p].listing == rest
    ensures forall d :: DirectoryAt(t1, d) && Within(d, p) ==>
              NoDup(t1[d].listing) && forall n :: n in t1[d].listing ==> d + [n] in t1
  {
    var child := p + [c];
    forall d | DirectoryAt(t1, d) && Within(d, p)
      ensures NoDup(t1[d].listing) && forall n :: n in t1[d].listing ==> d + [n] in t1
    {
      if d == p {
        forall n | n in rest ensures p + [n] in t1 {
          SiblingWithin(p, n, c);
        }
      } else {
        SameLengthWithin(d, p);
        assert !Within(d, child);
        forall n | n in t1[d].listing ensures d + [n] in t1 {
          DeeperWithin(d, n, child);
        }
      }
    }
  }

  /**
   * When the tree at `p` is tidy and nothing in it is locked, `deleteDir`
   * deletes `p` with everything below it and returns true.
   */
  lemma {:induction false} DeleteAll(t: Tree, locked: set<Path>, p: Path)
    requires p in t && Tidy(t, p) && Deletable(t, locked, p)
    ensures DeleteTree(t, locked, p).0
    ensures Subtree(DeleteTree(t, locked, p).1, p) == {}
    decreases Subtree(t, p), 1, 0
  {
    if DirectoryAt(t, p) {
      DeleteAllChildren(t, locked, p, t[p].listing, 0);
      var t1 := DeleteChildren(t, locked, p, t[p].listing, 0).1;
      forall q | q in t1 && Within(q, p) ensures q == p {
        if q != p {
          AncestorListed(t1, p, q);
        }
      }
    } else {
      forall q | q in t && Within(q, p) ensures q == p {
        if q != p {
          AncestorListed(t, p, q);
        }
      }
    }
  }

  lemma {:induction false} DeleteAllChildren(t: Tree, locked: set<Path>, p: Path, children: seq<string>, i: nat)
    requires DirectoryAt(t, p) && i <= |children| && t[p].listing == children[i..]
    requires Tidy(t, p) && Deletable(t, locked, p)
    ensures DeleteChildren(t, locked, p, children, i).0
    ensures var t1 := DeleteChildren(t, locked, p, children, i).1;
            t1[p].listing == [] && Tidy(t1, p) && Deletable(t1, locked, p)
    decreases Subtree(t, p), 0, |children| - i
  {
    if i < |children| {
      var c := children[i];
      var child := p + [c];
      assert children[i..] == [c] + children[i + 1..];
      assert child in t;
      SubtreeOfChild(t, p, c);
      TidyChild(t, p, c);
      DeleteAll(t, locked, child);
      var t1 := DeleteTree(t, locked, child).1;
      TidyAfterChild(t, locked, p, c, children[i + 1..]);
      SubtreeShrinks(t1, t, p);
      ChildrenUnfold(t, locked, p, children, i);
      DeleteAllChildren(t1, locked, p, children, i + 1);
    }
  }

  /** Deleting the first listed child of a tidy directory leaves it tidy, listing the rest. */
  lemma TidyAfterChild(t: Tree, locked: set<Path>, p: Path, c: string, rest: seq<string>)
    requires DirectoryAt(t, p) && t[p].listing == [c] + rest
    requires Tidy(t, p) && Deletable(t, locked, p)
    requires DeleteTree(t, locked, p + [c]).0
    ensures var t1 := DeleteTree(t, locked, p + [c]).1;
            DirectoryAt(t1, p) && t1[p].listing == rest && Tidy(t1, p) && Deletable(t1, locked, p)
  {
    var t1 := DeleteTree(t, locked, p + [c]).1;
    ChildDeletedHolds(t, locked, p, c);
    NoDupTail(c, rest);
    ListedAfterChild(t, t1, p, c, rest);
    ChildrenExistAfterChild(t, t1, p, c, rest);
  }
}
