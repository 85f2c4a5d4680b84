/**
 * A structural reference for convertDir's walk. It reads the destination of
 * every entry straight off the tree, joining names onto `outroot`, rather
 * than by stripping `inroot` from walk roots. It descends into every
 * directory that is not ".git" or "elm-stuff", in listing order, rather than
 * into the names left in a pruned list. The walk is proved to perform
 * exactly these operations on every tree a file system can hold.
 */
module Mirror {
  import opened Wrappers
  import opened Paths
  import opened Copier
  import PackageName

  /** `xs` without any `x`. */
  function Without(xs: seq<string>, x: string): (r: seq<string>)
    ensures forall y :: y in r <==> y in xs && y != x
  {
    if xs == [] then []
    else (if xs[0] == x then [] else [xs[0]]) + Without(xs[1..], x)
  }

  /** No name occurs twice. */
  predicate NoDup(xs: seq<string>)
    decreases |xs|
  {
    xs == [] || (xs[0] !in xs[1..] && NoDup(xs[1..]))
  }

  /**
   * A tree a file system can hold: within a directory, entry names are
   * valid and distinct, and every subdirectory is such a tree as well.
   */
  predicate WellFormed(node: Node)
    decreases node
  {
    node.Dir? ==>
      NoDup(Names(node.children)) &&
      forall k :: 0 <= k < |node.children| ==> ValidName(node.children[k].name) && WellFormed(node.children[k])
  }

  /** The subdirectories the walk descends into, read from the listing: every directory not excluded. */
  function Visible(cs: seq<Node>): (r: seq<Node>)
    ensures forall k :: 0 <= k < |r| ==> r[k] in cs && r[k].Dir? && r[k].name !in Excluded
  {
    if cs == [] then []
    else if cs[0].Dir? && cs[0].name !in Excluded then [cs[0]] + Visible(cs[1..])
    else Visible(cs[1..])
  }

  /** No subdirectory that is not excluded is missed. */
  lemma {:induction false} VisibleComplete(cs: seq<Node>)
    ensures forall c :: c in cs && c.Dir? && c.name !in Excluded ==> c in Visible(cs)
  {
    if cs != [] {
      VisibleComplete(cs[1..]);
      VisibleCons(cs[0], cs[1..]);
      assert cs == [cs[0]] + cs[1..];
      forall c | c in cs && c.Dir? && c.name !in Excluded ensures c in Visible(cs) {
        if c != cs[0] {
          assert c in cs[1..];
        }
      }
    }
  }

  lemma VisibleCons(c: Node, t: seq<Node>)
    ensures Visible([c] + t) == (if c.Dir? && c.name !in Excluded then [c] else []) + Visible(t)
  {
    assert ([c] + t)[0] == c;
    assert ([c] + t)[1..] == t;
  }

  /** The visible subdirectories keep their listing order. */
  lemma {:induction false} VisibleConcat(a: seq<Node>, b: seq<Node>)
    ensures Visible(a + b) == Visible(a) + Visible(b)
  {
    if a == [] {
      assert a + b == b;
    } else {
      var c, t := a[0], a[1..];
      var h := if c.Dir? && c.name !in Excluded then [c] else [];
      calc {
        Visible(a + b);
        { assert a + b == [c] + (t + b); }
        Visible([c] + (t + b));
        { VisibleCons(c, t + b); }
        h + Visible(t + b);
        { VisibleConcat(t, b); }
        h + (Visible(t) + Visible(b));
        (h + Visible(t)) + Visible(b);
        { VisibleCons(c, t); assert a == [c] + t; }
        Visible(a) + Visible(b);
      }
    }
  }

  /**
   * The operations that copy directory `node` into `out`: its files, then
   * for each visible subdirectory `d` in turn, the creation of `out/d` and
   * the copy of `d` into it. The files of a directory named "Native" are
   * the ones that are rewritten.
   */
  function MirrorOps(job: Job, out: string, native: bool, node: Node): seq<Op>
    requires node.Dir?
    decreases node, 1
  {
    FileOps(job, native, out, FilesOf(node.children)) + MirrorSubdirs(job, out, node, Visible(node.children), 0)
  }

  function MirrorSubdirs(job: Job, out: string, node: Node, ds: seq<Node>, i: nat): seq<Op>
    requires node.Dir?
    requires forall k :: 0 <= k < |ds| ==> ds[k] in node.children && ds[k].Dir?
    decreases node, 0, |ds| - i
  {
    if i >= |ds| then []
    else
      var d := ds[i];
      [MakeDir(Join(out, d.name))] + MirrorOps(job, Join(out, d.name), d.name == "Native", d)
        + MirrorSubdirs(job, out, node, ds, i + 1)
  }

  lemma {:induction false} WithoutAbsent(xs: seq<string>, x: string)
    requires x !in xs
    ensures Without(xs, x) == xs
  {
    if xs != [] {
      WithoutAbsent(xs[1..], x);
    }
  }

  /** With distinct names, `list.remove` removes the name altogether. */
  lemma {:induction false} RemoveIsWithout(xs: seq<string>, x: string)
    requires NoDup(xs)
    ensures Remove(xs, x) == Without(xs, x)
  {
    if xs != [] {
      if xs[0] == x {
        WithoutAbsent(xs[1..], x);
      } else {
        RemoveIsWithout(xs[1..], x);
      }
    }
  }

  lemma {:induction false} WithoutNoDup(xs: seq<string>, x: string)
    requires NoDup(xs)
    ensures NoDup(Without(xs, x))
  {
    if xs != [] {
      WithoutNoDup(xs[1..], x);
      var r := Without(xs, x);
      var t := Without(xs[1..], x);
      if xs[0] != x {
        assert r == [xs[0]] + t;
        assert r[0] == xs[0] && r[1..] == t;
      } else {
        assert r == [] + t;
        assert r == t;
      }
    }
  }

  lemma {:induction false} DirNamesNoDup(cs: seq<Node>)
    requires NoDup(Names(cs))
    ensures NoDup(DirNames(cs))
  {
    if cs != [] {
      assert Names(cs)[1..] == Names(cs[1..]);
      DirNamesNoDup(cs[1..]);
      if cs[0].Dir? {
        var r := DirNames(cs);
        assert r[1..] == DirNames(cs[1..]);
      }
    }
  }

  lemma {:induction false} WithoutExcluded(cs: seq<Node>)
    ensures Without(Without(DirNames(cs), ".git"), "elm-stuff") == Names(Visible(cs))
  {
    if cs != [] {
      WithoutExcluded(cs[1..]);
      var c, rest := cs[0], cs[1..];
      var d := DirNames(rest);
      if c.Dir? {
        assert DirNames(cs) == [c.name] + d;
        assert ([c.name] + d)[0] == c.name && ([c.name] + d)[1..] == d;
        var w := Without([c.name] + d, ".git");
        var wd := Without(d, ".git");
        assert Excluded == [".git", "elm-stuff"];
        if c.name == ".git" {
          assert w == [] + wd;
          assert w == wd;
          assert c.name in Excluded;
          assert Visible(cs) == Visible(rest);
        } else {
          assert w == [c.name] + wd;
          assert w[0] == c.name && w[1..] == wd;
          if c.name == "elm-stuff" {
            assert Without(w, "elm-stuff") == [] + Without(wd, "elm-stuff");
            assert c.name in Excluded;
            assert Visible(cs) == Visible(rest);
          } else {
            assert Without(w, "elm-stuff") == [c.name] + Without(wd, "elm-stuff");
            assert Visible(cs) == [c] + Visible(rest);
            assert Names([c] + Visible(rest)) == [c.name] + Names(Visible(rest));
          }
        }
      } else {
        assert DirNames(cs) == d;
      }
    }
  }

  /** On distinct names, convertDir's loop removes each excluded name altogether. */
  lemma PruneIsWithout(dirs: seq<string>)
    requires NoDup(dirs)
    ensures Prune(dirs) == Without(Without(dirs, ".git"), "elm-stuff")
  {
    RemoveCount(dirs, ".git");
    RemoveIsWithout(dirs, ".git");
    WithoutNoDup(dirs, ".git");
    RemoveCount(Without(dirs, ".git"), "elm-stuff");
    RemoveIsWithout(Without(dirs, ".git"), "elm-stuff");
    assert Excluded[0] == ".git" && Excluded[1..] == ["elm-stuff"];
    assert Excluded[1..][1..] == [];
  }

  /**
   * On a listing with distinct names, the pruned `dirs` list is exactly the
   * names of the directories that are not excluded, in listing order.
   */
  lemma PruneIsVisible(cs: seq<Node>)
    requires NoDup(Names(cs))
    ensures Prune(DirNames(cs)) == Names(Visible(cs))
  {
    DirNamesNoDup(cs);
    PruneIsWithout(DirNames(cs));
    WithoutExcluded(cs);
  }

  /**
   * Pruning a list of distinct names keeps exactly the names that are not
   * excluded, whatever their position.
   */
  lemma PruneExact(dirs: seq<string>)
    requires NoDup(dirs)
    ensures forall y :: y in Prune(dirs) <==> y in dirs && y !in Excluded
  {
    PruneIsWithout(dirs);
    assert Excluded == [".git", "elm-stuff"];
  }

  /** A listed entry's name is among the listing's names. */
  lemma NameListed(cs: seq<Node>, x: Node)
    requires x in cs
    ensures x.name in Names(cs)
  {
    var k :| 0 <= k < |cs| && cs[k] == x;
    assert Names(cs)[k] == x.name;
  }

  /** The head of a listing with distinct names is named nowhere in its tail. */
  lemma NoDupTail(cs: seq<Node>)
    requires cs != [] && NoDup(Names(cs))
    ensures NoDup(Names(cs[1..])) && cs[0].name !in Names(cs[1..])
  {
    assert Names(cs)[1..] == Names(cs[1..]);
    assert Names(cs)[0] == cs[0].name;
  }

  /** With distinct names, joining the name of a subdirectory onto the root reaches that subdirectory. */
  lemma {:induction false} ChildDirOfEntry(cs: seq<Node>, d: Node)
    requires NoDup(Names(cs)) && d in cs && d.Dir?
    ensures ChildDir(cs, d.name) == Some(d)
  {
    var c, t := cs[0], cs[1..];
    NoDupTail(cs);
    assert cs == [c] + t;
    if c.name == d.name {
      assert d !in t by {
        if d in t {
          NameListed(t, d);
        }
      }
      assert d == c;
    } else {
      assert d in t;
      ChildDirOfEntry(t, d);
    }
  }

  /** With distinct names, the file opened under a listed file's name is that file. */
  lemma {:induction false} ChildFileOfEntry(cs: seq<Node>, f: Node)
    requires NoDup(Names(cs)) && f in cs && f.File?
    ensures ChildFile(cs, f.name) == Some(f)
  {
    var c, t := cs[0], cs[1..];
    NoDupTail(cs);
    assert cs == [c] + t;
    if c.name == f.name {
      assert f !in t by {
        if f in t {
          NameListed(t, f);
        }
      }
      assert f == c;
    } else {
      assert f in t;
      ChildFileOfEntry(t, f);
    }
  }

  /**
   * The source name is read from the input directory's own
   * elm-package.json: when the input holds that file, getName is given
   * exactly its lines, and no read error.
   */
  lemma SourcePackageOfEntry(inroot: string, input: Node, cwdPackage: PackageName.PkgFile, ls: seq<string>)
    requires inroot != "" && input.Dir? && WellFormed(input) && File(PackageFile, ls) in input.children
    ensures SourcePackage(inroot, input, cwdPackage) == PackageName.Opened(ls, false)
  {
    ChildFileOfEntry(input.children, File(PackageFile, ls));
  }


  /**
   * The walk against its structural reference: walking the directory that
   * lies below the top through `comps` performs that directory's mkdir (none
   * at the top), then exactly the operations of the reference copy into its
   * destination directory.
   */
  lemma {:induction false} WalkIsMirror(job: Job, comps: seq<string>, node: Node)
    requires job.inroot != "" && ValidNames(comps) && node.Dir? && WellFormed(node)
    decreases node, 1
    ensures WalkOps(job, RootOf(job.inroot, comps), node)
         == DirOps(job, RootOf(job.inroot, comps))
            + MirrorOps(job, OutDir(job.inroot, job.outroot, RootOf(job.inroot, comps)),
                        EndsWith(RootOf(job.inroot, comps), "/Native"), node)
  {
    PruneIsVisible(node.children);
    SubdirsMirror(job, comps, node, 0);
  }

  lemma {:induction false} SubdirsMirror(job: Job, comps: seq<string>, node: Node, i: nat)
    requires job.inroot != "" && ValidNames(comps) && node.Dir? && WellFormed(node)
    decreases node, 0, |Visible(node.children)| - i
    ensures SubdirOps(job, RootOf(job.inroot, comps), node, Names(Visible(node.children)), i)
         == MirrorSubdirs(job, OutDir(job.inroot, job.outroot, RootOf(job.inroot, comps)), node, Visible(node.children), i)
  {
    var vs := Visible(node.children);
    var root := RootOf(job.inroot, comps);
    var out := OutDir(job.inroot, job.outroot, root);
    if i < |vs| {
      var d := vs[i];
      assert Names(vs)[i] == d.name;
      SubdirOpsStep(job, root, node, Names(vs), i);
      ChildMirror(job, comps, node, d);
      SubdirsMirror(job, comps, node, i + 1);
      assert MirrorSubdirs(job, out, node, vs, i)
          == [MakeDir(Join(out, d.name))] + MirrorOps(job, Join(out, d.name), d.name == "Native", d)
             + MirrorSubdirs(job, out, node, vs, i + 1);
    }
  }

  /** One subdirectory: the walk below it is its mkdir followed by the reference copy of it. */
  lemma {:induction false} ChildMirror(job: Job, comps: seq<string>, node: Node, d: Node)
    requires job.inroot != "" && ValidNames(comps) && node.Dir? && WellFormed(node)
    requires d in node.children && d.Dir?
    decreases node, 0, 0
    ensures (var out := OutDir(job.inroot, job.outroot, RootOf(job.inroot, comps));
             ChildOps(job, RootOf(job.inroot, comps), node, d.name)
             == [MakeDir(Join(out, d.name))] + MirrorOps(job, Join(out, d.name), d.name == "Native", d))
  {
    var n := d.name;
    var root := RootOf(job.inroot, comps);
    var out := OutDir(job.inroot, job.outroot, root);
    var cs := comps + [n];
    ChildDirOfEntry(node.children, d);
    var k :| 0 <= k < |node.children| && node.children[k] == d;
    assert ValidName(n) && WellFormed(d);
    assert ValidNames(cs) by {
      forall m | 0 <= m < |cs| ensures ValidName(cs[m]) {
        if m < |comps| { assert cs[m] == comps[m]; }
      }
    }
    assert cs[..|cs| - 1] == comps;
    assert RootOf(job.inroot, cs) == Join(root, n);
    WalkIsMirror(job, cs, d);
    RelDirOfRoot(job.inroot, cs);
    PathOfShape(cs);
    OutDirOfChild(job.inroot, job.outroot, comps, n);
    NativeRootIff(job.inroot, comps, n);
    assert DirOps(job, Join(root, n)) == [MakeDir(Join(out, n))];
  }

  /**
   * convertDir's walk copies the whole tree: from the top, it performs the
   * reference copy of the source directory into `outroot`.
   */
  lemma TopWalkIsMirror(job: Job, node: Node)
    requires job.inroot != "" && node.Dir? && WellFormed(node)
    ensures WalkOps(job, job.inroot, node) == MirrorOps(job, job.outroot, EndsWith(job.inroot, "/Native"), node)
  {
    WalkIsMirror(job, [], node);
    OutDirOfTop(job.inroot, job.outroot);
    assert DirOps(job, job.inroot) == [];
    assert [] + MirrorOps(job, job.outroot, EndsWith(job.inroot, "/Native"), node)
        == MirrorOps(job, job.outroot, EndsWith(job.inroot, "/Native"), node);
  }

  /**
   * Trees that differ at most inside excluded directories, at any depth:
   * the same entries in the same order, equal files, and excluded
   * directories whose contents may be anything.
   */
  predicate SameVisible(a: Node, b: Node)
    decreases a, 1
  {
    a.Dir? && b.Dir? && a.name == b.name && |a.children| == |b.children| &&
    forall k :: 0 <= k < |a.children| ==> SameEntry(a.children[k], b.children[k])
  }

  predicate SameEntry(x: Node, y: Node)
    decreases x, 2
  {
    if x.File? then y == x
    else if x.name in Excluded then y.Dir? && y.name == x.name
    else SameVisible(x, y)
  }

  lemma SameEntryShape(x: Node, y: Node)
    requires SameEntry(x, y)
    ensures y.File? == x.File? && y.name == x.name && (x.File? ==> y == x)
  {
  }

  lemma {:induction false} FilesSame(xs: seq<Node>, ys: seq<Node>)
    requires |xs| == |ys| && forall k :: 0 <= k < |xs| ==> SameEntry(xs[k], ys[k])
    ensures FilesOf(xs) == FilesOf(ys)
  {
    if xs != [] {
      SameEntryShape(xs[0], ys[0]);
      assert forall k :: 0 <= k < |xs| - 1 ==> xs[1..][k] == xs[k + 1] && ys[1..][k] == ys[k + 1];
      FilesSame(xs[1..], ys[1..]);
    }
  }

  lemma SameEntriesTail(xs: seq<Node>, ys: seq<Node>)
    requires xs != [] && |xs| == |ys| && forall k :: 0 <= k < |xs| ==> SameEntry(xs[k], ys[k])
    ensures forall k :: 0 <= k < |xs| - 1 ==> SameEntry(xs[1..][k], ys[1..][k])
  {
    forall k | 0 <= k < |xs| - 1 ensures SameEntry(xs[1..][k], ys[1..][k]) {
      assert xs[1..][k] == xs[k + 1] && ys[1..][k] == ys[k + 1];
    }
  }

  /** Two lists of directories that correspond entry by entry. */
  predicate Paired(us: seq<Node>, vs: seq<Node>) {
    |us| == |vs| && forall k :: 0 <= k < |us| ==> SameVisible(us[k], vs[k])
  }

  lemma PairedCons(x: Node, y: Node, us: seq<Node>, vs: seq<Node>)
    requires SameVisible(x, y) && Paired(us, vs)
    ensures Paired([x] + us, [y] + vs)
  {
    forall k | 0 <= k < |us| + 1 ensures SameVisible(([x] + us)[k], ([y] + vs)[k]) {
      if k > 0 {
        assert ([x] + us)[k] == us[k - 1] && ([y] + vs)[k] == vs[k - 1];
      }
    }
  }

  lemma {:induction false} VisibleSame(xs: seq<Node>, ys: seq<Node>)
    requires |xs| == |ys| && forall k :: 0 <= k < |xs| ==> SameEntry(xs[k], ys[k])
    ensures Paired(Visible(xs), Visible(ys))
  {
    if xs != [] {
      var x, y := xs[0], ys[0];
      assert SameEntry(x, y);
      SameEntryShape(x, y);
      SameEntriesTail(xs, ys);
      VisibleSame(xs[1..], ys[1..]);
      if x.Dir? && x.name !in Excluded {
        assert SameVisible(x, y);
        PairedCons(x, y, Visible(xs[1..]), Visible(ys[1..]));
        assert Visible(xs) == [x] + Visible(xs[1..]);
        assert Visible(ys) == [y] + Visible(ys[1..]);
      } else {
        assert Visible(xs) == Visible(xs[1..]);
        assert Visible(ys) == Visible(ys[1..]);
      }
    }
  }

  /** The reference copy never looks inside an excluded directory. */
  lemma {:induction false} MirrorSame(job: Job, out: string, native: bool, a: Node, b: Node)
    requires SameVisible(a, b)
    decreases a, 1
    ensures MirrorOps(job, out, native, a) == MirrorOps(job, out, native, b)
  {
    FilesSame(a.children, b.children);
    VisibleSame(a.children, b.children);
    MirrorSubdirsSame(job, out, a, b, 0);
  }

  lemma {:induction false} MirrorSubdirsSame(job: Job, out: string, a: Node, b: Node, i: nat)
    requires a.Dir? && b.Dir?
    requires Paired(Visible(a.children), Visible(b.children))
    decreases a, 0, |Visible(a.children)| - i
    ensures MirrorSubdirs(job, out, a, Visible(a.children), i) == MirrorSubdirs(job, out, b, Visible(b.children), i)
  {
    var va, vb := Visible(a.children), Visible(b.children);
    if i < |va| {
      var x, y := va[i], vb[i];
      assert SameVisible(x, y);
      assert x.name == y.name;
      MirrorSame(job, Join(out, x.name), x.name == "Native", x, y);
      MirrorSubdirsSame(job, out, a, b, i + 1);
      assert MirrorSubdirs(job, out, a, va, i)
          == [MakeDir(Join(out, x.name))] + MirrorOps(job, Join(out, x.name), x.name == "Native", x)
             + MirrorSubdirs(job, out, a, va, i + 1);
    }
  }

  /**
   * ".git" and "elm-stuff" are never visited, at any depth: two source
   * trees that differ only inside such directories are copied by exactly
   * the same operations.
   */
  lemma ExcludedContentsIgnored(job: Job, a: Node, b: Node)
    requires job.inroot != "" && WellFormed(a) && WellFormed(b) && SameVisible(a, b)
    ensures WalkOps(job, job.inroot, a) == WalkOps(job, job.inroot, b)
  {
    TopWalkIsMirror(job, a);
    TopWalkIsMirror(job, b);
    MirrorSame(job, job.outroot, EndsWith(job.inroot, "/Native"), a, b);
  }
}
