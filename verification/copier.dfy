/**
 * convertDir and handleFile: copy a package directory, walking it top-down
 * as os.walk does, skipping ".git" and "elm-stuff", and passing the
 * JavaScript files of "Native" directories through convertFile.
 *
 * The source directory is a tree value; the destination is a class whose
 * fields the operations update. What a walk does to the destination is
 * specified as the sequence of operations it performs (`WalkOps`), run
 * against a destination state by `Apply`, which stops at the first
 * operation that raises.
 */
module Copier {
  import opened Wrappers
  import opened Paths
  import PackageName
  import Rewrite

  /** An entry of the source tree: a file with its lines, or a directory with its entries in listing order. */
  datatype Node = File(name: string, lines: seq<string>) | Dir(name: string, children: seq<Node>)

  /** The directory names convertDir removes from every listing before os.walk descends. */
  const Excluded: seq<string> := [".git", "elm-stuff"]

  function Names(cs: seq<Node>): (r: seq<string>)
    ensures |r| == |cs|
    ensures forall k :: 0 <= k < |cs| ==> r[k] == cs[k].name
  {
    if cs == [] then [] else [cs[0].name] + Names(cs[1..])
  }

  /** The `dirs` list os.walk yields: the names of the subdirectories, in listing order. */
  function DirNames(cs: seq<Node>): (r: seq<string>)
    ensures forall x :: x in r ==> x in Names(cs)
  {
    if cs == [] then []
    else if cs[0].Dir? then [cs[0].name] + DirNames(cs[1..])
    else DirNames(cs[1..])
  }

  /** No subdirectory of the listing is missed. */
  lemma {:induction false} DirNamesComplete(cs: seq<Node>)
    ensures forall c :: c in cs && c.Dir? ==> c.name in DirNames(cs)
  {
    if cs != [] {
      DirNamesComplete(cs[1..]);
      DirNamesCons(cs[0], cs[1..]);
      assert cs == [cs[0]] + cs[1..];
      forall c | c in cs && c.Dir? ensures c.name in DirNames(cs) {
        if c != cs[0] {
          assert c in cs[1..];
        }
      }
    }
  }

  lemma DirNamesCons(c: Node, t: seq<Node>)
    ensures DirNames([c] + t) == (if c.Dir? then [c.name] else []) + DirNames(t)
  {
    assert ([c] + t)[0] == c;
    assert ([c] + t)[1..] == t;
  }

  /** The subdirectory names keep their listing order: those of a first part come before those of the rest. */
  lemma {:induction false} DirNamesConcat(a: seq<Node>, b: seq<Node>)
    ensures DirNames(a + b) == DirNames(a) + DirNames(b)
  {
    if a == [] {
      assert a + b == b;
    } else {
      var c, t := a[0], a[1..];
      var h := if c.Dir? then [c.name] else [];
      calc {
        DirNames(a + b);
        { assert a + b == [c] + (t + b); }
        DirNames([c] + (t + b));
        { DirNamesCons(c, t + b); }
        h + DirNames(t + b);
        { DirNamesConcat(t, b); }
        h + (DirNames(t) + DirNames(b));
        (h + DirNames(t)) + DirNames(b);
        { DirNamesCons(c, t); assert a == [c] + t; }
        DirNames(a) + DirNames(b);
      }
    }
  }

  /** The files os.walk yields, in listing order, each with its contents. */
  function FilesOf(cs: seq<Node>): (r: seq<Node>)
    ensures forall k :: 0 <= k < |r| ==> r[k].File? && r[k] in cs
  {
    if cs == [] then []
    else if cs[0].File? then [cs[0]] + FilesOf(cs[1..])
    else FilesOf(cs[1..])
  }

  /** No file of the listing is missed. */
  lemma {:induction false} FilesOfComplete(cs: seq<Node>)
    ensures forall c :: c in cs && c.File? ==> c in FilesOf(cs)
  {
    if cs != [] {
      FilesOfComplete(cs[1..]);
      FilesOfCons(cs[0], cs[1..]);
      assert cs == [cs[0]] + cs[1..];
      forall c | c in cs && c.File? ensures c in FilesOf(cs) {
        if c != cs[0] {
          assert c in cs[1..];
        }
      }
    }
  }

  lemma FilesOfCons(c: Node, t: seq<Node>)
    ensures FilesOf([c] + t) == (if c.File? then [c] else []) + FilesOf(t)
  {
    assert ([c] + t)[0] == c;
    assert ([c] + t)[1..] == t;
  }

  /** The files of a listing keep their listing order: those of a first part come before those of the rest. */
  lemma {:induction false} FilesOfConcat(a: seq<Node>, b: seq<Node>)
    ensures FilesOf(a + b) == FilesOf(a) + FilesOf(b)
  {
    if a == [] {
      assert a + b == b;
    } else {
      var c, t := a[0], a[1..];
      var h := if c.File? then [c] else [];
      calc {
        FilesOf(a + b);
        { assert a + b == [c] + (t + b); }
        FilesOf([c] + (t + b));
        { FilesOfCons(c, t + b); }
        h + FilesOf(t + b);
        { FilesOfConcat(t, b); }
        h + (FilesOf(t) + FilesOf(b));
        (h + FilesOf(t)) + FilesOf(b);
        { FilesOfCons(c, t); assert a == [c] + t; }
        FilesOf(a) + FilesOf(b);
      }
    }
  }

  /** `xs.remove(x)`: drops the first occurrence of `x`; a list without `x` is kept as it is. */
  function Remove(xs: seq<string>, x: string): seq<string> {
    if xs == [] then []
    else if xs[0] == x then xs[1..]
    else [xs[0]] + Remove(xs[1..], x)
  }

  /** `list.remove` removes exactly one `x` when there is one, and nothing otherwise. */
  lemma {:induction false} RemoveCount(xs: seq<string>, x: string)
    ensures x !in xs ==> Remove(xs, x) == xs
    ensures multiset(Remove(xs, x)) == multiset(xs) - multiset{x}
  {
    if xs != [] {
      RemoveCount(xs[1..], x);
      assert xs == [xs[0]] + xs[1..];
    }
  }

  /** `list.remove` against its index-based reference: the part before the first `x`, then the part after it. */
  lemma {:induction false} RemoveFirst(xs: seq<string>, x: string, i: nat)
    requires i < |xs| && xs[i] == x && forall j :: 0 <= j < i ==> xs[j] != x
    ensures Remove(xs, x) == xs[..i] + xs[i + 1..]
  {
    if i == 0 {
      assert Remove(xs, x) == xs[1..];
      assert xs[..0] == [];
    } else {
      var t := xs[1..];
      assert xs[0] != x;
      assert Remove(xs, x) == [xs[0]] + Remove(t, x);
      forall j | 0 <= j < i - 1 ensures t[j] != x {
        assert t[j] == xs[j + 1];
      }
      RemoveFirst(t, x, i - 1);
      assert xs[..i] == [xs[0]] + t[..i - 1];
      assert t[i..] == xs[i + 1..];
    }
  }

  /** The names removed in turn from `dirs`, each only where present. */
  function PruneAll(dirs: seq<string>, excl: seq<string>): seq<string>
    decreases |excl|
  {
    if excl == [] then dirs
    else PruneAll(if excl[0] in dirs then Remove(dirs, excl[0]) else dirs, excl[1..])
  }

  /** `dirs` after convertDir's loop over the excluded names. */
  function Prune(dirs: seq<string>): seq<string> {
    PruneAll(dirs, Excluded)
  }

  /** The destination tree: the directories created and the contents of the files written. */
  datatype Fs = Fs(dirs: set<string>, files: map<string, seq<string>>)

  /** What a run leaves: the destination, and whether an exception ended it. */
  datatype Run = Run(fs: Fs, raised: bool)

  /** One change to the destination, or the ValueError of a name that does not split. */
  datatype Op = MakeDir(path: string) | Write(path: string, lines: seq<string>) | Raise

  /**
   * One operation: `os.mkdir`/`os.makedirs` raise for an empty path or one
   * that exists, opening a directory for writing raises, and a write
   * replaces whatever the file held.
   */
  function Step(fs: Fs, op: Op): (r: Option<Fs>)
    ensures op.Raise? ==> r.None?
    ensures r.Some? && op.MakeDir? ==> r.value.dirs == fs.dirs + {op.path} && r.value.files == fs.files
    ensures r.Some? && op.Write? ==> r.value.dirs == fs.dirs && r.value.files == fs.files[op.path := op.lines]
  {
    match op
    case MakeDir(p) =>
      if p == "" || p in fs.dirs || p in fs.files then None
      else Some(fs.(dirs := fs.dirs + {p}))
    case Write(p, lines) =>
      if p in fs.dirs then None
      else Some(fs.(files := fs.files[p := lines]))
    case Raise => None
  }

  /** The operations performed in order, up to and including the first that raises. */
  function Apply(fs: Fs, ops: seq<Op>): Run
    decreases |ops|
  {
    if ops == [] then Run(fs, false)
    else match Step(fs, ops[0])
      case None => Run(fs, true)
      case Some(fs') => Apply(fs', ops[1..])
  }

  /** Running two sequences of operations is running the first, then, unless it raised, the second. */
  lemma {:induction false} ApplyConcat(fs: Fs, a: seq<Op>, b: seq<Op>)
    decreases |a|
    ensures Apply(fs, a + b) == (var r := Apply(fs, a); if r.raised then r else Apply(r.fs, b))
  {
    if a == [] {
      assert a + b == b;
    } else {
      assert (a + b)[0] == a[0];
      assert (a + b)[1..] == a[1..] + b;
      match Step(fs, a[0])
      case None =>
      case Some(fs') => ApplyConcat(fs', a[1..], b);
    }
  }

  /** The names convertDir found and the two directories it copies between. */
  datatype Job = Job(inroot: string, outroot: string, srcname: string, dstname: string) {
    /** The pattern and replacement every convertFile call of the run builds (None: ValueError). */
    function Sub(): Option<Rewrite.Subst> {
      Rewrite.MakeSubst(srcname, dstname)
    }
  }

  /** handleFile's test: the file is rewritten, not copied, when its directory is a "Native" one and it is JavaScript. */
  predicate Rewritable(native: bool, name: string) {
    native && EndsWith(name, ".js")
  }

  /**
   * handleFile for file `f` and the destination directory `outdir`:
   * convertFile's rewrite (or its ValueError) for a rewritable file,
   * otherwise a verbatim copy; either way the target is `outdir` joined
   * with the file's name.
   */
  function HandleOp(job: Job, native: bool, outdir: string, f: Node): (op: Op)
    requires f.File?
    ensures op.Raise? <==> Rewritable(native, f.name) && job.Sub().None?
    ensures op.Write? ==> op.path == Join(outdir, f.name)
    ensures op.Write? && !Rewritable(native, f.name) ==> op.lines == f.lines
    ensures op.Write? && Rewritable(native, f.name) ==> op.lines == Rewrite.RewriteLines(job.Sub().value, f.lines)
  {
    if Rewritable(native, f.name) then
      match job.Sub()
      case None => Raise
      case Some(s) => Write(Join(outdir, f.name), Rewrite.RewriteLines(s, f.lines))
    else Write(Join(outdir, f.name), f.lines)
  }

  function FileOps(job: Job, native: bool, outdir: string, files: seq<Node>): (ops: seq<Op>)
    requires forall k :: 0 <= k < |files| ==> files[k].File?
    ensures |ops| == |files|
    ensures forall k :: 0 <= k < |files| ==> ops[k] == HandleOp(job, native, outdir, files[k])
  {
    if files == [] then []
    else [HandleOp(job, native, outdir, files[0])] + FileOps(job, native, outdir, files[1..])
  }

  lemma FileOpsStep(job: Job, native: bool, outdir: string, files: seq<Node>, i: nat)
    requires i < |files| && forall k :: 0 <= k < |files| ==> files[k].File?
    ensures FileOps(job, native, outdir, files[i..])
         == [HandleOp(job, native, outdir, files[i])] + FileOps(job, native, outdir, files[i + 1..])
  {
    assert files[i..][0] == files[i];
    assert files[i..][1..] == files[i + 1..];
  }

  /** The entry named `n` that joining it onto the root reaches, when it is a directory. */
  function ChildDir(cs: seq<Node>, n: string): (r: Option<Node>)
    ensures r.Some? ==> r.value in cs && r.value.Dir? && r.value.name == n
  {
    if cs == [] then None
    else if cs[0].name == n then (if cs[0].Dir? then Some(cs[0]) else None)
    else ChildDir(cs[1..], n)
  }

  /** The mkdir of one walk step: none for the top, where `reldir` is empty. */
  function DirOps(job: Job, root: string): seq<Op> {
    if RelDir(job.inroot, root) == "" then [] else [MakeDir(OutDir(job.inroot, job.outroot, root))]
  }

  /**
   * The walk from directory `node`, found at path `root`: create the
   * destination directory, handle the files, then walk the subdirectories
   * that are left after pruning, in the order of the pruned list.
   */
  function WalkOps(job: Job, root: string, node: Node): seq<Op>
    requires node.Dir?
    decreases node, 1
  {
    var outdir := OutDir(job.inroot, job.outroot, root);
    DirOps(job, root)
      + (FileOps(job, EndsWith(root, "/Native"), outdir, FilesOf(node.children))
      + SubdirOps(job, root, node, Prune(DirNames(node.children)), 0))
  }

  /** The walks of the subdirectories `dirs[i..]` of `node`; a name that is not a directory yields nothing. */
  function SubdirOps(job: Job, root: string, node: Node, dirs: seq<string>, i: nat): seq<Op>
    requires node.Dir?
    decreases node, 0, 1, |dirs| - i
  {
    if i >= |dirs| then []
    else ChildOps(job, root, node, dirs[i]) + SubdirOps(job, root, node, dirs, i + 1)
  }

  /** The walk below the entry `name` of `node`, reached at `Join(root, name)`. */
  function ChildOps(job: Job, root: string, node: Node, name: string): seq<Op>
    requires node.Dir?
    decreases node, 0, 0
  {
    match ChildDir(node.children, name)
    case None => []
    case Some(c) => WalkOps(job, Join(root, name), c)
  }

  /** One step of the descent: the walk below `dirs[j]`, then the rest. */
  lemma SubdirOpsStep(job: Job, root: string, node: Node, dirs: seq<string>, j: nat)
    requires node.Dir? && j < |dirs|
    ensures SubdirOps(job, root, node, dirs, j) == ChildOps(job, root, node, dirs[j]) + SubdirOps(job, root, node, dirs, j + 1)
  {
  }

  /** The destination file system, changed in place. */
  class Destination {
    var dirs: set<string>
    var files: map<string, seq<string>>

    function State(): Fs
      reads this
    {
      Fs(dirs, files)
    }

    constructor (fs: Fs)
      ensures State() == fs
    {
      dirs := fs.dirs;
      files := fs.files;
    }

    /** `os.mkdir(p)` (and `os.makedirs(p)`): fails for an empty path or one that exists. */
    method MakeDir(p: string) returns (ok: bool)
      modifies this
      ensures ok <==> p != "" && p !in old(dirs) && p !in old(files)
      ensures dirs == (if ok then old(dirs) + {p} else old(dirs))
      ensures files == old(files)
      ensures (if ok then Some(State()) else None) == Step(old(State()), Op.MakeDir(p))
    {
      ok := p != "" && p !in dirs && p !in files;
      if ok {
        dirs := dirs + {p};
      }
    }

    /** Opening `p` for writing and writing `lines`: fails when `p` is a directory. */
    method WriteFile(p: string, lines: seq<string>) returns (ok: bool)
      modifies this
      ensures ok <==> p !in old(dirs)
      ensures dirs == old(dirs)
      ensures files == (if ok then old(files)[p := lines] else old(files))
      ensures (if ok then Some(State()) else None) == Step(old(State()), Write(p, lines))
    {
      ok := p !in dirs;
      if ok {
        files := files[p := lines];
      }
    }
  }

  /** handleFile: convert or copy the file `f` found in `root` into `outdir`. */
  method HandleFile(dest: Destination, job: Job, root: string, f: Node, outdir: string) returns (raised: bool)
    requires f.File?
    modifies dest
    ensures Run(dest.State(), raised) == Apply(old(dest.State()), [HandleOp(job, EndsWith(root, "/Native"), outdir, f)])
  {
    var op := HandleOp(job, EndsWith(root, "/Native"), outdir, f);
    assert Apply(old(dest.State()), [op])
        == (match Step(old(dest.State()), op) case None => Run(old(dest.State()), true) case Some(fs') => Run(fs', false));
    if EndsWith(root, "/Native") && EndsWith(f.name, ".js") {
      var out := Rewrite.ConvertFile(job.srcname, job.dstname, f.lines);
      if out.None? {
        return true;
      }
      var ok := dest.WriteFile(Join(outdir, f.name), out.value);
      return !ok;
    } else {
      var ok := dest.WriteFile(Join(outdir, f.name), f.lines);
      return !ok;
    }
  }

  /** convertDir's loop over the excluded names, removing each from `dirs` where present. */
  method PruneDirs(listed: seq<string>) returns (dirs: seq<string>)
    ensures dirs == Prune(listed)
  {
    dirs := listed;
    var e := 0;
    while e < |Excluded|
      invariant 0 <= e <= |Excluded|
      invariant PruneAll(dirs, Excluded[e..]) == Prune(listed)
    {
      var excluded := Excluded[e];
      assert Excluded[e..][1..] == Excluded[e + 1..];
      if excluded in dirs {
        dirs := Remove(dirs, excluded);
      }
      e := e + 1;
    }
    assert Excluded[e..] == [];
  }

  /** handleFile for each file of one directory, in listing order, up to the first exception. */
  method HandleFiles(dest: Destination, job: Job, root: string, files: seq<Node>, outdir: string) returns (raised: bool)
    requires forall k :: 0 <= k < |files| ==> files[k].File?
    modifies dest
    ensures Run(dest.State(), raised) == Apply(old(dest.State()), FileOps(job, EndsWith(root, "/Native"), outdir, files))
  {
    var native := EndsWith(root, "/Native");
    ghost var start := Apply(dest.State(), FileOps(job, native, outdir, files));
    var i := 0;
    while i < |files|
      invariant 0 <= i <= |files|
      invariant start == Apply(dest.State(), FileOps(job, native, outdir, files[i..]))
    {
      ghost var before := dest.State();
      ghost var op := HandleOp(job, native, outdir, files[i]);
      ghost var rest := FileOps(job, native, outdir, files[i + 1..]);
      FileOpsStep(job, native, outdir, files, i);
      ApplyConcat(before, [op], rest);
      raised := HandleFile(dest, job, root, files[i], outdir);
      if raised {
        return;
      }
      i := i + 1;
    }
    assert files[i..] == [];
    return false;
  }

  /**
   * One step of `os.walk(inroot)` and everything below it: prune the
   * listing, create the destination directory, handle the files, then
   * walk each remaining subdirectory. An exception ends the whole walk.
   */
  method Visit(dest: Destination, job: Job, root: string, node: Node) returns (raised: bool)
    requires node.Dir?
    modifies dest
    decreases node, 1, 0
    ensures Run(dest.State(), raised) == Apply(old(dest.State()), WalkOps(job, root, node))
  {
    var dirs := PruneDirs(DirNames(node.children));
    var files := FilesOf(node.children);
    var reldir := RelDir(job.inroot, root);
    var outdir := job.outroot;
    ghost var fileOps := FileOps(job, EndsWith(root, "/Native"), OutDir(job.inroot, job.outroot, root), files);
    ghost var subOps := SubdirOps(job, root, node, dirs, 0);
    ApplyConcat(old(dest.State()), DirOps(job, root), fileOps + subOps);
    if reldir != "" {
      outdir := Join(job.outroot, reldir);
      var ok := dest.MakeDir(outdir);
      if !ok {
        return true;
      }
    }
    ghost var afterDir := dest.State();
    raised := HandleFiles(dest, job, root, files, outdir);
    ApplyConcat(afterDir, fileOps, subOps);
    if raised {
      return;
    }
    raised := VisitSubdirs(dest, job, root, node, dirs);
  }

  /** The walks of the subdirectories named in the pruned list, in its order, up to the first exception. */
  method VisitSubdirs(dest: Destination, job: Job, root: string, node: Node, dirs: seq<string>) returns (raised: bool)
    requires node.Dir?
    modifies dest
    decreases node, 0, 1
    ensures Run(dest.State(), raised) == Apply(old(dest.State()), SubdirOps(job, root, node, dirs, 0))
  {
    var j := 0;
    while j < |dirs|
      invariant 0 <= j <= |dirs|
      invariant Apply(old(dest.State()), SubdirOps(job, root, node, dirs, 0))
             == Apply(dest.State(), SubdirOps(job, root, node, dirs, j))
    {
      ghost var before := dest.State();
      SubdirOpsStep(job, root, node, dirs, j);
      raised := VisitSubdir(dest, job, root, node, dirs[j]);
      ApplyConcat(before, ChildOps(job, root, node, dirs[j]), SubdirOps(job, root, node, dirs, j + 1));
      if raised {
        return;
      }
      j := j + 1;
    }
    return false;
  }

  /** One iteration of os.walk's descent: the walk below `join(root, name)`, nothing if that is not a directory. */
  method VisitSubdir(dest: Destination, job: Job, root: string, node: Node, name: string) returns (raised: bool)
    requires node.Dir?
    modifies dest
    decreases node, 0, 0
    ensures Run(dest.State(), raised) == Apply(old(dest.State()), ChildOps(job, root, node, name))
  {
    var child := ChildDir(node.children, name);
    if child.Some? {
      raised := Visit(dest, job, Join(root, name), child.value);
    } else {
      raised := false;
    }
  }

  /** convertDir's test `if not name`: getName found a name and it is not empty. */
  predicate Named(name: Option<string>) {
    name.Some? && name.value != ""
  }

  /** The entry named `n`, when it is a file. */
  function ChildFile(cs: seq<Node>, n: string): (r: Option<Node>)
    ensures r.Some? ==> r.value in cs && r.value.File? && r.value.name == n
  {
    if cs == [] then None
    else if cs[0].name == n then (if cs[0].File? then Some(cs[0]) else None)
    else ChildFile(cs[1..], n)
  }

  const PackageFile: string := "elm-package.json"

  /**
   * The file `os.path.join(inroot, "elm-package.json")` opens: for an empty
   * `inroot` that is the current directory's own package file, otherwise
   * the entry of the source directory; a source that is not a directory,
   * or has no such file, cannot be opened.
   */
  function SourcePackage(inroot: string, input: Node, cwdPackage: PackageName.PkgFile): (f: PackageName.PkgFile)
    ensures inroot != "" && f.Opened? ==> input.Dir? && !f.failsAfter
  {
    if inroot == "" then cwdPackage
    else if !input.Dir? then PackageName.Unopenable
    else match ChildFile(input.children, PackageFile)
      case None => PackageName.Unopenable
      case Some(f) => PackageName.Opened(f.lines, false)
  }

  /** getName of the source package: `getName(os.path.join(inroot, "elm-package.json"))`. */
  function SourceName(inroot: string, input: Node, cwdPackage: PackageName.PkgFile): Option<string> {
    PackageName.FirstName(PackageName.Delivered(SourcePackage(inroot, input, cwdPackage)))
  }

  /** getName of the destination package: `getName("elm-package.json")`, in the current directory. */
  function DestName(cwdPackage: PackageName.PkgFile): Option<string> {
    PackageName.FirstName(PackageName.Delivered(cwdPackage))
  }

  /** How convertDir ended: one of its two early returns, an exception, or the end of the walk. */
  datatype Outcome = NoSourceName | NoDestName | Raised | Finished

  datatype Converted = Converted(outcome: Outcome, fs: Fs)

  /**
   * What convertDir does once both names are known: `os.makedirs(outroot)`
   * and the walk. `os.walk` of an empty path or of something that is not
   * a directory yields nothing.
   */
  function ConvertOps(job: Job, input: Node): seq<Op> {
    [MakeDir(job.outroot)] + (if job.inroot != "" && input.Dir? then WalkOps(job, job.inroot, input) else [])
  }

  /**
   * convertDir: the source name is looked up first, and without it nothing
   * else happens; then the destination name, read from the current
   * directory; only with both does anything change.
   */
  function ConvertDirSpec(inroot: string, outroot: string, input: Node, cwdPackage: PackageName.PkgFile, fs: Fs): (r: Converted)
    ensures r.outcome == NoSourceName <==> !Named(SourceName(inroot, input, cwdPackage))
    ensures r.outcome == NoDestName <==>
              Named(SourceName(inroot, input, cwdPackage))
              && !Named(DestName(cwdPackage))
    ensures r.outcome == NoSourceName || r.outcome == NoDestName ==> r.fs == fs
    ensures r.outcome == Finished ==> outroot in r.fs.dirs && outroot !in fs.dirs && outroot !in fs.files
    ensures (Named(SourceName(inroot, input, cwdPackage)) && Named(DestName(cwdPackage)) &&
             (outroot == "" || outroot in fs.dirs || outroot in fs.files))
            ==> r == Converted(Raised, fs)
  {
    var src := SourceName(inroot, input, cwdPackage);
    if !Named(src) then Converted(NoSourceName, fs)
    else
      var dst := DestName(cwdPackage);
      if !Named(dst) then Converted(NoDestName, fs)
      else
        var job := Job(inroot, outroot, src.value, dst.value);
        var ops := ConvertOps(job, input);
        var run := Apply(fs, ops);
        ApplyConcat(fs, [MakeDir(outroot)], ops[1..]);
        assert [MakeDir(outroot)] + ops[1..] == ops;
        if run.raised then Converted(Raised, run.fs)
        else
          ApplyKeepsDirs(Step(fs, MakeDir(outroot)).value, ops[1..]);
          Converted(Finished, run.fs)
  }

  /** Operations only ever add directories. */
  lemma {:induction false} ApplyKeepsDirs(fs: Fs, ops: seq<Op>)
    decreases |ops|
    ensures fs.dirs <= Apply(fs, ops).fs.dirs
  {
    if ops != [] {
      match Step(fs, ops[0])
      case None =>
      case Some(fs') => ApplyKeepsDirs(fs', ops[1..]);
    }
  }

  /** convertDir, reading the source package from the tree and the destination one from `cwdPackage`. */
  method ConvertDir(dest: Destination, inroot: string, outroot: string, input: Node, cwdPackage: PackageName.PkgFile)
    returns (outcome: Outcome)
    modifies dest
    ensures Converted(outcome, dest.State()) == ConvertDirSpec(inroot, outroot, input, cwdPackage, old(dest.State()))
  {
    var srcname := PackageName.GetName(SourcePackage(inroot, input, cwdPackage));
    if !Named(srcname) {
      return NoSourceName;
    }
    var dstname := PackageName.GetName(cwdPackage);
    if !Named(dstname) {
      return NoDestName;
    }
    var job := Job(inroot, outroot, srcname.value, dstname.value);
    ghost var walk := if inroot != "" && input.Dir? then WalkOps(job, inroot, input) else [];
    ApplyConcat(old(dest.State()), [MakeDir(outroot)], walk);
    var ok := dest.MakeDir(outroot);
    if !ok {
      return Raised;
    }
    var raised := false;
    if inroot != "" && input.Dir? {
      raised := Visit(dest, job, inroot, input);
    }
    return if raised then Raised else Finished;
  }

  /**
   * The exit status of the script: 1 when the input is not a directory,
   * 2 when the output directory already exists, otherwise 1 when
   * convertDir raised (an uncaught exception) and 0 when it returned,
   * early or not.
   */
  function ExitStatus(indir: string, outdir: string, input: Node, cwdPackage: PackageName.PkgFile, fs: Fs): (r: (int, Fs))
    ensures r.0 == 0 || r.0 == 1 || r.0 == 2
    ensures (indir == "" || !input.Dir?) ==> r == (1, fs)
    ensures r.0 == 2 <==> indir != "" && input.Dir? && outdir in fs.dirs
    ensures r.0 == 2 ==> r.1 == fs
    ensures r.0 == 0 && r.1 != fs ==> outdir in r.1.dirs && outdir !in fs.dirs
    ensures (indir != "" && input.Dir? && outdir !in fs.dirs && (outdir == "" || outdir in fs.files) &&
             Named(SourceName(indir, input, cwdPackage)) && Named(DestName(cwdPackage)))
            ==> r == (1, fs)
  {
    if indir == "" || !input.Dir? then (1, fs)
    else if outdir in fs.dirs then (2, fs)
    else
      var c := ConvertDirSpec(indir, outdir, input, cwdPackage, fs);
      (if c.outcome == Raised then 1 else 0, c.fs)
  }

  /** main: check the arguments, then run convertDir. */
  method Localize(dest: Destination, indir: string, outdir: string, input: Node, cwdPackage: PackageName.PkgFile)
    returns (exit: int)
    modifies dest
    ensures (exit, dest.State()) == ExitStatus(indir, outdir, input, cwdPackage, old(dest.State()))
  {
    // os.path.isdir of an empty path is false
    if indir == "" || !input.Dir? {
      return 1;
    }
    if outdir in dest.dirs {
      return 2;
    }
    var outcome := ConvertDir(dest, indir, outdir, input, cwdPackage);
    return if outcome == Raised then 1 else 0;
  }
}
