/**
 * What convertDir leaves in the destination. The walk is already known to
 * perform the structural copy's operations (Mirror.TopWalkIsMirror). Here,
 * when nothing exists inside the output root beforehand, every directory
 * creation and every write of that copy succeeds. The destination ends up
 * holding what was there plus exactly the directories created and the
 * files written. Each file of the input lands at its own path, with its
 * contents copied or rewritten, and nothing lands anywhere else.
 */
module FreshCopy {
  import opened Wrappers
  import opened Paths
  import opened Copier
  import opened Mirror
  import Rewrite

  /** The directories a sequence of operations creates. */
  function Made(ops: seq<Op>): set<string>
    decreases |ops|
  {
    if ops == [] then {}
    else (if ops[0].MakeDir? then {ops[0].path} else {}) + Made(ops[1..])
  }

  /** The files a sequence of operations writes, each with the contents written last. */
  function Written(ops: seq<Op>): map<string, seq<string>>
    decreases |ops|
  {
    if ops == [] then map[]
    else (if ops[0].Write? then map[ops[0].path := ops[0].lines] else map[]) + Written(ops[1..])
  }

  lemma {:induction false} MadeConcat(a: seq<Op>, b: seq<Op>)
    decreases |a|
    ensures Made(a + b) == Made(a) + Made(b)
  {
    if a == [] {
      assert a + b == b;
    } else {
      assert (a + b)[0] == a[0];
      assert (a + b)[1..] == a[1..] + b;
      MadeConcat(a[1..], b);
    }
  }

  lemma {:induction false} WrittenConcat(a: seq<Op>, b: seq<Op>)
    decreases |a|
    ensures Written(a + b) == Written(a) + Written(b)
  {
    if a == [] {
      assert a + b == b;
      assert map[] + Written(b) == Written(b);
    } else {
      assert (a + b)[0] == a[0];
      assert (a + b)[1..] == a[1..] + b;
      WrittenConcat(a[1..], b);
      var h: map<string, seq<string>> := if a[0].Write? then map[a[0].path := a[0].lines] else map[];
      MapUnionAssoc(h, Written(a[1..]), Written(b));
    }
  }

  lemma MapUnionAssoc(x: map<string, seq<string>>, y: map<string, seq<string>>, z: map<string, seq<string>>)
    ensures (x + y) + z == x + (y + z)
  {
  }

  /** Path `p` lies strictly inside directory `d`: it extends `d` and the separator a join puts after it. */
  predicate Below(p: string, d: string) {
    |d + Sep(d)| < |p| && d + Sep(d) <= p
  }

  /** `p` is directory `d` itself or lies inside it. */
  predicate Within(p: string, d: string) {
    p == d || Below(p, d)
  }

  /** Nothing in the file system lies inside `out`. */
  predicate Fresh(fs: Fs, out: string) {
    (forall p :: p in fs.dirs ==> !Below(p, out)) && (forall p :: p in fs.files ==> !Below(p, out))
  }

  /** Nothing in the file system is `q` or lies inside it. */
  predicate Clear(fs: Fs, q: string) {
    (forall p :: p in fs.dirs ==> !Within(p, q)) && (forall p :: p in fs.files ==> !Within(p, q))
  }

  /** The first name of a relative path: everything before its first slash. */
  function Lead(s: string): string
    decreases |s|
  {
    if s == "" || s[0] == '/' then "" else [s[0]] + Lead(s[1..])
  }

  lemma {:induction false} LeadOfName(n: string, r: string)
    requires '/' !in n && (r == "" || r[0] == '/')
    decreases |n|
    ensures Lead(n + r) == n
  {
    if n == "" {
      assert n + r == r;
    } else {
      assert (n + r)[0] == n[0];
      assert (n + r)[1..] == n[1..] + r;
      assert n[0] in n;
      assert forall c :: c in n[1..] ==> c in n;
      LeadOfName(n[1..], r);
      assert n == [n[0]] + n[1..];
    }
  }

  /** Joining a valid name onto a non-empty directory gives a path strictly inside it, which ends in no slash. */
  lemma JoinBelow(out: string, n: string)
    requires out != "" && ValidName(n)
    ensures Join(out, n) == out + Sep(out) + n
    ensures Below(Join(out, n), out)
    ensures Sep(Join(out, n)) == "/"
  {
    FirstCharOfName(n);
    JoinRelative(out, n);
    var j := Join(out, n);
    assert j[|j| - 1] == n[|n| - 1];
    assert j[|j| - 1..][0] == j[|j| - 1];
    assert (out + Sep(out)) + n == j;
  }

  /** Whatever lies within `Join(out, n)` lies inside `out`, and its first name there is `n`. */
  lemma WithinJoin(out: string, n: string, p: string)
    requires out != "" && ValidName(n) && Within(p, Join(out, n))
    ensures Below(p, out)
    ensures Lead(p[|out + Sep(out)|..]) == n
  {
    JoinBelow(out, n);
    var x := out + Sep(out);
    var j := Join(out, n);
    assert j == x + n;
    var r := p[|j|..];
    if p == j {
      assert r == "";
      assert p[|x|..] == n + r;
    } else {
      assert j + "/" <= p;
      assert p[..|j|] == (j + "/")[..|j|] == j;
      assert p[|j|] == (j + "/")[|j|] == '/';
      assert r[0] == '/';
      assert p == j + r;
      assert p[|x|..] == n + r;
    }
    LeadOfName(n, r);
    assert p[..|x|] == j[..|x|] == x;
  }

  /** Sibling entries are apart: nothing lies within both `Join(out, a)` and `Join(out, b)` for distinct names. */
  lemma Apart(out: string, a: string, b: string, p: string)
    requires out != "" && ValidName(a) && ValidName(b) && a != b
    requires Within(p, Join(out, a))
    ensures !Within(p, Join(out, b))
  {
    WithinJoin(out, a, p);
    if Within(p, Join(out, b)) {
      WithinJoin(out, b, p);
    }
  }

  /** In a list of distinct names, different positions hold different names. */
  lemma {:induction false} NoDupAt(xs: seq<string>, a: nat, b: nat)
    requires NoDup(xs) && a < |xs| && b < |xs|
    decreases a + b
    ensures a != b ==> xs[a] != xs[b]
  {
    if a > 0 && b > 0 {
      NoDupAt(xs[1..], a - 1, b - 1);
    } else if a == 0 && b > 0 {
      assert xs[b] == xs[1..][b - 1];
    } else if b == 0 && a > 0 {
      assert xs[a] == xs[1..][a - 1];
    }
  }

  /** Entries of one listing with distinct names are told apart by their names. */
  lemma SameNameSame(cs: seq<Node>, x: Node, y: Node)
    requires NoDup(Names(cs)) && x in cs && y in cs && x.name == y.name
    ensures x == y
  {
    var a :| 0 <= a < |cs| && cs[a] == x;
    var b :| 0 <= b < |cs| && cs[b] == y;
    NoDupAt(Names(cs), a, b);
  }

  lemma ChildValid(node: Node, c: Node)
    requires node.Dir? && WellFormed(node) && c in node.children
    ensures ValidName(c.name) && WellFormed(c)
  {
    var k :| 0 <= k < |node.children| && node.children[k] == c;
  }

  /** The subdirectories the walk descends into have distinct names. */
  lemma VisibleDistinct(cs: seq<Node>)
    requires NoDup(Names(cs))
    ensures forall a, b :: 0 <= a < b < |Visible(cs)| ==> Visible(cs)[a].name != Visible(cs)[b].name
  {
    DirNamesNoDup(cs);
    WithoutNoDup(DirNames(cs), ".git");
    WithoutNoDup(Without(DirNames(cs), ".git"), "elm-stuff");
    WithoutExcluded(cs);
    var vs := Visible(cs);
    forall a, b | 0 <= a < b < |vs| ensures vs[a].name != vs[b].name {
      NoDupAt(Names(vs), a, b);
    }
  }

  /** Writing files into `out` creates no directory and puts every file inside `out`. */
  lemma {:induction false} FileOpsBelow(job: Job, native: bool, out: string, files: seq<Node>)
    requires out != ""
    requires forall k :: 0 <= k < |files| ==> files[k].File? && ValidName(files[k].name)
    decreases |files|
    ensures Made(FileOps(job, native, out, files)) == {}
    ensures forall p :: p in Written(FileOps(job, native, out, files)) ==> Below(p, out)
  {
    if files != [] {
      var ops := FileOps(job, native, out, files);
      FileOpsBelow(job, native, out, files[1..]);
      assert ops[1..] == FileOps(job, native, out, files[1..]);
      JoinBelow(out, files[0].name);
    }
  }

  /** Files not named `n` are written nowhere within `Join(out, n)`. */
  lemma {:induction false} FileOpsApart(job: Job, native: bool, out: string, files: seq<Node>, n: string)
    requires out != "" && ValidName(n)
    requires forall k :: 0 <= k < |files| ==> files[k].File? && ValidName(files[k].name) && files[k].name != n
    decreases |files|
    ensures forall p :: p in Written(FileOps(job, native, out, files)) ==> !Within(p, Join(out, n))
  {
    if files != [] {
      var ops := FileOps(job, native, out, files);
      FileOpsApart(job, native, out, files[1..], n);
      assert ops[1..] == FileOps(job, native, out, files[1..]);
      JoinBelow(out, files[0].name);
      if Within(Join(out, files[0].name), Join(out, n)) {
        Apart(out, files[0].name, n, Join(out, files[0].name));
      }
    }
  }

  /** The contents a handled file is written with: rewritten in a "Native" directory when it is JavaScript, otherwise copied. */
  function Copied(job: Job, native: bool, f: Node): seq<string>
    requires f.File? && job.Sub().Some?
  {
    if Rewritable(native, f.name) then Rewrite.RewriteLines(job.Sub().value, f.lines) else f.lines
  }

  /** With both names splitting, handleFile always writes: at `Join(outdir, name)`, the handled contents. */
  lemma HandleWrites(job: Job, native: bool, out: string, f: Node)
    requires job.Sub().Some? && f.File?
    ensures HandleOp(job, native, out, f) == Write(Join(out, f.name), Copied(job, native, f))
  {
  }

  lemma FileOpsCons(job: Job, native: bool, out: string, files: seq<Node>)
    requires job.Sub().Some? && files != []
    requires forall k :: 0 <= k < |files| ==> files[k].File?
    ensures FileOps(job, native, out, files)
         == [Write(Join(out, files[0].name), Copied(job, native, files[0]))] + FileOps(job, native, out, files[1..])
    ensures Written(FileOps(job, native, out, files))
         == map[Join(out, files[0].name) := Copied(job, native, files[0])] + Written(FileOps(job, native, out, files[1..]))
  {
    var ops := FileOps(job, native, out, files);
    HandleWrites(job, native, out, files[0]);
    assert ops[1..] == FileOps(job, native, out, files[1..]);
    assert ops == [ops[0]] + ops[1..];
  }

  /** A file whose name no other file shares is written at `Join(out, name)` with its handled contents. */
  lemma {:induction false} FileOpsWritten(job: Job, native: bool, out: string, files: seq<Node>, f: Node)
    requires out != "" && job.Sub().Some? && f in files
    requires forall k :: 0 <= k < |files| ==> files[k].File? && ValidName(files[k].name)
    requires forall g :: g in files && g.name == f.name ==> g == f
    decreases |files|
    ensures Join(out, f.name) in Written(FileOps(job, native, out, files))
    ensures Written(FileOps(job, native, out, files))[Join(out, f.name)] == Copied(job, native, f)
  {
    var t := files[1..];
    FileOpsCons(job, native, out, files);
    if f in t {
      forall g | g in t && g.name == f.name ensures g == f {
        assert g in files;
      }
      FileOpsWritten(job, native, out, t, f);
    } else {
      assert files == [files[0]] + t;
      assert f == files[0];
      forall k | 0 <= k < |t| ensures t[k].File? && ValidName(t[k].name) && t[k].name != f.name {
        assert t[k] == files[k + 1];
      }
      FileOpsApart(job, native, out, t, f.name);
      assert Within(Join(out, f.name), Join(out, f.name));
    }
  }

  lemma ApplyWrite(fs: Fs, p: string, v: seq<string>, rest: seq<Op>)
    requires p !in fs.dirs
    ensures Apply(fs, [Write(p, v)] + rest) == Apply(Fs(fs.dirs, fs.files[p := v]), rest)
  {
    var ops := [Write(p, v)] + rest;
    assert ops[0] == Write(p, v) && ops[1..] == rest;
  }

  lemma ApplyMakeDir(fs: Fs, p: string, rest: seq<Op>)
    requires p != "" && p !in fs.dirs && p !in fs.files
    ensures Apply(fs, [MakeDir(p)] + rest) == Apply(Fs(fs.dirs + {p}, fs.files), rest)
  {
    var ops := [MakeDir(p)] + rest;
    assert ops[0] == MakeDir(p) && ops[1..] == rest;
  }

  lemma UpdateUnion(m: map<string, seq<string>>, p: string, v: seq<string>, w: map<string, seq<string>>)
    ensures m[p := v] + w == m + (map[p := v] + w)
  {
  }

  /** Writing the files succeeds when none of their paths is a directory, and leaves exactly the files written. */
  lemma {:induction false} FilesRun(job: Job, native: bool, out: string, files: seq<Node>, fs: Fs)
    requires job.Sub().Some?
    requires forall k :: 0 <= k < |files| ==> files[k].File? && Join(out, files[k].name) !in fs.dirs
    decreases |files|
    ensures Apply(fs, FileOps(job, native, out, files))
         == Run(Fs(fs.dirs, fs.files + Written(FileOps(job, native, out, files))), false)
  {
    if files == [] {
      assert fs.files + map[] == fs.files;
    } else {
      var f := files[0];
      var p := Join(out, f.name);
      var v := Copied(job, native, f);
      var rest := FileOps(job, native, out, files[1..]);
      FileOpsCons(job, native, out, files);
      ApplyWrite(fs, p, v, rest);
      FilesRun(job, native, out, files[1..], Fs(fs.dirs, fs.files[p := v]));
      UpdateUnion(fs.files, p, v, Written(rest));
    }
  }

  /** Everything the copy of `node` into `out` creates or writes lies inside `out`. */
  lemma {:induction false} MirrorBelow(job: Job, out: string, native: bool, node: Node)
    requires out != "" && node.Dir? && WellFormed(node)
    decreases node, 1
    ensures forall p :: p in Made(MirrorOps(job, out, native, node)) ==> Below(p, out)
    ensures forall p :: p in Written(MirrorOps(job, out, native, node)) ==> Below(p, out)
  {
    var files := FilesOf(node.children);
    var fo := FileOps(job, native, out, files);
    var so := MirrorSubdirs(job, out, node, Visible(node.children), 0);
    forall k | 0 <= k < |files| ensures ValidName(files[k].name) {
      ChildValid(node, files[k]);
    }
    FileOpsBelow(job, native, out, files);
    SubdirsBelow(job, out, node, Visible(node.children), 0);
    MadeConcat(fo, so);
    WrittenConcat(fo, so);
  }

  lemma {:induction false} SubdirsBelow(job: Job, out: string, node: Node, ds: seq<Node>, i: nat)
    requires out != "" && node.Dir? && WellFormed(node)
    requires forall k :: 0 <= k < |ds| ==> ds[k] in node.children && ds[k].Dir?
    decreases node, 0, |ds| - i
    ensures forall p :: p in Made(MirrorSubdirs(job, out, node, ds, i)) ==> Below(p, out)
    ensures forall p :: p in Written(MirrorSubdirs(job, out, node, ds, i)) ==> Below(p, out)
  {
    if i < |ds| {
      var d := ds[i];
      ChildValid(node, d);
      var j := Join(out, d.name);
      JoinBelow(out, d.name);
      var mo := MirrorOps(job, j, d.name == "Native", d);
      var rest := MirrorSubdirs(job, out, node, ds, i + 1);
      MirrorBelow(job, j, d.name == "Native", d);
      SubdirsBelow(job, out, node, ds, i + 1);
      SubdirsSplit(job, out, node, ds, i);
      forall p | p in Made(mo) || p in Written(mo) ensures Below(p, out) {
        WithinJoin(out, d.name, p);
      }
    }
  }

  /** One visible subdirectory of the descent: its creation, its copy, then the rest. */
  lemma SubdirsSplit(job: Job, out: string, node: Node, ds: seq<Node>, i: nat)
    requires node.Dir? && i < |ds|
    requires forall k :: 0 <= k < |ds| ==> ds[k] in node.children && ds[k].Dir?
    ensures var j := Join(out, ds[i].name);
            var mo := MirrorOps(job, j, ds[i].name == "Native", ds[i]);
            var rest := MirrorSubdirs(job, out, node, ds, i + 1);
            MirrorSubdirs(job, out, node, ds, i) == [MakeDir(j)] + (mo + rest) &&
            Made(MirrorSubdirs(job, out, node, ds, i)) == {j} + Made(mo) + Made(rest) &&
            Written(MirrorSubdirs(job, out, node, ds, i)) == Written(mo) + Written(rest)
  {
    var j := Join(out, ds[i].name);
    var mo := MirrorOps(job, j, ds[i].name == "Native", ds[i]);
    var rest := MirrorSubdirs(job, out, node, ds, i + 1);
    var ops := [MakeDir(j)] + (mo + rest);
    assert MirrorSubdirs(job, out, node, ds, i) == ops;
    assert ops[0] == MakeDir(j) && ops[1..] == mo + rest;
    MadeConcat(mo, rest);
    WrittenConcat(mo, rest);
    assert map[] + Written(mo + rest) == Written(mo + rest);
  }

  /** A subdirectory not named `n` puts nothing within `Join(out, n)`. */
  lemma {:induction false} SubdirsApart(job: Job, out: string, node: Node, ds: seq<Node>, i: nat, n: string)
    requires out != "" && node.Dir? && WellFormed(node) && ValidName(n)
    requires forall k :: 0 <= k < |ds| ==> ds[k] in node.children && ds[k].Dir?
    requires forall k :: i <= k < |ds| ==> ds[k].name != n
    decreases |ds| - i
    ensures forall p :: p in Made(MirrorSubdirs(job, out, node, ds, i)) ==> !Within(p, Join(out, n))
    ensures forall p :: p in Written(MirrorSubdirs(job, out, node, ds, i)) ==> !Within(p, Join(out, n))
  {
    if i < |ds| {
      var d := ds[i];
      ChildValid(node, d);
      var j := Join(out, d.name);
      JoinBelow(out, d.name);
      var mo := MirrorOps(job, j, d.name == "Native", d);
      MirrorBelow(job, j, d.name == "Native", d);
      SubdirsApart(job, out, node, ds, i + 1, n);
      SubdirsSplit(job, out, node, ds, i);
      forall p | p == j || p in Made(mo) || p in Written(mo) ensures !Within(p, Join(out, n)) {
        Apart(out, d.name, n, p);
      }
    }
  }

  /**
   * Copying `node` into `out` succeeds when nothing lies inside `out` yet,
   * and leaves exactly the directories it creates and the files it writes.
   */
  lemma {:induction false} MirrorRun(job: Job, out: string, native: bool, node: Node, fs: Fs)
    requires out != "" && node.Dir? && WellFormed(node) && job.Sub().Some?
    requires Fresh(fs, out)
    decreases node, 1
    ensures Apply(fs, MirrorOps(job, out, native, node))
         == Run(Fs(fs.dirs + Made(MirrorOps(job, out, native, node)), fs.files + Written(MirrorOps(job, out, native, node))), false)
  {
    var files := FilesOf(node.children);
    var ds := Visible(node.children);
    var fo := FileOps(job, native, out, files);
    var so := MirrorSubdirs(job, out, node, ds, 0);
    forall k | 0 <= k < |files| ensures ValidName(files[k].name) && Join(out, files[k].name) !in fs.dirs {
      ChildValid(node, files[k]);
      JoinBelow(out, files[k].name);
    }
    FilesRun(job, native, out, files, fs);
    FileOpsBelow(job, native, out, files);
    ApplyConcat(fs, fo, so);
    var fs1 := Fs(fs.dirs, fs.files + Written(fo));
    forall j | 0 <= j < |ds| ensures Clear(fs1, Join(out, ds[j].name)) {
      FilesLeaveClear(job, native, out, node, fs, ds[j]);
    }
    VisibleDistinct(node.children);
    SubdirsRun(job, out, node, ds, 0, fs1);
    MadeConcat(fo, so);
    WrittenConcat(fo, so);
    MapUnionAssoc(fs.files, Written(fo), Written(so));
  }

  /** Writing the files of `node` into a fresh `out` leaves every subdirectory's destination clear. */
  lemma FilesLeaveClear(job: Job, native: bool, out: string, node: Node, fs: Fs, d: Node)
    requires out != "" && node.Dir? && WellFormed(node) && Fresh(fs, out)
    requires d in node.children && d.Dir?
    ensures Clear(Fs(fs.dirs, fs.files + Written(FileOps(job, native, out, FilesOf(node.children)))), Join(out, d.name))
  {
    var files := FilesOf(node.children);
    ChildValid(node, d);
    forall k | 0 <= k < |files| ensures ValidName(files[k].name) && files[k].name != d.name {
      ChildValid(node, files[k]);
      if files[k].name == d.name {
        SameNameSame(node.children, files[k], d);
      }
    }
    FileOpsApart(job, native, out, files, d.name);
    forall p | p in fs.dirs || p in fs.files ensures !Within(p, Join(out, d.name)) {
      if Within(p, Join(out, d.name)) {
        WithinJoin(out, d.name, p);
      }
    }
  }

  lemma {:induction false} SubdirsRun(job: Job, out: string, node: Node, ds: seq<Node>, i: nat, fs: Fs)
    requires out != "" && node.Dir? && WellFormed(node) && job.Sub().Some?
    requires forall k :: 0 <= k < |ds| ==> ds[k] in node.children && ds[k].Dir?
    requires forall a, b :: 0 <= a < b < |ds| ==> ds[a].name != ds[b].name
    requires forall k :: i <= k < |ds| ==> Clear(fs, Join(out, ds[k].name))
    decreases node, 0, |ds| - i
    ensures Apply(fs, MirrorSubdirs(job, out, node, ds, i))
         == Run(Fs(fs.dirs + Made(MirrorSubdirs(job, out, node, ds, i)), fs.files + Written(MirrorSubdirs(job, out, node, ds, i))), false)
  {
    if i >= |ds| {
      assert fs.files + map[] == fs.files;
    } else {
      var d := ds[i];
      ChildValid(node, d);
      var j := Join(out, d.name);
      JoinBelow(out, d.name);
      var native := d.name == "Native";
      var mo := MirrorOps(job, j, native, d);
      var rest := MirrorSubdirs(job, out, node, ds, i + 1);
      SubdirsSplit(job, out, node, ds, i);
      var fs1 := Fs(fs.dirs + {j}, fs.files);
      CreateClear(fs, j, mo + rest);
      MirrorRun(job, j, native, d, fs1);
      ApplyConcat(fs1, mo, rest);
      var fs2 := Fs(fs1.dirs + Made(mo), fs1.files + Written(mo));
      MirrorBelow(job, j, native, d);
      forall k | i + 1 <= k < |ds| ensures Clear(fs2, Join(out, ds[k].name)) {
        ChildValid(node, ds[k]);
        SiblingStaysClear(out, d.name, ds[k].name, fs, Made(mo), Written(mo));
      }
      SubdirsRun(job, out, node, ds, i + 1, fs2);
      MapUnionAssoc(fs.files, Written(mo), Written(rest));
    }
  }

  /** Creating a directory that is clear succeeds, and nothing then lies inside it. */
  lemma CreateClear(fs: Fs, j: string, rest: seq<Op>)
    requires j != "" && Clear(fs, j)
    ensures Apply(fs, [MakeDir(j)] + rest) == Apply(Fs(fs.dirs + {j}, fs.files), rest)
    ensures Fresh(Fs(fs.dirs + {j}, fs.files), j)
  {
    assert Within(j, j);
    ApplyMakeDir(fs, j, rest);
    forall p | p in fs.dirs + {j} ensures !Below(p, j) {
      if p != j {
        assert !Within(p, j);
      }
    }
  }

  /** Creating and filling `Join(out, a)` leaves a sibling `Join(out, b)` clear. */
  lemma SiblingStaysClear(out: string, a: string, b: string, fs: Fs, made: set<string>, written: map<string, seq<string>>)
    requires out != "" && ValidName(a) && ValidName(b) && a != b
    requires Clear(fs, Join(out, b))
    requires forall p :: p in made ==> Below(p, Join(out, a))
    requires forall p :: p in written ==> Below(p, Join(out, a))
    ensures Clear(Fs(fs.dirs + {Join(out, a)} + made, fs.files + written), Join(out, b))
  {
    forall p | p == Join(out, a) || p in made || p in written ensures !Within(p, Join(out, b)) {
      Apart(out, a, b, p);
    }
  }

  /**
   * convertDir into a destination with nothing at or inside the output
   * root, with both names found and both splitting into "user/repo":
   * the copy finishes, exit status 0, and the destination holds what it
   * held before plus the output root and exactly what the structural copy
   * of the input creates and writes.
   */
  lemma FreshConvertFinishes(inroot: string, outroot: string, input: Node, cwdPackage: PackageName.PkgFile, fs: Fs)
    requires inroot != "" && input.Dir? && WellFormed(input)
    requires Named(SourceName(inroot, input, cwdPackage)) && Named(DestName(cwdPackage))
    requires Rewrite.MakeSubst(SourceName(inroot, input, cwdPackage).value, DestName(cwdPackage).value).Some?
    requires outroot != "" && outroot !in fs.dirs && outroot !in fs.files && Fresh(fs, outroot)
    ensures var job := Job(inroot, outroot, SourceName(inroot, input, cwdPackage).value, DestName(cwdPackage).value);
            var ops := MirrorOps(job, outroot, EndsWith(inroot, "/Native"), input);
            var after := Fs(fs.dirs + {outroot} + Made(ops), fs.files + Written(ops));
            ConvertDirSpec(inroot, outroot, input, cwdPackage, fs) == Converted(Finished, after) &&
            ExitStatus(inroot, outroot, input, cwdPackage, fs) == (0, after)
  {
    var job := Job(inroot, outroot, SourceName(inroot, input, cwdPackage).value, DestName(cwdPackage).value);
    var native := EndsWith(inroot, "/Native");
    var ops := MirrorOps(job, outroot, native, input);
    TopWalkIsMirror(job, input);
    var all := ConvertOps(job, input);
    assert all == [MakeDir(outroot)] + ops;
    var fs0 := Fs(fs.dirs + {outroot}, fs.files);
    assert all[0] == MakeDir(outroot) && all[1..] == ops;
    assert Step(fs, MakeDir(outroot)) == Some(fs0);
    assert Apply(fs, all) == Apply(fs0, ops);
    MirrorRun(job, outroot, native, input, fs0);
  }

  /** Every file of a directory is written at `Join(out, name)`, copied or rewritten as handleFile decides. */
  lemma CopiedFile(job: Job, out: string, native: bool, node: Node, f: Node)
    requires out != "" && node.Dir? && WellFormed(node) && job.Sub().Some?
    requires f in node.children && f.File?
    ensures Join(out, f.name) in Written(MirrorOps(job, out, native, node))
    ensures Written(MirrorOps(job, out, native, node))[Join(out, f.name)] == Copied(job, native, f)
  {
    var files := FilesOf(node.children);
    var ds := Visible(node.children);
    var fo := FileOps(job, native, out, files);
    var so := MirrorSubdirs(job, out, node, ds, 0);
    ChildValid(node, f);
    FilesOfComplete(node.children);
    forall k | 0 <= k < |files| ensures ValidName(files[k].name) {
      ChildValid(node, files[k]);
    }
    forall g | g in files && g.name == f.name ensures g == f {
      SameNameSame(node.children, g, f);
    }
    FileOpsWritten(job, native, out, files, f);
    forall k | 0 <= k < |ds| ensures ds[k].name != f.name {
      if ds[k].name == f.name {
        SameNameSame(node.children, ds[k], f);
      }
    }
    SubdirsApart(job, out, node, ds, 0, f.name);
    assert Within(Join(out, f.name), Join(out, f.name));
    WrittenConcat(fo, so);
  }

  /**
   * Every subdirectory that is not excluded is created at `Join(out, name)`,
   * and its own copy is part of the copy of its parent, unchanged.
   */
  lemma CopiedSubdir(job: Job, out: string, native: bool, node: Node, d: Node)
    requires out != "" && node.Dir? && WellFormed(node)
    requires d in node.children && d.Dir? && d.name !in Excluded
    ensures Join(out, d.name) in Made(MirrorOps(job, out, native, node))
    ensures Made(MirrorOps(job, Join(out, d.name), d.name == "Native", d)) <= Made(MirrorOps(job, out, native, node))
    ensures Extends(Written(MirrorOps(job, out, native, node)), Written(MirrorOps(job, Join(out, d.name), d.name == "Native", d)))
  {
    var files := FilesOf(node.children);
    var ds := Visible(node.children);
    var fo := FileOps(job, native, out, files);
    var so := MirrorSubdirs(job, out, node, ds, 0);
    VisibleComplete(node.children);
    var k :| 0 <= k < |ds| && ds[k] == d;
    VisibleDistinct(node.children);
    SubdirsContain(job, out, node, ds, 0, k);
    MadeConcat(fo, so);
    WrittenConcat(fo, so);
    ExtendsRight(Written(fo), Written(so), Written(MirrorOps(job, Join(out, d.name), d.name == "Native", d)));
  }

  lemma {:induction false} SubdirsContain(job: Job, out: string, node: Node, ds: seq<Node>, i: nat, k: nat)
    requires out != "" && node.Dir? && WellFormed(node) && i <= k < |ds|
    requires forall m :: 0 <= m < |ds| ==> ds[m] in node.children && ds[m].Dir?
    requires forall a, b :: 0 <= a < b < |ds| ==> ds[a].name != ds[b].name
    decreases k - i
    ensures var mo := MirrorOps(job, Join(out, ds[k].name), ds[k].name == "Native", ds[k]);
            var so := MirrorSubdirs(job, out, node, ds, i);
            Join(out, ds[k].name) in Made(so) && Made(mo) <= Made(so) && Extends(Written(so), Written(mo))
  {
    SubdirsSplit(job, out, node, ds, i);
    var mi := MirrorOps(job, Join(out, ds[i].name), ds[i].name == "Native", ds[i]);
    var rest := MirrorSubdirs(job, out, node, ds, i + 1);
    if i < k {
      SubdirsContain(job, out, node, ds, i + 1, k);
      ExtendsRight(Written(mi), Written(rest), Written(MirrorOps(job, Join(out, ds[k].name), ds[k].name == "Native", ds[k])));
    } else {
      var d := ds[k];
      ChildValid(node, d);
      var j := Join(out, d.name);
      JoinBelow(out, d.name);
      MirrorBelow(job, j, d.name == "Native", d);
      SubdirsApart(job, out, node, ds, k + 1, d.name);
      forall p | p in Written(mi) ensures p !in Written(rest) {
        assert Within(p, j);
      }
      ExtendsLeft(Written(mi), Written(rest));
    }
  }

  /** Map `m` holds every entry of `c`, with the same value. */
  predicate Extends(m: map<string, seq<string>>, c: map<string, seq<string>>) {
    forall p :: p in c ==> p in m && m[p] == c[p]
  }

  lemma ExtendsRight(a: map<string, seq<string>>, m: map<string, seq<string>>, c: map<string, seq<string>>)
    requires Extends(m, c)
    ensures Extends(a + m, c)
  {
  }

  lemma ExtendsLeft(c: map<string, seq<string>>, b: map<string, seq<string>>)
    requires forall p :: p in c ==> p !in b
    ensures Extends(c + b, c)
  {
  }

  /**
   * Nothing else is written or created: every path the copy of `node`
   * writes is a file of `node` joined onto `out`, or a path the copy of a
   * visible subdirectory writes; every directory it creates is a visible
   * subdirectory joined onto `out`, or one that subdirectory's copy creates.
   */
  lemma CopyExact(job: Job, out: string, native: bool, node: Node, p: string)
    requires node.Dir?
    ensures p in Written(MirrorOps(job, out, native, node)) ==>
              (exists f :: f in node.children && f.File? && p == Join(out, f.name)) ||
              (exists d :: d in Visible(node.children) && d.Dir? && p in Written(MirrorOps(job, Join(out, d.name), d.name == "Native", d)))
    ensures p in Made(MirrorOps(job, out, native, node)) ==>
              exists d :: d in Visible(node.children) && d.Dir? &&
                (p == Join(out, d.name) || p in Made(MirrorOps(job, Join(out, d.name), d.name == "Native", d)))
  {
    var files := FilesOf(node.children);
    var ds := Visible(node.children);
    var fo := FileOps(job, native, out, files);
    var so := MirrorSubdirs(job, out, node, ds, 0);
    MadeConcat(fo, so);
    WrittenConcat(fo, so);
    FileOpsExact(job, native, out, files, p);
    SubdirsExact(job, out, node, ds, 0, p);
  }

  lemma {:induction false} FileOpsExact(job: Job, native: bool, out: string, files: seq<Node>, p: string)
    requires forall k :: 0 <= k < |files| ==> files[k].File?
    decreases |files|
    ensures Made(FileOps(job, native, out, files)) == {}
    ensures p in Written(FileOps(job, native, out, files)) ==> exists f :: f in files && p == Join(out, f.name)
  {
    if files != [] {
      var ops := FileOps(job, native, out, files);
      assert ops[1..] == FileOps(job, native, out, files[1..]);
      FileOpsExact(job, native, out, files[1..], p);
      if p in Written(ops[1..]) {
        var f :| f in files[1..] && p == Join(out, f.name);
        assert f in files;
      }
      assert files[0] in files;
    }
  }

  lemma {:induction false} SubdirsExact(job: Job, out: string, node: Node, ds: seq<Node>, i: nat, p: string)
    requires node.Dir?
    requires forall k :: 0 <= k < |ds| ==> ds[k] in node.children && ds[k].Dir?
    decreases |ds| - i
    ensures p in Written(MirrorSubdirs(job, out, node, ds, i)) ==>
              exists d :: d in ds && d.Dir? && p in Written(MirrorOps(job, Join(out, d.name), d.name == "Native", d))
    ensures p in Made(MirrorSubdirs(job, out, node, ds, i)) ==>
              exists d :: d in ds && d.Dir? &&
                (p == Join(out, d.name) || p in Made(MirrorOps(job, Join(out, d.name), d.name == "Native", d)))
  {
    if i < |ds| {
      SubdirsSplit(job, out, node, ds, i);
      SubdirsExact(job, out, node, ds, i + 1, p);
      assert ds[i] in ds;
    }
  }
}
