/**
 * Path strings as localize.py builds them: `os.path.join` on POSIX, the
 * `reldir` computed from a walk root, and the destination directory that
 * a visited source directory is copied into.
 */
module Paths {
  import Rewrite

  predicate StartsWith(s: string, prefix: string) {
    prefix <= s
  }

  predicate EndsWith(s: string, suffix: string) {
    |suffix| <= |s| && s[|s| - |suffix|..] == suffix
  }

  /** A name as a directory listing returns it: never empty, never holding a slash. */
  predicate ValidName(n: string) {
    n != "" && '/' !in n
  }

  predicate ValidNames(comps: seq<string>) {
    forall i :: 0 <= i < |comps| ==> ValidName(comps[i])
  }

  /** `os.path.join(a, b)` (posixpath): an absolute `b` wins, otherwise one slash separates. */
  function Join(a: string, b: string): string {
    if StartsWith(b, "/") then b
    else if a == "" || EndsWith(a, "/") then a + b
    else a + "/" + b
  }

  /** The separator `Join(a, b)` puts between a non-empty `a` and a relative `b`. */
  function Sep(a: string): string {
    if EndsWith(a, "/") then "" else "/"
  }

  /**
   * `reldir` of convertDir: `root[len(inroot):]` (empty when `root` is
   * shorter, as a Python slice is) with at most one leading slash removed.
   */
  function RelDir(inroot: string, root: string): string {
    var rest := if |inroot| <= |root| then root[|inroot|..] else "";
    if StartsWith(rest, "/") then rest[1..] else rest
  }

  /** `outdir` of convertDir: `outroot` itself for an empty `reldir`, else `outroot` joined with it. */
  function OutDir(inroot: string, outroot: string, root: string): string {
    var rel := RelDir(inroot, root);
    if rel == "" then outroot else Join(outroot, rel)
  }

  /** The root string os.walk yields for the directory reached through `comps` below `inroot`. */
  function RootOf(inroot: string, comps: seq<string>): string
    decreases |comps|
  {
    if comps == [] then inroot
    else Join(RootOf(inroot, comps[..|comps| - 1]), comps[|comps| - 1])
  }

  /** `"/".join(comps)`: the relative path of a directory below the walk's top. */
  function PathOf(comps: seq<string>): string
    decreases |comps|
  {
    if comps == [] then ""
    else if |comps| == 1 then comps[0]
    else PathOf(comps[..|comps| - 1]) + "/" + comps[|comps| - 1]
  }

  /** A relative path of valid names is non-empty and neither starts nor ends with a slash. */
  lemma {:induction false} PathOfShape(comps: seq<string>)
    requires comps != [] && ValidNames(comps)
    ensures PathOf(comps) != ""
    ensures PathOf(comps)[0] != '/'
    ensures PathOf(comps)[|PathOf(comps)| - 1] != '/'
  {
    var last := comps[|comps| - 1];
    assert ValidName(last);
    assert last[|last| - 1] in last;
    if |comps| > 1 {
      var init := comps[..|comps| - 1];
      assert ValidNames(init) by {
        forall i | 0 <= i < |init| ensures ValidName(init[i]) {
          assert init[i] == comps[i];
        }
      }
      PathOfShape(init);
      var p := PathOf(init) + "/" + last;
      assert PathOf(comps) == p;
      assert p[0] == PathOf(init)[0];
      assert p[|p| - 1] == last[|last| - 1];
    } else {
      assert last[0] in last;
    }
  }

  /** Appending a last piece to `sep.join` adds one separator and that piece. */
  lemma {:induction false} JoinWithSnoc(pieces: seq<string>, x: string, sep: string)
    requires pieces != []
    ensures Rewrite.JoinWith(pieces + [x], sep) == Rewrite.JoinWith(pieces, sep) + sep + x
  {
    var ps := pieces + [x];
    assert ps[0] == pieces[0];
    if |pieces| == 1 {
      assert ps[1..] == [x];
    } else {
      assert ps[1..] == pieces[1..] + [x];
      JoinWithSnoc(pieces[1..], x, sep);
    }
  }

  /** The relative path is `"/".join(comps)`, the same join the rewrite splits on. */
  lemma {:induction false} PathOfIsJoinWith(comps: seq<string>)
    decreases |comps|
    ensures PathOf(comps) == Rewrite.JoinWith(comps, "/")
  {
    if |comps| > 1 {
      var init := comps[..|comps| - 1];
      PathOfIsJoinWith(init);
      JoinWithSnoc(init, comps[|comps| - 1], "/");
      assert init + [comps[|comps| - 1]] == comps;
    }
  }

  lemma NotStartsWithSlash(s: string)
    requires s != [] && s[0] != '/'
    ensures !StartsWith(s, "/")
  {
    assert s[..1][0] == s[0];
    assert s[..1] != "/";
  }

  lemma NotEndsWithSlash(s: string)
    requires s != [] && s[|s| - 1] != '/'
    ensures !EndsWith(s, "/")
  {
    assert s[|s| - 1..][0] == s[|s| - 1];
    assert s[|s| - 1..] != "/";
  }

  lemma FirstCharOfName(n: string)
    requires ValidName(n)
    ensures n[0] != '/' && n[|n| - 1] != '/'
  {
    assert n[0] in n;
    assert n[|n| - 1] in n;
  }

  /** Joining a relative path onto a non-empty directory puts exactly `Sep(a)` between them. */
  lemma JoinRelative(a: string, b: string)
    requires a != "" && b != "" && b[0] != '/'
    ensures Join(a, b) == a + Sep(a) + b
  {
    NotStartsWithSlash(b);
  }

  /** Dropping the last name keeps the names valid. */
  lemma InitValid(comps: seq<string>)
    requires comps != [] && ValidNames(comps)
    ensures ValidNames(comps[..|comps| - 1])
  {
    var init := comps[..|comps| - 1];
    forall i | 0 <= i < |init| ensures ValidName(init[i]) {
      assert init[i] == comps[i];
    }
  }

  /** Joining a name onto `pre + p`, where `p` is a non-empty relative path, extends the relative path. */
  lemma JoinOntoPath(pre: string, p: string, n: string)
    requires p != "" && p[|p| - 1] != '/' && ValidName(n)
    ensures Join(pre + p, n) == pre + (p + "/" + n)
  {
    var r := pre + p;
    assert r[|r| - 1] == p[|p| - 1];
    NotEndsWithSlash(r);
    FirstCharOfName(n);
    JoinRelative(r, n);
  }

  /** Below a non-empty `inroot`, a walk root is `inroot`, a separator, then the relative path. */
  lemma {:induction false} RootShape(inroot: string, comps: seq<string>)
    requires inroot != "" && comps != [] && ValidNames(comps)
    ensures RootOf(inroot, comps) == inroot + Sep(inroot) + PathOf(comps)
  {
    var init, last := comps[..|comps| - 1], comps[|comps| - 1];
    assert ValidName(last);
    if init == [] {
      FirstCharOfName(last);
      JoinRelative(inroot, last);
      assert PathOf(comps) == last;
    } else {
      InitValid(comps);
      RootShape(inroot, init);
      PathOfShape(init);
      JoinOntoPath(inroot + Sep(inroot), PathOf(init), last);
      assert PathOf(comps) == PathOf(init) + "/" + last;
    }
  }

  /**
   * convertDir's `reldir` for the directory reached through `comps` is the
   * relative path `"/".join(comps)`: stripping `inroot` and one slash
   * leaves exactly the names walked through, whether or not `inroot`
   * ends with a slash.
   */
  lemma RelDirOfRoot(inroot: string, comps: seq<string>)
    requires inroot != "" && ValidNames(comps)
    ensures RelDir(inroot, RootOf(inroot, comps)) == PathOf(comps)
  {
    if comps == [] {
      assert inroot[|inroot|..] == "";
    } else {
      RootShape(inroot, comps);
      PathOfShape(comps);
      var p := PathOf(comps);
      var root := RootOf(inroot, comps);
      var rest := root[|inroot|..];
      assert rest == Sep(inroot) + p;
      if Sep(inroot) == "" {
        assert rest == p;
        NotStartsWithSlash(p);
      } else {
        assert StartsWith(rest, "/");
        assert rest[1..] == p;
      }
    }
  }

  /** The top of the walk is copied into `outroot` itself. */
  lemma OutDirOfTop(inroot: string, outroot: string)
    ensures OutDir(inroot, outroot, inroot) == outroot
  {
    assert inroot[|inroot|..] == "";
  }

  /** Joining a relative path and then a name is joining the longer relative path at once. */
  lemma JoinAssoc(a: string, p: string, n: string)
    requires p != "" && p[0] != '/' && p[|p| - 1] != '/' && ValidName(n)
    ensures Join(a, p + "/" + n) == Join(Join(a, p), n)
  {
    var pn := p + "/" + n;
    assert pn[0] == p[0];
    NotStartsWithSlash(p);
    NotStartsWithSlash(pn);
    var pre := if a == "" || EndsWith(a, "/") then a else a + "/";
    assert Join(a, p) == pre + p;
    assert Join(a, pn) == pre + pn;
    JoinOntoPath(pre, p, n);
  }

  /**
   * The destination of a subdirectory `n` is the destination of its parent
   * joined with `n`: the copy keeps every relative path of the source.
   */
  lemma OutDirOfChild(inroot: string, outroot: string, comps: seq<string>, n: string)
    requires inroot != "" && ValidNames(comps) && ValidName(n)
    ensures OutDir(inroot, outroot, RootOf(inroot, comps + [n]))
         == Join(OutDir(inroot, outroot, RootOf(inroot, comps)), n)
  {
    var cs := comps + [n];
    assert cs[..|cs| - 1] == comps;
    assert ValidNames(cs) by {
      forall i | 0 <= i < |cs| ensures ValidName(cs[i]) {
        if i < |comps| { assert cs[i] == comps[i]; }
      }
    }
    RelDirOfRoot(inroot, cs);
    RelDirOfRoot(inroot, comps);
    if comps == [] {
      assert PathOf(cs) == n;
    } else {
      PathOfShape(comps);
      assert PathOf(cs) == PathOf(comps) + "/" + n;
      JoinAssoc(outroot, PathOf(comps), n);
    }
  }

  /** The part of `Join(a, n)` before the slash that precedes `n`. */
  function JoinHead(a: string): string
    requires a != ""
  {
    if EndsWith(a, "/") then a[..|a| - 1] else a
  }

  lemma JoinEndsWithSlashName(a: string, n: string)
    requires a != "" && ValidName(n)
    ensures Join(a, n) == JoinHead(a) + "/" + n
  {
    FirstCharOfName(n);
    JoinRelative(a, n);
    if EndsWith(a, "/") {
      assert a == a[..|a| - 1] + "/";
    }
  }

  /** A string `pre + "/" + n` with a valid name `n` ends with "/Native" exactly when `n` is "Native". */
  lemma SlashNameEndsWithNative(pre: string, n: string)
    requires ValidName(n)
    ensures EndsWith(pre + "/" + n, "/Native") <==> n == "Native"
  {
    var s := pre + "/" + n;
    var m := "/Native";
    if n == "Native" {
      assert s[|s| - |m|..] == "/" + n;
    } else if |n| >= 7 {
      // the slash of "/Native" would have to lie inside n
      var off := |s| - |m|;
      assert s[off] == n[off - |pre| - 1];
      assert n[off - |pre| - 1] in n;
      assert s[off] != m[0];
    } else if |n| < 6 {
      // the slash before n would have to be a letter of "Native"
      var off := |s| - |m|;
      if |m| <= |s| {
        assert s[|pre|] == '/';
        assert s[off..][|pre| - off] == s[|pre|];
        assert m[|pre| - off] != '/';
      }
    } else {
      assert s[|s| - |m|..] == "/" + n;
      assert ("/" + n)[1..] == n;
      assert m[1..] == "Native";
    }
  }

  /**
   * handleFile's test `root.endswith("/Native")` holds for a subdirectory
   * of a non-empty `inroot` exactly when that subdirectory is named
   * "Native" — whatever the names above it.
   */
  lemma NativeRootIff(inroot: string, comps: seq<string>, n: string)
    requires inroot != "" && ValidName(n)
    ensures EndsWith(RootOf(inroot, comps + [n]), "/Native") <==> n == "Native"
  {
    var cs := comps + [n];
    assert cs[..|cs| - 1] == comps;
    var parent := RootOf(inroot, comps);
    RootNonEmpty(inroot, comps);
    JoinEndsWithSlashName(parent, n);
    SlashNameEndsWithNative(JoinHead(parent), n);
  }

  lemma {:induction false} RootNonEmpty(inroot: string, comps: seq<string>)
    requires inroot != ""
    ensures RootOf(inroot, comps) != ""
  {
    if comps != [] {
      RootNonEmpty(inroot, comps[..|comps| - 1]);
    }
  }
}
