/**
 * convertFile: the munged-name rewrite applied to native JavaScript.
 *
 * From the source name "user/repo" it builds the pattern `_user$repo$`
 * exactly as given (hyphens kept), from the destination name
 * "user2/repo2" the replacement `_user2$repo2$` in which every hyphen,
 * the owner's included, becomes an underscore, and it passes every line
 * through a leftmost, non-overlapping replace-all.
 *
 * The pattern is compiled as a regular expression; the model reads it as
 * the literal text it spells, which is what `re` does when the names hold
 * no regular-expression metacharacters.
 */
module Rewrite {
  import opened Wrappers

  /** The position of the first `c` in `s`. */
  function IndexOf(s: string, c: char): (r: Option<nat>)
    ensures r.Some? ==> r.value < |s| && s[r.value] == c && c !in s[..r.value]
    ensures r.None? <==> c !in s
  {
    if s == [] then None
    else if s[0] == c then Some(0)
    else
      match IndexOf(s[1..], c)
      case None => None
      case Some(i) =>
        assert s[..i + 1] == [s[0]] + s[1..][..i];
        Some(i + 1)
  }

  /**
   * `user, repo = name.split("/")`: the unpacking raises ValueError unless
   * the name holds exactly one slash.
   */
  function SplitName(name: string): (r: Option<(string, string)>)
    ensures r.Some? ==> name == r.value.0 + "/" + r.value.1
    ensures r.Some? ==> '/' !in r.value.0 && '/' !in r.value.1
  {
    match IndexOf(name, '/')
    case None => None
    case Some(i) =>
      var user, repo := name[..i], name[i + 1..];
      if '/' in repo then None
      else
        assert name == user + "/" + repo;
        Some((user, repo))
  }

  /** Every name with exactly one slash splits into the two parts around it. */
  lemma SplitNameRoundTrip(user: string, repo: string)
    requires '/' !in user && '/' !in repo
    ensures SplitName(user + "/" + repo) == Some((user, repo))
  {
    var name := user + "/" + repo;
    var i := IndexOf(name, '/');
    assert name[|user|] == '/';
    assert name[..|user|] == user;
    assert forall k :: 0 <= k < |user| ==> name[k] == user[k] && name[k] != '/';
    assert i.Some?;
    assert i.value >= |user|;
    assert i.value <= |user| by {
      assert forall k :: 0 <= k < i.value ==> name[..i.value][k] == name[k];
    }
    assert name[|user| + 1..] == repo;
  }

  /** `re.sub("-", "_", s)`: every hyphen becomes an underscore, nothing else changes. */
  function Underscore(s: string): (r: string)
    ensures |r| == |s|
    ensures forall k :: 0 <= k < |s| ==> r[k] == (if s[k] == '-' then '_' else s[k])
  {
    if s == [] then []
    else [if s[0] == '-' then '_' else s[0]] + Underscore(s[1..])
  }

  lemma UnderscoreHasNoHyphen(s: string)
    ensures '-' !in Underscore(s)
  {
    var r := Underscore(s);
    forall k | 0 <= k < |r| ensures r[k] != '-' {
    }
  }

  lemma UnderscoreKeepsHyphenFree(s: string)
    requires '-' !in s
    ensures Underscore(s) == s
  {
    var r := Underscore(s);
    forall k | 0 <= k < |s| ensures r[k] == s[k] {
      assert s[k] in s;
    }
  }

  /** The compiled pattern and the replacement of one convertFile call. */
  datatype Subst = Subst(pattern: string, replacement: string)

  /**
   * The pattern and replacement convertFile builds, or None for the
   * ValueError of a name that does not split; the source name is split
   * first.
   */
  function MakeSubst(srcname: string, dstname: string): (r: Option<Subst>)
    ensures r.Some? <==> SplitName(srcname).Some? && SplitName(dstname).Some?
    ensures r.Some? ==> r.value.pattern != [] && r.value.pattern[0] == '_'
    ensures r.Some? ==> '-' !in r.value.replacement
  {
    match SplitName(srcname)
    case None => None
    case Some((user, repo)) =>
      match SplitName(dstname)
      case None => None
      case Some((user2, repo2)) =>
        var replacement := Underscore("_" + user2 + "$" + repo2 + "$");
        UnderscoreHasNoHyphen("_" + user2 + "$" + repo2 + "$");
        Some(Subst("_" + user + "$" + repo + "$", replacement))
  }

  /**
   * For names "user/repo" and "user2/repo2" the pattern is `_user$repo$`
   * with the source's hyphens kept, and the replacement is `_user2$repo2$`
   * with every hyphen turned into an underscore.
   */
  lemma SubstOfNames(user: string, repo: string, user2: string, repo2: string)
    requires '/' !in user && '/' !in repo && '/' !in user2 && '/' !in repo2
    ensures MakeSubst(user + "/" + repo, user2 + "/" + repo2)
         == Some(Subst("_" + user + "$" + repo + "$", Underscore("_" + user2 + "$" + repo2 + "$")))
  {
    SplitNameRoundTrip(user, repo);
    SplitNameRoundTrip(user2, repo2);
  }

  predicate OccursAt(s: string, pat: string, k: nat) {
    k + |pat| <= |s| && s[k..k + |pat|] == pat
  }

  /** `s` holds no occurrence of `pat` at all. */
  ghost predicate Free(s: string, pat: string) {
    forall k: nat :: !OccursAt(s, pat, k)
  }

  /**
   * `pattern.sub(replacement, s)` for a literal, non-empty pattern: scan
   * from the left, replace each occurrence and resume after it.
   */
  function ReplaceAll(s: string, pat: string, rep: string): string
    requires pat != []
    decreases |s|
  {
    if s == [] then []
    else if pat <= s then rep + ReplaceAll(s[|pat|..], pat, rep)
    else [s[0]] + ReplaceAll(s[1..], pat, rep)
  }

  lemma PrefixIsOccurrence(s: string, pat: string)
    ensures pat <= s <==> OccursAt(s, pat, 0)
  {
    if pat <= s {
      assert s[..|pat|] == pat;
    }
  }

  /** An occurrence one position into `s` is an occurrence at the start of `s[1..]`'s counterpart. */
  lemma OccursShift(s: string, pat: string, k: nat)
    requires s != []
    ensures OccursAt(s, pat, k + 1) == OccursAt(s[1..], pat, k)
  {
    if k + 1 + |pat| <= |s| {
      assert s[1..][k..k + |pat|] == s[k + 1..k + 1 + |pat|];
    }
  }

  /** Whether an occurrence lies within `u` does not depend on what follows `u`. */
  lemma OccursInPrefix(u: string, w: string, pat: string, k: nat)
    requires k + |pat| <= |u|
    ensures OccursAt(u + w, pat, k) == OccursAt(u, pat, k)
  {
    assert (u + w)[k..k + |pat|] == u[k..k + |pat|];
  }

  /** A line in which the pattern does not occur is left unchanged. */
  lemma {:induction false} ReplaceAllFree(s: string, pat: string, rep: string)
    requires pat != [] && Free(s, pat)
    ensures ReplaceAll(s, pat, rep) == s
  {
    if s != [] {
      PrefixIsOccurrence(s, pat);
      forall k: nat ensures !OccursAt(s[1..], pat, k) {
        OccursShift(s, pat, k);
      }
      ReplaceAllFree(s[1..], pat, rep);
    }
  }

  /** Text in which no occurrence starts is copied unchanged, and the scan then resumes behind it. */
  lemma {:induction false} ReplaceAllSkip(x: string, y: string, pat: string, rep: string)
    requires pat != []
    requires forall k: nat :: k < |x| ==> !OccursAt(x + y, pat, k)
    ensures ReplaceAll(x + y, pat, rep) == x + ReplaceAll(y, pat, rep)
  {
    if x == [] {
      assert x + y == y;
    } else {
      var s := x + y;
      PrefixIsOccurrence(s, pat);
      assert !OccursAt(s, pat, 0);
      assert ReplaceAll(s, pat, rep) == [s[0]] + ReplaceAll(s[1..], pat, rep);
      assert s[1..] == x[1..] + y;
      forall k: nat | k < |x[1..]| ensures !OccursAt(x[1..] + y, pat, k) {
        OccursShift(s, pat, k);
      }
      ReplaceAllSkip(x[1..], y, pat, rep);
      assert x == [s[0]] + x[1..];
    }
  }

  /** `sep.join(pieces)`. */
  function JoinWith(pieces: seq<string>, sep: string): string
    decreases |pieces|
  {
    if pieces == [] then ""
    else if |pieces| == 1 then pieces[0]
    else pieces[0] + sep + JoinWith(pieces[1..], sep)
  }

  /** No occurrence of `pat` starts inside `piece` when `pat` follows it. */
  predicate ClearBefore(piece: string, pat: string) {
    forall k: nat :: k < |piece| ==> !OccursAt(piece + pat, pat, k)
  }

  /**
   * `pieces` cut a text at the occurrences a left-to-right scan finds:
   * no occurrence starts inside a piece, not even one that runs on into
   * the occurrence after it, and the last piece holds none.
   */
  ghost predicate LeftmostPieces(pieces: seq<string>, pat: string) {
    pieces != [] &&
    (forall i :: 0 <= i < |pieces| - 1 ==> ClearBefore(pieces[i], pat)) &&
    Free(pieces[|pieces| - 1], pat)
  }

  /**
   * The replace-all against its reference: a text cut into pieces at its
   * leftmost non-overlapping occurrences is rewritten to the same pieces
   * joined with the replacement. Text outside the occurrences, and the
   * order of everything, is kept.
   */
  lemma {:induction false} ReplaceAllPieces(pieces: seq<string>, pat: string, rep: string)
    requires pat != [] && LeftmostPieces(pieces, pat)
    ensures ReplaceAll(JoinWith(pieces, pat), pat, rep) == JoinWith(pieces, rep)
  {
    if |pieces| == 1 {
      ReplaceAllFree(pieces[0], pat, rep);
    } else {
      var p0, tail := pieces[0], pieces[1..];
      var t := JoinWith(tail, pat);
      assert JoinWith(pieces, pat) == p0 + (pat + t);
      assert ClearBefore(p0, pat);
      forall k: nat | k < |p0| ensures !OccursAt(p0 + (pat + t), pat, k) {
        assert !OccursAt(p0 + pat, pat, k);
        assert p0 + (pat + t) == (p0 + pat) + t;
        OccursInPrefix(p0 + pat, t, pat, k);
      }
      ReplaceAllSkip(p0, pat + t, pat, rep);
      assert pat <= pat + t;
      assert (pat + t)[|pat|..] == t;
      assert ReplaceAll(pat + t, pat, rep) == rep + ReplaceAll(t, pat, rep);
      assert LeftmostPieces(tail, pat) by {
        forall i | 0 <= i < |tail| - 1 ensures ClearBefore(tail[i], pat) {
          assert tail[i] == pieces[i + 1];
        }
      }
      ReplaceAllPieces(tail, pat, rep);
    }
  }

  /** `s.split(pat)`: the texts between the leftmost non-overlapping occurrences of `pat`. */
  function SplitOn(s: string, pat: string): (r: seq<string>)
    requires pat != []
    decreases |s|
    ensures r != []
  {
    if pat <= s then [""] + SplitOn(s[|pat|..], pat)
    else if s == [] then [""]
    else
      var t := SplitOn(s[1..], pat);
      [[s[0]] + t[0]] + t[1..]
  }

  lemma JoinOfConsFirst(c: char, t: seq<string>, sep: string)
    requires t != []
    ensures JoinWith([[c] + t[0]] + t[1..], sep) == [c] + JoinWith(t, sep)
  {
    var u := [[c] + t[0]] + t[1..];
    assert u[1..] == t[1..];
  }

  /** Every text splits into pieces that cut it at its leftmost occurrences. */
  lemma {:induction false} SplitOnPieces(s: string, pat: string)
    requires pat != []
    decreases |s|
    ensures JoinWith(SplitOn(s, pat), pat) == s
    ensures LeftmostPieces(SplitOn(s, pat), pat)
  {
    if pat <= s {
      var t := SplitOn(s[|pat|..], pat);
      SplitOnPieces(s[|pat|..], pat);
      SplitAtOccurrence(s, pat);
      JoinEmptyFirst(t, pat);
      LeftmostCons("", t, pat);
    } else if s == [] {
      assert Free("", pat);
    } else {
      SplitOnPieces(s[1..], pat);
      if |SplitOn(s[1..], pat)| == 1 {
        SplitLastPiece(s, pat);
      } else {
        SplitInnerPiece(s, pat);
      }
    }
  }

  lemma JoinCons(piece: string, t: seq<string>, sep: string)
    requires t != []
    ensures JoinWith([piece] + t, sep) == piece + sep + JoinWith(t, sep)
  {
    assert ([piece] + t)[1..] == t;
  }

  lemma LeftmostCons(piece: string, t: seq<string>, pat: string)
    requires ClearBefore(piece, pat) && LeftmostPieces(t, pat)
    ensures LeftmostPieces([piece] + t, pat)
  {
    var r := [piece] + t;
    forall i | 0 <= i < |r| - 1 ensures ClearBefore(r[i], pat) {
      if i > 0 { assert r[i] == t[i - 1]; }
    }
    assert r[|r| - 1] == t[|t| - 1];
  }

  /** SplitOn of a text starting with an occurrence: an empty first piece, then the rest split. */
  lemma SplitAtOccurrence(s: string, pat: string)
    requires pat != [] && pat <= s
    ensures SplitOn(s, pat) == [""] + SplitOn(s[|pat|..], pat)
    ensures s == pat + s[|pat|..]
  {
  }

  /** An empty piece in front adds one separator in front of the joined text. */
  lemma JoinEmptyFirst(t: seq<string>, sep: string)
    requires t != []
    ensures JoinWith([""] + t, sep) == sep + JoinWith(t, sep)
  {
    JoinCons("", t, sep);
    assert "" + sep == sep;
  }

  /** SplitOnPieces, where no occurrence follows the first character: one piece, all of `s`. */
  lemma SplitLastPiece(s: string, pat: string)
    requires pat != [] && s != [] && !(pat <= s)
    requires |SplitOn(s[1..], pat)| == 1
    requires JoinWith(SplitOn(s[1..], pat), pat) == s[1..]
    requires LeftmostPieces(SplitOn(s[1..], pat), pat)
    ensures JoinWith(SplitOn(s, pat), pat) == s
    ensures LeftmostPieces(SplitOn(s, pat), pat)
  {
    var t := SplitOn(s[1..], pat);
    var r := SplitOn(s, pat);
    assert r == [[s[0]] + t[0]];
    assert t[0] == s[1..];
    assert r[0] == s;
    PrefixIsOccurrence(s, pat);
    forall k: nat ensures !OccursAt(s, pat, k) {
      if k > 0 {
        OccursShift(s, pat, k - 1);
      }
    }
  }

  /** SplitOnPieces, where an occurrence follows later: the first character joins the first piece. */
  lemma SplitInnerPiece(s: string, pat: string)
    requires pat != [] && s != [] && !(pat <= s)
    requires |SplitOn(s[1..], pat)| > 1
    requires JoinWith(SplitOn(s[1..], pat), pat) == s[1..]
    requires LeftmostPieces(SplitOn(s[1..], pat), pat)
    ensures JoinWith(SplitOn(s, pat), pat) == s
    ensures LeftmostPieces(SplitOn(s, pat), pat)
  {
    var c := s[0];
    var t := SplitOn(s[1..], pat);
    var first := [c] + t[0];
    assert SplitOn(s, pat) == [first] + t[1..];
    JoinOfConsFirst(c, t, pat);
    assert s == [c] + s[1..];
    var u := first + pat;
    JoinCons(t[0], t[1..], pat);
    assert [t[0]] + t[1..] == t;
    assert s == u + JoinWith(t[1..], pat);
    assert ClearBefore(t[0], pat);
    forall k: nat | k < |first| ensures !OccursAt(u, pat, k) {
      if k == 0 {
        PrefixIsOccurrence(s, pat);
        OccursInPrefix(u, JoinWith(t[1..], pat), pat, 0);
      } else {
        assert u[1..] == t[0] + pat;
        OccursShift(u, pat, k - 1);
      }
    }
    assert LeftmostPieces(t[1..], pat) by {
      forall i | 0 <= i < |t[1..]| - 1 ensures ClearBefore(t[1..][i], pat) {
        assert t[1..][i] == t[i + 1];
      }
    }
    LeftmostCons(first, t[1..], pat);
  }

  /**
   * Python's identity `s.replace(pat, rep) == rep.join(s.split(pat))`:
   * the scan replaces exactly the occurrences that split finds.
   */
  lemma ReplaceAllIsJoinOfSplit(s: string, pat: string, rep: string)
    requires pat != []
    ensures ReplaceAll(s, pat, rep) == JoinWith(SplitOn(s, pat), rep)
  {
    SplitOnPieces(s, pat);
    ReplaceAllPieces(SplitOn(s, pat), pat, rep);
  }

  /** One line of convertFile's output. */
  function RewriteLine(sub: Subst, line: string): string
    requires sub.pattern != []
  {
    ReplaceAll(line, sub.pattern, sub.replacement)
  }

  /** The lines convertFile writes: one per input line, in order. */
  function RewriteLines(sub: Subst, lines: seq<string>): (r: seq<string>)
    requires sub.pattern != []
    ensures |r| == |lines|
    ensures forall k :: 0 <= k < |lines| ==> r[k] == RewriteLine(sub, lines[k])
  {
    if lines == [] then []
    else [RewriteLine(sub, lines[0])] + RewriteLines(sub, lines[1..])
  }

  /**
   * convertFile: split both names (the ValueError, here None, comes
   * before anything is written), build pattern and replacement, then
   * rewrite the input line by line.
   */
  method ConvertFile(srcname: string, dstname: string, lines: seq<string>) returns (out: Option<seq<string>>)
    ensures out.None? <==> MakeSubst(srcname, dstname).None?
    ensures out.Some? ==> out.value == RewriteLines(MakeSubst(srcname, dstname).value, lines)
  {
    var names := SplitName(srcname);
    if names.None? {
      return None;
    }
    var (user, repo) := names.value;
    var pattern := "_" + user + "$" + repo + "$";
    var names2 := SplitName(dstname);
    if names2.None? {
      return None;
    }
    var (user2, repo2) := names2.value;
    var replacement := Underscore("_" + user2 + "$" + repo2 + "$");
    ghost var sub := MakeSubst(srcname, dstname).value;
    assert sub == Subst(pattern, replacement);
    var written: seq<string> := [];
    var i := 0;
    while i < |lines|
      invariant 0 <= i <= |lines|
      invariant |written| == i
      invariant forall k :: 0 <= k < i ==> written[k] == ReplaceAll(lines[k], pattern, replacement)
    {
      written := written + [ReplaceAll(lines[i], pattern, replacement)];
      i := i + 1;
    }
    return Some(written);
  }

  /**
   * The source pattern keeps its hyphens, so for a repository name with a
   * hyphen it never matches a line without hyphens — in particular not a
   * munged name whose hyphens were turned into underscores, the form the
   * module's own documentation gives for such names.
   */
  lemma HyphenatedSourceNeverMatches(user: string, repo: string, user2: string, repo2: string, line: string)
    requires '/' !in user && '/' !in repo && '/' !in user2 && '/' !in repo2
    requires '-' in repo && '-' !in line
    ensures RewriteLine(MakeSubst(user + "/" + repo, user2 + "/" + repo2).value, line) == line
  {
    SubstOfNames(user, repo, user2, repo2);
    var pat := "_" + user + "$" + repo + "$";
    var h :| 0 <= h < |repo| && repo[h] == '-';
    var at := |user| + 2 + h;
    assert pat[at] == '-';
    forall k: nat ensures !OccursAt(line, pat, k) {
      if k + |pat| <= |line| {
        assert line[k + at] in line;
        assert line[k..k + |pat|][at] == line[k + at];
      }
    }
    ReplaceAllFree(line, pat, Underscore("_" + user2 + "$" + repo2 + "$"));
  }

  /**
   * A file in which no line holds the pattern comes out exactly as it went
   * in, whatever the replacement.
   */
  lemma RewriteLinesFree(sub: Subst, lines: seq<string>)
    requires sub.pattern != []
    requires forall k :: 0 <= k < |lines| ==> Free(lines[k], sub.pattern)
    ensures RewriteLines(sub, lines) == lines
  {
    forall k | 0 <= k < |lines| ensures RewriteLines(sub, lines)[k] == lines[k] {
      ReplaceAllFree(lines[k], sub.pattern, sub.replacement);
    }
  }

  /**
   * A line that starts with the munged name of the source package, and
   * holds it nowhere else, starts with the destination's munged name
   * instead; the rest of the line is kept.
   */
  lemma {:induction false} RenameLeadingName(user: string, repo: string, user2: string, repo2: string, rest: string)
    requires '/' !in user && '/' !in repo && '/' !in user2 && '/' !in repo2
    requires Free(rest, "_" + user + "$" + repo + "$")
    ensures RewriteLine(MakeSubst(user + "/" + repo, user2 + "/" + repo2).value, "_" + user + "$" + repo + "$" + rest)
         == Underscore("_" + user2 + "$" + repo2 + "$") + rest
  {
    SubstOfNames(user, repo, user2, repo2);
    var pat, rep := "_" + user + "$" + repo + "$", Underscore("_" + user2 + "$" + repo2 + "$");
    var s := pat + rest;
    assert pat <= s;
    assert s[|pat|..] == rest;
    ReplaceAllFree(rest, pat, rep);
  }

  /**
   * For example, package "alice/thing" relocated to "bob/newthing"
   * turns `_alice$thing$bar()` into `_bob$newthing$bar()`.
   */
  lemma RelocationExample(user: string, repo: string, user2: string, repo2: string, rest: string)
    requires user == "alice" && repo == "thing" && user2 == "bob" && repo2 == "newthing" && rest == "bar()"
    ensures RewriteLine(MakeSubst(user + "/" + repo, user2 + "/" + repo2).value, "_" + user + "$" + repo + "$" + rest)
         == "_" + user2 + "$" + repo2 + "$" + rest
  {
    ShortTextFree(rest, "_" + user + "$" + repo + "$");
    RenameLeadingName(user, repo, user2, repo2, rest);
    MungedNameWithoutHyphen(user2, repo2);
  }

  lemma ShortTextFree(s: string, pat: string)
    requires |s| < |pat|
    ensures Free(s, pat)
  {
  }

  lemma MungedNameWithoutHyphen(user: string, repo: string)
    requires '-' !in user && '-' !in repo
    ensures Underscore("_" + user + "$" + repo + "$") == "_" + user + "$" + repo + "$"
  {
    var m := "_" + user + "$" + repo + "$";
    assert forall c :: c in m ==> c == '_' || c == '$' || c in user || c in repo;
    UnderscoreKeepsHyphenFree(m);
  }

  /** `"".join(lines)`: the file's text. */
  function Concat(lines: seq<string>): string
    decreases |lines|
  {
    if lines == [] then "" else lines[0] + Concat(lines[1..])
  }

  /** A text that is empty or ends with a newline. */
  predicate EndsLine(s: string) {
    s == [] || s[|s| - 1] == '\n'
  }

  lemma NoOccurrenceAcrossLineEnd(a: string, b: string, pat: string)
    requires '\n' !in pat && a != [] && a[|a| - 1] == '\n' && |pat| > |a|
    ensures !(pat <= a + b)
  {
    assert pat[|a| - 1] in pat;
    assert (a + b)[|a| - 1] == '\n';
  }

  /** With a pattern free of newlines, no occurrence crosses the end of a line. */
  lemma {:induction false} ReplaceAllAtLineEnd(a: string, b: string, pat: string, rep: string)
    requires pat != [] && '\n' !in pat && EndsLine(a)
    decreases |a|
    ensures ReplaceAll(a + b, pat, rep) == ReplaceAll(a, pat, rep) + ReplaceAll(b, pat, rep)
  {
    if a == [] {
      assert a + b == b;
    } else {
      var s := a + b;
      if pat <= s {
        if |pat| > |a| {
          NoOccurrenceAcrossLineEnd(a, b, pat);
          assert false;
        }
        assert pat <= a;
        assert s[|pat|..] == a[|pat|..] + b;
        ReplaceAllAtLineEnd(a[|pat|..], b, pat, rep);
      } else {
        assert !(pat <= a);
        assert s[1..] == a[1..] + b;
        ReplaceAllAtLineEnd(a[1..], b, pat, rep);
      }
    }
  }

  /**
   * Rewriting line by line, as convertFile streams the file, gives the
   * same text as rewriting the whole file at once.
   */
  lemma {:induction false} LinewiseIsWholeText(sub: Subst, lines: seq<string>)
    requires sub.pattern != [] && '\n' !in sub.pattern
    requires forall i :: 0 <= i < |lines| - 1 ==> EndsLine(lines[i])
    ensures Concat(RewriteLines(sub, lines)) == RewriteLine(sub, Concat(lines))
  {
    if lines != [] {
      var tail := lines[1..];
      assert forall i :: 0 <= i < |tail| - 1 ==> tail[i] == lines[i + 1];
      LinewiseIsWholeText(sub, tail);
      var out := RewriteLines(sub, lines);
      assert out[1..] == RewriteLines(sub, tail);
      assert Concat(out) == RewriteLine(sub, lines[0]) + Concat(RewriteLines(sub, tail));
      assert Concat(lines) == lines[0] + Concat(tail);
      if tail == [] {
        assert Concat(tail) == "";
        assert ReplaceAll("", sub.pattern, sub.replacement) == "";
        assert lines[0] + "" == lines[0];
      } else {
        ReplaceAllAtLineEnd(lines[0], Concat(tail), sub.pattern, sub.replacement);
      }
    }
  }
}
