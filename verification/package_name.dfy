/**
 * getName: the "user/repo" name of an Elm package, taken from the first
 * line of its elm-package.json that the regular expression
 * `//github\.com/(.*)\.git` matches.
 *
 * The expression is modelled directly: a match starts where the literal
 * "//github.com/" occurs, the group `(.*)` is greedy and, like every `.`
 * of Python's `re`, never covers a newline, and the match ends with the
 * literal ".git". `re.search` reports the match that starts leftmost and,
 * for that start, has the longest group.
 */
module PackageName {
  import opened Wrappers

  const Marker: string := "//github.com/"
  const Suffix: string := ".git"

  predicate MarkerAt(line: string, p: nat) {
    p + |Marker| <= |line| && line[p..p + |Marker|] == Marker
  }

  predicate SuffixAt(line: string, j: nat) {
    j + |Suffix| <= |line| && line[j..j + |Suffix|] == Suffix
  }

  /** No newline in `line[lo..hi]`: the only text `.*` can cover. */
  predicate NewlineFree(line: string, lo: nat, hi: nat) {
    forall k :: lo <= k < hi && k < |line| ==> line[k] != '\n'
  }

  /** The expression matches at `p` with its group ending at `j`, i.e. the group is `line[p + |Marker|..j]`. */
  predicate IsMatch(line: string, p: nat, j: nat) {
    MarkerAt(line, p) && p + |Marker| <= j && SuffixAt(line, j) && NewlineFree(line, p + |Marker|, j)
  }

  /** The match `re.search` reports: no match starts earlier, none from `p` has a longer group. */
  ghost predicate IsSearchMatch(line: string, p: nat, j: nat) {
    IsMatch(line, p, j) &&
    forall p': nat, j': nat :: IsMatch(line, p', j') ==> p < p' || (p == p' && j' <= j)
  }

  /** The end of the run of non-newline characters starting at `g`. */
  function RunEnd(line: string, g: nat): (e: nat)
    requires g <= |line|
    decreases |line| - g
    ensures g <= e <= |line|
    ensures NewlineFree(line, g, e)
    ensures e < |line| ==> line[e] == '\n'
  {
    if g == |line| || line[g] == '\n' then g else RunEnd(line, g + 1)
  }

  /** The greatest `j` with `lo <= j <= hi` at which ".git" starts. */
  function LastSuffix(line: string, lo: nat, hi: int): (r: Option<nat>)
    requires hi >= -1
    decreases hi + 1
    ensures r.Some? ==> lo <= r.value <= hi && SuffixAt(line, r.value)
    ensures forall j: nat :: (if r.Some? then r.value < j else lo <= j) && j <= hi ==> !SuffixAt(line, j)
  {
    if hi < lo then None
    else if SuffixAt(line, hi) then Some(hi)
    else LastSuffix(line, lo, hi - 1)
  }

  /** Where the greedy group of a match starting at `p` ends, if the expression matches there at all. */
  function GroupEnd(line: string, p: nat): (r: Option<nat>)
    requires MarkerAt(line, p)
    ensures r.Some? ==> IsMatch(line, p, r.value)
    ensures forall j: nat :: IsMatch(line, p, j) ==> r.Some? && j <= r.value
  {
    var g := p + |Marker|;
    var e := RunEnd(line, g);
    LastSuffix(line, g, e)
  }

  /** The leftmost match starting at or after `from`, as (start, group end). */
  function SearchFrom(line: string, from: nat): (r: Option<(nat, nat)>)
    decreases |line| - from
    ensures r.Some? ==> from <= r.value.0 && IsMatch(line, r.value.0, r.value.1)
    ensures r.Some? ==> forall p': nat, j': nat :: from <= p' && IsMatch(line, p', j') ==>
                          r.value.0 < p' || (r.value.0 == p' && j' <= r.value.1)
    ensures r.None? ==> forall p': nat, j': nat :: from <= p' ==> !IsMatch(line, p', j')
  {
    if from + |Marker| > |line| then None
    else if MarkerAt(line, from) && GroupEnd(line, from).Some? then Some((from, GroupEnd(line, from).value))
    else SearchFrom(line, from + 1)
  }

  /** `pattern.search(line)`: the position of the reported match, if any. */
  function Search(line: string): (r: Option<(nat, nat)>)
    ensures r.Some? ==> IsSearchMatch(line, r.value.0, r.value.1)
    ensures r.None? <==> forall p: nat, j: nat :: !IsMatch(line, p, j)
  {
    SearchFrom(line, 0)
  }

  /** `m.group(1)` of the reported match, or None when the line does not match. */
  function Group(line: string): Option<string> {
    match Search(line)
    case None => None
    case Some((p, j)) => Some(line[p + |Marker|..j])
  }

  /** A line as iteration over a text file yields it: a newline can only be its last character. */
  predicate IsFileLine(line: string) {
    forall k :: 0 <= k < |line| - 1 ==> line[k] != '\n'
  }

  /**
   * On a line read from the file, the name extracted is the text between
   * the FIRST "//github.com/" of the line and the LAST ".git" that starts
   * after it.
   */
  lemma FirstMarkerLastSuffix(line: string, p: nat, j: nat)
    requires IsFileLine(line)
    requires MarkerAt(line, p) && forall q: nat :: q < p ==> !MarkerAt(line, q)
    requires p + |Marker| <= j && SuffixAt(line, j)
    requires forall k: nat :: j < k ==> !SuffixAt(line, k)
    ensures Group(line) == Some(line[p + |Marker|..j])
  {
    assert IsMatch(line, p, j);
    var r := Search(line);
    assert r.Some?;
    var (p0, j0) := r.value;
    assert IsMatch(line, p0, j0);
    assert p0 == p;
    assert j0 == j;
  }

  /** A line whose first "//github.com/" has no ".git" after it yields no name, even if a marker follows. */
  lemma NoSuffixAfterFirstMarker(line: string, p: nat)
    requires MarkerAt(line, p) && forall q: nat :: q < p ==> !MarkerAt(line, q)
    requires forall k: nat :: p + |Marker| <= k ==> !SuffixAt(line, k)
    ensures Group(line) == None
  {
  }

  /** The name of the first line that matches, searching lines in order. */
  function FirstName(lines: seq<string>): Option<string> {
    if lines == [] then None
    else if Group(lines[0]).Some? then Group(lines[0])
    else FirstName(lines[1..])
  }

  /** No name is found exactly when no line matches. */
  lemma {:induction false} FirstNameNone(lines: seq<string>)
    ensures FirstName(lines).None? <==> forall k :: 0 <= k < |lines| ==> Group(lines[k]).None?
  {
    if lines != [] {
      FirstNameNone(lines[1..]);
      if Group(lines[0]).None? {
        forall k | 1 <= k < |lines| ensures lines[k] == lines[1..][k - 1] {
        }
      }
    }
  }

  /** The name found is that of the line that matches first. */
  lemma {:induction false} FirstMatchWins(lines: seq<string>, k: nat)
    requires k < |lines| && Group(lines[k]).Some?
    requires forall i :: 0 <= i < k ==> Group(lines[i]).None?
    ensures FirstName(lines) == Group(lines[k])
  {
    if k > 0 {
      assert Group(lines[0]).None?;
      assert forall i :: 0 <= i < k - 1 ==> lines[1..][i] == lines[i + 1];
      FirstMatchWins(lines[1..], k - 1);
    }
  }

  /** Once a line has matched, nothing after it is consulted. */
  lemma {:induction false} LaterLinesIgnored(lines: seq<string>, rest: seq<string>)
    requires FirstName(lines).Some?
    ensures FirstName(lines + rest) == FirstName(lines)
  {
    var all := lines + rest;
    if Group(lines[0]).Some? {
      assert FirstName(all) == Group(lines[0]) by {
        assert all[0] == lines[0];
      }
    } else {
      assert FirstName(all) == FirstName(lines) by {
        assert all[0] == lines[0];
        assert all[1..] == lines[1..] + rest;
        SkipUnmatched(lines);
        SkipUnmatched(all);
        LaterLinesIgnored(lines[1..], rest);
      }
    }
  }

  lemma SkipUnmatched(lines: seq<string>)
    requires lines != [] && Group(lines[0]).None?
    ensures FirstName(lines) == FirstName(lines[1..])
  {
  }

  /**
   * What opening elm-package.json gives: it cannot be opened at all, or it
   * yields `lines` and then either ends or raises an error while reading on.
   */
  datatype PkgFile = Unopenable | Opened(lines: seq<string>, failsAfter: bool)

  /** The lines getName sees before the end of the file or the read error. */
  function Delivered(f: PkgFile): seq<string> {
    if f.Opened? then f.lines else []
  }

  /**
   * getName. Every exception is caught and turned into None, so a read
   * error after the matching line changes nothing and one before it gives
   * None just as a file without a match does.
   */
  method GetName(f: PkgFile) returns (name: Option<string>)
    ensures name == FirstName(Delivered(f))
  {
    if f.Unopenable? {
      return None;
    }
    var lines := f.lines;
    var i := 0;
    while i < |lines|
      invariant 0 <= i <= |lines|
      invariant forall k :: 0 <= k < i ==> Group(lines[k]).None?
    {
      var m := Group(lines[i]);
      if m.Some? {
        FirstMatchWins(lines, i);
        return m;
      }
      i := i + 1;
    }
    // end of file, or the read error of `failsAfter`, caught
    FirstNameNone(lines);
    return None;
  }
}
