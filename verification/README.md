# localize.py, modelled in Dafny

`localize.py` copies an Elm package directory into a new directory. While
copying, it rewrites the "munged" global names in the package's native
JavaScript. A package "user/repo" names its native globals `_user$repo$…`.
The copy must use the prefix of the project it is copied into.

This project models the whole script:

- **getName** reads the "user/repo" name from the first line of an
  `elm-package.json` that matches `//github\.com/(.*)\.git`
  (module `PackageName`, in `package_name.dfy`).
- **convertFile** splits both names and builds the pattern `_user$repo$`
  and the replacement `_user2$repo2$`, with every hyphen of the replacement
  turned into `_`. It then rewrites the file line by line with a leftmost,
  non-overlapping replace-all (module `Rewrite`, in `rewrite.dfy`).
- **handleFile** decides between that rewrite and a verbatim copy.
  **convertDir** resolves both names, creates the output root, and walks the
  input top-down as `os.walk` does. At every level it prunes ".git" and
  "elm-stuff", computes `reldir` and the destination directory, creates that
  directory, and handles the files before descending. **main**'s checks
  decide the exit status. All of this is in module `Copier`, in
  `copier.dfy`.
- **`os.path.join` and the `reldir` arithmetic** are in module `Paths`, in
  `paths.dfy`.

The source tree is a value: `Copier.Node`, with files holding their lines
and directories holding their entries in listing order. The destination is
a class, `Copier.Destination`, whose fields are the set of directories
created and the map from file paths to contents. Its methods update those
fields in place.

What a walk does is specified as the sequence of operations it performs,
`Copier.WalkOps`: directory creations, file writes, and the ValueError of a
name that does not split. `Copier.Apply` runs such a sequence against a
destination and stops at the first operation that raises. The imperative
walk (`Copier.Visit` and the methods it calls) is proved to leave exactly
the state `Apply` gives.

Module `Mirror` (`mirror.dfy`) gives an independent structural reference
for the walk. It reads every destination path off the tree by joining
names onto the output root, and descends into every directory that is not
excluded. It proves that, on every tree a file system can hold, the walk
performs exactly the reference's operations. It also proves that the
contents of excluded directories, at any depth, do not affect the result.

Module `FreshCopy` (`fresh_copy.dfy`) states what the destination holds
afterwards. Suppose nothing exists at or inside the output root, both
names are found, and both split into "user/repo". Then the copy creates
every directory and writes every file without a collision, and the script
exits with status 0. The destination then holds what it held before, plus
the output root, plus exactly the directories and files of the structural
copy. Each file of a directory sits at the directory's destination joined
with its name. Its contents are rewritten when the directory is "Native"
and the file is JavaScript, and copied otherwise. Each subdirectory that
is not excluded is created at the destination joined with its name and is
copied into it. Nothing else is written or created.

## Where the code and its documentation disagree

- **Hyphens in the source pattern.** The module docstring
  (localize.py:5-9) gives the prefix of package "joeschmoe/elm-coolstuff"
  as `_joeschmoe$elm_coolstuff$`, with the hyphen as an underscore.
  convertFile (localize.py:82-84) builds the pattern from the source name
  exactly as written, hyphens kept; only the replacement is normalised
  (localize.py:86-88). The model follows the code.
  `Rewrite.HyphenatedSourceNeverMatches` shows the consequence: when the
  source repository name contains a hyphen, no line free of hyphens is
  ever rewritten, and a munged name is always free of hyphens.
- **Order of the checks.** The "output exists" check is made in main
  (localize.py:128-130), before any name is resolved. It looks only for an
  existing *directory*. An existing file at the output path passes that
  check. Once both package names are found, `os.makedirs` then raises,
  giving exit status 1; `Copier.ExitStatus` states this, and
  `Copier.ConvertDirSpec` states the exception. Without both names the
  status is 0, as below.
- **Exit status when a name is missing.** A missing package name makes
  convertDir return normally (localize.py:36-46), so the script exits with
  status 0 and creates nothing.

## Model

| member | source | states |
|---|---|---|
| Paths.Join | localize.py:62 | definition of `os.path.join` on POSIX: an absolute second part wins, otherwise exactly one "/" separates; JoinRelative and JoinAssoc state its laws |
| Paths.RootOf | localize.py:50 | definition of the root string os.walk yields for a directory reached through some names; RootShape states its form |
| Paths.RelDir | localize.py:56-58 | definition of `reldir`: the root without the `inroot` prefix and without one leading "/"; RelDirOfRoot states what it yields |
| Paths.OutDir | localize.py:60-62 | definition of `outdir`: `outroot` for an empty `reldir`, otherwise `outroot` joined with it; OutDirOfTop and OutDirOfChild state what it yields |
| Paths.JoinRelative | localize.py:62 | `os.path.join` of a directory and a relative name puts exactly one separator between them, none when the directory already ends with "/" |
| Paths.RootShape | localize.py:50 | every root os.walk yields below the top is the input root, a separator, then the names walked through, joined with "/" |
| Paths.RelDirOfRoot | localize.py:56-58 | `reldir` of a walk root is exactly the relative path of the names walked through, whether or not the input root ends with "/" |
| Paths.JoinAssoc | localize.py:62 | joining a relative path and then a name gives the same path as joining the longer relative path at once |
| Paths.OutDirOfTop | localize.py:60-62 | the top of the walk is copied into the output root itself |
| Paths.OutDirOfChild | localize.py:56-63 | the destination of subdirectory `n` is its parent's destination joined with `n`: relative paths are kept |
| Paths.NativeRootIff | localize.py:72 | below the top, `root.endswith("/Native")` holds exactly when the directory is named "Native", whatever the names above it |
| Paths.SlashNameEndsWithNative | localize.py:72 | a path ending in "/" then a valid name ends with "/Native" exactly when that name is "Native" |
| Paths.PathOfShape | localize.py:56-58 | a relative path of valid names is non-empty and neither starts nor ends with "/" |
| Paths.PathOfIsJoinWith | localize.py:56-62 | the relative path `reldir` of a directory is `"/".join` of the names walked through, the same join as Rewrite.JoinWith |
| PackageName.RunEnd | localize.py:101 | the run of characters `.*` may cover from a position ends at the first newline or at the end of the line |
| PackageName.LastSuffix | localize.py:101 | it finds the greatest position in a range where ".git" starts, and none exists beyond it |
| PackageName.GroupEnd | localize.py:101 | for a match starting at `p`, the greedy group ends at the last possible ".git", and at no match at all when none exists |
| PackageName.SearchFrom | localize.py:103 | the match found is the leftmost one, and for that start the one with the longest group; None means no match starts at or after the position |
| PackageName.Search | localize.py:103 | `pattern.search(line)` reports a match exactly when one exists, and it is the one `re` reports |
| PackageName.Group | localize.py:103-105 | definition of `m.group(1)` of the match Search reports; FirstMarkerLastSuffix and NoSuffixAfterFirstMarker state what it yields |
| PackageName.FirstName | localize.py:102-107 | definition of getName's loop: the group of the first line that matches; FirstNameNone, FirstMatchWins and LaterLinesIgnored state its properties |
| PackageName.FirstMarkerLastSuffix | localize.py:101-105 | on a line of the file, the name is the text between the first "//github.com/" and the last ".git" after it |
| PackageName.NoSuffixAfterFirstMarker | localize.py:101-104 | a line whose first "//github.com/" has no ".git" after it yields no name, even if another marker follows |
| PackageName.FirstNameNone | localize.py:102-107 | no name is found exactly when no line matches |
| PackageName.FirstMatchWins | localize.py:102-107 | the name returned is that of the first matching line |
| PackageName.LaterLinesIgnored | localize.py:102-107 | once a line has matched, the lines after it are never consulted |
| PackageName.GetName | localize.py:97-111 | getName returns the name of the first matching line among the lines read; it returns None for a file that cannot be opened, has no matching line, or fails while being read before one |
| Rewrite.IndexOf | localize.py:82 | the position of the first occurrence of a character, None exactly when it is absent |
| Rewrite.SplitName | localize.py:82 | when `name.split("/")` unpacks into two parts, the name is those parts around a single slash, neither holding a slash |
| Rewrite.SplitNameRoundTrip | localize.py:82 | every "user/repo" with exactly one slash unpacks into its two parts |
| Rewrite.Underscore | localize.py:88 | `re.sub("-", "_", s)` turns every hyphen into an underscore and changes nothing else |
| Rewrite.UnderscoreHasNoHyphen | localize.py:88 | the replacement never contains a hyphen |
| Rewrite.UnderscoreKeepsHyphenFree | localize.py:88 | a text without hyphens is left as it is |
| Rewrite.MakeSubst | localize.py:82-88 | a pattern and replacement exist exactly when both names split; the pattern is never empty and starts with "_", and the replacement has no hyphen |
| Rewrite.SubstOfNames | localize.py:82-88 | for "user/repo" and "user2/repo2" the pattern is `_user$repo$` with hyphens kept, and the replacement is `_user2$repo2$` with hyphens turned into underscores |
| Rewrite.ReplaceAll | localize.py:93 | definition of `pattern.sub(replacement, line)` for a literal pattern: scan left to right, replace an occurrence and resume after it; ReplaceAllPieces and ReplaceAllIsJoinOfSplit state what it yields |
| Rewrite.RewriteLine | localize.py:93 | one line of convertFile's loop: ReplaceAll with the pattern and replacement of the two names |
| Rewrite.JoinWith | localize.py:93 | definition of `sep.join(pieces)`, the independent reference ReplaceAllIsJoinOfSplit compares the substitution with |
| Rewrite.ReplaceAllFree | localize.py:93 | a line in which the pattern does not occur is left unchanged |
| Rewrite.ReplaceAllSkip | localize.py:93 | text in which no occurrence starts is copied unchanged, and the scan resumes after it |
| Rewrite.ReplaceAllPieces | localize.py:93 | a line cut into pieces at its leftmost non-overlapping occurrences becomes the same pieces joined with the replacement: only the occurrences change, and order is kept |
| Rewrite.SplitOn | localize.py:93 | `s.split(pat)` always yields at least one piece |
| Rewrite.SplitOnPieces | localize.py:93 | splitting cuts a text at its leftmost non-overlapping occurrences, and joining the pieces gives the text back |
| Rewrite.ReplaceAllIsJoinOfSplit | localize.py:93 | the substitution equals `rep.join(s.split(pat))` for every text |
| Rewrite.RewriteLines | localize.py:92-94 | the output has one line per input line, in order, each rewritten on its own |
| Rewrite.RewriteLinesFree | localize.py:92-94 | a file in which no line holds the pattern comes out unchanged |
| Rewrite.ConvertFile | localize.py:78-94 | convertFile raises ValueError exactly when a name does not split, and then writes nothing; otherwise it writes the rewritten lines |
| Rewrite.HyphenatedSourceNeverMatches | localize.py:82-84 | with a hyphen in the source repository name, no line free of hyphens is ever rewritten |
| Rewrite.RenameLeadingName | localize.py:82-93 | a line that starts with the source's munged name and holds it nowhere else starts with the destination's munged name instead, and the rest of the line is kept |
| Rewrite.RelocationExample | localize.py:78-94 | "alice/thing" relocated to "bob/newthing" turns `_alice$thing$bar()` into `_bob$newthing$bar()` |
| Rewrite.ReplaceAllAtLineEnd | localize.py:92-93 | with a pattern free of newlines, no occurrence crosses the end of a line |
| Rewrite.LinewiseIsWholeText | localize.py:90-94 | rewriting line by line gives the same text as rewriting the whole file at once |
| Copier.Names | localize.py:50 | the names of a listing, one per entry, in order |
| Copier.DirNames | localize.py:50 | os.walk's `dirs` holds only names from the listing; DirNamesComplete and DirNamesConcat give the converse and the order |
| Copier.DirNamesComplete | localize.py:50 | every subdirectory of the listing has its name in `dirs` |
| Copier.DirNamesConcat | localize.py:50 | `dirs` keeps listing order: the subdirectories of a first part of the listing come before those of the rest |
| Copier.FilesOf | localize.py:50 | os.walk's `files` holds only files from the listing |
| Copier.FilesOfComplete | localize.py:50 | no file of the listing is missing from os.walk's `files` |
| Copier.FilesOfConcat | localize.py:50 | `files` keeps listing order: the files of a first part of the listing come before those of the rest |
| Copier.Remove | localize.py:54 | definition of `dirs.remove(x)`: drop the first `x`; RemoveCount and RemoveFirst state what it yields |
| Copier.PruneAll | localize.py:52-54 | definition of convertDir's loop over a list of excluded names, removing each only when present |
| Copier.Prune | localize.py:52-54 | the loop over ".git" and "elm-stuff"; PruneDirs computes it, and PruneExact and PruneIsVisible state what it keeps |
| Copier.Apply | localize.py:48-66 | definition of running the script's operations in order against the destination, stopping at the first that raises; ApplyConcat and ApplyKeepsDirs state its laws |
| Copier.RemoveCount | localize.py:54 | `dirs.remove(x)` keeps a list without `x` unchanged, and otherwise removes exactly one `x` |
| Copier.RemoveFirst | localize.py:54 | `dirs.remove(x)` is the part before the first `x` followed by the part after it |
| Copier.Step | localize.py:48-94 | mkdir adds exactly its path, a write replaces exactly one file, and the ValueError changes nothing |
| Copier.ApplyConcat | localize.py:50-66 | running two stretches of a walk is running the first and then, unless it raised, the second: an exception ends the whole operation |
| Copier.ApplyKeepsDirs | localize.py:48-66 | nothing the script does removes a directory |
| Copier.Rewritable | localize.py:72 | handleFile's test: the root ends with "/Native" and the file name with ".js" |
| Copier.HandleOp | localize.py:69-75 | handleFile targets `outdir` joined with the file name; it writes the rewritten lines for a ".js" file of a "/Native" root, raises for one when a name does not split, and otherwise copies the lines verbatim |
| Copier.FileOps | localize.py:65-66 | one handleFile per file, in listing order |
| Copier.ChildDir | localize.py:50 | joining a listed name onto the root reaches an entry of the listing with that name |
| Copier.DirOps | localize.py:60-63 | definition of the mkdir of a walk root: none when `reldir` is empty, as at the top, otherwise `os.mkdir(outdir)` |
| Copier.WalkOps | localize.py:50-66 | definition of what the walk does from one root: its mkdir, its files in order, then each pruned subdirectory; Visit is proved to do it and Mirror.WalkIsMirror states what it amounts to |
| Copier.SubdirOps | localize.py:50 | definition of the descent into the pruned names, in order |
| Copier.ChildOps | localize.py:50 | definition of the descent into one name: the walk below the directory it reaches |
| Copier.Destination.MakeDir | localize.py:48-63 | `os.makedirs` and `os.mkdir` succeed exactly for a non-empty path that does not exist yet, and then add it and nothing else |
| Copier.Destination.WriteFile | localize.py:75-94 | the copy of handleFile and the write of convertFile fail on a directory and otherwise replace exactly that one file's contents |
| Copier.HandleFile | localize.py:69-75 | handleFile changes the destination as its operation says |
| Copier.PruneDirs | localize.py:52-54 | the loop over the excluded names leaves the pruned list |
| Copier.HandleFiles | localize.py:65-66 | the files of one directory are handled in listing order until the first exception |
| Copier.Visit | localize.py:50-66 | the walk from one directory leaves exactly the destination its operations give, and reports whether it raised |
| Copier.VisitSubdirs | localize.py:50 | os.walk descends into the pruned names in order and stops at the first exception |
| Copier.VisitSubdir | localize.py:50 | a single descent is the walk below the entry the name reaches, or nothing |
| Copier.ChildFile | localize.py:34 | the entry opened as the package file has that name and is a file |
| Copier.SourcePackage | localize.py:34-35 | for a non-empty input root, the source package can be opened only when the input is a directory, and then it has no read error; Mirror.SourcePackageOfEntry states which lines it delivers |
| Copier.SourceName | localize.py:34-35 | definition of getName of the input's package file |
| Copier.DestName | localize.py:42-43 | definition of getName of the current directory's package file |
| Copier.Named | localize.py:36-44 | definition of the tests `if not srcname` and `if not dstname`: a name was found and it is not empty |
| Copier.ConvertOps | localize.py:48-50 | definition of what convertDir does once both names are known: `os.makedirs(outroot)`, then the walk, which yields nothing for an empty or non-directory input |
| Copier.ConvertDirSpec | localize.py:32-66 | convertDir stops, changing nothing, exactly when the source name is missing or empty; otherwise it stops the same way exactly when the destination name is missing or empty; a completed copy has created an output root that did not exist before; with both names found, an empty or already existing output path makes `os.makedirs` raise, changing nothing; FreshCopy.FreshConvertFinishes states what a completed copy into a fresh destination holds |
| Copier.ConvertDir | localize.py:32-66 | convertDir leaves the outcome and destination its specification gives |
| Copier.ExitStatus | localize.py:124-134 | status 1 for a non-directory input; status 2 exactly when the output directory exists, with nothing changed; status 0 after a change only when a new output root was created; status 1, with nothing changed, for an empty output path or an existing file there once both names are found |
| Copier.Localize | localize.py:114-134 | main leaves the exit status and destination that ExitStatus gives |
| Mirror.Without | localize.py:54 | removing every occurrence of a name keeps exactly the other names |
| Mirror.RemoveIsWithout | localize.py:54 | in a listing with distinct names, `list.remove` removes the name altogether |
| Mirror.WithoutNoDup | localize.py:54 | removing a name keeps the names distinct |
| Mirror.DirNamesNoDup | localize.py:50 | in a listing with distinct names, the `dirs` list has distinct names |
| Mirror.PruneIsWithout | localize.py:52-54 | on distinct names, convertDir's loop removes ".git" and "elm-stuff" altogether |
| Mirror.WithoutExcluded | localize.py:52-54 | removing ".git" and "elm-stuff" from `dirs` leaves the names of the directories that are not excluded, in listing order |
| Mirror.PruneIsVisible | localize.py:50-54 | in a listing with distinct names, the pruned `dirs` list names exactly the directories that are not excluded, in listing order |
| Mirror.PruneExact | localize.py:52-54 | pruning distinct names keeps a name exactly when it is not ".git" or "elm-stuff" |
| Mirror.ChildDirOfEntry | localize.py:50 | with distinct names, joining a subdirectory's name onto the root reaches that subdirectory |
| Mirror.ChildFileOfEntry | localize.py:34 | with distinct names, the file opened under a listed file's name is that file |
| Mirror.SourcePackageOfEntry | localize.py:34-35 | when the input directory holds elm-package.json, getName is given exactly its lines, without a read error |
| Mirror.Visible | localize.py:52-54 | the directories descended into are entries of the listing and never excluded; VisibleComplete and VisibleConcat give the converse and the order |
| Mirror.VisibleComplete | localize.py:50-54 | every subdirectory of the listing that is not excluded is descended into |
| Mirror.VisibleConcat | localize.py:50-54 | the visible subdirectories keep listing order: those of a first part of the listing come before those of the rest |
| Mirror.MirrorOps | localize.py:50-66 | definition of the reference copy of a directory: its files in listing order, then each visible subdirectory |
| Mirror.MirrorSubdirs | localize.py:50-66 | definition of the reference copy of the visible subdirectories: for each, the mkdir of `out` joined with its name, then its own copy, rewritten exactly when it is named "Native" |
| Mirror.WalkIsMirror | localize.py:50-66 | walking any directory below the top performs its mkdir, then exactly the structural copy into the directory reached by joining names onto the output root |
| Mirror.SubdirsMirror | localize.py:50-66 | the descent into the pruned names performs the structural copies of the visible subdirectories, in listing order |
| Mirror.ChildMirror | localize.py:56-72 | walking one subdirectory creates its destination and copies it there, rewriting files exactly when it is named "Native" |
| Mirror.TopWalkIsMirror | localize.py:50-66 | convertDir's walk performs the structural copy of the whole input into the output root |
| Mirror.SameEntryShape | localize.py:50 | entries related by SameEntry have the same kind and name, and related files are equal |
| Mirror.FilesSame | localize.py:50 | trees that differ only inside excluded directories list the same files |
| Mirror.VisibleSame | localize.py:52-54 | trees that differ only inside excluded directories descend into corresponding directories |
| Mirror.MirrorSame | localize.py:52-54 | the structural copy never looks inside an excluded directory |
| Mirror.MirrorSubdirsSame | localize.py:52-54 | the structural copies of corresponding visible subdirectories are equal |
| Mirror.ExcludedContentsIgnored | localize.py:52-54 | ".git" and "elm-stuff" are never visited at any depth: trees that differ only inside them are copied by exactly the same operations |
| FreshCopy.Made | localize.py:48-63 | definition of the directories a run of operations creates (`os.makedirs` and `os.mkdir`) |
| FreshCopy.Written | localize.py:65-94 | definition of the files a run of operations writes (`shutil.copy` and convertFile), a later write to a path replacing an earlier one |
| FreshCopy.Copied | localize.py:72-94 | definition of the contents handleFile gives a file: the rewritten lines for JavaScript in a "Native" directory, otherwise the lines as they are |
| FreshCopy.Apart | localize.py:62 | paths within `join(out, a)` and within `join(out, b)` never meet for distinct names `a` and `b` |
| FreshCopy.VisibleDistinct | localize.py:50-54 | the subdirectories the walk descends into have distinct names |
| FreshCopy.FileOpsWritten | localize.py:65-66 | among files with distinct names, each file is written at `join(outdir, name)` with its handled contents |
| FreshCopy.FilesRun | localize.py:65-66 | handling a directory's files succeeds when none of their destinations is a directory, and leaves the earlier files plus exactly those written |
| FreshCopy.MirrorBelow | localize.py:56-63 | everything the copy of a directory creates or writes lies strictly inside its destination |
| FreshCopy.MirrorRun | localize.py:50-66 | copying a directory into a destination with nothing inside it succeeds without a collision and leaves exactly the directories created and the files written |
| FreshCopy.SubdirsRun | localize.py:50-63 | the visible subdirectories, each into a clear destination, are copied in turn without a collision |
| FreshCopy.FreshConvertFinishes | localize.py:32-66 | convertDir into a destination with nothing at or inside `outroot`, with both names found and splitting, finishes with exit status 0 and leaves the earlier state plus `outroot` plus exactly the structural copy |
| FreshCopy.CopiedFile | localize.py:65-75 | every file of a copied directory is at the directory's destination joined with its name, with its rewritten or copied contents |
| FreshCopy.CopiedSubdir | localize.py:50-63 | every subdirectory that is not excluded is created at the destination joined with its name, and its own copy is part of its parent's copy, unchanged |
| FreshCopy.CopyExact | localize.py:50-66 | nothing else is copied: every path written is a file of the directory or inside a visible subdirectory's copy, and every directory created is a visible subdirectory's destination or inside its copy |

## Left out

- File-system I/O itself. The source tree is a value; the destination is a set of directory paths and a map from file paths to lines. File modes (copied by `shutil.copy`), symbolic links and hard links are not modelled. Neither are errors reading source files during the walk, and the tree's `elm-package.json` is always read in full.
- Regular-expression metacharacters in package names. The munged-name pattern is compiled as a regular expression but is modelled as the literal text it spells. The two agree when the names hold no metacharacter. A metacharacter makes `re` match different text from the literal: a "." matches any character, and a "+", "*" or "?" also stops the literal text itself from matching. Backslash escapes in the replacement string are not modelled either.
- Copier.Destination.MakeDir: it also stands for `os.makedirs`, but missing parent directories are neither created nor checked, so mkdir never fails because a parent is missing. Paths are compared as written: another spelling of an existing directory (a trailing "/", "./" or "//") counts as a new path, where `os.makedirs` would raise.
- Copier.ExitStatus: the test `os.path.isdir(outdir)` compares the path as written, so an existing "out" given as "out/" is not found there; the script itself exits 2 in that case.
- Copier.Step and Copier.Destination.WriteFile: paths are compared as written, so two spellings of one file are two files.
- Copier.Destination.WriteFile: only a write onto a directory fails; permission errors and a full disk are not modelled.
- Copier.SourcePackage and Copier.DestName: the current directory's `elm-package.json` is an input of its own, independent of the tree. This holds even when the input root names the current directory (for example "."), where localize.py:34 and localize.py:42 open the same file. No property depends on it.
- FreshCopy.FreshConvertFinishes: a destination that already holds something inside the output root, and names that do not split, are not covered. The operations performed in those cases are still stated by Copier.ConvertDirSpec and Mirror.TopWalkIsMirror.
- `os.walk` lists each directory when it reaches it; the model lists the whole tree up front. The two agree unless the walk writes into its own input, which happens when the output directory lies inside the input directory; that case is not modelled. `os.walk`'s silent skipping of unreadable directories is not modelled either.
- Exceptions are one flag: the ValueError of a name that does not split, and the OSError/IOError of mkdir, makedirs or a write, are not told apart.
- Logging and the debug tracing (localize.py:27-29, 37, 45, 51, 71, 80, 106, 109, 125, 129), argument parsing (localize.py:115-122), and the progress line written to standard output (localize.py:132).
- Mirror.WalkIsMirror and Mirror.ExcludedContentsIgnored: stated for trees whose entries have valid, distinct names (`Mirror.WellFormed`), as every real directory has. With duplicate names `list.remove` would remove only one of two ".git" entries.
