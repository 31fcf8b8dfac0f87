/** The layout that the host's formatter gives to a set of files (tools/qfs2.py, `build_volume`): which
    directories there are, which inode and entry each node gets, and the tree this makes. */
module HostFormat {
  import opened Bytes
  import opened Qfs2Volume
  import opened Qfs2Path
  import opened HostPaths
  import opened HostCreate

  /** A file to put on the volume; its path is given by its components. */
  datatype HostFile = HostFile(path: seq<Name>, data: seq<byte>)

  predicate HostPathOk(p: seq<Name>) { p != [] && forall i :: 0 <= i < |p| ==> EntryNameOk(p[i]) }

  ghost predicate DistinctPaths(paths: seq<seq<Name>>) {
    forall i, j :: 0 <= i < j < |paths| ==> paths[i] != paths[j]
  }

  predicate DistinctFiles(files: seq<HostFile>) {
    forall i, j :: 0 <= i < j < |files| ==> files[i].path != files[j].path
  }

  predicate FilesOk(files: seq<HostFile>) {
    DistinctFiles(files) && forall i :: 0 <= i < |files| ==> HostPathOk(files[i].path)
  }

  // ---------------------------------------------------------------------------------------------
  // Sorting
  // ---------------------------------------------------------------------------------------------

  predicate TextLess(a: Text, b: Text) {
    if b == [] then false
    else if a == [] then true
    else a[0] < b[0] || (a[0] == b[0] && TextLess(a[1..], b[1..]))
  }

  /** `a` differs from `b` at place `k` for the first time, and comes before it: it ends there, or has the smaller
      character. */
  predicate BeforeAt(a: Text, b: Text, k: nat) {
    k <= |a| && k < |b| && a[..k] == b[..k] && (k == |a| || a[k] < b[k])
  }

  /** The order of byte strings that Python compares by. */
  ghost predicate Before(a: Text, b: Text) { exists k: nat :: BeforeAt(a, b, k) }

  lemma {:induction false} TextLessIsBefore(a: Text, b: Text)
    ensures TextLess(a, b) <==> Before(a, b)
    decreases |a|
  {
    if b == [] {
    } else if a == [] {
      assert BeforeAt(a, b, 0);
    } else {
      TextLessIsBefore(a[1..], b[1..]);
      if k: nat :| BeforeAt(a, b, k) {
        if k > 0 {
          assert a[..k][0] == b[..k][0] && a[1..][..k - 1] == a[..k][1..] && b[1..][..k - 1] == b[..k][1..];
          assert BeforeAt(a[1..], b[1..], k - 1);
        }
      }
      if a[0] < b[0] { assert BeforeAt(a, b, 0); }
      if a[0] == b[0] {
        if k: nat :| BeforeAt(a[1..], b[1..], k) { BeforeLonger(a, b, k); }
      }
    }
  }

  lemma BeforeLonger(a: Text, b: Text, k: nat)
    requires a != [] && b != [] && a[0] == b[0] && BeforeAt(a[1..], b[1..], k)
    ensures BeforeAt(a, b, k + 1)
  {
    assert a[..k + 1] == [a[0]] + a[1..][..k] && b[..k + 1] == [b[0]] + b[1..][..k];
  }

  /** Of two different texts exactly one comes before the other. */
  lemma {:induction false} BeforeTotal(a: Text, b: Text)
    ensures a == b ==> !Before(a, b)
    ensures a != b ==> (Before(a, b) <==> !Before(b, a))
    decreases |a|
  {
    TextLessIsBefore(a, b);
    TextLessIsBefore(b, a);
    hide Before;
    if a != [] && b != [] && a[0] == b[0] {
      TextLessIsBefore(a[1..], b[1..]);
      TextLessIsBefore(b[1..], a[1..]);
      BeforeTotal(a[1..], b[1..]);
      assert a == [a[0]] + a[1..] && b == [b[0]] + b[1..];
    }
  }

  /** The number of slashes in the text of a directory. */
  function Depth(d: seq<Name>): nat { if |d| <= 1 then 1 else |d| }

  predicate DirectoryLess(a: seq<Name>, b: seq<Name>) {
    Depth(a) < Depth(b) || (Depth(a) == Depth(b) && TextLess(HostText(a), HostText(b)))
  }

  function InsertDirectory(x: seq<Name>, s: seq<seq<Name>>): seq<seq<Name>> {
    if s == [] then [x]
    else if DirectoryLess(x, s[0]) then [x] + s
    else [s[0]] + InsertDirectory(x, s[1..])
  }

  function SortDirectories(s: seq<seq<Name>>): seq<seq<Name>> {
    if s == [] then [] else InsertDirectory(s[0], SortDirectories(s[1..]))
  }

  function InsertFile(x: HostFile, s: seq<HostFile>): seq<HostFile> {
    if s == [] then [x]
    else if TextLess(HostText(x.path), HostText(s[0].path)) then [x] + s
    else [s[0]] + InsertFile(x, s[1..])
  }

  /** `sorted(files)` for files with distinct paths. */
  function SortFiles(s: seq<HostFile>): seq<HostFile> {
    if s == [] then [] else InsertFile(s[0], SortFiles(s[1..]))
  }

  lemma {:induction false} InsertDirectoryHas(x: seq<Name>, s: seq<seq<Name>>, y: seq<Name>)
    ensures y in InsertDirectory(x, s) <==> y == x || y in s
    ensures |InsertDirectory(x, s)| == |s| + 1
  {
    if s != [] && !DirectoryLess(x, s[0]) {
      InsertDirectoryHas(x, s[1..], y);
      assert s == [s[0]] + s[1..];
    }
  }

  lemma {:induction false} SortDirectoriesHas(s: seq<seq<Name>>, y: seq<Name>)
    ensures y in SortDirectories(s) <==> y in s
    ensures |SortDirectories(s)| == |s|
  {
    if s != [] {
      SortDirectoriesHas(s[1..], y);
      InsertDirectoryHas(s[0], SortDirectories(s[1..]), y);
      assert s == [s[0]] + s[1..];
    }
  }

  lemma {:induction false} InsertDirectoryDistinct(x: seq<Name>, s: seq<seq<Name>>)
    requires DistinctPaths(s) && x !in s
    ensures DistinctPaths(InsertDirectory(x, s))
  {
    if s != [] && !DirectoryLess(x, s[0]) {
      var rest := s[1..];
      assert forall i :: 0 <= i < |rest| ==> rest[i] == s[i + 1];
      assert x !in rest by { assert s == [s[0]] + rest; }
      InsertDirectoryDistinct(x, rest);
      InsertDirectoryHas(x, rest, s[0]);
      assert s[0] !in rest;
    }
  }

  lemma {:induction false} SortDirectoriesDistinct(s: seq<seq<Name>>)
    requires DistinctPaths(s)
    ensures DistinctPaths(SortDirectories(s))
  {
    if s != [] {
      var rest := s[1..];
      assert forall i :: 0 <= i < |rest| ==> rest[i] == s[i + 1];
      assert s[0] !in rest;
      SortDirectoriesDistinct(rest);
      SortDirectoriesHas(rest, s[0]);
      InsertDirectoryDistinct(s[0], SortDirectories(rest));
    }
  }

  lemma AfterSlash(t: Text)
    requires |t| > 1 && t[0] == SLASH
    ensures TextLess([SLASH], t) && !TextLess(t, [SLASH])
  {
    assert [SLASH][1..] == [] && t[1..] != [];
    assert TextLess([], t[1..]) && !TextLess(t[1..], []);
  }

  /** The root sorts before every other directory. */
  lemma RootLess(d: seq<Name>)
    requires d != [] && PathPieces(d)
    ensures DirectoryLess([], d) && !DirectoryLess(d, [])
  {
    if |d| == 1 {
      var t := HostText(d);
      assert d[..|d| - 1] == [] && Piece(d[0]);
      assert t == Slashed([]) + [SLASH] + d[0];
      assert Slashed([]) == [];
      AfterSlash(t);
    }
  }

  lemma {:induction false} SortRootFirst(s: seq<seq<Name>>)
    requires DistinctPaths(s) && [] in s && forall i :: 0 <= i < |s| ==> PathPieces(s[i])
    ensures SortDirectories(s) != [] && SortDirectories(s)[0] == []
  {
    var rest := s[1..];
    assert forall i :: 0 <= i < |rest| ==> rest[i] == s[i + 1];
    assert s == [s[0]] + rest;
    var t := SortDirectories(rest);
    if s[0] == [] {
      if t != [] {
        SortDirectoriesHas(rest, t[0]);
        assert t[0] != [];
        var i :| 0 <= i < |rest| && rest[i] == t[0];
        RootLess(t[0]);
      }
    } else {
      SortRootFirst(rest);
      RootLess(s[0]);
    }
  }

  lemma {:induction false} InsertFileHas(x: HostFile, s: seq<HostFile>, y: HostFile)
    ensures y in InsertFile(x, s) <==> y == x || y in s
    ensures |InsertFile(x, s)| == |s| + 1
  {
    if s != [] && !TextLess(HostText(x.path), HostText(s[0].path)) {
      InsertFileHas(x, s[1..], y);
      assert s == [s[0]] + s[1..];
    }
  }

  lemma {:induction false} SortFilesHas(s: seq<HostFile>, y: HostFile)
    ensures y in SortFiles(s) <==> y in s
    ensures |SortFiles(s)| == |s|
  {
    if s != [] {
      SortFilesHas(s[1..], y);
      InsertFileHas(s[0], SortFiles(s[1..]), y);
      assert s == [s[0]] + s[1..];
    }
  }

  lemma {:induction false} InsertFileDistinct(x: HostFile, s: seq<HostFile>)
    requires DistinctFiles(s) && forall i :: 0 <= i < |s| ==> s[i].path != x.path
    ensures DistinctFiles(InsertFile(x, s))
  {
    if s != [] && !TextLess(HostText(x.path), HostText(s[0].path)) {
      var rest := s[1..];
      assert forall i :: 0 <= i < |rest| ==> rest[i] == s[i + 1];
      InsertFileDistinct(x, rest);
      var t := InsertFile(x, rest);
      forall i | 0 <= i < |t|
        ensures t[i].path != s[0].path
      {
        InsertFileHas(x, rest, t[i]);
      }
    }
  }

  lemma {:induction false} SortFilesOk(s: seq<HostFile>)
    requires FilesOk(s)
    ensures FilesOk(SortFiles(s))
  {
    if s != [] {
      var rest := s[1..];
      assert forall i :: 0 <= i < |rest| ==> rest[i] == s[i + 1];
      SortFilesOk(rest);
      var t := SortFiles(rest);
      forall i | 0 <= i < |t|
        ensures t[i].path != s[0].path
      {
        SortFilesHas(rest, t[i]);
      }
      InsertFileDistinct(s[0], t);
      forall i | 0 <= i < |SortFiles(s)|
        ensures HostPathOk(SortFiles(s)[i].path)
      {
        InsertFileHas(s[0], t, SortFiles(s)[i]);
      }
    }
  }

  lemma {:induction false} TextAsymmetric(a: Text, b: Text)
    requires TextLess(a, b)
    ensures !TextLess(b, a)
    decreases |a|
  {
    if a != [] && a[0] == b[0] { TextAsymmetric(a[1..], b[1..]); }
  }

  /** Not coming before is transitive. */
  lemma {:induction false} TextTransitive(a: Text, b: Text, c: Text)
    requires !TextLess(b, a) && !TextLess(c, b)
    ensures !TextLess(c, a)
    decreases |a|
  {
    if a != [] && b != [] && c != [] && a[0] == b[0] == c[0] { TextTransitive(a[1..], b[1..], c[1..]); }
  }

  lemma DirectoryAsymmetric(a: seq<Name>, b: seq<Name>)
    requires DirectoryLess(a, b)
    ensures !DirectoryLess(b, a)
  {
    hide TextLess;
    hide HostText;
    if Depth(a) == Depth(b) { TextAsymmetric(HostText(a), HostText(b)); }
  }

  lemma DirectoryTransitive(a: seq<Name>, b: seq<Name>, c: seq<Name>)
    requires !DirectoryLess(b, a) && !DirectoryLess(c, b)
    ensures !DirectoryLess(c, a)
  {
    hide TextLess;
    hide HostText;
    if Depth(a) == Depth(b) == Depth(c) { TextTransitive(HostText(a), HostText(b), HostText(c)); }
  }

  /** No later file comes before an earlier one in the byte order of the path texts. */
  ghost predicate FilesSorted(s: seq<HostFile>) {
    forall i, j :: 0 <= i < j < |s| ==> !Before(HostText(s[j].path), HostText(s[i].path))
  }

  /** By the number of slashes, and then by the text. */
  ghost predicate DirectoryBefore(a: seq<Name>, b: seq<Name>) {
    Depth(a) < Depth(b) || (Depth(a) == Depth(b) && Before(HostText(a), HostText(b)))
  }

  ghost predicate DirectoriesSorted(s: seq<seq<Name>>) {
    forall i, j :: 0 <= i < j < |s| ==> !DirectoryBefore(s[j], s[i])
  }

  lemma FilesAscendSorted(s: seq<HostFile>)
    requires FilesAscend(s)
    ensures FilesSorted(s)
  {
    hide TextLess;
    hide Before;
    hide HostText;
    forall i, j | 0 <= i < j < |s|
      ensures !Before(HostText(s[j].path), HostText(s[i].path))
    {
      TextLessIsBefore(HostText(s[j].path), HostText(s[i].path));
    }
  }

  lemma DirectoriesAscendSorted(s: seq<seq<Name>>)
    requires DirectoriesAscend(s)
    ensures DirectoriesSorted(s)
  {
    hide TextLess;
    hide Before;
    hide HostText;
    forall i, j | 0 <= i < j < |s|
      ensures !DirectoryBefore(s[j], s[i])
    {
      TextLessIsBefore(HostText(s[j]), HostText(s[i]));
    }
  }

  /** The same of the comparisons that the sort makes. */
  predicate FilesAscend(s: seq<HostFile>) {
    forall i, j :: 0 <= i < j < |s| ==> !TextLess(HostText(s[j].path), HostText(s[i].path))
  }

  predicate DirectoriesAscend(s: seq<seq<Name>>) {
    forall i, j :: 0 <= i < j < |s| ==> !DirectoryLess(s[j], s[i])
  }

  lemma {:induction false} InsertFileSorted(x: HostFile, s: seq<HostFile>)
    requires FilesAscend(s)
    ensures FilesAscend(InsertFile(x, s))
  {
    hide TextLess;
    hide HostText;
    if s == [] {
    } else if TextLess(HostText(x.path), HostText(s[0].path)) {
      TextAsymmetric(HostText(x.path), HostText(s[0].path));
      forall k | 0 <= k < |s|
        ensures !TextLess(HostText(s[k].path), HostText(x.path))
      {
        if k > 0 { TextTransitive(HostText(x.path), HostText(s[0].path), HostText(s[k].path)); }
      }
    } else {
      var rest := s[1..];
      assert forall i :: 0 <= i < |rest| ==> rest[i] == s[i + 1];
      InsertFileSorted(x, rest);
      var t := InsertFile(x, rest);
      forall k | 0 <= k < |t|
        ensures !TextLess(HostText(t[k].path), HostText(s[0].path))
      {
        InsertFileHas(x, rest, t[k]);
      }
    }
  }

  /** The files are sorted by the bytes of their path texts, and are the files given. */
  lemma SortFilesSorted(s: seq<HostFile>)
    ensures FilesSorted(SortFiles(s)) && multiset(SortFiles(s)) == multiset(s)
  {
    SortFilesAscend(s);
    FilesAscendSorted(SortFiles(s));
  }

  lemma {:induction false} SortFilesAscend(s: seq<HostFile>)
    ensures FilesAscend(SortFiles(s)) && multiset(SortFiles(s)) == multiset(s)
  {
    hide FilesAscend;
    if s != [] {
      SortFilesAscend(s[1..]);
      InsertFileSorted(s[0], SortFiles(s[1..]));
      InsertFileBag(s[0], SortFiles(s[1..]));
      assert s == [s[0]] + s[1..];
    } else {
      NothingSorted();
    }
  }

  lemma NothingSorted()
    ensures FilesAscend([]) && DirectoriesAscend([])
  {
  }

  lemma {:induction false} InsertFileBag(x: HostFile, s: seq<HostFile>)
    ensures multiset(InsertFile(x, s)) == multiset{x} + multiset(s)
  {
    hide TextLess;
    if s != [] && !TextLess(HostText(x.path), HostText(s[0].path)) {
      InsertFileBag(x, s[1..]);
      assert s == [s[0]] + s[1..];
    }
  }

  lemma {:induction false} InsertDirectorySorted(x: seq<Name>, s: seq<seq<Name>>)
    requires DirectoriesAscend(s)
    ensures DirectoriesAscend(InsertDirectory(x, s))
  {
    hide DirectoryLess;
    if s == [] {
    } else if DirectoryLess(x, s[0]) {
      DirectoryAsymmetric(x, s[0]);
      forall k | 0 <= k < |s|
        ensures !DirectoryLess(s[k], x)
      {
        if k > 0 { DirectoryTransitive(x, s[0], s[k]); }
      }
    } else {
      var rest := s[1..];
      assert forall i :: 0 <= i < |rest| ==> rest[i] == s[i + 1];
      InsertDirectorySorted(x, rest);
      var t := InsertDirectory(x, rest);
      forall k | 0 <= k < |t|
        ensures !DirectoryLess(t[k], s[0])
      {
        InsertDirectoryHas(x, rest, t[k]);
      }
    }
  }

  /** The directories are sorted by depth and then by text. */
  lemma SortDirectoriesSorted(s: seq<seq<Name>>)
    ensures DirectoriesSorted(SortDirectories(s))
  {
    SortDirectoriesAscend(s);
    DirectoriesAscendSorted(SortDirectories(s));
  }

  lemma {:induction false} SortDirectoriesAscend(s: seq<seq<Name>>)
    ensures DirectoriesAscend(SortDirectories(s))
  {
    hide DirectoriesAscend;
    if s != [] {
      SortDirectoriesAscend(s[1..]);
      InsertDirectorySorted(s[0], SortDirectories(s[1..]));
    } else {
      NothingSorted();
    }
  }

  // ---------------------------------------------------------------------------------------------
  // Directories
  // ---------------------------------------------------------------------------------------------

  /** The directories on the way to a path, of up to `k` components, added to a set kept as a list. */
  function AddPrefixes(dirs: seq<seq<Name>>, p: seq<Name>, k: nat): seq<seq<Name>>
    requires k <= |p|
  {
    if k == 0 then dirs
    else
      var before := AddPrefixes(dirs, p, k - 1);
      if p[..k] in before then before else before + [p[..k]]
  }

  function Parents(files: seq<HostFile>): seq<seq<Name>>
    requires forall i :: 0 <= i < |files| ==> files[i].path != []
  {
    if files == [] then [[]]
    else
      var last := files[|files| - 1];
      AddPrefixes(Parents(files[..|files| - 1]), last.path, |last.path| - 1)
  }

  /** `_parents` */
  function Directories(files: seq<HostFile>): seq<seq<Name>>
    requires forall i :: 0 <= i < |files| ==> files[i].path != []
  {
    SortDirectories(Parents(files))
  }

  predicate IsPrefix(d: seq<Name>, p: seq<Name>) { |d| < |p| && d == p[..|d|] }

  ghost predicate Leads(d: seq<Name>, files: seq<HostFile>) {
    d == [] || exists i :: 0 <= i < |files| && IsPrefix(d, files[i].path)
  }

  lemma {:induction false} AddPrefixesHas(dirs: seq<seq<Name>>, p: seq<Name>, k: nat, d: seq<Name>)
    requires k <= |p|
    ensures d in AddPrefixes(dirs, p, k) <==> d in dirs || (0 < |d| <= k && d == p[..|d|])
  {
    if k > 0 { AddPrefixesHas(dirs, p, k - 1, d); }
  }

  lemma {:induction false} AddPrefixesDistinct(dirs: seq<seq<Name>>, p: seq<Name>, k: nat)
    requires k <= |p| && DistinctPaths(dirs)
    ensures DistinctPaths(AddPrefixes(dirs, p, k))
  {
    if k > 0 { AddPrefixesDistinct(dirs, p, k - 1); }
  }

  lemma {:induction false} ParentsHas(files: seq<HostFile>, d: seq<Name>)
    requires forall i :: 0 <= i < |files| ==> files[i].path != []
    ensures d in Parents(files) <==> Leads(d, files)
    ensures DistinctPaths(Parents(files))
  {
    if files != [] {
      var init, last := files[..|files| - 1], files[|files| - 1];
      ParentsHas(init, d);
      AddPrefixesHas(Parents(init), last.path, |last.path| - 1, d);
      AddPrefixesDistinct(Parents(init), last.path, |last.path| - 1);
      assert files == init + [last];
      assert Leads(d, files) <==> Leads(d, init) || (d != [] && IsPrefix(d, last.path)) by { LeadsLast(d, init, last); }
    }
  }

  lemma LeadsLast(d: seq<Name>, init: seq<HostFile>, last: HostFile)
    ensures Leads(d, init + [last]) <==> Leads(d, init) || IsPrefix(d, last.path) || d == []
  {
    var files := init + [last];
    if IsPrefix(d, last.path) { assert files[|init|] == last; }
    if i :| 0 <= i < |init| && IsPrefix(d, init[i].path) { assert files[i] == init[i]; }
  }

  /** The directories of a set of files: the root first, each once, sorted, and exactly the proper prefixes
      of the files' paths. */
  lemma DirectoriesAre(files: seq<HostFile>)
    requires FilesOk(files)
    ensures var dirs := Directories(files);
            && dirs != [] && dirs[0] == []
            && DistinctPaths(dirs) && DirectoriesSorted(dirs)
            && forall d :: d in dirs <==> Leads(d, files)
  {
    hide SortDirectories;
    hide DirectoriesSorted;
    hide Parents;
    var all := Parents(files);
    ParentsHas(files, []);
    SortDirectoriesDistinct(all);
    SortDirectoriesSorted(all);
    forall d
      ensures d in Directories(files) <==> Leads(d, files)
    {
      ParentsHas(files, d);
      SortDirectoriesHas(all, d);
    }
    forall i | 0 <= i < |all|
      ensures PathPieces(all[i])
    {
      ParentsHas(files, all[i]);
      LeadsPieces(all[i], files);
    }
    SortRootFirst(all);
  }

  lemma LeadsPieces(d: seq<Name>, files: seq<HostFile>)
    requires FilesOk(files) && Leads(d, files)
    ensures PathPieces(d)
    ensures d != [] ==> HostPathOk(d)
  {
    if d != [] {
      var i :| 0 <= i < |files| && IsPrefix(d, files[i].path);
      assert forall k :: 0 <= k < |d| ==> d[k] == files[i].path[k];
    }
  }
}
