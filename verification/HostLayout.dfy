/** Where the host's formatter (tools/qfs2.py, `build_volume`) puts things, read off the formatted disk: the
    numbers, entries, extents and records of its nodes, and its superblock. */
module HostLayout {
  import opened Bytes
  import opened Options
  import opened Qfs2Format
  import opened Qfs2Volume
  import opened Qfs2Path
  import opened Qfs2Image
  import opened Qfs2Query
  import opened HostPaths
  import opened HostCreate
  import opened HostFormat
  import opened HostTree
  import opened HostImage
  import opened HostBuild
  import opened HostReadBack
  import opened HostAgreement

  // ---------------------------------------------------------------------------------------------
  // The order of the plan
  // ---------------------------------------------------------------------------------------------

  /** Directories come before files, a shallower directory before a deeper one; otherwise the byte order of the
      path texts decides. */
  ghost predicate Comes(files: seq<HostFile>, p: seq<Name>, q: seq<Name>) {
    if Leads(p, files) then Leads(q, files) ==> |p| < |q| || (|p| == |q| && Before(HostText(p), HostText(q)))
    else !Leads(q, files) && Before(HostText(p), HostText(q))
  }

  lemma RootBefore(q: seq<Name>)
    requires PathPieces(q) && |q| == 1
    ensures Before(HostText([]), HostText(q)) && !Before(HostText(q), HostText([]))
  {
    assert Piece(q[0]);
    assert q[..|q| - 1] == [] && Slashed([]) == [];
    assert HostText(q) == [SLASH] + q[0];
    assert BeforeAt(HostText([]), HostText(q), 1);
    BeforeTotal(HostText([]), HostText(q));
  }

  lemma DirectoryBeforeIs(p: seq<Name>, q: seq<Name>)
    requires PathPieces(p) && PathPieces(q)
    ensures DirectoryBefore(p, q) <==> |p| < |q| || (|p| == |q| && Before(HostText(p), HostText(q)))
  {
    hide HostText;
    hide Before;
    hide PathPieces;
    if p == [] && |q| == 1 { RootBefore(q); }
    if q == [] && |p| == 1 { RootBefore(p); }
  }

  /** The plan of `build_volume` is in order. */
  ghost predicate InOrder(pl: Plan) {
    FilesSorted(pl.files) && DirectoriesSorted(pl.dirs)
  }

  lemma PlanInOrder(files: seq<HostFile>)
    requires FilesOk(files)
    ensures InOrder(PlanOf(files))
  {
    SortFilesOk(files);
    SortFilesSorted(files);
    DirectoriesAre(SortFiles(files));
    hide SortFiles;
    hide Directories;
    hide FilesSorted;
    hide DirectoriesSorted;
  }

  lemma FilesApart(pl: Plan, i: nat, j: nat)
    requires PlanOk(pl) && InOrder(pl) && i < |pl.files| && j < |pl.files|
    ensures i < j <==> Before(HostText(pl.files[i].path), HostText(pl.files[j].path))
  {
    hide HostText;
    hide Before;
    hide DirectoriesSorted;
    var a, b := HostText(pl.files[i].path), HostText(pl.files[j].path);
    BeforeTotal(a, b);
    FilePieces(pl, i);
    FilePieces(pl, j);
    hide PathPieces;
    if a == b { HostTextInjective(pl.files[i].path, pl.files[j].path); }
  }

  lemma FilePieces(pl: Plan, i: nat)
    requires PlanOk(pl) && i < |pl.files|
    ensures PathPieces(pl.files[i].path) && !Leads(pl.files[i].path, pl.files)
  {
    var p := pl.files[i].path;
    assert HostPathOk(p);
    assert p !in pl.dirs;
  }

  lemma DirectoryPieces(pl: Plan, i: nat)
    requires PlanOk(pl) && i < |pl.dirs|
    ensures PathPieces(pl.dirs[i]) && Leads(pl.dirs[i], pl.files)
  {
    assert pl.dirs[i] in pl.dirs;
    LeadsPieces(pl.dirs[i], pl.files);
  }

  lemma DirectoriesApart(pl: Plan, i: nat, j: nat)
    requires PlanOk(pl) && InOrder(pl) && i < |pl.dirs| && j < |pl.dirs|
    ensures var p, q := pl.dirs[i], pl.dirs[j];
            i < j <==> |p| < |q| || (|p| == |q| && Before(HostText(p), HostText(q)))
  {
    hide HostText;
    hide Before;
    hide FilesSorted;
    var p, q := pl.dirs[i], pl.dirs[j];
    BeforeTotal(HostText(p), HostText(q));
    DirectoryPieces(pl, i);
    DirectoryPieces(pl, j);
    hide PathPieces;
    DirectoryBeforeIs(p, q);
    DirectoryBeforeIs(q, p);
    if HostText(p) == HostText(q) { HostTextInjective(p, q); }
  }

  // ---------------------------------------------------------------------------------------------
  // Inode numbers
  // ---------------------------------------------------------------------------------------------

  /** The number of the node at a path of the plan. */
  lemma PresentNumber(pl: Plan, p: seq<Name>) returns (n: nat)
    requires PlanOk(pl) && Present(pl.files, p)
    ensures Resolve(Tree(pl), ROOT_INODE, p) == Some(n) && NodeAt(pl, n, p)
    ensures Leads(p, pl.files) <==> n <= |pl.dirs|
  {
    hide Resolve;
    hide Tree;
    hide Leads;
    if Leads(p, pl.files) {
      assert p in pl.dirs;
      var i :| 0 <= i < |pl.dirs| && pl.dirs[i] == p;
      TreeDirectory(pl, i);
      n := i + 1;
    } else {
      var f :| f in pl.files && f.path == p;
      var i :| 0 <= i < |pl.files| && pl.files[i] == f;
      TreeFile(pl, i);
      n := |pl.dirs| + 1 + i;
    }
  }

  lemma NumberedInOrder(pl: Plan, p: seq<Name>, m: nat, q: seq<Name>, n: nat)
    requires PlanOk(pl) && InOrder(pl) && NodeAt(pl, m, p) && NodeAt(pl, n, q)
    requires (Leads(p, pl.files) <==> m <= |pl.dirs|) && (Leads(q, pl.files) <==> n <= |pl.dirs|)
    ensures m < n <==> Comes(pl.files, p, q)
  {
    hide InOrder;
    hide Leads;
    hide PlanOk;
    hide Before;
    hide HostText;
    if m <= |pl.dirs| && n <= |pl.dirs| { DirectoriesApart(pl, m - 1, n - 1); }
    if m > |pl.dirs| && n > |pl.dirs| { FilesApart(pl, m - 1 - |pl.dirs|, n - 1 - |pl.dirs|); }
  }

  /** The plan of a formatted disk. */
  lemma DiskPlan(img: Image, files: seq<HostFile>, total: nat) returns (pl: Plan, sb: Superblock)
    requires FormattedDisk(img, files, total)
    ensures Holds(img, pl, total) && Sound(img, sb) && PlanOk(pl) && View(img, sb) == Tree(pl) && InOrder(pl)
    ensures (forall f :: f in pl.files <==> f in files) && LegalPaths(files) && pl == PlanOf(files)
    ensures LoadSuper(img) == Some(sb) && Layout(img, sb)
  {
    hide Holds;
    hide GeometryOf;
    hide GeometryFits;
    hide PlanOk;
    hide PlanOf;
    hide VolumeBytes;
    hide Super;
    hide View;
    hide InOrder;
    hide LoadSuper;
    hide Layout;
    hide WellFormed;
    hide ExtentsOk;
    hide PartOf;
    pl := BuildIs(files, total);
    PlanInOrder(files);
    VolumeOnDisk(img, pl, total);
    SoundBuilt(img, pl, total);
    sb := Super(GeometryOf(pl), total);
  }

  lemma LeadsAlike(a: seq<HostFile>, b: seq<HostFile>, p: seq<Name>)
    requires forall f :: f in a <==> f in b
    ensures Leads(p, a) == Leads(p, b) && Present(a, p) == Present(b, p)
  {
    hide Leads;
    if Leads(p, a) { LeadsSame(a, b, p); }
    if Leads(p, b) { LeadsSame(b, a, p); }
  }

  /** The number at the end of a path. */
  ghost function NumberOf(img: Image, p: seq<Name>): Option<nat>
    requires LoadSuper(img).Some? && Layout(img, LoadSuper(img).value)
  {
    Resolve(View(img, LoadSuper(img).value), ROOT_INODE, p)
  }

  /** Of two nodes of a formatted disk, the one that comes first has the smaller number. */
  lemma NumbersFollow(img: Image, files: seq<HostFile>, total: nat, p: seq<Name>, q: seq<Name>)
    requires FormattedDisk(img, files, total) && Present(files, p) && Present(files, q)
    ensures LoadSuper(img).Some? && Layout(img, LoadSuper(img).value)
    ensures NumberOf(img, p).Some? && NumberOf(img, q).Some?
    ensures NumberOf(img, p).value < NumberOf(img, q).value <==> Comes(files, p, q)
  {
    hide FormattedDisk;
    hide PlanOk;
    hide Resolve;
    hide Leads;
    hide Holds;
    hide Present;
    hide Before;
    hide HostText;
    hide LoadSuper;
    hide View;
    hide Layout;
    hide Tree;
    hide InOrder;
    hide WellFormed;
    hide ExtentsOk;
    hide PlanOf;
    var pl, sb := DiskPlan(img, files, total);
    LeadsAlike(pl.files, files, p);
    LeadsAlike(pl.files, files, q);
    var m := PresentNumber(pl, p);
    var n := PresentNumber(pl, q);
    hide NodeAt;
    NumberedInOrder(pl, p, m, q, n);
  }

  // ---------------------------------------------------------------------------------------------
  // Directory entries
  // ---------------------------------------------------------------------------------------------

  lemma TreeEntry(pl: Plan, j: nat)
    requires PlanOk(pl) && j < Nodes(pl)
    ensures j < EntrySlots(pl) && NodeOk(pl, NodePath(pl, j)) && Tree(pl).entries[j] == EntryRecord(pl, j)
  {
    SlotsSuffice(pl);
    NodesOk(pl, j);
    hide PlanOk;
    hide EntryRecord;
    hide NodePath;
    hide GeometryOf;
    hide InodeTable;
  }

  lemma NoFurtherEntry(pl: Plan, j: nat)
    requires PlanOk(pl) && Nodes(pl) <= j < EntrySlots(pl)
    ensures !Used(Tree(pl).entries[j])
  {
    SlotsSuffice(pl);
    EntryIs(pl, GeometryOf(pl).dataLba, InodeSlots(pl), EntrySlots(pl), j);
    hide PlanOk;
    hide GeometryOf;
    hide BuiltVolume;
  }

  lemma EntryPlace(pl: Plan, p: seq<Name>, n: nat)
    requires PlanOk(pl) && NodeAt(pl, n, p) && p != []
    ensures pl.dirs != [] && 2 <= n <= Nodes(pl) + 1 && NodePath(pl, n - 2) == p
  {
  }

  lemma ParentNumber(pl: Plan, up: seq<Name>, m: nat)
    requires PlanOk(pl) && up in pl.dirs && Resolve(Tree(pl), ROOT_INODE, up) == Some(m)
    ensures m == Position(pl.dirs, up) + 1
  {
    hide PlanOk;
    hide Resolve;
    hide Tree;
    TreeDirectory(pl, Position(pl.dirs, up));
  }

  lemma EntryNames(pl: Plan, p: seq<Name>, n: nat, m: nat)
    requires PlanOk(pl) && NodeAt(pl, n, p) && p != [] && (Leads(p, pl.files) <==> n <= |pl.dirs|)
    requires Resolve(Tree(pl), ROOT_INODE, p[..|p| - 1]) == Some(m)
    ensures 2 <= n < EntrySlots(pl) + 2
    ensures IsNewEntry(Tree(pl).entries[n - 2], m, n, if Leads(p, pl.files) then 2 else 1, p[|p| - 1])
  {
    hide PlanOk;
    hide Tree;
    hide Resolve;
    hide IsNewEntry;
    hide NewEntry;
    hide NodePath;
    hide Leads;
    hide GeometryOf;
    hide NodeAt;
    hide EntryNameOk;
    hide Position;
    HasRoot(pl);
    EntryPlace(pl, p, n);
    TreeEntry(pl, n - 2);
    ParentNumber(pl, p[..|p| - 1], m);
    NameFits(p[|p| - 1]);
    NewEntryIs(m, n, KindOf(pl, n), p[|p| - 1]);
  }

  lemma NameFits(name: Name)
    requires EntryNameOk(name)
    ensures |name| <= NAME_MAX
  {
  }

  /** Entry after entry names the nodes in the order of their numbers, beginning below the root; the entry of a
      node holds the number of its directory, its own, its kind and its name. */
  lemma EntriesFollow(img: Image, files: seq<HostFile>, total: nat, p: seq<Name>)
    requires FormattedDisk(img, files, total) && Present(files, p) && p != []
    ensures LoadSuper(img).Some? && Layout(img, LoadSuper(img).value)
    ensures NumberOf(img, p).Some? && NumberOf(img, p[..|p| - 1]).Some?
    ensures var n, entries := NumberOf(img, p).value, View(img, LoadSuper(img).value).entries;
            && 2 <= n < |entries| + 2
            && IsNewEntry(entries[n - 2], NumberOf(img, p[..|p| - 1]).value, n, if Leads(p, files) then 2 else 1,
                          p[|p| - 1])
  {
    hide FormattedDisk;
    hide PlanOk;
    hide Resolve;
    hide Leads;
    hide Holds;
    hide LoadSuper;
    hide View;
    hide Layout;
    hide Tree;
    hide InOrder;
    hide WellFormed;
    hide ExtentsOk;
    hide PlanOf;
    hide IsNewEntry;
    var pl, sb := DiskPlan(img, files, total);
    LeadsAlike(pl.files, files, p);
    LeadsAlike(pl.files, files, p[..|p| - 1]);
    UpPresent(files, p);
    var n := PresentNumber(pl, p);
    var m := PresentNumber(pl, p[..|p| - 1]);
    EntryNames(pl, p, n, m);
  }

  lemma UpPresent(files: seq<HostFile>, p: seq<Name>)
    requires Present(files, p) && p != []
    ensures Leads(p[..|p| - 1], files)
  {
    if Leads(p, files) {
      LeadsUp(p, files);
    } else {
      var i :| 0 <= i < |files| && files[i].path == p;
      assert IsPrefix(p[..|p| - 1], files[i].path);
    }
  }

  /** A used entry in place `j` is that of the node with number `j + 2`. */
  lemma EntriesEnd(img: Image, files: seq<HostFile>, total: nat, j: nat) returns (p: seq<Name>)
    requires FormattedDisk(img, files, total)
    ensures LoadSuper(img).Some? && Layout(img, LoadSuper(img).value)
    ensures var entries := View(img, LoadSuper(img).value).entries;
            j < |entries| && Used(entries[j]) ==> Present(files, p) && NumberOf(img, p) == Some(j + 2)
  {
    hide FormattedDisk;
    hide PlanOk;
    hide Resolve;
    hide Holds;
    hide LoadSuper;
    hide View;
    hide Layout;
    hide InOrder;
    hide WellFormed;
    hide ExtentsOk;
    hide PlanOf;
    hide Used;
    hide GeometryOf;
    hide BuiltVolume;
    hide Present;
    var pl, sb := DiskPlan(img, files, total);
    HasRoot(pl);
    p := [];
    if j < EntrySlots(pl) && Used(Tree(pl).entries[j]) {
      if j >= Nodes(pl) { NoFurtherEntry(pl, j); }
      p := InodePath(pl, j + 2);
      InodePathIs(pl, j + 2);
      NodePresent(pl, j + 2, p);
      LeadsAlike(pl.files, files, p);
      var n := PresentNumber(pl, p);
      SameNumber(pl, p, j + 2, n);
    }
  }

  lemma NodePresent(pl: Plan, n: nat, p: seq<Name>)
    requires PlanOk(pl) && NodeAt(pl, n, p)
    ensures Present(pl.files, p) && (Leads(p, pl.files) <==> n <= |pl.dirs|)
  {
    if n <= |pl.dirs| {
      assert p in pl.dirs;
    } else {
      assert pl.files[n - 1 - |pl.dirs|] in pl.files;
      FilePieces(pl, n - 1 - |pl.dirs|);
    }
  }

  lemma SameNumber(pl: Plan, p: seq<Name>, m: nat, n: nat)
    requires PlanOk(pl) && NodeAt(pl, m, p) && NodeAt(pl, n, p)
    requires (Leads(p, pl.files) <==> m <= |pl.dirs|) && (Leads(p, pl.files) <==> n <= |pl.dirs|)
    ensures m == n
  {
  }

  // ---------------------------------------------------------------------------------------------
  // Records and extents
  // ---------------------------------------------------------------------------------------------

  /** The file is below `/bin`. */
  predicate InBin(p: seq<Name>) {
    var t := HostText(p);
    |t| >= 5 && t[..5] == [0x2f, 0x62, 0x69, 0x6e, 0x2f]
  }

  /** The record of a formatted file with number `n`: programs may be run by all, other files read by all; the
      least number of sectors, but at least one. */
  ghost predicate IsFileRecord(r: Inode, n: nat, f: HostFile) {
    && r.inode == n && r.kind == 1 && (if InBin(f.path) then OpenToRun(r.mode) else OpenToRead(r.mode))
    && r.uid == 1000 && r.gid == 1000 && r.size == |f.data| && r.generation == 1 && r.reserved == 0 && r.flags == 0
    && 1 <= r.sectors && |f.data| <= 512 * r.sectors && (r.sectors == 1 || 512 * (r.sectors - 1) < |f.data|)
  }

  lemma {:induction false} SlashedStarts(p: seq<Name>)
    requires p != []
    ensures |Slashed(p)| >= |p[0]| + 1 && Slashed(p)[..|p[0]| + 1] == [SLASH] + p[0]
    ensures if |p| == 1 then |Slashed(p)| == |p[0]| + 1
            else |Slashed(p)| > |p[0]| + 1 && Slashed(p)[|p[0]| + 1] == SLASH
  {
    hide Slashed;
    var up := p[..|p| - 1];
    SlashedLast(p);
    if |p| == 1 {
      SlashedOne(p[0]);
      assert p == [p[0]];
    } else {
      SlashedStarts(up);
      StartKept(Slashed(up), [SLASH] + p[|p| - 1], p[0]);
    }
  }

  lemma SlashedLast(p: seq<Name>)
    requires p != []
    ensures Slashed(p) == Slashed(p[..|p| - 1]) + ([SLASH] + p[|p| - 1])
  {
  }

  lemma SlashedOne(x: Name)
    ensures Slashed([x]) == [SLASH] + x
  {
    assert [x][..0] == [] && Slashed([]) == [];
  }

  lemma StartKept(t: Text, more: Text, x: Text)
    requires more != [] && more[0] == SLASH && |t| >= |x| + 1 && t[..|x| + 1] == [SLASH] + x
    requires |t| == |x| + 1 || t[|x| + 1] == SLASH
    ensures |t + more| > |x| + 1 && (t + more)[..|x| + 1] == [SLASH] + x && (t + more)[|x| + 1] == SLASH
  {
    assert (t + more)[..|x| + 1] == t[..|x| + 1];
  }

  lemma InBinIs(p: seq<Name>)
    requires PathPieces(p) && p != []
    ensures InBin(p) <==> |p| >= 2 && p[0] == [0x62, 0x69, 0x6e]
  {
    SlashedStarts(p);
    var t, x := HostText(p), p[0];
    assert Piece(x);
    assert t[..|x| + 1] == [SLASH] + x;
    forall i | 0 <= i < |x|
      ensures t[i + 1] == x[i] && x[i] != SLASH
    {
      assert t[..|x| + 1][i + 1] == x[i];
    }
    assert t[0] == t[..|x| + 1][0] == SLASH;
    if InBin(p) {
      assert t[..5][1] == t[1] && t[..5][2] == t[2] && t[..5][3] == t[3] && t[..5][4] == t[4];
      assert |x| == 3;
    }
  }

  lemma FileRecordHolds(pl: Plan, i: nat)
    requires PlanOk(pl) && i < |pl.files| && pl.dirs != []
    ensures IsFileRecord(FileRecord(pl, i), |pl.dirs| + 1 + i, pl.files[i])
  {
    FilePieces(pl, i);
    hide PlanOk;
    hide GeometryOf;
    hide FirstSector;
    hide InBin;
    hide OpenToRun;
    hide OpenToRead;
    hide PathPieces;
    hide Leads;
    InBinIs(pl.files[i].path);
    ModesAre();
  }

  /** The record of every node of a formatted disk, field by field, as the kernel's look-up finds it: a directory's
      is that of a new one. */
  lemma RecordsFollow(img: Image, files: seq<HostFile>, total: nat, p: seq<Name>)
    requires FormattedDisk(img, files, total) && Present(files, p)
    ensures LoadSuper(img).Some? && Layout(img, LoadSuper(img).value)
    ensures NumberOf(img, p).Some? && Lookup(img, LoadSuper(img).value, p).Some?
    ensures var r, n := Lookup(img, LoadSuper(img).value, p).value.record, NumberOf(img, p).value;
            if Leads(p, files) then IsNewNode(r, n, 2)
            else exists f :: f in files && f.path == p && IsFileRecord(r, n, f)
  {
    hide FormattedDisk;
    hide PlanOk;
    hide Resolve;
    hide Leads;
    hide Holds;
    hide LoadSuper;
    hide View;
    hide Layout;
    hide Tree;
    hide InOrder;
    hide WellFormed;
    hide ExtentsOk;
    hide PlanOf;
    hide IsNewNode;
    hide IsFileRecord;
    hide Lookup;
    hide FileRecord;
    hide NewInode;
    var pl, sb := DiskPlan(img, files, total);
    LeadsAlike(pl.files, files, p);
    var n := PresentNumber(pl, p);
    if n <= |pl.dirs| {
      LookupDirectory(img, pl, sb, n - 1);
      NewInodeIs(n, 2);
    } else {
      var i := n - 1 - |pl.dirs|;
      LookupFile(img, pl, total, sb, i);
      FileRecordHolds(pl, i);
      assert pl.files[i] in pl.files;
    }
  }

  /** The record of a file of a formatted disk. */
  ghost function RecordOf(img: Image, p: seq<Name>): Option<Inode>
    requires LoadSuper(img).Some? && Layout(img, LoadSuper(img).value)
  {
    match Lookup(img, LoadSuper(img).value, p)
    case None => None
    case Some(node) => Some(node.record)
  }

  /** `stat` reports from that record. */
  lemma StatIsRecord(img: Image, files: seq<HostFile>, total: nat, path: Text, p: seq<Name>)
    requires FormattedDisk(img, files, total) && Parse(path) == Some(p)
    ensures LoadSuper(img).Some? && Layout(img, LoadSuper(img).value)
    ensures Stat(img, path) == RecordOf(img, p)
  {
    hide FormattedDisk;
    hide PlanOk;
    hide Holds;
    hide LoadSuper;
    hide View;
    hide Layout;
    hide InOrder;
    hide WellFormed;
    hide ExtentsOk;
    hide PlanOf;
    hide Parse;
    hide Lookup;
    hide Find;
    hide Tree;
    hide NodeOf;
    hide ExtentOk;
    hide Resolve;
    var pl, sb := DiskPlan(img, files, total);
    FindIsLookup(img, sb, path);
  }

  lemma FileIndex(pl: Plan, f: HostFile) returns (i: nat)
    requires f in pl.files
    ensures i < |pl.files| && pl.files[i] == f
  {
    i :| 0 <= i < |pl.files| && pl.files[i] == f;
  }

  lemma RecordAt(img: Image, pl: Plan, total: nat, sb: Superblock, i: nat)
    requires LoadSuper(img) == Some(sb) && Layout(img, sb) && Holds(img, pl, total) && PlanOk(pl)
    requires View(img, sb) == Tree(pl) && i < |pl.files|
    ensures pl.dirs != [] && RecordOf(img, pl.files[i].path).Some?
    ensures var r := RecordOf(img, pl.files[i].path).value;
            && r.firstSector == FirstSector(pl.files, i, GeometryOf(pl).dataLba)
            && r.sectors == SectorsOf(pl.files[i])
  {
    hide PlanOk;
    hide Lookup;
    hide Holds;
    hide Tree;
    hide FileRecord;
    hide GeometryOf;
    hide FirstSector;
    hide LoadSuper;
    hide Layout;
    hide View;
    HasRoot(pl);
    LookupFile(img, pl, total, sb, i);
    FileRecordIs(pl, i);
  }

  /** The extents of the files follow each other in the byte order of the path texts, without a gap. */
  lemma ExtentsFollow(img: Image, files: seq<HostFile>, total: nat, f: HostFile, g: HostFile)
    requires FormattedDisk(img, files, total) && f in files && g in files
    requires Before(HostText(f.path), HostText(g.path))
    ensures LoadSuper(img).Some? && Layout(img, LoadSuper(img).value)
    ensures RecordOf(img, f.path).Some? && RecordOf(img, g.path).Some?
    ensures var r, s := RecordOf(img, f.path).value, RecordOf(img, g.path).value;
            && r.firstSector + r.sectors <= s.firstSector
            && ((forall h :: h in files ==> !(Before(HostText(f.path), HostText(h.path))
                                              && Before(HostText(h.path), HostText(g.path)))) ==>
                  r.firstSector + r.sectors == s.firstSector)
  {
    hide FormattedDisk;
    hide PlanOk;
    hide Resolve;
    hide Holds;
    hide LoadSuper;
    hide View;
    hide Layout;
    hide Tree;
    hide InOrder;
    hide WellFormed;
    hide ExtentsOk;
    hide PlanOf;
    hide RecordOf;
    hide GeometryOf;
    hide Before;
    hide HostText;
    var pl, sb := DiskPlan(img, files, total);
    HasRoot(pl);
    var lba := GeometryOf(pl).dataLba;
    var i := FileIndex(pl, f);
    var j := FileIndex(pl, g);
    FilesApart(pl, i, j);
    RecordAt(img, pl, total, sb, i);
    RecordAt(img, pl, total, sb, j);
    FirstSectorGrows(pl.files, i + 1, j, lba);
    if i + 1 < j {
      FilesApart(pl, i, i + 1);
      FilesApart(pl, i + 1, j);
      assert pl.files[i + 1] in pl.files;
    }
  }

  /** The extent of the first file begins where the directory entries end. */
  lemma FirstExtent(img: Image, files: seq<HostFile>, total: nat, f: HostFile)
    requires FormattedDisk(img, files, total) && f in files
    requires forall h :: h in files ==> !Before(HostText(h.path), HostText(f.path))
    ensures LoadSuper(img).Some? && Layout(img, LoadSuper(img).value) && RecordOf(img, f.path).Some?
    ensures var sb := LoadSuper(img).value;
            RecordOf(img, f.path).value.firstSector == sb.entryLba + sb.entrySectors
  {
    hide FormattedDisk;
    hide PlanOk;
    hide Resolve;
    hide Holds;
    hide LoadSuper;
    hide View;
    hide Layout;
    hide Tree;
    hide InOrder;
    hide WellFormed;
    hide ExtentsOk;
    hide PlanOf;
    hide RecordOf;
    hide Before;
    hide HostText;
    hide Super;
    var pl, sb := DiskPlan(img, files, total);
    HasRoot(pl);
    var i := FileIndex(pl, f);
    RecordAt(img, pl, total, sb, i);
    FilesApart(pl, 0, i);
    assert pl.files[0] in pl.files;
    DataBegins(img, files, total, pl, sb);
    FirstIsStart(pl);
  }

  lemma FirstIsStart(pl: Plan)
    requires pl.dirs != []
    ensures FirstSector(pl.files, 0, GeometryOf(pl).dataLba) == GeometryOf(pl).dataLba
  {
    hide GeometryOf;
  }

  lemma DataBegins(img: Image, files: seq<HostFile>, total: nat, pl: Plan, sb: Superblock)
    requires FormattedDisk(img, files, total) && Holds(img, pl, total) && LoadSuper(img) == Some(sb)
    ensures pl.dirs != [] && GeometryOf(pl).dataLba == sb.entryLba + sb.entrySectors
  {
    hide LoadSuper;
    hide Holds;
    hide Layout;
    hide Formatted;
    hide PlanOk;
    SuperLoads(img, pl, total);
    HoldsPlan(img, pl, total);
    SuperLayout(img, pl, total);
  }

  // ---------------------------------------------------------------------------------------------
  // The superblock
  // ---------------------------------------------------------------------------------------------

  /** The least number of sectors, but at least `reserve`, that holds `size` bytes. */
  predicate LeastSectors(sectors: nat, reserve: nat, size: nat) {
    && reserve <= sectors && size <= 512 * sectors
    && (sectors == reserve || 512 * (sectors - 1) < size)
  }

  lemma LeastIs(size: nat, reserve: nat)
    ensures LeastSectors(Max(reserve, Ceiling(size)), reserve, size)
  {
  }

  /** Superblock, bitmap, inodes, entries and data stand behind one another; the numbers in use run from 1 to
      `count`; and the tables are as small as their reserve and their contents allow. */
  ghost predicate InPlace(sb: Superblock, v: Volume, total: nat, count: nat) {
    && sb.sectorSize == 512 && sb.totalSectors == 514 + total && sb.bitmapLba == 515
    && sb.inodeLba == 516 && sb.entryLba == sb.inodeLba + sb.inodeSectors && sb.rootInode == 1
    && (forall n: nat :: Live(v, n) <==> 1 <= n <= count)
    && count >= 1
    && LeastSectors(sb.inodeSectors, 16, 56 * count) && LeastSectors(sb.entrySectors, 32, 66 * (count - 1))
  }

  lemma SuperblockFollows(img: Image, files: seq<HostFile>, total: nat) returns (count: nat)
    requires FormattedDisk(img, files, total)
    ensures LoadSuper(img).Some? && Layout(img, LoadSuper(img).value)
    ensures InPlace(LoadSuper(img).value, View(img, LoadSuper(img).value), total, count)
  {
    hide FormattedDisk;
    hide PlanOk;
    hide Holds;
    hide LoadSuper;
    hide View;
    hide Layout;
    hide InOrder;
    hide WellFormed;
    hide ExtentsOk;
    hide PlanOf;
    hide BuiltVolume;
    hide LeastSectors;
    hide Ceiling;
    hide Max;
    hide FirstSector;
    hide InodeRecord;
    hide Live;
    var pl, sb := DiskPlan(img, files, total);
    HasRoot(pl);
    count := Nodes(pl) + 1;
    SuperLoads(img, pl, total);
    HoldsPlan(img, pl, total);
    LeastIs(56 * count, 16);
    LeastIs(66 * (count - 1), 32);
    SlotsSuffice(pl);
    forall n: nat
      ensures Live(View(img, sb), n) <==> 1 <= n <= count
    {
      BuiltLive(pl, GeometryOf(pl).dataLba, InodeSlots(pl), EntrySlots(pl), n);
    }
  }
}
