/** The two tables that the host's formatter fills (tools/qfs2.py, `build_volume`) hold a well-formed tree:
    the files, their directories, and nothing else. */
module HostTree {
  import opened Bytes
  import opened Options
  import opened Qfs2Format
  import opened Qfs2Volume
  import opened HostPaths
  import opened HostCreate
  import opened HostFormat

  /** The sorted directories and files. */
  datatype Plan = Plan(dirs: seq<seq<Name>>, files: seq<HostFile>)

  ghost predicate PlanOk(pl: Plan) {
    && FilesOk(pl.files)
    && pl.dirs != [] && pl.dirs[0] == []
    && DistinctPaths(pl.dirs)
    && (forall d :: d in pl.dirs <==> Leads(d, pl.files))
    && (forall i :: 0 <= i < |pl.files| ==> pl.files[i].path !in pl.dirs)
  }

  /** The number of nodes below the root. */
  function Nodes(pl: Plan): nat
    requires pl.dirs != []
  {
    |pl.dirs| - 1 + |pl.files|
  }

  /** The path of the node that entry `j` names; its inode number is `j + 2`. */
  function NodePath(pl: Plan, j: nat): seq<Name>
    requires pl.dirs != [] && j < Nodes(pl)
  {
    if j + 1 < |pl.dirs| then pl.dirs[j + 1] else pl.files[j + 1 - |pl.dirs|].path
  }

  function InodePath(pl: Plan, n: nat): seq<Name>
    requires pl.dirs != [] && 1 <= n <= Nodes(pl) + 1
  {
    if n == 1 then [] else NodePath(pl, n - 2)
  }

  function KindOf(pl: Plan, n: nat): nat { if n <= |pl.dirs| then KIND_DIRECTORY else KIND_FILE }

  /** `inode_for` */
  function Position(dirs: seq<seq<Name>>, d: seq<Name>): (i: nat)
    requires d in dirs
    ensures i < |dirs| && dirs[i] == d
  {
    if dirs[0] == d then 0 else 1 + Position(dirs[1..], d)
  }

  function SectorsOf(f: HostFile): nat {
    if f.data == [] then 1 else (|f.data| + SECTOR - 1) / SECTOR
  }

  /** The first sector of file `i` when the first file starts at `lba`. */
  function FirstSector(files: seq<HostFile>, i: nat, lba: nat): nat
    requires i <= |files|
  {
    if i == 0 then lba else FirstSector(files, i - 1, lba) + SectorsOf(files[i - 1])
  }

  function Mode(p: seq<Name>): nat {
    if |p| >= 2 && p[0] == [0x62, 0x69, 0x6e] then 0x1ed else 0x1a4
  }

  const EMPTY_INODE: Inode := Inode(0, 0, 0, 0, 0, 0, 0, 0, 0, 0, 0)

  function EmptyEntry(): Dentry { Dentry(0, 0, 0, 0, Zeros(NAME_MAX)) }

  function InodeRecord(pl: Plan, lba: nat, n: nat): Inode
    requires pl.dirs != [] && 1 <= n <= Nodes(pl) + 1
  {
    if n <= |pl.dirs| then NewInode(n, KIND_DIRECTORY)
    else
      var i := n - 1 - |pl.dirs|;
      var f := pl.files[i];
      Inode(n, KIND_FILE, Mode(f.path), 1000, 1000, |f.data|, FirstSector(pl.files, i, lba), SectorsOf(f), 1, 0, 0)
  }

  /** A node's path is a directory of the plan and a name. */
  predicate NodeOk(pl: Plan, p: seq<Name>) {
    p != [] && p[..|p| - 1] in pl.dirs && EntryNameOk(p[|p| - 1])
  }

  function EntryRecord(pl: Plan, j: nat): Dentry
    requires pl.dirs != [] && j < Nodes(pl) && NodeOk(pl, NodePath(pl, j))
  {
    var p := NodePath(pl, j);
    NewEntry(Position(pl.dirs, p[..|p| - 1]) + 1, j + 2, KindOf(pl, j + 2), p[|p| - 1])
  }

  lemma LeadsUp(d: seq<Name>, files: seq<HostFile>)
    requires d != [] && Leads(d, files)
    ensures Leads(d[..|d| - 1], files)
  {
    var i :| 0 <= i < |files| && IsPrefix(d, files[i].path);
    var u := d[..|d| - 1];
    assert u == files[i].path[..|u|];
  }

  lemma NodesOk(pl: Plan, j: nat)
    requires PlanOk(pl) && j < Nodes(pl)
    ensures NodeOk(pl, NodePath(pl, j))
  {
    var p := NodePath(pl, j);
    if j + 1 < |pl.dirs| {
      assert p in pl.dirs && p != [] by { assert pl.dirs[0] != pl.dirs[j + 1]; }
      LeadsPieces(p, pl.files);
      LeadsUp(p, pl.files);
    } else {
      var f := pl.files[j + 1 - |pl.dirs|];
      assert HostPathOk(f.path);
      assert IsPrefix(p[..|p| - 1], f.path);
      assert Leads(p[..|p| - 1], pl.files);
    }
  }

  /** Different nodes have different paths, and none has the root's. */
  lemma NodesDistinct(pl: Plan, i: nat, j: nat)
    requires PlanOk(pl) && i < j < Nodes(pl)
    ensures NodePath(pl, i) != NodePath(pl, j)
  {
    if j + 1 < |pl.dirs| {
      assert pl.dirs[i + 1] != pl.dirs[j + 1];
    } else if i + 1 < |pl.dirs| {
      assert pl.dirs[i + 1] in pl.dirs;
    }
  }

  // ---------------------------------------------------------------------------------------------
  // The tables
  // ---------------------------------------------------------------------------------------------

  function InodeTable(pl: Plan, lba: nat, count: nat): seq<Inode>
    requires pl.dirs != [] && Nodes(pl) + 1 <= count
  {
    seq(count, i requires 0 <= i < count => if i < Nodes(pl) + 1 then InodeRecord(pl, lba, i + 1) else EMPTY_INODE)
  }

  ghost function EntryTable(pl: Plan, count: nat): seq<Dentry>
    requires PlanOk(pl) && Nodes(pl) <= count
  {
    seq(count, j requires 0 <= j < count =>
      if j < Nodes(pl) then NodesOk(pl, j); EntryRecord(pl, j) else EmptyEntry())
  }

  ghost function BuiltVolume(pl: Plan, lba: nat, inodes: nat, entries: nat): Volume
    requires PlanOk(pl) && Nodes(pl) + 1 <= inodes && Nodes(pl) <= entries
  {
    Volume(InodeTable(pl, lba, inodes), EntryTable(pl, entries))
  }

  lemma BuiltLive(pl: Plan, lba: nat, ni: nat, ne: nat, n: nat)
    requires PlanOk(pl) && Nodes(pl) + 1 <= ni && Nodes(pl) <= ne
    ensures var v := BuiltVolume(pl, lba, ni, ne);
            && (Live(v, n) <==> 1 <= n <= Nodes(pl) + 1)
            && (Live(v, n) ==> v.inodes[n - 1] == InodeRecord(pl, lba, n) && v.inodes[n - 1].kind == KindOf(pl, n))
  {
    hide PlanOk;
    hide FirstSector;
  }

  lemma BuiltSlot(pl: Plan, lba: nat, ni: nat, ne: nat, i: nat)
    requires PlanOk(pl) && Nodes(pl) + 1 <= ni && Nodes(pl) <= ne && i < ni
    ensures SlotOk(BuiltVolume(pl, lba, ni, ne), i)
  {
    hide PlanOk;
    hide FirstSector;
  }

  lemma EntryIs(pl: Plan, lba: nat, ni: nat, ne: nat, j: nat)
    requires PlanOk(pl) && Nodes(pl) + 1 <= ni && Nodes(pl) <= ne && j < ne
    ensures var e := BuiltVolume(pl, lba, ni, ne).entries[j];
            if j < Nodes(pl) then
              var p := NodePath(pl, j);
              && NodeOk(pl, p) && Used(e) && |e.name| == NAME_MAX && NameOf(e) == p[|p| - 1]
              && e.parent == Position(pl.dirs, p[..|p| - 1]) + 1 && e.inode == j + 2 && e.kind == KindOf(pl, j + 2)
            else e == EmptyEntry()
  {
    if j < Nodes(pl) {
      NodesOk(pl, j);
      var p := NodePath(pl, j);
      NewEntryName(Position(pl.dirs, p[..|p| - 1]) + 1, j + 2, KindOf(pl, j + 2), p[|p| - 1]);
      hide PlanOk;
      hide EntryNameOk;
      hide Position;
      hide NodePath;
      hide InodeTable;
    }
  }

  lemma BuiltEntry(pl: Plan, lba: nat, ni: nat, ne: nat, j: nat)
    requires PlanOk(pl) && Nodes(pl) + 1 <= ni && Nodes(pl) <= ne && j < ne
    ensures EntryOk(BuiltVolume(pl, lba, ni, ne), j)
  {
    EntryIs(pl, lba, ni, ne, j);
    var v := BuiltVolume(pl, lba, ni, ne);
    if j < Nodes(pl) {
      var p := NodePath(pl, j);
      BuiltLive(pl, lba, ni, ne, j + 2);
      BuiltLive(pl, lba, ni, ne, v.entries[j].parent);
      hide PlanOk;
      hide BuiltVolume;
      hide InodeRecord;
      hide NodePath;
      hide Position;
      NameIsTreeName(p[|p| - 1]);
    }
  }

  lemma NameIsTreeName(name: Name)
    requires EntryNameOk(name)
    ensures TreeName(name)
  {
  }

  lemma BuiltApart(pl: Plan, lba: nat, ni: nat, ne: nat, j: nat, k: nat)
    requires PlanOk(pl) && Nodes(pl) + 1 <= ni && Nodes(pl) <= ne && j < k < ne
    ensures var v := BuiltVolume(pl, lba, ni, ne); !Clash(v.entries[j], v.entries[k])
  {
    EntryIs(pl, lba, ni, ne, j);
    EntryIs(pl, lba, ni, ne, k);
    if k < Nodes(pl) {
      NodesDistinct(pl, j, k);
      var p, q := NodePath(pl, j), NodePath(pl, k);
      SameEnds(p, q);
      hide PlanOk;
      hide BuiltVolume;
      hide NodePath;
    }
  }

  lemma SameEnds(p: seq<Name>, q: seq<Name>)
    requires p != [] && q != [] && p != q
    ensures p[..|p| - 1] != q[..|q| - 1] || p[|p| - 1] != q[|q| - 1]
  {
    assert p == p[..|p| - 1] + [p[|p| - 1]] && q == q[..|q| - 1] + [q[|q| - 1]];
  }

  lemma BuiltChild(pl: Plan, lba: nat, ni: nat, ne: nat, j: nat)
    requires PlanOk(pl) && Nodes(pl) + 1 <= ni && Nodes(pl) <= ne && j < Nodes(pl)
    ensures var p := NodePath(pl, j);
            && NodeOk(pl, p)
            && Child(BuiltVolume(pl, lba, ni, ne), Position(pl.dirs, p[..|p| - 1]) + 1, p[|p| - 1]) == Some(j + 2)
  {
    var v, p := BuiltVolume(pl, lba, ni, ne), NodePath(pl, j);
    EntryIs(pl, lba, ni, ne, j);
    var parent, name := Position(pl.dirs, p[..|p| - 1]) + 1, p[|p| - 1];
    forall i | 0 <= i < |v.entries| && i != j
      ensures !Names(v.entries[i], parent, name)
    {
      if i < j { BuiltApart(pl, lba, ni, ne, i, j); } else { BuiltApart(pl, lba, ni, ne, j, i); }
    }
    hide PlanOk;
    hide BuiltVolume;
    hide NodePath;
    hide Position;
    FindFromHits(v.entries, 0, parent, name, j);
  }

  /** Every node is found at its path. */
  lemma {:induction false} BuiltResolves(pl: Plan, lba: nat, ni: nat, ne: nat, n: nat)
    requires PlanOk(pl) && Nodes(pl) + 1 <= ni && Nodes(pl) <= ne && 1 <= n <= Nodes(pl) + 1
    ensures Resolve(BuiltVolume(pl, lba, ni, ne), ROOT_INODE, InodePath(pl, n)) == Some(n)
    decreases |InodePath(pl, n)|
  {
    var v := BuiltVolume(pl, lba, ni, ne);
    if n > 1 {
      var p := NodePath(pl, n - 2);
      BuiltChild(pl, lba, ni, ne, n - 2);
      var up, last := p[..|p| - 1], p[|p| - 1];
      var m := Position(pl.dirs, up) + 1;
      ParentPath(pl, m);
      assert p == up + [last];
      hide PlanOk;
      hide BuiltVolume;
      hide Position;
      hide Resolve;
      BuiltResolves(pl, lba, ni, ne, m);
      ResolveLast(v, up, last);
    }
  }

  lemma ParentPath(pl: Plan, m: nat)
    requires pl.dirs != [] && pl.dirs[0] == [] && 1 <= m <= |pl.dirs|
    ensures m <= Nodes(pl) + 1 && InodePath(pl, m) == pl.dirs[m - 1]
  {
  }

  /** The formatter's tables are a well-formed volume. */
  lemma BuiltWellFormed(pl: Plan, lba: nat, ni: nat, ne: nat)
    requires PlanOk(pl) && Nodes(pl) + 1 <= ni && Nodes(pl) <= ne
    ensures WellFormed(BuiltVolume(pl, lba, ni, ne))
  {
    var v := BuiltVolume(pl, lba, ni, ne);
    assert |v.inodes| == ni && |v.entries| == ne;
    assert |pl.dirs| >= 1;
    BuiltLive(pl, lba, ni, ne, ROOT_INODE);
    hide PlanOk;
    hide BuiltVolume;
    hide Clash;
    hide SlotOk;
    hide EntryOk;
    forall i | 0 <= i < |v.inodes|
      ensures SlotOk(v, i)
    {
      BuiltSlot(pl, lba, ni, ne, i);
    }
    forall j | 0 <= j < |v.entries|
      ensures EntryOk(v, j)
    {
      BuiltEntry(pl, lba, ni, ne, j);
    }
    forall j, k | 0 <= j < k < |v.entries|
      ensures !Clash(v.entries[j], v.entries[k])
    {
      BuiltApart(pl, lba, ni, ne, j, k);
    }
    forall n | Live(v, n)
      ensures Reached(v, n)
    {
      BuiltLive(pl, lba, ni, ne, n);
      BuiltResolves(pl, lba, ni, ne, n);
    }
  }

  lemma BuiltAscii(pl: Plan, lba: nat, ni: nat, ne: nat)
    requires PlanOk(pl) && Nodes(pl) + 1 <= ni && Nodes(pl) <= ne
    ensures AsciiVolume(BuiltVolume(pl, lba, ni, ne))
  {
    var v := BuiltVolume(pl, lba, ni, ne);
    hide PlanOk;
    hide InodeTable;
    forall j | 0 <= j < |v.entries|
      ensures AsciiEntry(v.entries[j])
    {
      EntryIs(pl, lba, ni, ne, j);
    }
  }

  /** `p` is the path of node `n`: a directory's or a file's. */
  predicate NodeAt(pl: Plan, n: nat, p: seq<Name>) {
    && 1 <= n <= |pl.dirs| + |pl.files|
    && if n <= |pl.dirs| then pl.dirs[n - 1] == p else pl.files[n - 1 - |pl.dirs|].path == p
  }

  /** A path that leads anywhere is the path of a node of the plan. */
  lemma BuiltFound(pl: Plan, lba: nat, ni: nat, ne: nat, p: seq<Name>, n: nat)
    requires PlanOk(pl) && Nodes(pl) + 1 <= ni && Nodes(pl) <= ne
    requires Resolve(BuiltVolume(pl, lba, ni, ne), ROOT_INODE, p) == Some(n)
    ensures NodeAt(pl, n, p)
  {
    var v := BuiltVolume(pl, lba, ni, ne);
    BuiltWellFormed(pl, lba, ni, ne);
    ResolveLive(v, p);
    BuiltOwn(pl, lba, ni, ne, n);
    hide *;
    PathUnique(v, p, InodePath(pl, n));
    InodePathIs(pl, n);
  }

  lemma BuiltOwn(pl: Plan, lba: nat, ni: nat, ne: nat, n: nat)
    requires PlanOk(pl) && Nodes(pl) + 1 <= ni && Nodes(pl) <= ne && Live(BuiltVolume(pl, lba, ni, ne), n)
    ensures pl.dirs != [] && pl.dirs[0] == [] && 1 <= n <= Nodes(pl) + 1
    ensures Resolve(BuiltVolume(pl, lba, ni, ne), ROOT_INODE, InodePath(pl, n)) == Some(n)
  {
    BuiltLive(pl, lba, ni, ne, n);
    BuiltResolves(pl, lba, ni, ne, n);
    hide Resolve;
    hide BuiltVolume;
    hide InodePath;
  }

  /** Every file is found at its path, under its own inode. */
  lemma BuiltFile(pl: Plan, lba: nat, ni: nat, ne: nat, i: nat)
    requires PlanOk(pl) && Nodes(pl) + 1 <= ni && Nodes(pl) <= ne && i < |pl.files|
    ensures Resolve(BuiltVolume(pl, lba, ni, ne), ROOT_INODE, pl.files[i].path) == Some(|pl.dirs| + 1 + i)
  {
    assert pl.dirs != [] && pl.dirs[0] == [];
    hide PlanOk;
    hide Resolve;
    hide BuiltVolume;
    hide InodePath;
    BuiltResolves(pl, lba, ni, ne, |pl.dirs| + 1 + i);
    InodePathIs(pl, |pl.dirs| + 1 + i);
  }

  lemma InodePathIs(pl: Plan, n: nat)
    requires pl.dirs != [] && pl.dirs[0] == [] && 1 <= n <= Nodes(pl) + 1
    ensures NodeAt(pl, n, InodePath(pl, n))
  {
  }
}
