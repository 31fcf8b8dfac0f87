/** QFS v2 as a tree: the value that the inode and directory-entry tables stand for, and what
    adding a node does to it (kernel/core/qfs2.c, tools/qfs2.py). */
module Qfs2Volume {
  import opened Bits
  import opened Bytes
  import opened Options
  import opened Qfs2Format

  type Name = seq<byte>

  const SEPARATOR: byte := 0x3e
  const COLON: byte := 0x3a
  const SLASH: byte := 0x2f
  const BACKSLASH: byte := 0x5c

  /** The two tables of a volume.  Inode number `n` lives in slot `n - 1`. */
  datatype Volume = Volume(inodes: seq<Inode>, entries: seq<Dentry>)

  predicate Used(e: Dentry) { 0 < e.nameLength <= |e.name| }

  function NameOf(e: Dentry): Name
    requires Used(e)
  {
    e.name[..e.nameLength]
  }

  predicate Names(e: Dentry, parent: nat, name: Name) {
    e.parent == parent && Used(e) && NameOf(e) == name
  }

  /** `find_child`: the first entry of that name below that parent. */
  function FindFrom(entries: seq<Dentry>, k: nat, parent: nat, name: Name): Option<nat>
    requires k <= |entries|
    decreases |entries| - k
  {
    if k == |entries| then None
    else if Names(entries[k], parent, name) then Some(entries[k].inode)
    else FindFrom(entries, k + 1, parent, name)
  }

  function Child(v: Volume, parent: nat, name: Name): Option<nat> {
    FindFrom(v.entries, 0, parent, name)
  }

  /** The walk of `find_path` along path components. */
  function Resolve(v: Volume, from: nat, path: seq<Name>): Option<nat>
    decreases |path|
  {
    if path == [] then Some(from)
    else match Child(v, from, path[0])
      case None => None
      case Some(c) => Resolve(v, c, path[1..])
  }

  predicate Live(v: Volume, n: nat) { 1 <= n <= |v.inodes| && v.inodes[n - 1].inode == n }

  predicate IsDirectory(v: Volume, n: nat) { Live(v, n) && v.inodes[n - 1].kind == KIND_DIRECTORY }

  predicate LegalName(name: Name) {
    0 < |name| <= NAME_MAX
    && forall i :: 0 <= i < |name| ==> name[i] !in {0, SLASH, BACKSLASH, COLON, SEPARATOR}
  }

  /** The names that a volume may hold: also the host's, which the kernel cannot type. */
  predicate TreeName(name: Name) {
    0 < |name| <= NAME_MAX && forall i :: 0 <= i < |name| ==> name[i] != SLASH
  }

  predicate SlotOk(v: Volume, i: nat)
    requires i < |v.inodes|
  {
    v.inodes[i].inode == 0 || (v.inodes[i].inode == i + 1 && v.inodes[i].kind in {KIND_FILE, KIND_DIRECTORY})
  }

  predicate EntryOk(v: Volume, j: nat)
    requires j < |v.entries|
  {
    var e := v.entries[j];
    |e.name| == NAME_MAX &&
    (e.nameLength == 0
     || (Used(e) && TreeName(NameOf(e)) && IsDirectory(v, e.parent) && Live(v, e.inode) && e.inode != ROOT_INODE
         && e.kind == v.inodes[e.inode - 1].kind))
  }

  predicate Clash(a: Dentry, b: Dentry) {
    Used(a) && Used(b) && (a.inode == b.inode || (a.parent == b.parent && NameOf(a) == NameOf(b)))
  }

  ghost predicate Reached(v: Volume, n: nat) {
    exists path :: Resolve(v, ROOT_INODE, path) == Some(n)
  }

  /** A well-formed volume is a tree: slot `i` holds nothing or inode `i + 1`, names are unique below
      each parent, and every live inode but the root is named exactly once and reachable. */
  ghost predicate WellFormed(v: Volume) {
    && IsDirectory(v, ROOT_INODE)
    && (forall i :: 0 <= i < |v.inodes| ==> SlotOk(v, i))
    && (forall j :: 0 <= j < |v.entries| ==> EntryOk(v, j))
    && (forall j, k :: 0 <= j < k < |v.entries| ==> !Clash(v.entries[j], v.entries[k]))
    && (forall n :: Live(v, n) ==> Reached(v, n))
  }

  lemma {:induction false} FindFromFound(entries: seq<Dentry>, k: nat, parent: nat, name: Name) returns (j: nat)
    requires k <= |entries| && FindFrom(entries, k, parent, name).Some?
    ensures k <= j < |entries| && Names(entries[j], parent, name)
    ensures FindFrom(entries, k, parent, name) == Some(entries[j].inode)
    decreases |entries| - k
  {
    j := k;
    if !Names(entries[k], parent, name) { j := FindFromFound(entries, k + 1, parent, name); }
  }

  lemma {:induction false} FindFromHits(entries: seq<Dentry>, k: nat, parent: nat, name: Name, j: nat)
    requires k <= j < |entries| && Names(entries[j], parent, name)
    requires forall i :: k <= i < |entries| && i != j ==> !Names(entries[i], parent, name)
    ensures FindFrom(entries, k, parent, name) == Some(entries[j].inode)
    decreases |entries| - k
  {
    if k < j { FindFromHits(entries, k + 1, parent, name, j); }
  }

  lemma {:induction false} FindFromMisses(entries: seq<Dentry>, k: nat, parent: nat, name: Name)
    requires k <= |entries|
    ensures FindFrom(entries, k, parent, name) == None <==> forall i :: k <= i < |entries| ==>
              !Names(entries[i], parent, name)
    decreases |entries| - k
  {
    if k < |entries| { FindFromMisses(entries, k + 1, parent, name); }
  }

  /** In a well-formed volume the entry of a name is the only one. */
  lemma ChildIs(v: Volume, parent: nat, name: Name, j: nat)
    requires WellFormed(v) && j < |v.entries| && Names(v.entries[j], parent, name)
    ensures Child(v, parent, name) == Some(v.entries[j].inode)
  {
    forall i | 0 <= i < |v.entries| && i != j
      ensures !Names(v.entries[i], parent, name)
    {
      assert !Clash(v.entries[if i < j then i else j], v.entries[if i < j then j else i]);
    }
    FindFromHits(v.entries, 0, parent, name, j);
  }

  lemma {:induction false} ResolveAppend(v: Volume, from: nat, a: seq<Name>, b: seq<Name>)
    ensures Resolve(v, from, a + b)
            == match Resolve(v, from, a) case None => None case Some(n) => Resolve(v, n, b)
    decreases |a|
  {
    if a == [] {
      assert a + b == b;
    } else {
      assert (a + b)[1..] == a[1..] + b;
      match Child(v, from, a[0])
      case None =>
      case Some(c) => ResolveAppend(v, c, a[1..], b);
    }
  }

  lemma ResolveLast(v: Volume, path: seq<Name>, name: Name)
    ensures Resolve(v, ROOT_INODE, path + [name])
            == match Resolve(v, ROOT_INODE, path) case None => None case Some(n) => Child(v, n, name)
  {
    ResolveAppend(v, ROOT_INODE, path, [name]);
    match Resolve(v, ROOT_INODE, path)
    case None =>
    case Some(n) =>
      assert [name][1..] == [];
      match Child(v, n, name)
      case None =>
      case Some(c) => assert Resolve(v, c, []) == Some(c);
  }

  /** Paths lead to live inodes. */
  lemma {:induction false} ResolveLive(v: Volume, path: seq<Name>)
    requires WellFormed(v) && Resolve(v, ROOT_INODE, path).Some?
    ensures Live(v, Resolve(v, ROOT_INODE, path).value)
    ensures path != [] ==> Resolve(v, ROOT_INODE, path).value != ROOT_INODE
    decreases |path|
  {
    if path != [] {
      var init, last := path[..|path| - 1], path[|path| - 1];
      assert path == init + [last];
      ResolveLast(v, init, last);
      var n := Resolve(v, ROOT_INODE, init).value;
      var j := FindFromFound(v.entries, 0, n, last);
      assert EntryOk(v, j);
    }
  }

  /** Only one entry names an inode. */
  lemma NamedOnce(v: Volume, j: nat, k: nat)
    requires WellFormed(v) && j < |v.entries| && k < |v.entries|
    requires Used(v.entries[j]) && Used(v.entries[k]) && v.entries[j].inode == v.entries[k].inode
    ensures j == k
  {
  }

  /** A node has one path only. */
  lemma {:induction false} PathUnique(v: Volume, a: seq<Name>, b: seq<Name>)
    requires WellFormed(v)
    requires Resolve(v, ROOT_INODE, a).Some? && Resolve(v, ROOT_INODE, a) == Resolve(v, ROOT_INODE, b)
    ensures a == b
    decreases |a|
  {
    ResolveLive(v, a);
    ResolveLive(v, b);
    if a != [] && b != [] {
      var a0, x := a[..|a| - 1], a[|a| - 1];
      var b0, y := b[..|b| - 1], b[|b| - 1];
      assert a == a0 + [x] && b == b0 + [y];
      ResolveLast(v, a0, x);
      ResolveLast(v, b0, y);
      var j := FindFromFound(v.entries, 0, Resolve(v, ROOT_INODE, a0).value, x);
      var k := FindFromFound(v.entries, 0, Resolve(v, ROOT_INODE, b0).value, y);
      NamedOnce(v, j, k);
      PathUnique(v, a0, b0);
    }
  }

  // ---------------------------------------------------------------------------------------------
  // Adding a node
  // ---------------------------------------------------------------------------------------------

  function NewInode(n: nat, kind: nat): Inode {
    Inode(n, kind, if kind == KIND_DIRECTORY then 0x1ed else 0x1a4, 1000, 1000, 0, 0, 0, 1, 0, 0)
  }

  /** The mode grants exactly these rights, by bit number: 8 to 6 read, write and execute for the owner, 5 to 3
      for the group, 2 to 0 for others. */
  ghost predicate Grants(mode: nat, rights: set<nat>) { forall i: nat :: Bit(mode, i) <==> i in rights }

  /** rwxr-xr-x */
  ghost predicate OpenToRun(mode: nat) { Grants(mode, {8, 7, 6, 5, 3, 2, 0}) }

  /** rw-r--r-- */
  ghost predicate OpenToRead(mode: nat) { Grants(mode, {8, 7, 5, 2}) }

  /** The record of a new node with number `n`: a directory that all may enter or a file that all may read, of
      the first user and group, empty, of the first generation. */
  ghost predicate IsNewNode(r: Inode, n: nat, kind: nat) {
    && r.inode == n && r.kind == kind && (if kind == 2 then OpenToRun(r.mode) else OpenToRead(r.mode))
    && r.uid == 1000 && r.gid == 1000 && r.size == 0 && r.firstSector == 0 && r.sectors == 0 && r.generation == 1
    && r.reserved == 0 && r.flags == 0
  }

  lemma ModesAre()
    ensures OpenToRun(0x1ed) && OpenToRead(0x1a4)
  {
    assert Shl1(9) == 512;
    ModeBits();
    hide Bit;
    forall i: nat
      ensures Bit(0x1ed, i) <==> i in {8, 7, 6, 5, 3, 2, 0}
      ensures Bit(0x1a4, i) <==> i in {8, 7, 5, 2}
    {
      if i >= 9 {
        HighBit(0x1ed, 9, i);
        HighBit(0x1a4, 9, i);
      }
    }
  }

  lemma ModeBits()
    ensures forall i: nat :: i < 9 ==> (Bit(0x1ed, i) <==> i in {8, 7, 6, 5, 3, 2, 0})
    ensures forall i: nat :: i < 9 ==> (Bit(0x1a4, i) <==> i in {8, 7, 5, 2})
  {
    forall i: nat | i < 9
      ensures Bit(0x1ed, i) <==> i in {8, 7, 6, 5, 3, 2, 0}
      ensures Bit(0x1a4, i) <==> i in {8, 7, 5, 2}
    {
      if i >= 4 {
        BitFour(0x1ed, i - 4);
        BitFour(0x1a4, i - 4);
      }
      if i >= 8 {
        BitFour(0x1e, 0);
        BitFour(0x1a, 0);
      }
    }
  }

  /** What `create_node` writes for a new node. */
  lemma NewInodeIs(n: nat, kind: nat)
    ensures IsNewNode(NewInode(n, kind), n, kind)
  {
    ModesAre();
    hide OpenToRun;
    hide OpenToRead;
  }

  /** The entry of a new node: its name and zeros behind it. */
  ghost predicate IsNewEntry(e: Dentry, parent: nat, n: nat, kind: nat, name: Name) {
    && e.parent == parent && e.inode == n && e.kind == kind && e.nameLength == |name| <= |e.name| == 48
    && (forall i :: 0 <= i < |name| ==> e.name[i] == name[i])
    && forall i :: |name| <= i < 48 ==> e.name[i] == 0
  }

  function NewEntry(parent: nat, n: nat, kind: nat, name: Name): Dentry
    requires |name| <= NAME_MAX
  {
    Dentry(parent, n, kind, |name|, name + Zeros(NAME_MAX - |name|))
  }

  lemma NewEntryIs(parent: nat, n: nat, kind: nat, name: Name)
    requires |name| <= NAME_MAX
    ensures IsNewEntry(NewEntry(parent, n, kind, name), parent, n, kind, name)
  {
  }

  /** The volume with inode `n` and directory entry `j` filled in for a new, empty node. */
  function Add(v: Volume, parent: nat, name: Name, kind: nat, n: nat, j: nat): Volume
    requires 1 <= n <= |v.inodes| && j < |v.entries| && |name| <= NAME_MAX
  {
    Volume(v.inodes[n - 1 := NewInode(n, kind)], v.entries[j := NewEntry(parent, n, kind, name)])
  }

  /** What `create_node` has checked when it writes. */
  ghost predicate CanAdd(v: Volume, parent: nat, name: Name, kind: nat, n: nat, j: nat) {
    && WellFormed(v)
    && IsDirectory(v, parent)
    && LegalName(name)
    && kind in {KIND_FILE, KIND_DIRECTORY}
    && Child(v, parent, name) == None
    && 2 <= n <= |v.inodes| && v.inodes[n - 1].inode == 0
    && j < |v.entries| && v.entries[j].nameLength == 0
  }

  lemma NewEntryName(parent: nat, n: nat, kind: nat, name: Name)
    requires 0 < |name| <= NAME_MAX
    ensures var e := NewEntry(parent, n, kind, name); |e.name| == NAME_MAX && Used(e) && NameOf(e) == name
  {
  }

  lemma AddKeepsEntries(v: Volume, parent: nat, name: Name, kind: nat, n: nat, j: nat)
    requires CanAdd(v, parent, name, kind, n, j)
    ensures var w := Add(v, parent, name, kind, n, j);
            && (forall i :: 0 <= i < |w.inodes| ==> SlotOk(w, i))
            && (forall k :: 0 <= k < |w.entries| ==> EntryOk(w, k))
            && (forall x :: Live(w, x) <==> x == n || Live(v, x))
            && IsDirectory(w, ROOT_INODE)
  {
    var w := Add(v, parent, name, kind, n, j);
    NewEntryName(parent, n, kind, name);
    forall x ensures Live(w, x) <==> x == n || Live(v, x) {}
    forall i | 0 <= i < |w.inodes|
      ensures SlotOk(w, i)
    {
      assert SlotOk(v, i);
    }
    forall k | 0 <= k < |w.entries|
      ensures EntryOk(w, k)
    {
      assert EntryOk(v, k);
    }
  }

  lemma AddKeepsApart(v: Volume, parent: nat, name: Name, kind: nat, n: nat, j: nat, a: nat, b: nat)
    requires CanAdd(v, parent, name, kind, n, j) && a < b < |v.entries|
    ensures var w := Add(v, parent, name, kind, n, j); !Clash(w.entries[a], w.entries[b])
  {
    NewEntryName(parent, n, kind, name);
    FindFromMisses(v.entries, 0, parent, name);
    assert !Clash(v.entries[a], v.entries[b]);
    var other := if a == j then b else a;
    assert EntryOk(v, other);
    assert !Names(v.entries[other], parent, name);
  }

  /** After the addition exactly the new name leads somewhere new. */
  lemma AddChild(v: Volume, parent: nat, name: Name, kind: nat, n: nat, j: nat, p: nat, m: Name)
    requires CanAdd(v, parent, name, kind, n, j)
    ensures Child(Add(v, parent, name, kind, n, j), p, m) == if p == parent && m == name then Some(n)
                                                             else Child(v, p, m)
    ensures Child(v, n, m) == None
  {
    var w := Add(v, parent, name, kind, n, j);
    NewEntryName(parent, n, kind, name);
    FindFromMisses(v.entries, 0, parent, name);
    FindFromMisses(v.entries, 0, n, m);
    forall i | 0 <= i < |v.entries|
      ensures !Names(v.entries[i], n, m)
    {
      assert EntryOk(v, i);
    }
    if p == parent && m == name {
      FindFromHits(w.entries, 0, p, m, j);
    } else {
      SameFind(v.entries, w.entries, 0, p, m);
    }
  }

  lemma {:induction false} SameFind(a: seq<Dentry>, b: seq<Dentry>, k: nat, p: nat, m: Name)
    requires |a| == |b| && k <= |a|
    requires forall i :: k <= i < |a| ==> a[i] == b[i] || (!Names(a[i], p, m) && !Names(b[i], p, m))
    ensures FindFrom(a, k, p, m) == FindFrom(b, k, p, m)
    decreases |a| - k
  {
    if k < |a| { SameFind(a, b, k + 1, p, m); }
  }

  /** The tree changes by exactly one new node: the path to it now resolves, and every other path
      resolves as before. */
  lemma {:induction false} AddResolves(v: Volume, at: seq<Name>, name: Name, kind: nat, n: nat, j: nat, path: seq<Name>)
    requires Resolve(v, ROOT_INODE, at).Some? && CanAdd(v, Resolve(v, ROOT_INODE, at).value, name, kind, n, j)
    ensures Resolve(Add(v, Resolve(v, ROOT_INODE, at).value, name, kind, n, j), ROOT_INODE, path)
            == if path == at + [name] then Some(n) else Resolve(v, ROOT_INODE, path)
    decreases |path|
  {
    var parent := Resolve(v, ROOT_INODE, at).value;
    var w := Add(v, parent, name, kind, n, j);
    if path != [] {
      var init, last := path[..|path| - 1], path[|path| - 1];
      assert path == init + [last];
      AddResolves(v, at, name, kind, n, j, init);
      ResolveLast(v, init, last);
      ResolveLast(w, init, last);
      ResolveLast(v, at, name);
      AddChild(v, parent, name, kind, n, j, n, last);
      hide Resolve;
      hide Child;
      if init == at + [name] {
        assert n != parent;
        assert path != at + [name];
      } else if Resolve(v, ROOT_INODE, init).Some? {
        var x := Resolve(v, ROOT_INODE, init).value;
        AddChild(v, parent, name, kind, n, j, x, last);
        if x == parent { PathUnique(v, init, at); }
        assert path == at + [name] <==> init == at && last == name by { SameSplit(init, last, at, name); }
      } else {
        assert path == at + [name] <==> init == at && last == name by { SameSplit(init, last, at, name); }
      }
    }
  }

  lemma SameSplit(a: seq<Name>, x: Name, b: seq<Name>, y: Name)
    ensures a + [x] == b + [y] <==> a == b && x == y
  {
    if a + [x] == b + [y] {
      assert (a + [x])[..|a|] == a && (b + [y])[..|b|] == b;
      assert (a + [x])[|a|] == x && (b + [y])[|b|] == y;
    }
  }

  /** Adding a node keeps the volume well-formed. */
  lemma AddKeepsWellFormed(v: Volume, at: seq<Name>, name: Name, kind: nat, n: nat, j: nat)
    requires Resolve(v, ROOT_INODE, at).Some? && CanAdd(v, Resolve(v, ROOT_INODE, at).value, name, kind, n, j)
    ensures WellFormed(Add(v, Resolve(v, ROOT_INODE, at).value, name, kind, n, j))
  {
    var parent := Resolve(v, ROOT_INODE, at).value;
    var w := Add(v, parent, name, kind, n, j);
    AddKeepsEntries(v, parent, name, kind, n, j);
    forall a, b | 0 <= a < b < |w.entries|
      ensures !Clash(w.entries[a], w.entries[b])
    {
      AddKeepsApart(v, parent, name, kind, n, j, a, b);
    }
    forall x | Live(w, x)
      ensures Reached(w, x)
    {
      if x == n {
        AddResolves(v, at, name, kind, n, j, at + [name]);
      } else {
        assert Reached(v, x);
        var path :| Resolve(v, ROOT_INODE, path) == Some(x);
        AddResolves(v, at, name, kind, n, j, path);
        if path == at + [name] { ResolveLast(v, at, name); }
      }
    }
  }
}
