/** Which transfers the driver of kernel/core/qfs2.c makes: how many a metadata read, a lookup in the
    entry table and a path walk take, and where the duplicate check of `create_node` lies among them. */
module Qfs2Faults {
  import opened Options
  import opened Bytes
  import opened Device
  import opened Qfs2Format
  import opened Qfs2Volume
  import opened Qfs2Path
  import opened Qfs2Image

  /** The sectors that `size` bytes from byte `start` on lie in; `read_metadata` reads each once. */
  function Touched(start: nat, size: nat): nat {
    if size == 0 then 0 else (start + size - 1) / SECTOR - start / SECTOR + 1
  }

  /** The bytes that one turn of the loop of `read_metadata` takes. */
  function ChunkSize(offset: nat, length: nat): (count: nat)
    ensures count <= length && (length > 0 ==> count > 0) && offset % SECTOR + count <= SECTOR
  {
    if SECTOR - offset % SECTOR > length then length else SECTOR - offset % SECTOR
  }

  lemma TouchedNext(start: nat, size: nat)
    requires size > 0
    ensures Touched(start, size) == 1 + Touched(start + ChunkSize(start, size), size - ChunkSize(start, size))
  {
    var left := SECTOR - start % SECTOR;
    assert (start + left) / SECTOR == start / SECTOR + 1;
  }

  /** The transfers that read entries `k` to `n - 1`. */
  function EntryReads(sb: Superblock, k: nat, n: nat): nat
    decreases n - k
  {
    if k >= n then 0 else Touched(EntryOffset(sb, k), DENTRY_SIZE) + EntryReads(sb, k + 1, n)
  }

  /** The end of the entries that `find_child` reads from `k` on: up to the first of that name. */
  function SearchEnd(entries: seq<Dentry>, k: nat, parent: nat, name: Name): (r: nat)
    requires k <= |entries|
    ensures k <= r <= |entries|
    decreases |entries| - k
  {
    if k == |entries| then k
    else if Names(entries[k], parent, name) then k + 1
    else SearchEnd(entries, k + 1, parent, name)
  }

  /** The search ends with the first entry of that name, or with the table when there is none. */
  lemma {:induction false} SearchEndIs(entries: seq<Dentry>, k: nat, parent: nat, name: Name)
    requires k <= |entries|
    ensures var r := SearchEnd(entries, k, parent, name);
            && (forall i :: k <= i < r - 1 ==> !Names(entries[i], parent, name))
            && (if FindFrom(entries, k, parent, name).Some? then
                  k < r && Names(entries[r - 1], parent, name)
                  && FindFrom(entries, k, parent, name) == Some(entries[r - 1].inode)
                else r == |entries| && forall i :: k <= i < r ==> !Names(entries[i], parent, name))
    decreases |entries| - k
  {
    if k < |entries| && !Names(entries[k], parent, name) { SearchEndIs(entries, k + 1, parent, name); }
  }

  /** The transfers of a `find_child` that meets no fault. */
  function LookupReads(sb: Superblock, v: Volume, parent: nat, name: Name): nat {
    EntryReads(sb, 0, SearchEnd(v.entries, 0, parent, name))
  }

  /** The transfers of a walk along path components. */
  function ResolveReads(sb: Superblock, v: Volume, from: nat, path: seq<Name>): nat
    decreases |path|
  {
    if path == [] then 0
    else LookupReads(sb, v, from, path[0]) +
         match Child(v, from, path[0])
         case None => 0
         case Some(c) => ResolveReads(sb, v, c, path[1..])
  }

  /** The transfers of a `find_path` that succeeds. */
  function PathReads(sb: Superblock, v: Volume, path: Text): nat {
    match Parse(path)
    case None => 0
    case Some(c) => ResolveReads(sb, v, ROOT_INODE, c)
  }

  /** `n` is the directory that the path leads to. */
  predicate ParentIs(v: Volume, parentPath: Text, n: nat) {
    FindPath(v, parentPath) == Some(n) && 1 <= n <= |v.inodes| && v.inodes[n - 1].kind == KIND_DIRECTORY
  }

  /** The directory and the name that `create_node` would add. */
  function Target(v: Volume, path: Text): (r: Option<(nat, Name)>)
    ensures r.Some? ==> 1 <= r.value.0 <= |v.inodes| && |r.value.1| <= NAME_MAX
  {
    match Split(path)
    case None => None
    case Some((parentPath, name)) =>
      match FindPath(v, parentPath)
      case None => None
      case Some(n) => if 1 <= n <= |v.inodes| && v.inodes[n - 1].kind == KIND_DIRECTORY then Some((n, name)) else None
  }

  /** The name to create is there already. */
  predicate NameTaken(v: Volume, path: Text) {
    Target(v, path).Some? && Child(v, Target(v, path).value.0, Target(v, path).value.1).Some?
  }

  /** The place that `create_node` picks when it takes the name as absent. */
  function Unchecked(v: Volume, path: Text): (r: Option<Place>)
    ensures r.Some? ==> 1 <= r.value.parent <= |v.inodes| && |r.value.name| <= NAME_MAX
                        && 2 <= r.value.inode <= |v.inodes| && r.value.entry < |v.entries|
                        && v.inodes[r.value.inode - 1].inode == 0 && v.entries[r.value.entry].nameLength == 0
                        && Target(v, path) == Some((r.value.parent, r.value.name))
  {
    match Target(v, path)
    case None => None
    case Some((parent, name)) =>
      match FreeInode(v, 2)
      case None => None
      case Some(n) =>
        match FreeEntry(v, 0)
        case None => None
        case Some(j) => Some(Place(parent, name, n, j))
  }

  /** The transfers that find the directory of a path and read its inode. */
  function ParentReads(sb: Superblock, v: Volume, path: Text, parent: nat): nat
    requires parent >= 1
  {
    PathReads(sb, v, path) + Touched(InodeOffset(sb, parent), INODE_SIZE)
  }

  /** The transfers of `create_node` before its duplicate check: the superblock, the walk to the parent
      and the parent's inode. */
  function CheckStart(sb: Superblock, v: Volume, path: Text): nat
    requires Target(v, path).Some?
  {
    1 + ParentReads(sb, v, Split(path).value.0, Target(v, path).value.0)
  }

  /** The same, with the duplicate check. */
  function CheckEnd(sb: Superblock, v: Volume, path: Text): nat
    requires Target(v, path).Some?
  {
    var (parent, name) := Target(v, path).value;
    CheckStart(sb, v, path) + LookupReads(sb, v, parent, name)
  }

  /** A read of the duplicate check is the first transfer of `create_node` to fail. */
  predicate CheckFails(faults: seq<bool>, sb: Superblock, v: Volume, path: Text)
    requires Target(v, path).Some?
  {
    Clear(faults, CheckStart(sb, v, path)) && !Clear(faults, CheckEnd(sb, v, path))
  }

  /** What `create_node` leaves and answers when it takes the name as absent and no transfer fails any
      more: nothing where no inode or entry is free, and otherwise the node is written, a success if it
      is what the name leads to then. */
  ghost predicate Slipped(before: Image, sb: Superblock, path: Text, kind: nat, after: Image, ok: bool)
    requires LoadSuper(before) == Some(sb) && Layout(before, sb) && kind in {KIND_FILE, KIND_DIRECTORY}
  {
    match Unchecked(View(before, sb), path)
    case None => !ok && after == before
    case Some(p) =>
      && after == Written(before, sb, p, kind)
      && (ok <==>
            Child(Add(View(before, sb), p.parent, p.name, kind, p.inode, p.entry), p.parent, p.name) == Some(p.inode))
  }

  lemma TargetParent(v: Volume, path: Text)
    ensures Split(path) == None ==> Target(v, path) == None
    ensures Split(path).Some? ==>
            var (parentPath, name) := Split(path).value;
            && (Target(v, path).Some? ==>
                  Target(v, path).value.1 == name && ParentIs(v, parentPath, Target(v, path).value.0))
            && forall n: nat :: ParentIs(v, parentPath, n) ==> Target(v, path) == Some((n, name))
  {
    hide Split;
    hide FindPath;
  }

  lemma LookupStep(sb: Superblock, v: Volume, k: nat, parent: nat, name: Name)
    requires k < |v.entries|
    ensures var m := SearchEnd(v.entries, 0, parent, name);
            SearchEnd(v.entries, k, parent, name) == m ==>
              EntryReads(sb, k, m) == Touched(EntryOffset(sb, k), DENTRY_SIZE) + EntryReads(sb, k + 1, m)
              && (if Names(v.entries[k], parent, name) then m == k + 1
                  else SearchEnd(v.entries, k + 1, parent, name) == m)
  {
    hide Names;
    hide Touched;
  }

  lemma SearchDone(sb: Superblock, was: seq<bool>, total: nat, now: seq<bool>, end: nat)
    requires Due(was, total, now, EntryReads(sb, end, end))
    ensures Clear(was, total) && Remaining(was, total) == now
  {
    DueEnd(was, total, now);
  }

  lemma TouchedNone(start: nat)
    ensures Touched(start, 0) == 0
  {
  }
}
