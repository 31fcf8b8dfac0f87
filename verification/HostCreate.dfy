/** Node creation by the host tool, and the theorem that it is the kernel's. */
module HostCreate {
  import opened Bytes
  import opened Options
  import opened Qfs2Format
  import opened Qfs2Volume
  import opened Qfs2Path
  import opened Qfs2Image
  import opened HostPaths
  import opened HostTool

  /** The names that `DirectoryEntry.encode` accepts. */
  predicate EntryNameOk(name: Name) {
    && name != [] && |name| <= NAME_MAX && Ascii(name) && Lacks(name, SLASH) && name != [DOT] && name != [DOT, DOT]
  }

  /** The checks and choices of the host's `create_node`; `None` stands for its exceptions. */
  function Locate(v: Volume, paths: Dict, path: Text): (r: Option<Place>)
    requires KeysOk(paths)
    ensures r.Some? ==>
              && 2 <= r.value.inode <= |v.inodes| && r.value.entry < |v.entries| && |r.value.name| <= NAME_MAX
              && v.inodes[r.value.inode - 1].inode == 0 && v.entries[r.value.entry].nameLength == 0
  {
    match SplitHost(path)
    case None => None
    case Some((parent, name)) =>
      var numbers := Inverse(paths, |paths.keys|);
      if parent !in numbers then None
      else
        match Recorded(v.inodes, numbers[parent])
        case None => None
        case Some(r) =>
          if r.kind != KIND_DIRECTORY || Strip(path) in numbers then None
          else
            match FreeInode(v, 2)
            case None => None
            case Some(n) =>
              match FreeEntry(v, 0)
              case None => None
              case Some(j) => if EntryNameOk(name) then Some(Place(numbers[parent], name, n, j)) else None
  }

  /** A record's bytes lie inside the image even when the image ends inside a table. */
  lemma PlaceInside(img: Image, sb: Superblock, p: Place)
    requires 1 <= p.inode <= |HostTables(img, sb).inodes| && p.entry < |HostTables(img, sb).entries|
    ensures InodeOffset(sb, p.inode) + INODE_SIZE <= |img| && EntryOffset(sb, p.entry) + DENTRY_SIZE <= |img|
  {
    SliceEnds(img, sb.inodeLba * SECTOR, (sb.inodeLba + sb.inodeSectors) * SECTOR);
    SliceEnds(img, sb.entryLba * SECTOR, (sb.entryLba + sb.entrySectors) * SECTOR);
    hide Slice;
    hide DecodeInode;
    hide DecodeDentry;
    assert p.inode * INODE_SIZE <= |InodeData(img, sb)|;
    assert (p.entry + 1) * DENTRY_SIZE <= |EntryData(img, sb)|;
  }

  lemma SliceEnds(data: seq<byte>, lo: nat, hi: nat)
    requires lo <= hi
    ensures Slice(data, lo, hi) != [] ==> lo + |Slice(data, lo, hi)| <= |data|
  {
  }

  /** The two slice assignments. */
  function Patched(img: Image, sb: Superblock, p: Place, kind: nat): Option<Image>
    requires 1 <= p.inode <= |HostTables(img, sb).inodes| && p.entry < |HostTables(img, sb).entries|
             && |p.name| <= NAME_MAX
  {
    PlaceInside(img, sb, p);
    if InodeFits(NewInode(p.inode, kind)) && DentryFits(NewEntry(p.parent, p.inode, kind, p.name))
    then Some(Splice(Splice(img, InodeOffset(sb, p.inode), EncodeInode(NewInode(p.inode, kind))),
                     EntryOffset(sb, p.entry), EncodeDentry(NewEntry(p.parent, p.inode, kind, p.name))))
    else None
  }

  /** The host's `create_node`: the new image, or `None` for an exception. */
  function HostCreated(img: Image, path: Text, kind: nat): Option<Image> {
    match HostSuper(img)
    case None => None
    case Some(sb) =>
      var v := HostTables(img, sb);
      match PathsOf(v)
      case None => None
      case Some(paths) =>
        PathsKeys(v);
        match Locate(v, paths, path)
        case None => None
        case Some(p) => Patched(img, sb, p, kind)
  }

  // ---------------------------------------------------------------------------------------------
  // Agreement with the kernel
  // ---------------------------------------------------------------------------------------------

  /** The number the host finds for a path is the inode that the path leads to. */
  lemma NumberIs(v: Volume, paths: Dict, p: seq<Name>)
    requires WellFormed(v) && PathsRight(v, paths) && PathPieces(p)
    ensures KeysOk(paths)
    ensures var numbers := Inverse(paths, |paths.keys|);
            match Resolve(v, ROOT_INODE, p)
            case None => HostText(p) !in numbers
            case Some(n) => HostText(p) in numbers && numbers[HostText(p)] == n
  {
    hide WellFormed;
    hide PathOf;
    hide HostText;
    hide Resolve;
    PathsFind(v, paths, p);
    InverseFinds(paths, HostText(p));
  }

  /** On a well-formed volume the host picks the kernel's place for the same new path, unless it refuses
      the name. */
  lemma SamePlace(v: Volume, paths: Dict, parentPath: Text, path: Text, at: seq<Name>, name: Name)
    requires WellFormed(v) && PathsRight(v, paths)
    requires Split(path) == Some((parentPath, name)) && Parse(parentPath) == Some(at)
    ensures KeysOk(paths)
    ensures Locate(v, paths, HostText(at + [name])) == if EntryNameOk(name) then Choose(v, path) else None
  {
    hide WellFormed;
    hide PathsRight;
    hide HostText;
    hide Inverse;
    hide Split;
    hide Parse;
    hide Strip;
    hide SplitHost;
    hide FreeInode;
    hide FreeEntry;
    hide Resolve;
    hide Child;
    hide Recorded;
    hide EntryNameOk;
    ParsedPieces(parentPath);
    SplitPiece(path);
    SplitHostText(at, name);
    NumberIs(v, paths, at);
    assert PathPieces(at + [name]);
    NumberIs(v, paths, at + [name]);
    ResolveLast(v, at, name);
    if Resolve(v, ROOT_INODE, at).Some? {
      ResolveLive(v, at);
      LiveRecorded(v, Resolve(v, ROOT_INODE, at).value);
    }
  }

  /** Host names are pieces, and the kernel's components are too. */
  lemma {:induction false} ComponentPieces(s: Text)
    ensures match Components(s) case None => true case Some(c) => PathPieces(c)
    decreases |s|
  {
    if s != [] {
      var n := IndexOf(s, SEPARATOR);
      hide IndexOf;
      if n <= NAME_MAX && Clean(s[..n]) {
        ComponentPieces(if n < |s| then s[n + 1..] else []);
        CleanPiece(s[..n]);
      }
    }
  }

  lemma CleanPiece(s: Text)
    requires Clean(s)
    ensures s != [] ==> Piece(s)
  {
    assert forall i :: 0 <= i < |s| ==> !Forbidden(s[i]);
  }

  /** The name of a split path is one that the host's text can hold. */
  lemma SplitPiece(path: Text)
    requires Split(path).Some?
    ensures Piece(Split(path).value.1)
  {
    hide IndexOf;
    var length, cut := SplitParts(path, IndexOf(path, COLON) + 1);
  }

  /** When the two node creators are the same transformation.  On every sound disk, for every kernel path
      that splits into an accepted parent and a name, the host's call for the same path gives byte for
      byte the image that the kernel's call gives, and fails when the kernel's fails, as long as the
      magic is the full one, the names on the disk are ASCII and the new one is a name that the host
      accepts; otherwise the host's call fails. */
  lemma CreatorsAgree(img: Image, sb: Superblock, path: Text, at: seq<Name>, name: Name, kind: nat)
    requires Sound(img, sb) && kind in {KIND_FILE, KIND_DIRECTORY}
    requires Split(path).Some? && Split(path).value.1 == name && Parse(Split(path).value.0) == Some(at)
    ensures HostCreated(img, HostText(at + [name]), kind)
            == if sb.magic == HOST_MAGIC && AsciiVolume(View(img, sb)) && EntryNameOk(name) then Create(img, path, kind)
               else None
  {
    hide View;
    hide LoadSuper;
    hide Layout;
    hide WellFormed;
    hide HostText;
    hide AsciiVolume;
    hide Split;
    hide ExtentsOk;
    hide PathsOf;
    hide Locate;
    hide Choose;
    hide Patched;
    hide Written;
    hide EntryNameOk;
    var v := View(img, sb);
    HostSuperIsKernels(img);
    TablesInside(img, sb);
    HostTablesAreView(img, sb);
    PathsOfExactly(v);
    if sb.magic != HOST_MAGIC || !AsciiVolume(v) { return; }
    PathsOfOk(v);
    SamePlace(v, PathsOf(v).value, Split(path).value.0, path, at, name);
    if Choose(v, path).Some? { PatchedIsWritten(img, sb, Choose(v, path).value, kind); }
  }

  /** What the tool has created is a new, empty node, found by the kernel at the path. */
  lemma HostCreateOk(img: Image, sb: Superblock, drive: Text, path: Text, at: seq<Name>, name: Name, kind: nat)
    returns (n: nat, j: nat)
    requires Sound(img, sb) && KnownDrive(drive) && IsCString(path) && PathValid(drive, path)
    requires kind in {KIND_FILE, KIND_DIRECTORY}
    requires Split(path).Some? && Split(path).value.1 == name && Parse(Split(path).value.0) == Some(at)
    requires HostCreated(img, HostText(at + [name]), kind).Some?
    ensures var b := HostCreated(img, HostText(at + [name]), kind).value;
            Sound(b, sb) && HasNewNode(b, sb, at, name, n, j, kind) && FirstFree(View(img, sb), n, j)
  {
    hide Sound;
    hide View;
    hide LoadSuper;
    hide Layout;
    hide HostText;
    hide AsciiVolume;
    hide Split;
    hide Parse;
    hide Create;
    hide HostCreated;
    hide EntryNameOk;
    hide HasNewNode;
    hide FirstFree;
    hide Lookup;
    hide PathValid;
    hide KnownDrive;
    hide IsCString;
    SplitParses(drive, path);
    CreatorsAgree(img, sb, path, at, name, kind);
    var up, last, number, place := CreateOk(img, sb, drive, path, kind);
    assert (up + [last])[|up|] == last && (at + [name])[|at|] == name;
    assert (up + [last])[..|up|] == up && (at + [name])[..|at|] == at;
    n, j := number, place;
  }

  lemma ParsedPieces(path: Text)
    ensures Parse(path).Some? ==> PathPieces(Parse(path).value)
  {
    hide Components;
    hide IndexOf;
    var d := IndexOf(path, COLON);
    if d < |path| { ComponentPieces(path[d + 1..]); }
  }

  lemma PatchedIsWritten(img: Image, sb: Superblock, p: Place, kind: nat)
    requires LoadSuper(img) == Some(sb) && Layout(img, sb) && kind in {KIND_FILE, KIND_DIRECTORY}
    requires HostTables(img, sb) == View(img, sb)
    requires 1 <= p.parent <= |View(img, sb).inodes| && 1 <= p.inode <= |View(img, sb).inodes|
             && p.entry < |View(img, sb).entries|
    requires |p.name| <= NAME_MAX
    ensures Patched(img, sb, p, kind) == Some(Written(img, sb, p, kind))
  {
    hide Layout;
    hide LoadSuper;
    hide EncodeInode;
    hide EncodeDentry;
    hide Splice;
    CountsFit(img, sb);
    hide InodeCount;
    hide EntryCount;
    RecordsFit(p, kind);
    hide InodeFits;
    hide DentryFits;
  }

  // ---------------------------------------------------------------------------------------------
  // The tool's own form
  // ---------------------------------------------------------------------------------------------

  method Assign(image: array<byte>, at: nat, data: seq<byte>)
    requires at + |data| <= image.Length
    modifies image
    ensures image[..] == Splice(old(image[..]), at, data)
  {
    forall i | at <= i < at + |data| { image[i] := data[i - at]; }
    assert image[..] == Splice(old(image[..]), at, data) by { SpliceAt(old(image[..]), at, data); }
  }

  /** `create_node`: the image is changed in place, or not at all. */
  method CreateNode(image: array<byte>, path: Text, kind: nat) returns (ok: bool)
    modifies image
    ensures ok <==> HostCreated(old(image[..]), path, kind).Some?
    ensures image[..] == if ok then HostCreated(old(image[..]), path, kind).value else old(image[..])
  {
    hide HostSuper;
    hide HostTables;
    hide PathsOf;
    hide SplitHost;
    hide Inverse;
    hide Recorded;
    hide EncodeInode;
    hide EncodeDentry;
    hide Splice;
    var img := image[..];
    var super := HostSuper(img);
    if super == None { return false; }
    var sb := super.value;
    var v := HostTables(img, sb);
    var paths;
    ok, paths := FindPaths(v.entries);
    SameEntries(v);
    if !ok { return false; }
    PathsKeys(v);
    var split := SplitHost(path);
    if split == None { return false; }
    var (parent, name) := split.value;
    var numbers := Inverse(paths, |paths.keys|);
    if parent !in numbers { return false; }
    var record := Recorded(v.inodes, numbers[parent]);
    if record == None || record.value.kind != KIND_DIRECTORY { return false; }
    if Strip(path) in numbers { return false; }
    var newInode := 2;
    while newInode <= |v.inodes| && v.inodes[newInode - 1].inode != 0
      invariant 2 <= newInode
      invariant FreeInode(v, newInode) == FreeInode(v, 2)
      decreases |v.inodes| + 1 - newInode
    {
      newInode := newInode + 1;
    }
    if newInode > |v.inodes| { return false; }
    var slot := 0;
    while slot < |v.entries| && v.entries[slot].nameLength != 0
      invariant 0 <= slot
      invariant FreeEntry(v, slot) == FreeEntry(v, 0)
      decreases |v.entries| - slot
    {
      slot := slot + 1;
    }
    if slot >= |v.entries| { return false; }
    if !EntryNameOk(name) { return false; }
    var p := Place(numbers[parent], name, newInode, slot);
    assert Locate(v, paths, path) == Some(p);
    var inode := NewInode(newInode, kind);
    var entry := NewEntry(numbers[parent], newInode, kind, name);
    if !InodeFits(inode) || !DentryFits(entry) { return false; }
    PlaceInside(img, sb, p);
    Assign(image, InodeOffset(sb, newInode), EncodeInode(inode));
    Assign(image, EntryOffset(sb, slot), EncodeDentry(entry));
    ok := true;
  }
}
