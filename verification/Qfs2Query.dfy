/** What the three read-only calls of kernel/core/qfs2.c return on an image: read, stat and list. */
module Qfs2Query {
  import opened Bytes
  import opened Options
  import opened Qfs2Format
  import opened Qfs2Volume
  import opened Qfs2Path
  import opened Qfs2Image

  const SPACE: byte := 0x20
  const NEWLINE: byte := 0x0a

  /** The record of the node that a path names, as the kernel finds it. */
  function Find(img: Image, path: Text): Option<(Superblock, nat, Inode)>
    requires LoadSuper(img).Some? ==> Layout(img, LoadSuper(img).value)
  {
    match LoadSuper(img)
    case None => None
    case Some(sb) =>
      match FindPath(View(img, sb), path)
      case None => None
      case Some(n) => if 1 <= n <= InodeCount(sb) then Some((sb, n, InodeAt(img, sb, n))) else None
  }

  /** `quanta_qfs2_stat`: the record it reports from. */
  function Stat(img: Image, path: Text): Option<Inode>
    requires LoadSuper(img).Some? ==> Layout(img, LoadSuper(img).value)
  {
    match Find(img, path)
    case None => None
    case Some((_, _, inode)) => Some(inode)
  }

  /** The sector loop of `quanta_qfs2_read`; sector numbers are 32-bit. */
  function Gather(img: Image, first: nat, size: nat, copied: nat): Option<seq<byte>>
    decreases size - copied
  {
    if copied >= size then Some([])
    else
      var s := (first + copied / SECTOR) % B32;
      var count := if size - copied > SECTOR then SECTOR else size - copied;
      if (s + 1) * SECTOR > |img| then None
      else
        match Gather(img, first, size, copied + count)
        case None => None
        case Some(rest) => Some(img[s * SECTOR..s * SECTOR + count] + rest)
  }

  /** The check of `quanta_qfs2_read` on a file's extent, whose end is a 64-bit sum. */
  predicate ExtentReadable(sb: Superblock, r: Inode) {
    r.sectors != 0 && r.firstSector >= sb.entryLba && (r.firstSector + r.sectors) % B64 <= sb.totalSectors
  }

  /** `quanta_qfs2_read`: the bytes before the terminating zero, or `None` for -1. */
  function ReadFile(img: Image, path: Text, capacity: nat): Option<seq<byte>>
    requires LoadSuper(img).Some? ==> Layout(img, LoadSuper(img).value)
  {
    if capacity == 0 then None
    else
      match Find(img, path)
      case None => None
      case Some((sb, n, inode)) =>
        if inode.kind != KIND_FILE || inode.size >= capacity then None
        else if inode.size == 0 then Some([])
        else if !ExtentReadable(sb, inode) then None
        else Gather(img, inode.firstSector, inode.size, 0)
  }

  /** The loop of `quanta_qfs2_list`: entries that no longer fit are left out. */
  function ListFrom(entries: seq<Dentry>, k: nat, parent: nat, text: seq<byte>, capacity: nat): seq<byte>
    decreases |entries| - k
  {
    if k >= |entries| then text
    else
      var e := entries[k];
      if e.parent != parent || !Used(e) || |text| + e.nameLength + 2 >= capacity
      then ListFrom(entries, k + 1, parent, text, capacity)
      else ListFrom(entries, k + 1, parent, text + NameOf(e) + [SPACE], capacity)
  }

  /** `quanta_qfs2_list`: the text before the terminating zero, or `None` for -1. */
  function List(img: Image, path: Text, capacity: nat): Option<seq<byte>>
    requires LoadSuper(img).Some? ==> Layout(img, LoadSuper(img).value)
  {
    if capacity < 2 then None
    else
      match Find(img, path)
      case None => None
      case Some((sb, n, inode)) =>
        if inode.kind != KIND_DIRECTORY then None
        else
          var text := ListFrom(View(img, sb).entries, 0, n, [], capacity);
          Some(if text == [] then [] else text[..|text| - 1] + [NEWLINE])
  }

  // ---------------------------------------------------------------------------------------------

  /** On a well-formed volume the kernel's lookup is the tree's. */
  lemma FindIsLookup(img: Image, sb: Superblock, path: Text)
    requires Sound(img, sb)
    ensures match Parse(path)
            case None => Find(img, path) == None
            case Some(p) =>
              match Lookup(img, sb, p)
              case None => Find(img, path) == None
              case Some(node) =>
                && Find(img, path).Some? && Find(img, path).value.0 == sb && Find(img, path).value.2 == node.record
                && Resolve(View(img, sb), ROOT_INODE, p) == Some(Find(img, path).value.1)
                && node == NodeOf(img, node.record) && ExtentOk(sb, node.record)
  {
    hide LoadSuper;
    hide Layout;
    hide InodeAt;
    hide View;
    hide Resolve;
    hide Parse;
    match Parse(path)
    case None =>
    case Some(p) =>
      if Resolve(View(img, sb), ROOT_INODE, p).Some? {
        var n := Resolve(View(img, sb), ROOT_INODE, p).value;
        ResolveLive(View(img, sb), p);
        ViewInode(img, sb, n);
        LookupIs(img, sb, p, n);
      }
  }

  lemma {:induction false} GatherIsContents(img: Image, sb: Superblock, r: Inode, copied: nat)
    requires Layout(img, sb) && ExtentOk(sb, r) && r.kind == KIND_FILE && r.size > 0
    requires copied <= r.size && (copied == r.size || copied % SECTOR == 0)
    ensures r.firstSector * SECTOR + r.size <= |img|
    ensures Gather(img, r.firstSector, r.size, copied)
              == Some(img[r.firstSector * SECTOR + copied..r.firstSector * SECTOR + r.size])
    decreases r.size - copied
  {
    hide ExtentOk;
    hide Layout;
    ExtentInside(img, sb, r, copied);
    if copied == r.size {
      var end := r.firstSector * SECTOR + r.size;
      assert img[end..end] == [];
    } else {
      var s := r.firstSector + copied / SECTOR;
      var count := if r.size - copied > SECTOR then SECTOR else r.size - copied;
      GatherIsContents(img, sb, r, copied + count);
      var base := r.firstSector * SECTOR;
      assert s * SECTOR == base + copied;
      assert img[base + copied..base + copied + count] + img[base + copied + count..base + r.size]
               == img[base + copied..base + r.size];
    }
  }

  lemma ExtentInside(img: Image, sb: Superblock, r: Inode, copied: nat)
    requires Layout(img, sb) && ExtentOk(sb, r) && r.kind == KIND_FILE && r.size > 0
    ensures r.firstSector * SECTOR + r.size <= |img|
    ensures copied < r.size && copied % SECTOR == 0 ==>
              && (r.firstSector + copied / SECTOR) % B32 == r.firstSector + copied / SECTOR
              && (r.firstSector + copied / SECTOR + 1) * SECTOR <= |img|
  {
    assert r.size <= r.sectors * SECTOR;
  }

  /** The kernel's read returns exactly the file's bytes when they fit with a terminating zero, and
      -1 for anything that is not such a file. */
  lemma ReadIsContents(img: Image, sb: Superblock, path: Text, capacity: nat)
    requires Sound(img, sb)
    ensures ReadFile(img, path, capacity)
            == match Parse(path)
               case None => None
               case Some(p) =>
                 match Lookup(img, sb, p)
                 case None => None
                 case Some(node) => if node.record.kind == KIND_FILE && node.record.size < capacity
                                    then Some(node.bytes) else None
  {
    hide Lookup;
    hide Find;
    hide LoadSuper;
    hide Parse;
    hide WellFormed;
    hide Layout;
    hide View;
    hide ExtentOk;
    hide Gather;
    hide Contents;
    hide ExtentsOk;
    hide ExtentReadable;
    FindIsLookup(img, sb, path);
    if Find(img, path).Some? { SizedRead(img, sb, Find(img, path).value.2); }
  }

  /** The checks and the sector loop of `quanta_qfs2_read`, on a record whose extent is in order. */
  lemma SizedRead(img: Image, sb: Superblock, r: Inode)
    requires Layout(img, sb) && ExtentOk(sb, r)
    ensures r.kind == KIND_FILE && r.size == 0 ==> NodeOf(img, r).bytes == []
    ensures r.kind == KIND_FILE && r.size > 0 ==>
              && ExtentReadable(sb, r)
              && Gather(img, r.firstSector, r.size, 0) == Some(NodeOf(img, r).bytes)
  {
    hide Layout;
    hide ExtentOk;
    hide ExtentReadable;
    hide Gather;
    if r.kind == KIND_FILE {
      if r.size == 0 {
        EmptyContents(img, r);
      } else {
        GatherIsContents(img, sb, r, 0);
        ExtentPositive(img, sb, r);
      }
    }
  }

  lemma ExtentPositive(img: Image, sb: Superblock, r: Inode)
    requires Layout(img, sb) && ExtentOk(sb, r) && r.kind == KIND_FILE && r.size > 0
    ensures ExtentReadable(sb, r)
  {
    assert r.firstSector + r.sectors < B64;
  }

  // ---------------------------------------------------------------------------------------------
  // Reading, on any image
  // ---------------------------------------------------------------------------------------------

  /** The sector that holds byte `i` of an extent. */
  function SectorAt(first: nat, i: nat): nat { (first + i / 512) % 0x1_0000_0000 }

  /** All sectors of an extent from byte `from` on are on the device. */
  predicate OnDevice(img: Image, first: nat, size: nat, from: nat) {
    forall i: nat :: from <= i < size ==> (SectorAt(first, i) + 1) * 512 <= |img|
  }

  /** `t` is what the extent holds from byte `from` on. */
  predicate HoldsExtent(img: Image, first: nat, size: nat, from: nat, t: seq<byte>)
    requires OnDevice(img, first, size, from) && from <= size
  {
    |t| == size - from && forall i: nat :: from <= i < size ==> t[i - from] == img[SectorAt(first, i) * 512 + i % 512]
  }

  lemma {:induction false} GatherHolds(img: Image, first: nat, size: nat, from: nat)
    requires from <= size && (from % 512 == 0 || from == size)
    ensures Gather(img, first, size, from).Some? <==> OnDevice(img, first, size, from)
    ensures Gather(img, first, size, from).Some? ==>
              HoldsExtent(img, first, size, from, Gather(img, first, size, from).value)
    decreases size - from
  {
    if from < size {
      var next := if size - from > 512 then from + 512 else size;
      GatherHolds(img, first, size, next);
      forall i: nat | from <= i < next
        ensures SectorAt(first, i) == SectorAt(first, from) && i % 512 == i - from
      {
        SameSector(from, i);
      }
      GatherMore(img, first, size, from, next);
    }
  }

  lemma SameSector(from: nat, i: nat)
    requires from % 512 == 0 && from <= i < from + 512
    ensures i / 512 == from / 512 && i % 512 == i - from
  {
  }

  lemma GatherMore(img: Image, first: nat, size: nat, from: nat, next: nat)
    requires from < next <= size && (next == size || next == from + 512) && next - from <= 512
    requires next == if size - from > 512 then from + 512 else size
    requires forall i: nat :: from <= i < next ==> SectorAt(first, i) == SectorAt(first, from) && i % 512 == i - from
    requires Gather(img, first, size, next).Some? <==> OnDevice(img, first, size, next)
    requires Gather(img, first, size, next).Some? ==>
               HoldsExtent(img, first, size, next, Gather(img, first, size, next).value)
    ensures Gather(img, first, size, from).Some? <==> OnDevice(img, first, size, from)
    ensures Gather(img, first, size, from).Some? ==>
              HoldsExtent(img, first, size, from, Gather(img, first, size, from).value)
  {
    hide Gather;
    hide SectorAt;
    hide OnDevice;
    hide HoldsExtent;
    GatherUnfolds(img, first, size, from, next);
    OnDeviceMore(img, first, size, from, next);
    if OnDevice(img, first, size, from) {
      HoldsMore(img, first, size, from, next, Gather(img, first, size, next).value);
    }
  }

  lemma GatherUnfolds(img: Image, first: nat, size: nat, from: nat, next: nat)
    requires from < next <= size && next == if size - from > 512 then from + 512 else size
    ensures var s := SectorAt(first, from);
            Gather(img, first, size, from)
            == if (s + 1) * 512 > |img| then None
               else
                 match Gather(img, first, size, next)
                 case None => None
                 case Some(rest) => Some(img[s * 512..s * 512 + (next - from)] + rest)
  {
  }

  lemma OnDeviceMore(img: Image, first: nat, size: nat, from: nat, next: nat)
    requires from < next <= size
    requires forall i: nat :: from <= i < next ==> SectorAt(first, i) == SectorAt(first, from)
    ensures OnDevice(img, first, size, from) <==>
            (SectorAt(first, from) + 1) * 512 <= |img| && OnDevice(img, first, size, next)
  {
    hide SectorAt;
  }

  lemma HoldsMore(img: Image, first: nat, size: nat, from: nat, next: nat, rest: seq<byte>)
    requires from < next <= size && next - from <= 512
    requires forall i: nat :: from <= i < next ==> SectorAt(first, i) == SectorAt(first, from) && i % 512 == i - from
    requires OnDevice(img, first, size, from) && OnDevice(img, first, size, next)
    requires HoldsExtent(img, first, size, next, rest)
    ensures var s := SectorAt(first, from);
            && (s + 1) * 512 <= |img|
            && HoldsExtent(img, first, size, from, img[s * 512..s * 512 + (next - from)] + rest)
  {
    hide SectorAt;
    var s := SectorAt(first, from);
    assert (s + 1) * 512 <= |img|;
    var chunk := img[s * 512..s * 512 + (next - from)];
    forall i: nat | from <= i < size
      ensures (chunk + rest)[i - from] == img[SectorAt(first, i) * 512 + i % 512]
    {
      if i < next {
        assert (chunk + rest)[i - from] == chunk[i - from] == img[s * 512 + (i - from)];
      } else {
        assert (chunk + rest)[i - from] == rest[i - next];
      }
    }
  }

  /** What a read of any image returns, and when: the bytes of the extent's sectors, if the node is a file that
      fits, with a terminating zero, and if its extent starts behind the inode table, ends on the volume, and lies
      on the device. */
  lemma ReadHolds(img: Image, path: Text, capacity: nat)
    requires LoadSuper(img).Some? ==> Layout(img, LoadSuper(img).value)
    ensures ReadFile(img, path, capacity).Some? <==>
            && Find(img, path).Some?
            && var (sb, _, r) := Find(img, path).value;
            && r.kind == 1 && r.size < capacity
            && (r.size > 0 ==>
                  && r.sectors > 0 && sb.entryLba <= r.firstSector
                  && (r.firstSector + r.sectors) % 0x1_0000_0000_0000_0000 <= sb.totalSectors
                  && OnDevice(img, r.firstSector, r.size, 0))
    ensures ReadFile(img, path, capacity).Some? ==>
              var r, t := Find(img, path).value.2, ReadFile(img, path, capacity).value;
              |t| == r.size && (r.size > 0 ==> HoldsExtent(img, r.firstSector, r.size, 0, t))
  {
    hide LoadSuper;
    hide Layout;
    hide InodeAt;
    hide View;
    hide FindPath;
    hide Gather;
    hide OnDevice;
    if Find(img, path).Some? {
      var r := Find(img, path).value.2;
      GatherHolds(img, r.firstSector, r.size, 0);
    }
  }

  // ---------------------------------------------------------------------------------------------
  // Listings
  // ---------------------------------------------------------------------------------------------

  /** An entry with a usable name below `parent`. */
  predicate ChildOf(e: Dentry, parent: nat) { e.parent == parent && 1 <= e.nameLength <= 48 }

  /** Its name, a character behind it and the terminating zero leave a byte of the buffer unused. */
  predicate RoomFor(e: Dentry, used: nat, capacity: nat) { used + e.nameLength + 2 < capacity }

  /** `used[j]` is the length of the text before entry `j`: a name and one character more for every entry below
      the directory that fits, nothing for any other. */
  predicate Lengths(entries: seq<Dentry>, parent: nat, capacity: nat, used: seq<nat>) {
    && |used| == |entries| + 1 && used[0] == 0
    && forall j :: 0 <= j < |entries| ==>
         used[j + 1] == used[j] + if ChildOf(entries[j], parent) && RoomFor(entries[j], used[j], capacity)
                                  then entries[j].nameLength + 1 else 0
  }

  /** The name of an entry stands in its place, followed by a space, or at the very end by a newline. */
  predicate NamePlaced(e: Dentry, at: nat, text: seq<byte>) {
    && at + e.nameLength < |text|
    && (forall i :: 0 <= i < e.nameLength ==> i < |e.name| && text[at + i] == e.name[i])
    && text[at + e.nameLength] == if at + e.nameLength + 1 == |text| then 0x0a else 0x20
  }

  /** `text` lists the directory: the entries below it, in order, that still fit when their turn comes, and
      nothing else. */
  predicate ListsEntries(entries: seq<Dentry>, parent: nat, capacity: nat, used: seq<nat>, text: seq<byte>) {
    && Lengths(entries, parent, capacity, used) && |text| == used[|entries|]
    && forall j :: 0 <= j < |entries| ==>
         ChildOf(entries[j], parent) && RoomFor(entries[j], used[j], capacity) ==> NamePlaced(entries[j], used[j], text)
  }

  /** What the loop has written, before the last space becomes a newline. */
  predicate SpacePlaced(e: Dentry, at: nat, text: seq<byte>) {
    && at + e.nameLength < |text| && e.nameLength <= |e.name|
    && text[at..at + e.nameLength] == e.name[..e.nameLength] && text[at + e.nameLength] == 0x20
  }

  predicate RowsWritten(entries: seq<Dentry>, k: nat, parent: nat, capacity: nat, used: seq<nat>, text: seq<byte>) {
    && k <= |entries| && |used| == |entries| + 1 && |text| == used[|entries|]
    && forall j :: k <= j < |entries| ==> RowWritten(entries[j], used[j], used[j + 1], parent, capacity, text)
  }

  predicate RowWritten(e: Dentry, at: nat, next: nat, parent: nat, capacity: nat, text: seq<byte>) {
    if ChildOf(e, parent) && RoomFor(e, at, capacity) then next == at + e.nameLength + 1 && SpacePlaced(e, at, text)
    else next == at
  }

  /** The loop from entry `k` on, given the lengths before it. */
  lemma {:induction false} ListWrites(entries: seq<Dentry>, k: nat, parent: nat, before: seq<nat>, text: seq<byte>,
                                      capacity: nat)
    returns (used: seq<nat>)
    requires k <= |entries| && |before| == k + 1 && before[k] == |text|
    requires forall e :: e in entries ==> |e.name| == NAME_MAX
    ensures text <= ListFrom(entries, k, parent, text, capacity)
    ensures before <= used
    ensures RowsWritten(entries, k, parent, capacity, used, ListFrom(entries, k, parent, text, capacity))
    ensures |text| + 1 < capacity || text == [] ==>
              var r := ListFrom(entries, k, parent, text, capacity); |r| + 1 < capacity || r == []
    decreases |entries| - k
  {
    hide RowWritten;
    if k == |entries| {
      used := before;
    } else {
      var e := entries[k];
      var next := if e.parent != parent || !Used(e) || |text| + e.nameLength + 2 >= capacity then text
                  else text + NameOf(e) + [SPACE];
      used := ListWrites(entries, k + 1, parent, before + [|next|], next, capacity);
      var all := ListFrom(entries, k, parent, text, capacity);
      assert used[k] == |text| && used[k + 1] == |next|;
      NextWritten(e, parent, capacity, text, next, all);
    }
  }

  lemma NextWritten(e: Dentry, parent: nat, capacity: nat, text: seq<byte>, next: seq<byte>, all: seq<byte>)
    requires |e.name| == NAME_MAX && next <= all
    requires next == if e.parent != parent || !Used(e) || |text| + e.nameLength + 2 >= capacity then text
                     else text + NameOf(e) + [SPACE]
    ensures text <= all && RowWritten(e, |text|, |next|, parent, capacity, all)
  {
    if next != text {
      assert next[|text|..|text| + e.nameLength] == NameOf(e) && next[|text| + e.nameLength] == SPACE;
      assert all[..|next|] == next;
    }
  }

  /** The last space becomes a newline, and no other character changes. */
  lemma NewlineLast(entries: seq<Dentry>, parent: nat, capacity: nat, used: seq<nat>, text: seq<byte>)
    requires |used| > 0 && used[0] == 0 && RowsWritten(entries, 0, parent, capacity, used, text)
    ensures ListsEntries(entries, parent, capacity, used,
                         if text == [] then [] else text[..|text| - 1] + [NEWLINE])
  {
    hide SpacePlaced;
    hide NamePlaced;
    hide ChildOf;
    hide RoomFor;
    assert Lengths(entries, parent, capacity, used);
    var r := if text == [] then [] else text[..|text| - 1] + [NEWLINE];
    forall j | 0 <= j < |entries| && ChildOf(entries[j], parent) && RoomFor(entries[j], used[j], capacity)
      ensures NamePlaced(entries[j], used[j], r)
    {
      assert RowWritten(entries[j], used[j], used[j + 1], parent, capacity, text);
      NewlineKeeps(entries[j], used[j], text);
    }
  }

  lemma NewlineKeeps(e: Dentry, at: nat, text: seq<byte>)
    requires SpacePlaced(e, at, text)
    ensures text != [] && NamePlaced(e, at, text[..|text| - 1] + [NEWLINE])
  {
    var r := text[..|text| - 1] + [NEWLINE];
    forall i | 0 <= i < e.nameLength
      ensures r[at + i] == e.name[i]
    {
      assert text[at..at + e.nameLength][i] == e.name[..e.nameLength][i];
    }
  }

  /** `text` lists the directory that the path names. */
  ghost predicate Lists(img: Image, path: Text, capacity: nat, text: seq<byte>)
    requires LoadSuper(img).Some? ==> Layout(img, LoadSuper(img).value)
  {
    && Find(img, path).Some? && Find(img, path).value.2.kind == KIND_DIRECTORY
    && var (sb, n, _) := Find(img, path).value;
    exists used :: ListsEntries(View(img, sb).entries, n, capacity, used, text)
  }

  /** A listing into a buffer of any size, over any image: which names it holds and where, and that with its
      terminating zero it never fills the buffer. */
  lemma ListHolds(img: Image, path: Text, capacity: nat)
    requires LoadSuper(img).Some? ==> Layout(img, LoadSuper(img).value)
    requires List(img, path, capacity).Some?
    ensures Lists(img, path, capacity, List(img, path, capacity).value)
    ensures capacity >= 2 && var r := List(img, path, capacity).value; r == [] || |r| + 1 < capacity
  {
    var (sb, n, _) := Find(img, path).value;
    var entries := View(img, sb).entries;
    EntryNames(img, sb);
    var used := ListWrites(entries, 0, n, [0], [], capacity);
    NewlineLast(entries, n, capacity, used, ListFrom(entries, 0, n, [], capacity));
    hide ListFrom;
    hide View;
    hide Layout;
    hide ListsEntries;
    hide RowsWritten;
  }

  lemma EntryNames(img: Image, sb: Superblock)
    requires Layout(img, sb)
    ensures forall e :: e in View(img, sb).entries ==> |e.name| == NAME_MAX
  {
  }

  /** The names below a directory, in entry order. */
  function NamesFrom(entries: seq<Dentry>, k: nat, parent: nat): seq<Name>
    decreases |entries| - k
  {
    if k >= |entries| then []
    else if entries[k].parent == parent && Used(entries[k])
    then [NameOf(entries[k])] + NamesFrom(entries, k + 1, parent)
    else NamesFrom(entries, k + 1, parent)
  }

  function Joined(names: seq<Name>): seq<byte> {
    if names == [] then [] else names[0] + [SPACE] + Joined(names[1..])
  }

  lemma {:induction false} ListIsJoined(entries: seq<Dentry>, k: nat, parent: nat, text: seq<byte>, capacity: nat)
    requires |text| + |Joined(NamesFrom(entries, k, parent))| + 1 < capacity
    ensures ListFrom(entries, k, parent, text, capacity) == text + Joined(NamesFrom(entries, k, parent))
    decreases |entries| - k
  {
    if k < |entries| {
      var e := entries[k];
      if e.parent == parent && Used(e) {
        var rest := NamesFrom(entries, k + 1, parent);
        assert ([NameOf(e)] + rest)[1..] == rest;
        assert Joined([NameOf(e)] + rest) == NameOf(e) + [SPACE] + Joined(rest);
        ListIsJoined(entries, k + 1, parent, text + NameOf(e) + [SPACE], capacity);
        assert text + NameOf(e) + [SPACE] + Joined(rest) == text + (NameOf(e) + [SPACE] + Joined(rest));
      } else {
        ListIsJoined(entries, k + 1, parent, text, capacity);
      }
    }
  }

  lemma {:induction false} NamesAreChildren(entries: seq<Dentry>, k: nat, parent: nat, name: Name)
    requires k <= |entries|
    ensures name in NamesFrom(entries, k, parent) <==> FindFrom(entries, k, parent, name).Some?
    decreases |entries| - k
  {
    if k < |entries| { NamesAreChildren(entries, k + 1, parent, name); }
  }

  lemma ChildIsFind(v: Volume, n: nat, name: Name)
    ensures Child(v, n, name) == FindFrom(v.entries, 0, n, name)
  {
  }

  /** The text of a listing with enough room. */
  lemma ListText(img: Image, path: Text, capacity: nat)
    requires LoadSuper(img).Some? ==> Layout(img, LoadSuper(img).value)
    requires 2 <= capacity && Find(img, path).Some? && Find(img, path).value.2.kind == KIND_DIRECTORY
    ensures Layout(img, Find(img, path).value.0)
    ensures var names := NamesFrom(View(img, Find(img, path).value.0).entries, 0, Find(img, path).value.1);
            |Joined(names)| + 1 < capacity ==>
              List(img, path, capacity)
                == Some(if names == [] then [] else Joined(names)[..|Joined(names)| - 1] + [NEWLINE])
  {
    FoundLayout(img, path);
    ListIs(img, path, capacity);
    hide LoadSuper;
    hide Find;
    hide List;
    hide Layout;
    hide View;
    hide ListFrom;
    hide NamesFrom;
    hide Joined;
    var (sb, n, _) := Find(img, path).value;
    var entries := View(img, sb).entries;
    var names := NamesFrom(entries, 0, n);
    if |Joined(names)| + 1 < capacity {
      ListIsJoined(entries, 0, n, [], capacity);
      assert [] + Joined(names) == Joined(names);
      JoinedEmpty(names);
    }
  }

  lemma ListIs(img: Image, path: Text, capacity: nat)
    requires LoadSuper(img).Some? ==> Layout(img, LoadSuper(img).value)
    requires 2 <= capacity && Find(img, path).Some? && Find(img, path).value.2.kind == KIND_DIRECTORY
    ensures Layout(img, Find(img, path).value.0)
    ensures var (sb, n, _) := Find(img, path).value;
            var text := ListFrom(View(img, sb).entries, 0, n, [], capacity);
            List(img, path, capacity) == Some(if text == [] then [] else text[..|text| - 1] + [NEWLINE])
  {
    FoundLayout(img, path);
    hide LoadSuper;
    hide Find;
    hide Layout;
    hide View;
    hide ListFrom;
  }

  lemma JoinedEmpty(names: seq<Name>)
    ensures Joined(names) == [] <==> names == []
  {
  }

  lemma FoundLayout(img: Image, path: Text)
    requires LoadSuper(img).Some? ==> Layout(img, LoadSuper(img).value)
    requires Find(img, path).Some?
    ensures LoadSuper(img) == Some(Find(img, path).value.0) && Layout(img, Find(img, path).value.0)
  {
  }

  /** With enough room, listing a directory gives exactly its children's names, in entry order. */
  lemma ListIsChildren(img: Image, sb: Superblock, path: Text, p: seq<Name>, capacity: nat) returns (names: seq<Name>)
    requires Sound(img, sb) && Parse(path) == Some(p) && 2 <= capacity
    requires Lookup(img, sb, p).Some? && Lookup(img, sb, p).value.record.kind == KIND_DIRECTORY
    ensures forall name :: name in names <==> Lookup(img, sb, p + [name]).Some?
    ensures |Joined(names)| + 1 < capacity ==>
              List(img, path, capacity)
                == Some(if names == [] then [] else Joined(names)[..|Joined(names)| - 1] + [NEWLINE])
  {
    hide Find;
    hide List;
    hide Layout;
    hide LoadSuper;
    hide InodeAt;
    hide Parse;
    hide View;
    hide NodeOf;
    hide ExtentsOk;
    hide ExtentOk;
    hide Child;
    hide Joined;
    hide NamesFrom;
    hide FindFrom;
    hide Resolve;
    hide WellFormed;
    FindIsLookup(img, sb, path);
    ListText(img, path, capacity);
    var v := View(img, sb);
    var n := Find(img, path).value.1;
    names := NamesFrom(v.entries, 0, n);
    forall name
      ensures name in names <==> Lookup(img, sb, p + [name]).Some?
    {
      NamesAreChildren(v.entries, 0, n, name);
      ChildIsFind(v, n, name);
      ResolveLast(v, p, name);
      if Resolve(v, ROOT_INODE, p + [name]).Some? { ResolveLive(v, p + [name]); }
    }
  }
}
