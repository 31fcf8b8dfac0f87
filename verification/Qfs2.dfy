/** The QFS v2 driver of kernel/core/qfs2.c, in its own imperative form: one static sector buffer,
    chunked reads and read-modify-write updates. */
module Qfs2Driver {
  import opened Bytes
  import opened Options
  import opened Crc32
  import opened Device
  import opened Qfs2Format
  import opened Qfs2Volume
  import opened Qfs2Path
  import opened Qfs2Image
  import opened Qfs2Faults
  import opened Qfs2Query

  class Qfs2 {
    const device: BlockDevice
    var sector: seq<byte>

    ghost predicate Valid()
      reads this, device
    {
      device.Valid() && |sector| == SECTOR
    }

    ghost function Disk(): Image
      requires Valid()
      reads this, device
    {
      device.Image()
    }

    /** Nothing but the sector buffer and the fault schedule has changed. */
    twostate predicate Kept()
      requires old(Valid())
      reads this, device
    {
      Valid() && Disk() == old(Disk()) && (old(device.Healthy()) ==> device.Healthy())
    }

    constructor (device: BlockDevice)
      requires device.Valid()
      ensures Valid() && this.device == device
    {
      this.device := device;
      sector := Zeros(SECTOR);
    }

    method ReadSector(number: nat) returns (ok: bool)
      requires Valid()
      modifies this, device`faults
      ensures Kept()
      ensures device.faults == Later(old(device.faults))
              && (ok <==> !FailsNext(old(device.faults)) && (number + 1) * SECTOR <= |Disk()|)
      ensures ok ==> (number + 1) * SECTOR <= |Disk()| && sector == Disk()[number * SECTOR..(number + 1) * SECTOR]
      ensures old(device.Healthy()) ==> (ok <==> (number + 1) * SECTOR <= |Disk()|)
    {
      var data;
      ok, data := device.Read(number);
      if ok { sector := data; }
    }

    method WriteSector(number: nat) returns (ok: bool)
      requires Valid()
      modifies device
      ensures Valid() && |Disk()| == |old(Disk())|
      ensures !ok ==> Disk() == old(Disk())
      ensures ok ==> (number + 1) * SECTOR <= |Disk()| && Disk() == Splice(old(Disk()), number * SECTOR, sector)
      ensures old(device.Healthy()) ==> device.Healthy() && (ok <==> (number + 1) * SECTOR <= |Disk()|)
    {
      ok := device.Write(number, sector);
    }

    /** `load_super` */
    method ReadSuper() returns (ok: bool, sb: Superblock)
      requires Valid()
      modifies this, device`faults
      ensures Kept()
      ensures ok ==> LoadSuper(Disk()) == Some(sb)
      ensures old(device.Healthy()) ==> (ok <==> LoadSuper(Disk()).Some?)
      ensures device.faults == Later(old(device.faults))
              && (ok <==> !FailsNext(old(device.faults)) && LoadSuper(Disk()).Some?)
    {
      hide Flat;
      hide DecodeSuper;
      hide Crc;
      sb := DecodeSuper(Zeros(SUPER_SIZE));
      ok := ReadSector(SUPER_LBA);
      if !ok { return; }
      assert sector[..SUPER_SIZE] == SuperBytes(Disk());
      assert sector[..40] == SuperBytes(Disk())[..40];
      sb := DecodeSuper(sector[..SUPER_SIZE]);
      var checksum := Checksum(sector, 40);
      ok := MAGIC <= sb.magic && sb.version == 2 && sb.sectorSize == SECTOR && sb.rootInode == ROOT_INODE
        && sb.totalSectors != 0 && sb.bitmapLba >= SUPER_LBA + 1 && sb.inodeLba > sb.bitmapLba
        && sb.inodeSectors != 0 && sb.entryLba >= sb.inodeLba
        && (sb.entryLba + sb.entrySectors) % B32 <= sb.totalSectors && sb.checksum == checksum;
    }

    /** One turn of the loop of `read_metadata`. */
    method ReadChunk(sb: Superblock, offset: nat, length: nat) returns (ok: bool, chunk: seq<byte>)
      requires Valid() && sb.totalSectors < B32 && length > 0 && offset < sb.totalSectors * SECTOR
      modifies this, device`faults
      ensures Kept() && device.faults == Later(old(device.faults))
      ensures ok ==> offset + |chunk| <= |Disk()| && chunk == Disk()[offset..offset + |chunk|]
      ensures ok ==> |chunk| == ChunkSize(offset, length)
      ensures ok <==> !FailsNext(old(device.faults)) && offset < |Disk()|
    {
      hide Flat;
      hide Later;
      hide FailsNext;
      hide FaultFree;
      var sectorNumber := offset / SECTOR % B32;
      var byteIndex := offset % SECTOR;
      chunk := [];
      SectorOf(offset, sb.totalSectors);
      OnDisk(device.sectors, offset);
      ok := ReadSector(sectorNumber);
      if !ok { return; }
      var count := SECTOR - byteIndex;
      if count > length { count := length; }
      SliceOfSlice(Disk(), sectorNumber * SECTOR, (sectorNumber + 1) * SECTOR, byteIndex, byteIndex + count);
      chunk := sector[byteIndex..byteIndex + count];
    }

    /** `read_metadata`: a chunk per sector touched. */
    method ReadMetadata(sb: Superblock, start: nat, size: nat) returns (ok: bool, out: seq<byte>)
      requires Valid() && sb.totalSectors < B32 && size > 0
      modifies this, device`faults
      ensures Kept()
      ensures ok ==> start + size <= |Disk()| && out == Disk()[start..start + size]
      ensures old(device.Healthy()) && start + size <= sb.totalSectors * SECTOR && start + size <= |Disk()| ==> ok
      ensures start + size <= sb.totalSectors * SECTOR && start + size <= |Disk()| ==>
                && (ok <==> Clear(old(device.faults), Touched(start, size)))
                && device.faults == Remaining(old(device.faults), Touched(start, size))
    {
      hide Flat;
      hide Later;
      hide FailsNext;
      hide Clear;
      hide Remaining;
      hide Due;
      hide Touched;
      hide ChunkSize;
      hide FaultFree;
      hide ReadSoFar;
      ghost var was, total := device.faults, Touched(start, size);
      var offset, length := start, size;
      var limit := sb.totalSectors * SECTOR;
      out := [];
      if offset > limit || length > limit - offset { return false, out; }
      DueStart(was, total);
      if device.Healthy() { FaultFreeClear(was, total); }
      ReadNothing(Disk(), start);
      while length > 0
        invariant Kept()
        invariant offset + length == start + size <= limit && start <= offset && 0 <= length
        invariant ReadSoFar(Disk(), start, offset, out)
        invariant start + size <= |Disk()| ==> Due(was, total, device.faults, Touched(offset, length))
        decreases length
      {
        TouchedNext(offset, length);
        if start + size <= |Disk()| { DueNext(was, total, device.faults, Touched(offset, length)); }
        var chunk;
        ok, chunk := ReadChunk(sb, offset, length);
        if !ok { return false, out; }
        ChunkRead(Disk(), start, offset, out, chunk);
        out := out + chunk;
        offset, length := offset + |chunk|, length - |chunk|;
      }
      ReadAll(Disk(), start, size, out);
      TouchedNone(offset);
      if start + size <= |Disk()| { DueEnd(was, total, device.faults); }
      ok := true;
    }

    /** `write_metadata`: read-modify-write of each sector touched. */
    method WriteMetadata(sb: Superblock, start: nat, data: seq<byte>) returns (ok: bool)
      requires Valid() && sb.totalSectors < B32 && data != []
      modifies this, device
      ensures Valid() && |Disk()| == |old(Disk())|
      ensures ok ==> start + |data| <= |Disk()| && Disk() == Splice(old(Disk()), start, data)
      ensures Confined(old(Disk()), Disk(), start, |data|)
      ensures old(device.Healthy()) ==> device.Healthy()
      ensures old(device.Healthy()) && start + |data| <= sb.totalSectors * SECTOR && start + |data| <= |Disk()| ==> ok
    {
      hide Splice;
      hide Flat;
      hide WrittenSoFar;
      hide Confined;
      ConfinedNot(Disk(), start, |data|);
      var offset, done := start, 0;
      var limit := sb.totalSectors * SECTOR;
      if offset > limit || |data| > limit - offset { return false; }
      WrittenEnds(old(Disk()), start, data);
      while done < |data|
        invariant Valid() && |Disk()| == |old(Disk())|
        invariant old(device.Healthy()) ==> device.Healthy()
        invariant 0 <= done <= |data| && offset == start + done && start + |data| <= limit
        invariant WrittenSoFar(old(Disk()), Disk(), start, data, done)
        invariant Confined(old(Disk()), Disk(), start, |data|)
        decreases |data| - done
      {
        var count;
        ok, count := WriteChunk(sb, start, data, offset, done, old(Disk()));
        if !ok { return; }
        offset, done := offset + count, done + count;
      }
      ok := true;
    }

    /** One turn of the loop: the part of the data that lies in one sector. */
    method WriteChunk(sb: Superblock, start: nat, data: seq<byte>, offset: nat, done: nat, ghost first: Image)
      returns (ok: bool, count: nat)
      requires Valid() && sb.totalSectors < B32 && |Disk()| == |first|
      requires done < |data| && offset == start + done && start + |data| <= sb.totalSectors * SECTOR
      requires WrittenSoFar(first, Disk(), start, data, done) && Confined(first, Disk(), start, |data|)
      modifies this, device
      ensures Valid() && |Disk()| == |first| && Confined(first, Disk(), start, |data|)
      ensures ok ==> 0 < count <= |data| - done && WrittenSoFar(first, Disk(), start, data, done + count)
      ensures old(device.Healthy()) ==> device.Healthy() && (start + |data| <= |Disk()| ==> ok)
    {
      hide Splice;
      hide Flat;
      hide WrittenSoFar;
      hide Confined;
      var sectorNumber := offset / SECTOR % B32;
      var byteIndex := offset % SECTOR;
      count := SECTOR - byteIndex;
      SectorOf(offset, sb.totalSectors);
      ok := ReadSector(sectorNumber);
      if !ok { return; }
      if count > |data| - done { count := |data| - done; }
      ghost var disk := Disk();
      sector := Splice(sector, byteIndex, data[done..done + count]);
      ok := WriteSector(sectorNumber);
      if !ok { return; }
      ChunkWrite(first, disk, start, data, done, count, sectorNumber, byteIndex);
      SoFarConfined(first, Disk(), start, data, done + count);
    }

    static lemma TotalFits(img: Image, sb: Superblock)
      requires Layout(img, sb)
      ensures sb.totalSectors < B32
    {
    }

    /** `read_inode` */
    method ReadInode(sb: Superblock, number: nat) returns (ok: bool, inode: Inode)
      requires Valid() && Layout(Disk(), sb)
      modifies this, device`faults
      ensures Kept()
      ensures InodeFits(inode)
      ensures ok ==> 1 <= number <= InodeCount(sb) && inode == InodeAt(Disk(), sb, number)
      ensures old(device.Healthy()) ==> (ok <==> 1 <= number <= InodeCount(sb))
      ensures 1 <= number <= InodeCount(sb) ==>
                && (ok <==> Clear(old(device.faults), Touched(InodeOffset(sb, number), INODE_SIZE)))
                && device.faults == Remaining(old(device.faults), Touched(InodeOffset(sb, number), INODE_SIZE))
    {
      hide Clear;
      hide Remaining;
      hide Touched;
      hide DecodeInode;
      hide Layout;
      hide Flat;
      inode := DecodeInode(Zeros(INODE_SIZE));
      if number == 0 || number > sb.inodeSectors * SECTOR / INODE_SIZE { return false, inode; }
      InodeInside(Disk(), sb, number);
      TotalFits(Disk(), sb);
      var offset := sb.inodeLba * SECTOR + (number - 1) * INODE_SIZE;
      var bytes;
      ok, bytes := ReadMetadata(sb, offset, INODE_SIZE);
      if ok { inode := DecodeInode(bytes); }
    }

    /** `write_inode` */
    method WriteInodeRecord(sb: Superblock, number: nat, inode: Inode) returns (ok: bool)
      requires Valid() && Layout(Disk(), sb) && InodeFits(inode)
      modifies this, device
      ensures Valid() && |Disk()| == |old(Disk())|
      ensures old(device.Healthy()) ==> device.Healthy() && (ok <==> 1 <= number <= InodeCount(sb))
      ensures ok ==> 1 <= number <= InodeCount(sb) && InodeOffset(sb, number) + INODE_SIZE <= |Disk()|
                     && Disk() == Splice(old(Disk()), InodeOffset(sb, number), EncodeInode(inode))
      ensures if 1 <= number <= InodeCount(sb) then Confined(old(Disk()), Disk(), InodeOffset(sb, number), INODE_SIZE)
              else !ok && Disk() == old(Disk())
    {
      hide Layout;
      hide Confined;
      hide Flat;
      hide EncodeInode;
      if number == 0 || number > sb.inodeSectors * SECTOR / INODE_SIZE { return false; }
      InodeInside(Disk(), sb, number);
      TotalFits(Disk(), sb);
      var offset := sb.inodeLba * SECTOR + (number - 1) * INODE_SIZE;
      ok := WriteMetadata(sb, offset, EncodeInode(inode));
    }

    /** Entry `index` of the table that starts at byte `offset`. */
    method ReadEntry(sb: Superblock, offset: nat, index: nat) returns (ok: bool, entry: Dentry)
      requires Valid() && Layout(Disk(), sb) && index < EntryCount(sb) && offset == sb.entryLba * SECTOR
      modifies this, device`faults
      ensures Kept()
      ensures DentryFits(entry)
      ensures ok ==> entry == View(Disk(), sb).entries[index]
      ensures old(device.Healthy()) ==> ok
      ensures ok <==> Clear(old(device.faults), Touched(EntryOffset(sb, index), DENTRY_SIZE))
      ensures device.faults == Remaining(old(device.faults), Touched(EntryOffset(sb, index), DENTRY_SIZE))
    {
      hide Clear;
      hide Remaining;
      hide Touched;
      hide Layout;
      hide Flat;
      hide FaultFree;
      hide DecodeDentry;
      hide DentryFits;
      hide DataStart;
      hide EntryCount;
      hide View;
      EntryInside(Disk(), sb, index);
      TotalFits(Disk(), sb);
      ViewEntry(Disk(), sb, index);
      var bytes;
      ok, bytes := ReadMetadata(sb, offset + index * DENTRY_SIZE, DENTRY_SIZE);
      entry := DecodeDentry(if ok then bytes else Zeros(DENTRY_SIZE));
    }

    /** `name_equal` */
    static method NameEqual(left: seq<byte>, leftLength: nat, right: Text) returns (r: bool)
      requires leftLength <= |left| && IsCString(right)
      ensures r <==> left[..leftLength] == right
    {
      var index := 0;
      while At(right, index) != 0 && index < leftLength && left[index] == At(right, index)
        invariant 0 <= index <= |right| && index <= leftLength
        invariant forall i :: 0 <= i < index ==> left[i] == right[i]
        decreases leftLength - index
      {
        index := index + 1;
      }
      r := At(right, index) == 0 && index == leftLength;
      assert index < leftLength ==> left[..leftLength][index] == left[index];
    }

    /** `find_child`.  It succeeds just when the name is there and no transfer up to the first entry of
        that name fails; a fault on the way reads like an absent name. */
    method FindChild(sb: Superblock, parent: nat, name: Text) returns (ok: bool, result: nat)
      requires Valid() && Layout(Disk(), sb) && IsCString(name)
      modifies this, device`faults
      ensures Kept()
      ensures ok ==> Child(View(Disk(), sb), parent, name) == Some(result)
      ensures old(device.Healthy()) ==> (ok <==> Child(View(Disk(), sb), parent, name).Some?)
      ensures ok <==> Child(View(Disk(), sb), parent, name).Some?
                      && Clear(old(device.faults), LookupReads(sb, View(Disk(), sb), parent, name))
      ensures device.faults == Remaining(old(device.faults), LookupReads(sb, View(Disk(), sb), parent, name))
    {
      hide Clear;
      hide Remaining;
      hide Due;
      hide EntryReads;
      hide Touched;
      hide Layout;
      hide View;
      hide Flat;
      hide EntryCount;
      hide EntryOffset;
      hide IsCString;
      hide FaultFree;
      ghost var was, v := device.faults, View(Disk(), sb);
      ghost var total, end := LookupReads(sb, v, parent, name), SearchEnd(v.entries, 0, parent, name);
      NoWrap(Disk(), sb);
      var count := sb.entrySectors * SECTOR % B32 / DENTRY_SIZE;
      var offset := sb.entryLba * SECTOR % B32;
      var index := 0;
      result := 0;
      DueStart(was, total);
      while index < count
        invariant Kept() && Layout(Disk(), sb)
        invariant 0 <= index <= count == |v.entries| && v == View(Disk(), sb)
        invariant FindFrom(v.entries, 0, parent, name) == FindFrom(v.entries, index, parent, name)
        invariant SearchEnd(v.entries, index, parent, name) == end
        invariant Due(was, total, device.faults, EntryReads(sb, index, end))
      {
        LookupStep(sb, v, index, parent, name);
        DueStretch(was, total, device.faults, Touched(EntryOffset(sb, index), DENTRY_SIZE),
                   EntryReads(sb, index + 1, end));
        var entry;
        ok, entry := ReadEntry(sb, offset, index);
        if !ok { return; }
        if entry.parent == parent && entry.nameLength > 0 && entry.nameLength <= NAME_MAX {
          var same := NameEqual(entry.name, entry.nameLength, name);
          if same {
            SearchDone(sb, was, total, device.faults, end);
            return true, entry.inode;
          }
        }
        index := index + 1;
      }
      SearchDone(sb, was, total, device.faults, end);
      ok := false;
    }

    /** The inner loop of `find_path`: the component that starts at `start`. */
    static method ScanComponent(path: Text, start: nat) returns (ok: bool, component: Text, index: nat)
      requires IsCString(path) && start < |path|
      ensures start <= index <= |path|
      ensures ok ==> Scanned(path, start, component, index)
      ensures !ok ==> Components(path[start..]) == None
    {
      component := [];
      index := start;
      while At(path, index) != 0 && At(path, index) != SEPARATOR
        invariant start <= index <= |path|
        invariant component == path[start..index] && |component| <= NAME_MAX && Clean(component)
        invariant forall i :: start <= i < index ==> path[i] != SEPARATOR
        decreases |path| - index
      {
        if path[index] == SLASH || path[index] == BACKSLASH || path[index] == COLON {
          ComponentForbidden(path, start, index);
          return false, component, index;
        }
        if |component| + 1 >= NAME_MAX + 1 {
          ComponentTooLong(path, start, index);
          return false, component, index;
        }
        component := component + [path[index]];
        index := index + 1;
      }
      ok := true;
    }

    /** `find_path` */
    method WalkPath(sb: Superblock, path: Text) returns (ok: bool, result: nat)
      requires Valid() && Layout(Disk(), sb) && IsCString(path)
      modifies this, device`faults
      ensures Kept()
      ensures ok ==> FindPath(View(Disk(), sb), path) == Some(result)
      ensures old(device.Healthy()) ==> (ok <==> FindPath(View(Disk(), sb), path).Some?)
      ensures FindPath(View(Disk(), sb), path).Some? ==>
                && (ok <==> Clear(old(device.faults), PathReads(sb, View(Disk(), sb), path)))
                && device.faults == Remaining(old(device.faults), PathReads(sb, View(Disk(), sb), path))
    {
      hide Clear;
      hide Remaining;
      hide Due;
      hide FaultFree;
      hide PathReads;
      hide OnwardReads;
      hide LookupReads;
      hide Clean;
      hide FindPath;
      hide Flat;
      hide IndexOf;
      hide Layout;
      hide View;
      hide Child;
      hide Onward;
      ghost var was, v := device.faults, View(Disk(), sb);
      ghost var total := PathReads(sb, v, path);
      result := ROOT_INODE;
      var index := 0;
      while At(path, index) != 0 && At(path, index) != COLON
        invariant 0 <= index <= |path|
        invariant forall i :: 0 <= i < index ==> path[i] != COLON
        decreases |path| - index
      {
        index := index + 1;
      }
      IndexIs(path, COLON, index);
      FindPathOnward(sb, v, path);
      DueStart(was, total);
      if At(path, index) != COLON || !(path[..index] == PRIME || path[..index] == LIVE) { return false, result; }
      index := index + 1;
      while At(path, index) != 0
        invariant Kept() && Layout(Disk(), sb) && v == View(Disk(), sb)
        invariant 0 <= index <= |path|
        invariant FindPath(v, path) == Onward(v, result, path[index..])
        invariant FindPath(v, path).Some? ==> Due(was, total, device.faults, OnwardReads(sb, v, result, path[index..]))
        decreases |path| - index
      {
        ghost var start := index;
        var component;
        ok, component, index := ScanComponent(path, index);
        if !ok {
          OnwardNone(v, result, path[start..]);
          return false, result;
        }
        OnwardStep(sb, v, result, path, start, component, index);
        if At(path, index) == SEPARATOR {
          index := index + 1;
          if At(path, index) == SEPARATOR { return false, result; }
        }
        if component == [] { continue; }
        if FindPath(v, path).Some? {
          DueStretch(was, total, device.faults, LookupReads(sb, v, result, component),
                     OnwardReads(sb, v, Child(v, result, component).value, path[index..]));
        }
        var child;
        ok, child := FindChild(sb, result, component);
        if !ok { return false, result; }
        result := child;
      }
      OnwardEnd(sb, v, result);
      assert path[index..] == [];
      if FindPath(v, path).Some? { DueEnd(was, total, device.faults); }
      ok := true;
    }

    /** The loops of `split_path` that find the colon and the end of the path. */
    static method Bounds(path: Text) returns (ok: bool, driveEnd: nat, length: nat)
      requires IsCString(path)
      ensures driveEnd == IndexOf(path, COLON) <= |path|
      ensures ok <==> driveEnd < |path| && NoSlashes(path)
      ensures ok ==> length == |path|
    {
      driveEnd, length := 0, 0;
      while At(path, driveEnd) != 0 && At(path, driveEnd) != COLON
        invariant 0 <= driveEnd <= |path|
        invariant forall i :: 0 <= i < driveEnd ==> path[i] != COLON
        decreases |path| - driveEnd
      {
        driveEnd := driveEnd + 1;
      }
      IndexIs(path, COLON, driveEnd);
      if At(path, driveEnd) != COLON { return false, driveEnd, length; }
      while At(path, length) != 0
        invariant 0 <= length <= |path|
        invariant forall i :: 0 <= i < length ==> path[i] != SLASH && path[i] != BACKSLASH
        decreases |path| - length
      {
        if path[length] == SLASH || path[length] == BACKSLASH { return false, driveEnd, length; }
        length := length + 1;
      }
      ok := true;
    }

    /** The loop of `split_path` that drops separators at the end. */
    static method TrimEnd(path: Text, low: nat) returns (length: nat)
      requires low <= |path|
      ensures length == Trimmed(path, low, |path|)
    {
      length := |path|;
      while length > low && path[length - 1] == SEPARATOR
        invariant low <= length <= |path|
        invariant Trimmed(path, low, length) == Trimmed(path, low, |path|)
      {
        length := length - 1;
      }
    }

    /** The loop of `split_path` that finds the last separator. */
    static method FindCut(path: Text, low: nat, length: nat) returns (cut: nat)
      requires low <= length <= |path|
      ensures cut == LastCut(path, low, length)
    {
      cut := 0;
      var index := low;
      while index < length
        invariant low <= index <= length
        invariant cut == LastCut(path, low, index)
      {
        if path[index] == SEPARATOR { cut := index; }
        index := index + 1;
      }
    }

    /** `split_path` */
    static method SplitPath(path: Text) returns (ok: bool, parent: Text, name: Text)
      requires IsCString(path)
      ensures ok <==> Split(path).Some?
      ensures ok ==> Split(path) == Some((parent, name))
    {
      hide Split;
      hide IndexOf;
      hide LastCut;
      hide IsCString;
      hide NoSlashes;
      hide Trimmed;
      SplitIs(path);
      parent, name := [], [];
      var driveEnd, length;
      ok, driveEnd, length := Bounds(path);
      if !ok { return; }
      length := TrimEnd(path, driveEnd + 1);
      if length <= driveEnd + 1 { return false, parent, name; }
      var cut := FindCut(path, driveEnd + 1, length);
      if length - cut - 1 >= 49 || cut >= PATH_MAX { return false, parent, name; }
      if cut <= driveEnd {
        parent := CopyText(path, 0, driveEnd + 1);
        cut := driveEnd;
      } else {
        parent := CopyText(path, 0, cut);
      }
      name := CopyText(path, cut + 1, length - cut - 1);
      ok := true;
    }

    /** The copy loops of `split_path`. */
    static method CopyText(path: Text, at: nat, count: nat) returns (out: Text)
      requires at + count <= |path|
      ensures out == path[at..at + count]
      ensures at == 0 ==> out == path[..count]
    {
      out := [];
      var index := 0;
      while index < count
        invariant 0 <= index <= count && out == path[at..at + index]
      {
        out := out + [path[at + index]];
        index := index + 1;
      }
    }

    /** The free-inode loop of `create_node`; zero means that none was found. */
    method FindFreeInode(sb: Superblock) returns (ok: bool, found: nat)
      requires Valid() && Layout(Disk(), sb)
      modifies this, device`faults
      ensures Kept()
      ensures ok ==> FreeInode(View(Disk(), sb), 2) == (if found == 0 then None
                                                        else Some(found)) && found <= InodeCount(sb)
      ensures old(device.Healthy()) ==> ok
    {
      hide Flat;
      hide Later;
      hide FailsNext;
      hide Layout;
      hide View;
      hide InodeAt;
      ghost var v := View(Disk(), sb);
      CountsFit(Disk(), sb);
      var count := sb.inodeSectors * SECTOR / INODE_SIZE % B32;
      var index := 2;
      found := 0;
      assert count == InodeCount(sb);
      hide InodeCount;
      while index <= count
        invariant Kept() && Layout(Disk(), sb) && v == View(Disk(), sb)
        invariant 2 <= index && count == InodeCount(sb) == |v.inodes|
        invariant FreeInode(v, 2) == FreeInode(v, index)
        decreases count + 1 - index
      {
        ViewInode(Disk(), sb, index);
        var inode;
        ok, inode := ReadInode(sb, index);
        if !ok { return; }
        if inode.inode == 0 { return true, index; }
        index := index + 1;
      }
      ok := true;
    }

    /** The free-entry loop of `create_node`. */
    method FindFreeEntry(sb: Superblock) returns (ok: bool, found: nat)
      requires Valid() && Layout(Disk(), sb)
      modifies this, device`faults
      ensures Kept()
      ensures ok ==> found <= EntryCount(sb) && FreeEntry(View(Disk(), sb), 0) == if found == EntryCount(sb) then None
                                                                                  else Some(found)
      ensures old(device.Healthy()) ==> ok
    {
      hide Flat;
      hide Later;
      hide FailsNext;
      hide Layout;
      hide View;
      ghost var v := View(Disk(), sb);
      CountsFit(Disk(), sb);
      var count := sb.entrySectors * SECTOR / DENTRY_SIZE % B32;
      var offset := sb.entryLba * SECTOR;
      found := 0;
      assert count == EntryCount(sb);
      hide EntryCount;
      while found < count
        invariant Kept() && Layout(Disk(), sb) && v == View(Disk(), sb)
        invariant found <= count && count == EntryCount(sb) == |v.entries|
        invariant FreeEntry(v, 0) == FreeEntry(v, found)
      {
        var entry;
        ok, entry := ReadEntry(sb, offset, found);
        if !ok { return; }
        if entry.nameLength == 0 { return true, found; }
        found := found + 1;
      }
      ok := true;
    }

    /** The two writes of `create_node` and its rollback of the first when the second fails. */
    method WriteRecords(sb: Superblock, p: Place, kind: nat) returns (ok: bool)
      requires Valid() && LoadSuper(Disk()) == Some(sb) && Layout(Disk(), sb) && kind in {KIND_FILE, KIND_DIRECTORY}
      requires PlaceFits(sb, p)
      modifies this, device
      ensures Valid() && |Disk()| == |old(Disk())|
      ensures ok ==> Disk() == Written(old(Disk()), sb, p, kind)
      ensures PlaceConfined(old(Disk()), Disk(), sb, p)
      ensures old(device.Healthy()) ==> device.Healthy() && ok
    {
      hide Confined;
      hide PlaceConfined;
      hide Layout;
      hide View;
      hide LoadSuper;
      hide EncodeInode;
      hide EncodeDentry;
      hide Splice;
      hide InodeFits;
      hide DentryFits;
      hide NewEntry;
      hide NewInode;
      hide InodeCount;
      hide EntryCount;
      hide IsCString;
      hide Flat;
      hide SectorSized;
      CountsFit(Disk(), sb);
      TotalFits(Disk(), sb);
      RecordsFit(p, kind);
      ghost var before := Disk();
      WriteInode(before, sb, p.inode, NewInode(p.inode, kind));
      EntryInside(before, sb, p.entry);
      var inode := NewInode(p.inode, kind);
      ok := WriteInodeRecord(sb, p.inode, inode);
      ghost var first := Disk();
      InodeConfined(before, first, sb, p);
      if !ok { return; }
      var entry := NewEntry(p.parent, p.inode, kind, p.name);
      ok := WriteMetadata(sb, sb.entryLba * SECTOR + p.entry * DENTRY_SIZE, EncodeDentry(entry));
      ghost var second := Disk();
      EntryConfined(first, second, sb, p);
      PlaceConfinedTwice(before, first, second, sb, p);
      if !ok {
        LayoutStays(before, Disk(), sb);
        EmptyFits();
        var undone := WriteInodeRecord(sb, p.inode, Inode(0, 0, 0, 0, 0, 0, 0, 0, 0, 0, 0));
        InodeConfined(second, Disk(), sb, p);
        PlaceConfinedTwice(before, second, Disk(), sb, p);
      }
    }

    /** The writes of `create_node` and its final check, which on a healthy device never fails when
        the name was absent and the entry free. */
    method WriteNode(sb: Superblock, p: Place, kind: nat) returns (ok: bool)
      requires Valid() && LoadSuper(Disk()) == Some(sb) && Layout(Disk(), sb) && kind in {KIND_FILE, KIND_DIRECTORY}
      requires PlaceFits(sb, p)
      modifies this, device
      ensures Valid() && |Disk()| == |old(Disk())|
      ensures ok ==> Disk() == Written(old(Disk()), sb, p, kind)
      ensures PlaceConfined(old(Disk()), Disk(), sb, p)
      ensures old(device.Healthy()) ==> device.Healthy() && Disk() == Written(old(Disk()), sb, p, kind)
      ensures old(device.Healthy() && VacantPlace(View(Disk(), sb), p)) ==> ok
      ensures old(device.Healthy()) ==>
                var after := Add(old(View(Disk(), sb)), p.parent, p.name, kind, p.inode, p.entry);
                ok <==> Child(after, p.parent, p.name) == Some(p.inode)
    {
      ghost var before := Disk();
      WrittenView(before, sb, p, kind);
      if VacantPlace(View(before, sb), p) { AddedIsFound(View(before, sb), p, kind); }
      ViewInode(Written(before, sb, p, kind), sb, p.inode);
      hide Layout;
      hide View;
      hide LoadSuper;
      hide Child;
      hide InodeAt;
      hide Add;
      hide Flat;
      hide VacantPlace;
      hide Written;
      hide PlaceConfined;
      ok := WriteRecords(sb, p, kind);
      if !ok { return; }
      ok := VerifyNode(sb, p, kind);
    }

    /** The final check of `create_node`: the new node reads back and its name leads to it. */
    method VerifyNode(sb: Superblock, p: Place, kind: nat) returns (ok: bool)
      requires Valid() && Layout(Disk(), sb) && PlaceFits(sb, p)
      modifies this, device`faults
      ensures Kept()
      ensures old(device.Healthy()) ==>
                (ok <==> InodeAt(Disk(), sb, p.inode).inode == p.inode && InodeAt(Disk(), sb, p.inode).kind == kind
                         && Child(View(Disk(), sb), p.parent, p.name) == Some(p.inode))
    {
      hide Layout;
      hide View;
      hide InodeAt;
      hide Child;
      hide Flat;
      var inode, check;
      ok, inode := ReadInode(sb, p.inode);
      if !ok || inode.inode != p.inode || inode.kind != kind { return false; }
      ok, check := FindChild(sb, p.parent, p.name);
      if !ok || check != p.inode { return false; }
    }

    /** The parent check of `create_node`: the path must lead to a directory. */
    method FindParent(sb: Superblock, parentPath: Text) returns (ok: bool, parent: nat)
      requires Valid() && IsCString(parentPath) && Layout(Disk(), sb)
      modifies this, device`faults
      ensures Kept()
      ensures ok ==> ParentIs(View(Disk(), sb), parentPath, parent)
      ensures old(device.Healthy()) && !ok ==> forall n :: !ParentIs(View(Disk(), sb), parentPath, n)
      ensures forall n: nat :: ParentIs(View(Disk(), sb), parentPath, n) ==>
                var count := ParentReads(sb, View(Disk(), sb), parentPath, n);
                (ok <==> Clear(old(device.faults), count)) && device.faults == Remaining(old(device.faults), count)
    {
      hide Clear;
      hide Remaining;
      hide FaultFree;
      hide PathReads;
      hide Touched;
      hide Layout;
      hide View;
      hide FindPath;
      hide InodeAt;
      hide InodeCount;
      ghost var was, v := device.faults, View(Disk(), sb);
      if n: nat :| ParentIs(v, parentPath, n) {
        ClearSum(was, PathReads(sb, v, parentPath), Touched(InodeOffset(sb, n), INODE_SIZE));
      }
      ok, parent := WalkPath(sb, parentPath);
      if !ok { return; }
      var inode;
      if 1 <= parent <= InodeCount(sb) { ViewInode(Disk(), sb, parent); }
      ok, inode := ReadInode(sb, parent);
      if !ok { return; }
      ok := inode.kind == KIND_DIRECTORY;
    }

    /** The first checks of `create_node`: the path splits, its parent is a directory, and the name is not
        found there.  A name that is there passes just when a read of the duplicate check is the first
        transfer to fail. */
    method FindTarget(sb: Superblock, path: Text) returns (ok: bool, parent: nat, name: Text)
      requires Valid() && IsCString(path) && Layout(Disk(), sb)
      modifies this, device`faults
      ensures Kept()
      ensures ok ==> Target(View(Disk(), sb), path) == Some((parent, name)) && IsCString(name) && name != []
      ensures old(device.Healthy()) ==>
                (ok <==> Target(View(Disk(), sb), path).Some? && !NameTaken(View(Disk(), sb), path))
      ensures var f, v := old(device.faults), View(Disk(), sb);
              NameTaken(v, path) ==>
                var start, end := CheckStart(sb, v, path) - 1, CheckEnd(sb, v, path) - 1;
                (ok <==> Clear(f, start) && !Clear(f, end)) && (ok ==> device.faults == Remaining(f, end))
    {
      hide Clear;
      hide Remaining;
      hide FaultFree;
      hide ParentReads;
      hide LookupReads;
      hide ParentIs;
      hide Target;
      hide Layout;
      hide View;
      hide Split;
      hide FindPath;
      hide Child;
      hide IsCString;
      hide Flat;
      hide SectorSized;
      ghost var was, v := device.faults, View(Disk(), sb);
      parent, name := 0, [];
      TargetParent(v, path);
      var parentPath;
      ok, parentPath, name := SplitPath(path);
      if !ok { return; }
      SplitPieces(path);
      ok, parent := FindParent(sb, parentPath);
      if !ok { return; }
      ClearSum(was, ParentReads(sb, v, parentPath, parent), LookupReads(sb, v, parent, name));
      var present, other := FindChild(sb, parent, name);
      ok := !present;
    }

    /** The searches of `create_node` for a free inode and a free entry. */
    method FindSlots(sb: Superblock, parent: nat, name: Text) returns (ok: bool, place: Place)
      requires Valid() && Layout(Disk(), sb)
      modifies this, device`faults
      ensures Kept()
      ensures ok ==> place.parent == parent && place.name == name
                     && 1 <= place.inode <= InodeCount(sb) && place.entry < EntryCount(sb)
      ensures ok ==> FreeInode(View(Disk(), sb), 2) == Some(place.inode) && FreeEntry(View(Disk(), sb),
                                                                                      0) == Some(place.entry)
      ensures old(device.Healthy()) ==>
                (ok <==> FreeInode(View(Disk(), sb), 2).Some? && FreeEntry(View(Disk(), sb), 0).Some?)
    {
      hide FaultFree;
      hide Layout;
      hide View;
      hide FreeInode;
      hide FreeEntry;
      hide InodeCount;
      hide EntryCount;
      hide Flat;
      hide SectorSized;
      place := Place(parent, name, 0, 0);
      var newInode;
      ok, newInode := FindFreeInode(sb);
      if !ok { return; }
      if newInode == 0 { return false, place; }
      var slot;
      ok, slot := FindFreeEntry(sb);
      if !ok { return; }
      if slot == EntryCount(sb) { return false, place; }
      place := Place(parent, name, newInode, slot);
    }

    /** The checks and choices of `create_node`. */
    method FindPlace(sb: Superblock, path: Text) returns (ok: bool, place: Place)
      requires Valid() && IsCString(path) && Layout(Disk(), sb)
      modifies this, device`faults
      ensures Kept()
      ensures ok ==> PlaceFits(sb, place) && FreePlace(View(Disk(), sb), place)
      ensures old(device.Healthy()) ==> (ok <==> Choose(View(Disk(), sb), path).Some?)
      ensures old(device.Healthy()) && ok ==>
                Choose(View(Disk(), sb), path) == Some(place) && VacantPlace(View(Disk(), sb), place)
      ensures var f, v := old(device.faults), View(Disk(), sb);
              NameTaken(v, path) ==>
                var start, end := CheckStart(sb, v, path) - 1, CheckEnd(sb, v, path) - 1;
                && (ok ==> Clear(f, start) && !Clear(f, end))
                && (Clear(f, start) && !Clear(f, end) && FaultFree(Remaining(f, end)) ==>
                      device.Healthy() && Unchecked(v, path) == if ok then Some(place) else None)
    {
      hide Clear;
      hide Remaining;
      hide FaultFree;
      hide CheckStart;
      hide CheckEnd;
      hide Layout;
      hide View;
      hide Target;
      hide Child;
      hide FreeInode;
      hide FreeEntry;
      hide Choose;
      hide InodeCount;
      hide EntryCount;
      hide IsCString;
      hide Flat;
      hide SectorSized;
      place := Place(0, [], 0, 0);
      ChooseIs(View(Disk(), sb), path);
      var parent, name;
      ok, parent, name := FindTarget(sb, path);
      if !ok { return; }
      ok, place := FindSlots(sb, parent, name);
    }

    /** `create_node`.  On a healthy device it returns 0 exactly when `Create` finds a place, the disk
        then being the image with the node added, and leaves the disk unchanged when it returns -1.
        Whatever transfers fail, no byte changes outside one free inode record and one free entry.
        A name that is there is refused, with the disk unchanged, unless a read of the duplicate check is
        the first transfer to fail; if no later one fails then, the name is added all the same. */
    method CreateNode(path: Text, kind: nat) returns (ok: bool)
      requires Valid() && IsCString(path) && kind in {KIND_FILE, KIND_DIRECTORY}
      requires LoadSuper(Disk()).Some? ==> Layout(Disk(), LoadSuper(Disk()).value)
      modifies this, device
      ensures Valid() && |Disk()| == |old(Disk())|
      ensures old(device.Healthy()) ==>
                && device.Healthy()
                && (ok <==> old(Create(Disk(), path, kind)).Some?)
                && (ok ==> old(Create(Disk(), path, kind)) == Some(Disk()))
                && (!ok ==> Disk() == old(Disk()))
      ensures Disk() == old(Disk())
              || exists place :: LoadSuper(old(Disk())).Some?
                   && ChangedOnly(old(Disk()), Disk(), LoadSuper(old(Disk())).value, place)
      ensures LoadSuper(old(Disk())).Some? ==>
                var f, sb := old(device.faults), LoadSuper(old(Disk())).value;
                var v := View(old(Disk()), sb);
                NameTaken(v, path) ==>
                  && (!CheckFails(f, sb, v, path) ==> !ok && Disk() == old(Disk()))
                  && (CheckFails(f, sb, v, path) && FaultFree(Remaining(f, CheckEnd(sb, v, path))) ==>
                        Slipped(old(Disk()), sb, path, kind, Disk(), ok))
    {
      hide Clear;
      hide Remaining;
      hide FaultFree;
      hide NameTaken;
      hide Unchecked;
      hide CheckStart;
      hide CheckEnd;
      hide Layout;
      hide View;
      hide LoadSuper;
      hide Choose;
      hide Written;
      hide Child;
      hide Flat;
      hide FailsNext;
      hide Later;
      hide IsCString;
      hide SectorSized;
      hide Add;
      hide FreePlace;
      hide PlaceConfined;
      hide ChangedOnly;
      hide PlaceFits;
      hide VacantPlace;
      ghost var was := device.faults;
      var sb;
      ok, sb := ReadSuper();
      if LoadSuper(Disk()).Some? && NameTaken(View(Disk(), LoadSuper(Disk()).value), path) {
        CheckAfterSuper(LoadSuper(Disk()).value, View(Disk(), LoadSuper(Disk()).value), path, was);
      }
      if !ok { return; }
      var place;
      ok, place := FindPlace(sb, path);
      if !ok { return; }
      ok := WriteNode(sb, place, kind);
      OnlyThere(old(Disk()), Disk(), sb, place);
    }

    /** The shared opening of the read-only calls. */
    method FindRecord(path: Text) returns (ok: bool, sb: Superblock, number: nat, inode: Inode)
      requires Valid() && IsCString(path)
      requires LoadSuper(Disk()).Some? ==> Layout(Disk(), LoadSuper(Disk()).value)
      modifies this, device`faults
      ensures Kept()
      ensures ok ==> Find(Disk(), path) == Some((sb, number, inode))
      ensures old(device.Healthy()) ==> (ok <==> Find(Disk(), path).Some?)
    {
      hide Layout;
      hide View;
      hide LoadSuper;
      hide FindPath;
      hide InodeAt;
      hide InodeCount;
      hide Flat;
      number, inode := 0, DecodeInode(Zeros(INODE_SIZE));
      ok, sb := ReadSuper();
      if !ok { return; }
      ok, number := WalkPath(sb, path);
      if !ok { return; }
      ok, inode := ReadInode(sb, number);
    }

    /** `quanta_qfs2_stat`; the caller's fields are copied from the record it returns. */
    method StatPath(path: Text) returns (ok: bool, inode: Inode)
      requires Valid() && IsCString(path)
      requires LoadSuper(Disk()).Some? ==> Layout(Disk(), LoadSuper(Disk()).value)
      modifies this, device`faults
      ensures Kept()
      ensures ok ==> Stat(Disk(), path) == Some(inode)
      ensures old(device.Healthy()) ==> (ok <==> Stat(Disk(), path).Some?)
    {
      var sb, number;
      ok, sb, number, inode := FindRecord(path);
    }

    /** `quanta_qfs2_read`: the length and the bytes before the terminating zero, or -1. */
    method ReadPath(path: Text, capacity: nat) returns (r: int, output: seq<byte>)
      requires Valid() && IsCString(path)
      requires LoadSuper(Disk()).Some? ==> Layout(Disk(), LoadSuper(Disk()).value)
      modifies this, device`faults
      ensures Kept()
      ensures r == -1 || (ReadFile(Disk(), path, capacity) == Some(output) && r == |output|)
      ensures old(device.Healthy()) ==> (r >= 0 <==> ReadFile(Disk(), path, capacity).Some?)
    {
      hide Layout;
      hide LoadSuper;
      hide Find;
      hide Flat;
      hide Gather;
      output := [];
      if capacity == 0 { return -1, output; }
      var ok, sb, number, inode := FindRecord(path);
      if !ok || inode.kind != KIND_FILE || inode.size >= capacity { return -1, output; }
      if inode.size == 0 { return 0, output; }
      if inode.sectors == 0 || inode.firstSector < sb.entryLba
         || (inode.firstSector + inode.sectors) % B64 > sb.totalSectors {
        return -1, output;
      }
      ghost var img := Disk();
      var copied := 0;
      PrependNothing(Gather(img, inode.firstSector, inode.size, 0));
      while copied < inode.size
        invariant Kept() && img == Disk()
        invariant 0 <= copied <= inode.size && copied == |output|
        invariant Gather(img, inode.firstSector, inode.size, 0)
                  == Prepend(output, Gather(img, inode.firstSector, inode.size, copied))
        decreases inode.size - copied
      {
        var number := (inode.firstSector + copied / SECTOR) % B32;
        ok := ReadSector(number);
        GatherStep(img, inode.firstSector, inode.size, copied, output);
        if !ok { return -1, []; }
        var count := inode.size - copied;
        if count > SECTOR { count := SECTOR; }
        SliceOfSlice(img, number * SECTOR, (number + 1) * SECTOR, 0, count);
        assert sector[0..count] == sector[..count];
        output := output + sector[..count];
        copied := copied + count;
      }
      GatherEnd(img, inode.firstSector, inode.size, copied);
      assert output + [] == output;
      r := copied;
    }

    /** `quanta_qfs2_list`: the length and the text before the terminating zero, or -1. */
    method ListPath(path: Text, capacity: nat) returns (r: int, output: seq<byte>)
      requires Valid() && IsCString(path) && capacity < B32
      requires LoadSuper(Disk()).Some? ==> Layout(Disk(), LoadSuper(Disk()).value)
      modifies this, device`faults
      ensures Kept()
      ensures r == -1 || (List(Disk(), path, capacity) == Some(output) && r == |output|)
      ensures r >= 0 ==> Lists(Disk(), path, capacity, output)
      ensures r <= 0 || r + 1 < capacity
      ensures old(device.Healthy()) ==> (r >= 0 <==> List(Disk(), path, capacity).Some?)
    {
      hide LoadSuper;
      hide Lists;
      hide Find;
      hide Flat;
      hide Layout;
      hide View;
      hide EntryCount;
      hide Listed;
      hide IsCString;
      hide FaultFree;
      hide Remaining;
      hide Clear;
      hide EntryOffset;
      hide Touched;
      output := [];
      ListedNone();
      if capacity < 2 { return -1, output; }
      var ok, sb, number, inode := FindRecord(path);
      if !ok { return -1, output; }
      FindLayout(Disk(), path);
      NoWrap(Disk(), sb);
      if inode.kind != KIND_DIRECTORY { return -1, output; }
      ghost var entries := View(Disk(), sb).entries;
      var count := sb.entrySectors * SECTOR % B32 / DENTRY_SIZE;
      var offset := sb.entryLba * SECTOR % B32;
      var index := 0;
      while index < count
        invariant Kept() && Layout(Disk(), sb)
        invariant 0 <= index <= count == |entries| && entries == View(Disk(), sb).entries
        invariant ListFrom(entries, 0, number, [], capacity) == ListFrom(entries, index, number, output, capacity)
        invariant Listed(index, |output|)
      {
        var entry;
        ok, entry := ReadEntry(sb, offset, index);
        if !ok { return -1, []; }
        ListingFits(Disk(), sb, index, |output|, entry.nameLength);
        if !(entry.parent != number || entry.nameLength == 0 || entry.nameLength > NAME_MAX
             || (|output| + entry.nameLength + 2) % B32 >= capacity) {
          output := output + entry.name[..entry.nameLength] + [SPACE];
        }
        index := index + 1;
      }
      r := |output|;
      if r != 0 { output := output[..|output| - 1] + [NEWLINE]; }
      ListHolds(Disk(), path, capacity);
    }
  }

  /** The text of a listing after `index` entries. */
  predicate Listed(index: nat, used: nat) { used <= index * (NAME_MAX + 1) }

  lemma ListedNone()
    ensures Listed(0, 0)
  {
  }

  /** The entries of a table have too few characters for the 32-bit sums of a listing to wrap. */
  lemma ListingFits(img: Image, sb: Superblock, index: nat, used: nat, length: nat)
    requires Layout(img, sb) && index < EntryCount(sb) && Listed(index, used)
    ensures Listed(index + 1, used)
    ensures length <= NAME_MAX ==>
              (used + length + 2) % B32 == used + length + 2 && Listed(index + 1, used + length + 1)
  {
    assert sb.entrySectors * SECTOR < 0x80_0000 * 512;
    assert index < 0x80_0000 * 512 / 66;
    assert used < 0x80_0000 * 512 / 66 * 49;
  }

  lemma FindLayout(img: Image, path: Text)
    requires LoadSuper(img).Some? ==> Layout(img, LoadSuper(img).value)
    requires Find(img, path).Some?
    ensures Layout(img, Find(img, path).value.0)
  {
  }

  function Prepend(done: seq<byte>, rest: Option<seq<byte>>): Option<seq<byte>> {
    match rest
    case None => None
    case Some(r) => Some(done + r)
  }

  lemma PrependNothing(rest: Option<seq<byte>>)
    ensures Prepend([], rest) == rest
  {
    if rest.Some? { assert [] + rest.value == rest.value; }
  }

  lemma GatherEnd(img: Image, first: nat, size: nat, copied: nat)
    requires copied >= size
    ensures Gather(img, first, size, copied) == Some([])
  {
  }

  /** One turn of the sector loop of `quanta_qfs2_read`. */
  lemma GatherStep(img: Image, first: nat, size: nat, copied: nat, done: seq<byte>)
    requires copied < size
    ensures var s := (first + copied / SECTOR) % B32;
            var count := if size - copied > SECTOR then SECTOR else size - copied;
            Prepend(done, Gather(img, first, size, copied))
            == if (s + 1) * SECTOR > |img| then None
               else Prepend(done + img[s * SECTOR..s * SECTOR + count], Gather(img, first, size, copied + count))
  {
    var s := (first + copied / SECTOR) % B32;
    var count := if size - copied > SECTOR then SECTOR else size - copied;
    if (s + 1) * SECTOR <= |img| && Gather(img, first, size, copied + count).Some? {
      var chunk, rest := img[s * SECTOR..s * SECTOR + count], Gather(img, first, size, copied + count).value;
      assert done + (chunk + rest) == (done + chunk) + rest;
    }
  }

  /** Only bytes from `start` to `start + size - 1` differ. */
  ghost predicate Confined(before: Image, after: Image, start: nat, size: nat) {
    |after| == |before| && forall i :: 0 <= i < |before| && !(start <= i < start + size) ==> after[i] == before[i]
  }

  lemma ConfinedNot(img: Image, start: nat, size: nat)
    ensures Confined(img, img, start, size)
  {
  }

  lemma SoFarConfined(before: Image, now: Image, start: nat, data: seq<byte>, done: nat)
    requires done <= |data| && WrittenSoFar(before, now, start, data, done)
    ensures Confined(before, now, start, |data|)
  {
    if done > 0 { SpliceAt(before, start, data[..done]); }
  }

  /** Only bytes of the place's inode record and entry differ. */
  ghost predicate PlaceConfined(before: Image, after: Image, sb: Superblock, p: Place)
    requires p.inode >= 1
  {
    && |after| == |before|
    && forall i ::
         0 <= i < |before|
         && !(InodeOffset(sb, p.inode) <= i < InodeOffset(sb, p.inode) + INODE_SIZE)
         && !(EntryOffset(sb, p.entry) <= i < EntryOffset(sb, p.entry) + DENTRY_SIZE)
         ==> after[i] == before[i]
  }

  lemma InodeConfined(before: Image, after: Image, sb: Superblock, p: Place)
    requires p.inode >= 1 && Confined(before, after, InodeOffset(sb, p.inode), INODE_SIZE)
    ensures PlaceConfined(before, after, sb, p)
  {
  }

  lemma EntryConfined(before: Image, after: Image, sb: Superblock, p: Place)
    requires p.inode >= 1 && Confined(before, after, EntryOffset(sb, p.entry), DENTRY_SIZE)
    ensures PlaceConfined(before, after, sb, p)
  {
  }

  lemma PlaceConfinedTwice(a: Image, b: Image, c: Image, sb: Superblock, p: Place)
    requires p.inode >= 1 && PlaceConfined(a, b, sb, p) && PlaceConfined(b, c, sb, p)
    ensures PlaceConfined(a, c, sb, p)
  {
    hide InodeOffset;
    hide EntryOffset;
  }

  /** An unused inode record and an unused entry. */
  predicate FreePlace(v: Volume, p: Place) {
    && 1 <= p.inode <= |v.inodes| && p.entry < |v.entries|
    && v.inodes[p.inode - 1].inode == 0 && v.entries[p.entry].nameLength == 0
  }

  /** Only bytes of one inode record and one entry that were free differ. */
  ghost predicate ChangedOnly(before: Image, after: Image, sb: Superblock, p: Place) {
    Layout(before, sb) && FreePlace(View(before, sb), p) && PlaceConfined(before, after, sb, p)
  }

  lemma OnlyThere(before: Image, after: Image, sb: Superblock, p: Place)
    requires Layout(before, sb) && FreePlace(View(before, sb), p) && PlaceConfined(before, after, sb, p)
    ensures ChangedOnly(before, after, sb, p)
  {
  }

  lemma SliceElsewhere(before: Image, after: Image, sb: Superblock, p: Place, lo: nat, hi: nat)
    requires p.inode >= 1 && PlaceConfined(before, after, sb, p) && lo <= hi <= |before|
    requires hi <= InodeOffset(sb, p.inode) || InodeOffset(sb, p.inode) + INODE_SIZE <= lo
    requires hi <= EntryOffset(sb, p.entry) || EntryOffset(sb, p.entry) + DENTRY_SIZE <= lo
    ensures |after| == |before| && after[lo..hi] == before[lo..hi]
  {
    hide InodeOffset;
    hide EntryOffset;
    var a, b := after[lo..hi], before[lo..hi];
    forall i | 0 <= i < hi - lo
      ensures a[i] == b[i]
    {
      assert a[i] == after[lo + i] && b[i] == before[lo + i];
    }
  }

  /** Whatever became of a creation, the superblock, every other record and entry, and all file contents
      are what they were. */
  lemma OthersStand(before: Image, after: Image, sb: Superblock, p: Place)
    requires LoadSuper(before) == Some(sb) && ChangedOnly(before, after, sb, p)
    ensures LoadSuper(after) == Some(sb) && Layout(after, sb)
    ensures forall n :: 1 <= n <= InodeCount(sb) && n != p.inode ==> InodeAt(after, sb, n) == InodeAt(before, sb, n)
    ensures forall j: nat :: j < EntryCount(sb) && j != p.entry ==> EntryAt(after, sb, j) == EntryAt(before, sb, j)
    ensures forall lo, hi :: DataStart(sb) <= lo <= hi <= |before| ==> after[lo..hi] == before[lo..hi]
  {
    hide LoadSuper;
    hide View;
    hide PlaceConfined;
    hide InodeOffset;
    hide EntryOffset;
    hide InodeCount;
    hide EntryCount;
    hide DataStart;
    hide DecodeInode;
    hide DecodeDentry;
    assert |after| == |before| by { SliceElsewhere(before, after, sb, p, 0, 0); }
    LayoutStays(before, after, sb);
    InodeInside(before, sb, p.inode);
    EntryInside(before, sb, p.entry);
    hide Layout;
    SliceElsewhere(before, after, sb, p, SUPER_LBA * SECTOR, (SUPER_LBA + 1) * SECTOR);
    SameSuper(before, after);
    forall n | 1 <= n <= InodeCount(sb) && n != p.inode
      ensures InodeAt(after, sb, n) == InodeAt(before, sb, n)
    {
      InodeInside(before, sb, n);
      if n < p.inode { InodesApart(sb, n, p.inode); } else { InodesApart(sb, p.inode, n); }
      SliceElsewhere(before, after, sb, p, InodeOffset(sb, n), InodeOffset(sb, n) + INODE_SIZE);
    }
    forall j: nat | j < EntryCount(sb) && j != p.entry
      ensures EntryAt(after, sb, j) == EntryAt(before, sb, j)
    {
      EntryInside(before, sb, j);
      if j < p.entry { EntriesApart(sb, j, p.entry); } else { EntriesApart(sb, p.entry, j); }
      SliceElsewhere(before, after, sb, p, EntryOffset(sb, j), EntryOffset(sb, j) + DENTRY_SIZE);
    }
    forall lo, hi | DataStart(sb) <= lo <= hi <= |before|
      ensures after[lo..hi] == before[lo..hi]
    {
      BehindTables(sb);
      SliceElsewhere(before, after, sb, p, lo, hi);
    }
  }

  lemma BehindTables(sb: Superblock)
    ensures sb.entryLba * SECTOR <= DataStart(sb)
  {
  }

  /** The name is absent and the entry free. */
  predicate VacantPlace(v: Volume, p: Place) {
    p.entry < |v.entries| && v.entries[p.entry].nameLength == 0 && Child(v, p.parent, p.name) == None
  }

  predicate PlaceFits(sb: Superblock, p: Place) {
    && 1 <= p.parent <= InodeCount(sb) && 1 <= p.inode <= InodeCount(sb) && p.entry < EntryCount(sb)
    && 0 < |p.name| <= NAME_MAX && IsCString(p.name)
  }

  /** The checks and the choice of `create_node`, one after the other. */
  lemma ChooseIs(v: Volume, path: Text)
    ensures Choose(v, path) == if NameTaken(v, path) then None else Unchecked(v, path)
    ensures Choose(v, path).Some? ==> VacantPlace(v, Choose(v, path).value)
  {
    hide Split;
    hide FindPath;
    hide Child;
  }

  /** The schedule of `create_node` after the superblock has been read. */
  lemma CheckAfterSuper(sb: Superblock, v: Volume, path: Text, was: seq<bool>)
    requires NameTaken(v, path)
    ensures var start, end := CheckStart(sb, v, path), CheckEnd(sb, v, path);
            && start > 0 && end > 0
            && (Clear(was, start) <==> !FailsNext(was) && Clear(Later(was), start - 1))
            && (Clear(was, end) <==> !FailsNext(was) && Clear(Later(was), end - 1))
            && (!FailsNext(was) ==> Remaining(was, end) == Remaining(Later(was), end - 1))
  {
  }

  /** `Split` in terms of the positions that `split_path` computes. */
  lemma SplitIs(path: Text)
    ensures var d := IndexOf(path, COLON);
            var length := Trimmed(path, d + 1, |path|);
            var cut := LastCut(path, d + 1, length);
            Split(path) ==
            if d == |path| || !NoSlashes(path) || length <= d + 1 || length - cut - 1 >= 49 || cut >= PATH_MAX then None
            else if cut <= d then Some((path[..d + 1], path[d + 1..length]))
            else Some((path[..cut], path[cut + 1..length]))
  {
    hide Trimmed;
    hide LastCut;
    hide IndexOf;
    hide NoSlashes;
  }

  /** The pieces of a split path hold no zero byte, and the name is not empty. */
  lemma SplitPieces(path: Text)
    requires IsCString(path) && Split(path).Some?
    ensures IsCString(Split(path).value.0) && IsCString(Split(path).value.1)
    ensures 0 < |Split(path).value.1| <= NAME_MAX
  {
    var length, cut := SplitParts(path, IndexOf(path, COLON) + 1);
  }

  lemma EmptyFits()
    ensures InodeFits(Inode(0, 0, 0, 0, 0, 0, 0, 0, 0, 0, 0))
  {
  }

  lemma LayoutStays(a: Image, b: Image, sb: Superblock)
    requires Layout(a, sb) && |a| == |b|
    ensures Layout(b, sb)
  {
  }

  /** A name that was absent is found after its entry is filled in, whatever else the table holds. */
  lemma AddedIsFound(v: Volume, p: Place, kind: nat)
    requires 1 <= p.inode <= |v.inodes| && 0 < |p.name| <= NAME_MAX && VacantPlace(v, p)
    ensures var w := Add(v, p.parent, p.name, kind, p.inode, p.entry);
            Child(w, p.parent, p.name) == Some(p.inode) && w.inodes[p.inode - 1] == NewInode(p.inode, kind)
  {
    var w := Add(v, p.parent, p.name, kind, p.inode, p.entry);
    FindFromMisses(v.entries, 0, p.parent, p.name);
    FindFromHits(w.entries, 0, p.parent, p.name, p.entry);
  }

  /** The 32-bit products of `find_child` do not wrap. */
  lemma NoWrap(img: Image, sb: Superblock)
    requires Layout(img, sb)
    ensures sb.entrySectors * SECTOR % B32 / DENTRY_SIZE == EntryCount(sb)
    ensures sb.entryLba * SECTOR % B32 == sb.entryLba * SECTOR
  {
  }

  /** What `find_path` returns when the walk has reached `from` and `rest` is left to parse. */
  function Onward(v: Volume, from: nat, rest: Text): Option<nat> {
    match Components(rest)
    case None => None
    case Some(c) => Resolve(v, from, c)
  }

  /** `component` is the next one, and `index` the end of it. */
  predicate Scanned(path: Text, start: nat, component: Text, index: nat) {
    && start <= index <= |path|
    && component == path[start..index] && |component| <= NAME_MAX && Clean(component) && IsCString(component)
    && (forall i :: start <= i < index ==> path[i] != SEPARATOR)
    && (index < |path| ==> path[index] == SEPARATOR)
  }

  /** The transfers of the walk that is left. */
  function OnwardReads(sb: Superblock, v: Volume, from: nat, rest: Text): nat {
    match Components(rest)
    case None => 0
    case Some(c) => ResolveReads(sb, v, from, c)
  }

  lemma FindPathOnward(sb: Superblock, v: Volume, path: Text)
    ensures var d := IndexOf(path, COLON);
            if d < |path| && KnownDrive(path[..d]) then
              FindPath(v, path) == Onward(v, ROOT_INODE, path[d + 1..])
              && PathReads(sb, v, path) == OnwardReads(sb, v, ROOT_INODE, path[d + 1..])
            else FindPath(v, path) == None
  {
    hide IndexOf;
    hide KnownDrive;
    hide Components;
    hide Resolve;
    hide ResolveReads;
  }

  lemma OnwardEnd(sb: Superblock, v: Volume, from: nat)
    ensures Onward(v, from, []) == Some(from) && OnwardReads(sb, v, from, []) == 0
  {
  }

  lemma OnwardNone(v: Volume, from: nat, rest: Text)
    requires Components(rest) == None
    ensures Onward(v, from, rest) == None
  {
  }

  lemma ComponentForbidden(path: Text, start: nat, index: nat)
    requires start <= index < |path| && Forbidden(path[index])
    requires forall i :: start <= i < index ==> path[i] != SEPARATOR
    ensures Components(path[start..]) == None
  {
    var s := path[start..];
    var n := IndexOf(s, SEPARATOR);
    assert s[index - start] == path[index];
    forall i | 0 <= i < index - start ensures s[i] != SEPARATOR { assert s[i] == path[start + i]; }
    assert n > index - start;
    assert s[..n][index - start] == path[index];
  }

  lemma ComponentTooLong(path: Text, start: nat, index: nat)
    requires start <= index < |path| && index - start >= NAME_MAX && path[index] != SEPARATOR
    requires forall i :: start <= i < index ==> path[i] != SEPARATOR
    ensures Components(path[start..]) == None
  {
    var s := path[start..];
    forall i | 0 <= i <= index - start ensures s[i] != SEPARATOR { assert s[i] == path[start + i]; }
    assert IndexOf(s, SEPARATOR) > NAME_MAX;
  }

  lemma ComponentsAre(s: Text, n: nat, rest: Text)
    requires s != [] && n == IndexOf(s, SEPARATOR) && rest == if n < |s| then s[n + 1..] else []
    ensures Components(s) ==
            if n > NAME_MAX || !Clean(s[..n]) || (n + 1 < |s| && s[n + 1] == SEPARATOR) || Components(rest) == None
            then None
            else if n == 0 then Components(rest)
            else Some([s[..n]] + Components(rest).value)
  {
    hide IndexOf;
    hide Clean;
    if n > NAME_MAX || !Clean(s[..n]) || (n + 1 < |s| && s[n + 1] == SEPARATOR) { return; }
    match Components(rest)
    case None =>
    case Some(_) =>
  }

  /** One turn of the component loop, on the text. */
  lemma ComponentsTurn(path: Text, start: nat, component: Text, index: nat)
    requires start < |path| && Scanned(path, start, component, index)
    ensures var next := if index < |path| then index + 1 else index;
            Components(path[start..])
            == if (index < |path| && next < |path| && path[next] == SEPARATOR) || Components(path[next..]) == None
               then None
               else if component == [] then Components(path[next..])
               else Some([component] + Components(path[next..]).value)
  {
    hide Components;
    hide IndexOf;
    hide Clean;
    hide IsCString;
    var s := path[start..];
    var next := if index < |path| then index + 1 else index;
    IndexIs(s, SEPARATOR, index - start);
    assert path[next..] == if index < |path| then s[index - start + 1..] else [];
    ComponentsAre(s, index - start, path[next..]);
    assert s[..index - start] == component;
    assert next < |path| && index < |path| ==> s[index - start + 1] == path[next];
  }

  /** One turn of the component loop: where it leads, and what it reads. */
  lemma OnwardStep(sb: Superblock, v: Volume, from: nat, path: Text, start: nat, component: Text, index: nat)
    requires start < |path| && Scanned(path, start, component, index)
    ensures var next := if index < |path| then index + 1 else index;
            Onward(v, from, path[start..])
            == if index < |path| && next < |path| && path[next] == SEPARATOR then None
               else if component == [] then Onward(v, from, path[next..])
               else match Child(v, from, component)
                    case None => None
                    case Some(c) => Onward(v, c, path[next..])
    ensures var next := if index < |path| then index + 1 else index;
            Onward(v, from, path[start..]).Some? ==>
              OnwardReads(sb, v, from, path[start..])
              == if component == [] then OnwardReads(sb, v, from, path[next..])
                 else LookupReads(sb, v, from, component)
                      + OnwardReads(sb, v, Child(v, from, component).value, path[next..])
  {
    hide Components;
    hide Child;
    hide LookupReads;
    hide Clean;
    hide IsCString;
    ComponentsTurn(path, start, component, index);
    var next := if index < |path| then index + 1 else index;
    match Components(path[next..])
    case None =>
    case Some(c) => assert ([component] + c)[1..] == c;
  }

  /** The first `done` bytes of `data` have been written at `start`. */
  ghost predicate WrittenSoFar(before: Image, now: Image, start: nat, data: seq<byte>, done: nat)
    requires done <= |data|
  {
    if done == 0 then now == before else start + done <= |before| && now == Splice(before, start, data[..done])
  }

  lemma WrittenEnds(before: Image, start: nat, data: seq<byte>)
    requires data != []
    ensures WrittenSoFar(before, before, start, data, 0)
    ensures forall now :: WrittenSoFar(before, now, start, data, |data|) ==>
              start + |data| <= |before| && now == Splice(before, start, data)
  {
    assert data[..|data|] == data;
  }

  lemma SectorOf(offset: nat, total: nat)
    requires offset < total * SECTOR && total < B32
    ensures offset / SECTOR % B32 == offset / SECTOR
    ensures offset / SECTOR * SECTOR + offset % SECTOR == offset
  {
  }

  lemma OnDisk(sectors: seq<seq<byte>>, offset: nat)
    requires SectorSized(sectors)
    ensures (offset / SECTOR + 1) * SECTOR <= |Flat(sectors)| <==> offset < |Flat(sectors)|
  {
    hide Flat;
    hide SectorSized;
    WholeSectors(|sectors|, offset);
  }

  lemma WholeSectors(count: nat, offset: nat)
    ensures (offset / SECTOR + 1) * SECTOR <= count * SECTOR <==> offset < count * SECTOR
  {
  }

  lemma SliceJoin(s: seq<byte>, a: nat, b: nat, c: nat)
    requires a <= b <= c <= |s|
    ensures s[a..b] + s[b..c] == s[a..c]
  {
    var x, y := s[a..b] + s[b..c], s[a..c];
    forall i | 0 <= i < |x| ensures x[i] == y[i] {}
  }

  /** The bytes from `start` up to `offset` have been read. */
  predicate ReadSoFar(disk: Image, start: nat, offset: nat, out: seq<byte>) {
    start <= offset && if offset == start then out == [] else offset <= |disk| && out == disk[start..offset]
  }

  lemma ReadNothing(disk: Image, start: nat)
    ensures ReadSoFar(disk, start, start, [])
  {
  }

  lemma ReadAll(disk: Image, start: nat, size: nat, out: seq<byte>)
    requires ReadSoFar(disk, start, start + size, out) && size > 0
    ensures start + size <= |disk| && out == disk[start..start + size]
  {
  }

  lemma ChunkRead(disk: Image, start: nat, offset: nat, out: seq<byte>, chunk: seq<byte>)
    requires ReadSoFar(disk, start, offset, out) && chunk != []
    requires offset + |chunk| <= |disk| && chunk == disk[offset..offset + |chunk|]
    ensures ReadSoFar(disk, start, offset + |chunk|, out + chunk)
  {
    SliceJoin(disk, start, offset, offset + |chunk|);
    assert offset == start ==> disk[start..offset] == [];
  }

  lemma ChunkWrite(before: Image, disk: Image, start: nat, data: seq<byte>, done: nat, count: nat, number: nat,
                   byteIndex: nat)
    requires done + count <= |data| && count > 0 && |disk| == |before|
    requires WrittenSoFar(before, disk, start, data, done)
    requires (number + 1) * SECTOR <= |disk| && byteIndex + count <= SECTOR
             && number * SECTOR + byteIndex == start + done
    ensures WrittenSoFar(before,
                         Splice(disk, number * SECTOR,
                                Splice(disk[number * SECTOR..(number + 1) * SECTOR], byteIndex,
                                       data[done..done + count])),
                         start, data, done + count)
  {
    hide Splice;
    var chunk := data[done..done + count];
    SectorSplice(disk, number, byteIndex, chunk);
    assert data[..done] + chunk == data[..done + count];
    if done > 0 { SpliceAppend(before, start, data[..done], chunk); }
  }

  /** Rewriting a sector with part of it replaced replaces that part of the disk. */
  lemma SectorSplice(disk: Image, number: nat, byteIndex: nat, chunk: seq<byte>)
    requires (number + 1) * SECTOR <= |disk| && byteIndex + |chunk| <= SECTOR
    ensures number * SECTOR + byteIndex + |chunk| <= |disk|
    ensures Splice(disk, number * SECTOR, Splice(disk[number * SECTOR..(number + 1) * SECTOR], byteIndex, chunk))
            == Splice(disk, number * SECTOR + byteIndex, chunk)
  {
    var base := number * SECTOR;
    var whole := disk[base..base + SECTOR];
    assert disk[..base + byteIndex] == disk[..base] + whole[..byteIndex];
    assert disk[base + byteIndex + |chunk|..] == whole[byteIndex + |chunk|..] + disk[base + SECTOR..];
  }

  // ---------------------------------------------------------------------------------------------
  // A read fault taken for an absent name
  // ---------------------------------------------------------------------------------------------

  /** A name added although it is there stands in the table twice. */
  lemma TwinEntries(v: Volume, parent: nat, name: Name, kind: nat, n: nat, j: nat) returns (k: nat)
    requires 1 <= n <= |v.inodes| && j < |v.entries| && v.entries[j].nameLength == 0
    requires |name| <= NAME_MAX && Child(v, parent, name).Some?
    ensures k < |v.entries| && Names(v.entries[k], parent, name) && Names(NewEntry(parent, n, kind, name), parent, name)
    ensures var w := Add(v, parent, name, kind, n, j);
            && k < |w.entries| && k != j && Names(w.entries[k], parent, name) && Names(w.entries[j], parent, name)
            && !WellFormed(w)
  {
    k := FindFromFound(v.entries, 0, parent, name);
    var w := Add(v, parent, name, kind, n, j);
    NewEntryName(parent, n, kind, name);
    assert Clash(w.entries[k], w.entries[j]) && Clash(w.entries[j], w.entries[k]);
  }

  /** Of the two entries the first is found: the new one only when it stands before the old one. */
  lemma TwinFound(v: Volume, parent: nat, name: Name, kind: nat, n: nat, j: nat, k: nat)
    requires WellFormed(v) && 1 <= n <= |v.inodes| && v.inodes[n - 1].inode == 0 && |name| <= NAME_MAX
    requires j < |v.entries| && k < |v.entries| && j != k && Names(v.entries[k], parent, name)
    requires Names(NewEntry(parent, n, kind, name), parent, name)
    ensures Child(Add(v, parent, name, kind, n, j), parent, name) == Some(n) <==> j < k
  {
    hide FindFrom;
    hide SearchEnd;
    hide TreeName;
    hide Reached;
    var w := Add(v, parent, name, kind, n, j);
    SearchEndIs(w.entries, 0, parent, name);
    var first := SearchEnd(w.entries, 0, parent, name) - 1;
    assert EntryOk(v, k);
    assert w.entries[k] == v.entries[k] && w.entries[k].inode != n;
    assert Names(w.entries[j], parent, name) && Names(w.entries[k], parent, name);
    forall i | 0 <= i < |v.entries| && i != k
      ensures !Names(v.entries[i], parent, name)
    {
      assert !Clash(v.entries[if i < k then i else k], v.entries[if i < k then k else i]);
    }
  }

  /** Creating a name that is there while one read of the duplicate check fails, any of them, and no other
      transfer does: the table holds the name twice afterwards, and `create_node` reports success just
      when the new entry stands before the old one. */
  method AddTwin(fs: Qfs2, sb: Superblock, path: Text, kind: nat, ghost i: nat)
    returns (ok: bool, ghost j: nat, ghost k: nat)
    requires fs.Valid() && Sound(fs.Disk(), sb) && IsCString(path) && kind in {KIND_FILE, KIND_DIRECTORY}
    requires NameTaken(View(fs.Disk(), sb), path) && Unchecked(View(fs.Disk(), sb), path).Some?
    requires CheckStart(sb, View(fs.Disk(), sb), path) <= i < CheckEnd(sb, View(fs.Disk(), sb), path)
    requires Lone(fs.device.faults, i)
    modifies fs, fs.device
    ensures fs.Valid() && Layout(fs.Disk(), sb)
    ensures var v, w := View(old(fs.Disk()), sb), View(fs.Disk(), sb);
            var p := Unchecked(v, path).value;
            var (parent, name) := Target(v, path).value;
            && w == Add(v, parent, name, kind, p.inode, p.entry)
            && j < |w.entries| && k < |w.entries| && j != k
            && Names(w.entries[j], parent, name) && Names(w.entries[k], parent, name)
            && !WellFormed(w)
            && (ok <==> j < k)
  {
    hide Layout;
    hide View;
    hide LoadSuper;
    hide Written;
    hide Add;
    hide Names;
    hide WellFormed;
    hide ExtentsOk;
    hide Unchecked;
    hide CheckStart;
    hide CheckEnd;
    hide Clear;
    hide Remaining;
    hide FaultFree;
    hide Lone;
    hide Child;
    ghost var before, v := fs.Disk(), View(fs.Disk(), sb);
    ghost var p := Unchecked(v, path).value;
    LoneFault(fs.device.faults, CheckStart(sb, v, path), CheckEnd(sb, v, path));
    WrittenView(before, sb, p, kind);
    k := TwinEntries(v, p.parent, p.name, kind, p.inode, p.entry);
    j := p.entry;
    TwinFound(v, p.parent, p.name, kind, p.inode, j, k);
    ok := fs.CreateNode(path, kind);
  }
}
