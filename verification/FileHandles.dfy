/** The open files of a task: the file branches of `quanta_task_syscall` in kernel/core/task.c over the
    QFS v2 driver. */
module FileHandles {
  import opened Bits
  import opened Bytes
  import opened Options
  import opened Device
  import opened Qfs2Format
  import opened Qfs2Volume
  import opened Qfs2Path
  import opened Qfs2Image
  import opened Qfs2Query
  import opened Qfs2Driver

  const TASK_MAX_FILE_HANDLES: nat := 16
  const MAX_BUFFER: nat := 256
  const OPEN_FLAGS: nat := 32

  datatype Status = Ok | Invalid | Denied | Limit | State

  datatype TaskFile = TaskFile(active: bool, flags: nat, offset: nat, path: Text)

  predicate WantsCreate(flags: nat) { flags / 4 % 2 == 1 }

  predicate WantsDirectory(flags: nat) { flags / 16 % 2 == 1 }

  /** The flags are bits: 2 asks for the file to be created, 4 for a directory, and no bit above is allowed. */
  lemma FlagsAre(flags: nat)
    ensures WantsCreate(flags) <==> Bit(flags, 2)
    ensures WantsDirectory(flags) <==> Bit(flags, 4)
    ensures flags < OPEN_FLAGS <==> Below(flags, 5)
  {
    assert Bit(flags, 2) == Bit(flags / 2, 1) == Bit(flags / 2 / 2, 0);
    assert flags / 2 / 2 == flags / 4;
    BitFour(flags, 0);
    NoHighBits(flags);
  }

  /** No bit from `k` on is set. */
  ghost predicate Below(flags: nat, k: nat) { forall i: nat :: i >= k ==> !Bit(flags, i) }

  lemma NoHighBits(flags: nat)
    ensures flags < OPEN_FLAGS <==> Below(flags, 5)
  {
    assert Shl1(5) == 32;
    if flags < OPEN_FLAGS {
      forall i: nat | i >= 5
        ensures !Bit(flags, i)
      {
        HighBit(flags, 5, i);
      }
    } else {
      var i := HighestBit(flags, 5);
      assert !Below(flags, 5);
    }
  }

  lemma {:induction false} HighestBit(w: nat, k: nat) returns (i: nat)
    requires w >= Shl1(k)
    ensures i >= k && Bit(w, i)
    decreases w
  {
    if k > 0 {
      ShlZero(1, k - 1);
      i := HighestBit(w / 2, k - 1);
      i := i + 1;
    } else if w == 1 {
      i := 0;
    } else {
      i := HighestBit(w / 2, 0);
      i := i + 1;
    }
  }

  /** An image with a mounted, sound volume. */
  ghost predicate Mounted(img: Image): (mounted: bool)
    ensures mounted ==> LoadSuper(img).Some? && Layout(img, LoadSuper(img).value)
  {
    LoadSuper(img).Some? && Sound(img, LoadSuper(img).value)
  }

  function FileContent(img: Image, path: Text): Option<seq<byte>>
    requires LoadSuper(img).Some? ==> Layout(img, LoadSuper(img).value)
  {
    ReadFile(img, path, MAX_BUFFER)
  }

  /** What one read of at most `length` bytes at `offset` returns. */
  function Chunk(content: Option<seq<byte>>, offset: nat, length: nat): seq<byte> {
    if content == None || offset >= |content.value| then []
    else if |content.value| - offset > length then content.value[offset..offset + length]
    else content.value[offset..]
  }

  /** The chunks of successive reads. */
  function Chunks(content: Option<seq<byte>>, offset: nat, lengths: seq<nat>): seq<seq<byte>>
    decreases |lengths|
  {
    if lengths == [] then []
    else
      var first := Chunk(content, offset, lengths[0]);
      [first] + Chunks(content, offset + |first|, lengths[1..])
  }

  function Concat(chunks: seq<seq<byte>>): seq<byte> {
    if chunks == [] then [] else chunks[0] + Concat(chunks[1..])
  }

  /** The chunks of any successive reads concatenate to a stretch of the file from where they started;
      once a read returns nothing they have reached its end; and that happens within as many reads as
      there are bytes left, plus one. */
  lemma {:induction false} ChunksConcatenate(content: seq<byte>, offset: nat, lengths: seq<nat>)
    requires offset <= |content| && forall i :: 0 <= i < |lengths| ==> lengths[i] > 0
    ensures |Chunks(Some(content), offset, lengths)| == |lengths|
    ensures Concat(Chunks(Some(content), offset, lengths)) <= content[offset..]
    ensures (exists i :: 0 <= i < |lengths| && Chunks(Some(content), offset, lengths)[i] == []) ==>
              Concat(Chunks(Some(content), offset, lengths)) == content[offset..]
    ensures |lengths| > |content| - offset ==>
              exists i :: 0 <= i < |lengths| && Chunks(Some(content), offset, lengths)[i] == []
    decreases |lengths|
  {
    if lengths != [] {
      var first := Chunk(Some(content), offset, lengths[0]);
      var all := Chunks(Some(content), offset, lengths);
      var rest := Chunks(Some(content), offset + |first|, lengths[1..]);
      ChunksConcatenate(content, offset + |first|, lengths[1..]);
      assert all == [first] + rest && all[1..] == rest;
      assert content[offset..] == first + content[offset + |first|..];
      if i :| 0 <= i < |rest| && rest[i] == [] {
        assert all[i + 1] == [];
      }
      if first == [] {
        assert offset == |content| && content[offset..] == [];
        assert all[0] == [];
      }
      if i :| 0 <= i < |lengths| && all[i] == [] {
        if i > 0 { assert rest[i - 1] == []; }
      }
    }
  }

  /** A chunk continues what was delivered. */
  lemma ChunkContinues(content: Option<seq<byte>>, bytes: seq<byte>, length: nat)
    requires bytes != [] ==> content.Some? && bytes <= content.value
    ensures var chunk := Chunk(content, |bytes|, length);
            && (chunk != [] ==> content.Some? && bytes + chunk <= content.value)
            && (length > 0 && chunk == [] && content.Some? ==> bytes == content.value)
  {
  }

  lemma MountedSound(img: Image)
    requires Mounted(img)
    ensures Sound(img, LoadSuper(img).value)
  {
  }

  lemma SoundMounted(img: Image, sb: Superblock)
    requires Sound(img, sb)
    ensures Mounted(img) && LoadSuper(img) == Some(sb)
  {
    hide LoadSuper;
    hide WellFormed;
    hide ExtentsOk;
    hide Layout;
    hide View;
  }

  /** A readable file whose node and bytes are the same reads the same. */
  lemma SameContent(img: Image, b: Image, sb: Superblock, at: seq<Name>, other: Text)
    requires Sound(img, sb) && Sound(b, sb)
    requires Lookup(img, sb, at) == None && forall p :: p != at ==> Lookup(b, sb, p) == Lookup(img, sb, p)
    ensures Mounted(img) && Mounted(b)
    ensures FileContent(img, other).Some? ==> FileContent(b, other) == FileContent(img, other)
  {
    hide Lookup;
    hide Mounted;
    hide Sound;
    hide ReadFile;
    hide Parse;
    SoundMounted(img, sb);
    SoundMounted(b, sb);
    SoundLayout(img, sb);
    SoundLayout(b, sb);
    ReadIsContents(img, sb, other, MAX_BUFFER);
    ReadIsContents(b, sb, other, MAX_BUFFER);
  }

  lemma SoundLayout(img: Image, sb: Superblock)
    requires Sound(img, sb)
    ensures Layout(img, sb) && LoadSuper(img) == Some(sb)
  {
    hide LoadSuper;
    hide Layout;
    hide WellFormed;
    hide ExtentsOk;
    hide View;
  }

  lemma NewNodeStats(b: Image, sb: Superblock, path: Text, p: seq<Name>, n: nat, kind: nat)
    requires Sound(b, sb) && Parse(path) == Some(p) && Layout(b, sb)
             && Lookup(b, sb, p).Some? && IsNewNode(Lookup(b, sb, p).value.record, n, kind)
    ensures LoadSuper(b).Some? && Layout(b, LoadSuper(b).value)
    ensures Stat(b, path).Some? && IsNewNode(Stat(b, path).value, n, kind)
  {
    hide Lookup;
    hide Find;
    hide Parse;
    hide Layout;
    hide LoadSuper;
    hide NodeOf;
    hide ExtentOk;
    hide WellFormed;
    hide ExtentsOk;
    hide View;
    hide Resolve;
    hide IsNewNode;
    FindIsLookup(b, sb, path);
  }

  /** Creating a node leaves every readable file as it was, and stat reports an empty node with the rights of a
      new one at the path. */
  lemma CreateKeepsContent(img: Image, drive: Text, path: Text, kind: nat, other: Text)
    requires Mounted(img) && KnownDrive(drive) && IsCString(path) && PathValid(drive, path)
    requires kind in {KIND_FILE, KIND_DIRECTORY} && Create(img, path, kind).Some?
    ensures Mounted(Create(img, path, kind).value)
    ensures FileContent(img, other).Some? ==>
              FileContent(Create(img, path, kind).value, other) == FileContent(img, other)
    ensures Stat(Create(img, path, kind).value, path).Some?
            && var r := Stat(Create(img, path, kind).value, path).value; IsNewNode(r, r.inode, kind)
  {
    hide Create;
    hide ReadFile;
    hide Stat;
    hide Lookup;
    hide Parse;
    hide LoadSuper;
    hide Layout;
    hide Mounted;
    hide Sound;
    hide PathValid;
    hide IsCString;
    MountedSound(img);
    var sb := LoadSuper(img).value;
    SoundLayout(img, sb);
    var b := Create(img, path, kind).value;
    var at, name, n, j := CreateOk(img, sb, drive, path, kind);
    SoundLayout(b, sb);
    SameContent(img, b, sb, at + [name], other);
    NewNodeStats(b, sb, path, at + [name], n, kind);
  }

  /** The image after the look-up of FS_OPEN, which may create the file, or `None` if it is refused. */
  ghost function Admitted(img: Image, drive: Text, readOnly: bool, path: Text, flags: nat): Option<Image>
    requires Mounted(img)
  {
    if !PathValid(drive, path) || flags >= OPEN_FLAGS then None
    else if Stat(img, path).Some? then Some(img)
    else if !WantsCreate(flags) || readOnly || WantsDirectory(flags) then None
    else Create(img, path, KIND_FILE)
  }

  ghost predicate IsDirectory(img: Image, path: Text) {
    Mounted(img) && Stat(img, path).Some? && Stat(img, path).value.kind == KIND_DIRECTORY
  }

  /** FS_OPEN gets as far as looking for a free handle. */
  ghost predicate Openable(img: Image, drive: Text, readOnly: bool, path: Text, flags: nat)
    requires Mounted(img)
  {
    var image := Admitted(img, drive, readOnly, path, flags);
    image.Some? && (WantsDirectory(flags) ==> IsDirectory(image.value, path))
  }

  function Repeated(c: byte, n: nat): Text { seq(n, _ => c) }

  function LongestNames(): Text { Repeated(0x61, 44) + [SEPARATOR] + Repeated(0x62, 44) }

  /** 44 times `a` below the root, and 44 times `b` in there: two legal names, 95 characters in all. */
  function LongestPath(): Text { PRIME + [COLON] + LongestNames() }

  lemma LongestNamesAre()
    ensures |LongestNames()| == 89
    ensures forall i :: 0 <= i < 89 ==>
              LongestNames()[i] == if i < 44 then 0x61 else if i == 44 then SEPARATOR else 0x62
  {
  }

  lemma LongestPathParses()
    ensures Parse(LongestPath()) == Some([Repeated(0x61, 44), Repeated(0x62, 44)])
  {
    hide Parse;
    hide Components;
    var a, b := Repeated(0x61, 44), Repeated(0x62, 44);
    ParseDrive(PRIME, LongestNames());
    ComponentsOne(b);
    ComponentsStep(a, b);
    assert [a] + [b] == [a, b];
  }

  lemma LongestPathIs()
    ensures |LongestPath()| == PATH_MAX - 1 && IsCString(LongestPath()) && PathValid(PRIME, LongestPath())
  {
    var rest, path := LongestNames(), LongestPath();
    LongestNamesAre();
    hide LongestNames;
    assert path[..|PRIME| + 1] == PRIME + [COLON];
    assert path[|PRIME| + 1..] == rest;
    forall i | 0 <= i < |path|
      ensures path[i] != 0
    {
      if i > |PRIME| { ConcatAt(PRIME + [COLON], rest, i); }
    }
  }

  /** FS_OPEN looks up, and with the create flag creates, the longest path; but its 95 characters do not
      fit the handle, so `Open` answers Invalid even while a handle is free. */
  lemma LongestPathNotOpened(img: Image, readOnly: bool)
    requires Mounted(img)
    ensures |LongestPath()| == PATH_MAX - 1 && IsCString(LongestPath())
    ensures Stat(img, LongestPath()).Some? ==> Openable(img, PRIME, readOnly, LongestPath(), 0)
    ensures Stat(img, LongestPath()) == None && Create(img, LongestPath(), KIND_FILE).Some? ==>
              && Admitted(img, PRIME, false, LongestPath(), 4) == Create(img, LongestPath(), KIND_FILE)
              && Openable(img, PRIME, false, LongestPath(), 4)
  {
    hide Mounted;
    hide Stat;
    hide Create;
    hide PathValid;
    hide LongestPath;
    hide Layout;
    hide LoadSuper;
    LongestPathIs();
  }

  lemma AdmittedOk(img: Image, drive: Text, readOnly: bool, path: Text, flags: nat)
    requires Mounted(img) && KnownDrive(drive) && IsCString(path) && Admitted(img, drive, readOnly, path, flags).Some?
    ensures var b := Admitted(img, drive, readOnly, path, flags).value;
            && Mounted(b) && Stat(b, path).Some?
            && forall other :: FileContent(img, other).Some? ==> FileContent(b, other) == FileContent(img, other)
  {
    hide Mounted;
    hide Stat;
    hide Create;
    hide ReadFile;
    hide Layout;
    hide LoadSuper;
    hide PathValid;
    hide IsCString;
    if Stat(img, path).None? {
      CreateKeepsContent(img, drive, path, KIND_FILE, []);
      forall other
        ensures FileContent(img, other).Some? ==>
                  FileContent(Create(img, path, KIND_FILE).value, other) == FileContent(img, other)
      {
        CreateKeepsContent(img, drive, path, KIND_FILE, other);
      }
    }
  }

  /** What was delivered through an open handle is a prefix of its file, as long as its offset. */
  ghost predicate HandleOk(img: Image, drive: Text, file: TaskFile, bytes: seq<byte>)
    requires Mounted(img)
  {
    file.active ==>
      && IsCString(file.path) && PathValid(drive, file.path)
      && file.offset == |bytes|
      && (bytes != [] ==> FileContent(img, file.path).Some? && bytes <= FileContent(img, file.path).value)
  }

  lemma ReadKeepsHandle(img: Image, drive: Text, file: TaskFile, bytes: seq<byte>, length: nat)
    requires Mounted(img) && file.active && HandleOk(img, drive, file, bytes) && length > 0
    ensures var content := FileContent(img, file.path);
            var chunk := Chunk(content, file.offset, length);
            && HandleOk(img, drive, file.(offset := file.offset + |chunk|), bytes + chunk)
            && (chunk == [] ==> bytes + chunk == bytes && file.(offset := file.offset + |chunk|) == file)
            && (chunk == [] && content.Some? ==> bytes == content.value)
  {
    hide Mounted;
    hide ReadFile;
    hide PathValid;
    hide IsCString;
    ChunkContinues(FileContent(img, file.path), bytes, length);
  }

  class FileTable {
    const fs: Qfs2
    const drive: Text
    const readOnly: bool
    const files: array<TaskFile>
    /** The bytes delivered through each slot since it was opened. */
    ghost var delivered: seq<seq<byte>>

    ghost predicate Apart()
      reads this
    {
      files as object != fs as object && files as object != fs.device as object && files.Length == TASK_MAX_FILE_HANDLES
    }

    ghost predicate DiskOk()
      reads fs, fs.device
    {
      fs.Valid() && fs.device.Healthy() && Mounted(fs.Disk())
    }

    ghost predicate Valid()
      reads this, files, fs, fs.device
    {
      && Apart() && KnownDrive(drive) && DiskOk() && |delivered| == TASK_MAX_FILE_HANDLES
      && forall i :: 0 <= i < TASK_MAX_FILE_HANDLES ==> HandleOk(fs.Disk(), drive, files[i], delivered[i])
    }

    constructor (fs: Qfs2, drive: Text, readOnly: bool)
      requires fs.Valid() && fs.device.Healthy() && Mounted(fs.Disk()) && KnownDrive(drive)
      ensures Valid() && this.fs == fs && this.drive == drive && this.readOnly == readOnly && fresh(files)
      ensures forall i :: 0 <= i < files.Length ==> !files[i].active
    {
      this.fs, this.drive, this.readOnly := fs, drive, readOnly;
      files := new TaskFile[TASK_MAX_FILE_HANDLES](_ => TaskFile(false, 0, 0, []));
      delivered := seq(TASK_MAX_FILE_HANDLES, _ => []);
    }

    /** `file_for_handle` */
    method FileForHandle(handle: nat) returns (slot: Option<nat>)
      requires files.Length == TASK_MAX_FILE_HANDLES
      ensures slot == if 1 <= handle <= TASK_MAX_FILE_HANDLES && files[handle - 1].active then Some(handle - 1)
                      else None
    {
      if handle == 0 || handle > TASK_MAX_FILE_HANDLES { return None; }
      if !files[handle - 1].active { return None; }
      slot := Some(handle - 1);
    }

    ghost function Content(i: nat): Option<seq<byte>>
      requires i < files.Length && DiskOk()
      reads this, files, fs, fs.device
    {
      FileContent(fs.Disk(), files[i].path)
    }

    twostate predicate OthersKept(slot: int)
      requires files.Length == TASK_MAX_FILE_HANDLES && old(|delivered|) == TASK_MAX_FILE_HANDLES
               && |delivered| == TASK_MAX_FILE_HANDLES
      reads this, files
    {
      forall i :: 0 <= i < TASK_MAX_FILE_HANDLES && i != slot && (old(files[i].active) || files[i].active) ==>
        files[i] == old(files[i]) && delivered[i] == old(delivered[i])
    }

    /** Every handle is as it was, though the volume may have grown. */
    twostate lemma HandlesSurvive(before: Image)
      requires old(Valid()) && old(fs.Disk()) == before && Apart() && DiskOk() && KnownDrive(drive)
      requires |delivered| == TASK_MAX_FILE_HANDLES && delivered == old(delivered)
      requires forall i :: 0 <= i < files.Length ==> files[i] == old(files[i])
      requires forall other :: FileContent(before, other).Some? ==>
                 FileContent(fs.Disk(), other) == FileContent(before, other)
      ensures Valid()
    {
      hide FileContent;
      hide Mounted;
      hide PathValid;
      hide IsCString;
      forall i | 0 <= i < TASK_MAX_FILE_HANDLES
        ensures HandleOk(fs.Disk(), drive, files[i], delivered[i])
      {
        assert old(HandleOk(fs.Disk(), drive, files[i], delivered[i]));
      }
    }

    /** The look-up of FS_OPEN. */
    method FindOrCreate(path: Text, flags: nat) returns (ok: bool, inode: Inode)
      requires Valid() && IsCString(path)
      modifies fs, fs.device
      ensures Valid()
      ensures forall other :: old(FileContent(fs.Disk(), other)).Some? ==>
                FileContent(fs.Disk(), other) == old(FileContent(fs.Disk(), other))
      ensures ok <==> old(Admitted(fs.Disk(), drive, readOnly, path, flags)).Some?
      ensures if ok then old(Admitted(fs.Disk(), drive, readOnly, path, flags)) == Some(fs.Disk())
              else fs.Disk() == old(fs.Disk())
      ensures ok ==> Stat(fs.Disk(), path) == Some(inode)
    {
      hide Mounted;
      hide Stat;
      hide Create;
      hide ReadFile;
      hide PathValid;
      hide IsCString;
      hide Layout;
      hide LoadSuper;
      hide HandleOk;
      ok, inode := false, DecodeInode(Zeros(INODE_SIZE));
      ghost var image := fs.Disk();
      if !PathValid(drive, path) || flags >= OPEN_FLAGS { return; }
      ok, inode := fs.StatPath(path);
      if !ok {
        if !WantsCreate(flags) || readOnly || WantsDirectory(flags) { return; }
        ok := fs.CreateNode(path, KIND_FILE);
        if !ok { return; }
        AdmittedOk(image, drive, readOnly, path, flags);
        ok, inode := fs.StatPath(path);
        HandlesSurvive(image);
      }
    }

    /** The FS_OPEN branch; `accessible` is the outcome of the checks on the user's two buffers.  A path
        of 95 characters passes the path check but not the copy into the handle. */
    method Open(path: Text, flags: nat, accessible: bool) returns (status: Status, handle: nat)
      requires Valid() && IsCString(path)
      modifies files, this`delivered, fs, fs.device
      ensures Valid()
      ensures forall other :: old(FileContent(fs.Disk(), other)).Some? ==>
                FileContent(fs.Disk(), other) == old(FileContent(fs.Disk(), other))
      ensures status == Ok <==>
                && accessible && old(Openable(fs.Disk(), drive, readOnly, path, flags))
                && |path| < PATH_MAX - 1
                && exists i :: 0 <= i < files.Length && !old(files[i].active)
      ensures status == Limit <==>
                && accessible && old(Openable(fs.Disk(), drive, readOnly, path, flags))
                && forall i :: 0 <= i < files.Length ==> old(files[i].active)
      ensures status == Ok ==>
                && 1 <= handle <= TASK_MAX_FILE_HANDLES && !old(files[handle - 1].active)
                && files[handle - 1] == TaskFile(true, flags, 0, path) && delivered[handle - 1] == []
                && old(Admitted(fs.Disk(), drive, readOnly, path, flags)) == Some(fs.Disk())
      ensures status != Limit && status != Ok ==> status == Invalid
      ensures var image := old(Admitted(fs.Disk(), drive, readOnly, path, flags));
              fs.Disk() == if accessible && image.Some? then image.value else old(fs.Disk())
      ensures OthersKept(if status == Ok then handle - 1 else -1)
    {
      hide Mounted;
      hide Stat;
      hide Create;
      hide ReadFile;
      hide Layout;
      hide LoadSuper;
      hide PathValid;
      status, handle := Invalid, 0;
      if !accessible { return; }
      var ok, inode := FindOrCreate(path, flags);
      if !ok { return; }
      if WantsDirectory(flags) && inode.kind != KIND_DIRECTORY { return; }
      var slot := 0;
      while slot < TASK_MAX_FILE_HANDLES
        invariant 0 <= slot <= TASK_MAX_FILE_HANDLES
        invariant forall i :: 0 <= i < slot ==> files[i].active
      {
        if !files[slot].active { break; }
        slot := slot + 1;
      }
      if slot == TASK_MAX_FILE_HANDLES { return Limit, 0; }
      if |path| >= PATH_MAX - 1 {
        files[slot] := files[slot].(path := path[..PATH_MAX - 1]);
        return;
      }
      files[slot] := TaskFile(true, flags, 0, path);
      delivered := delivered[slot := []];
      status, handle := Ok, slot + 1;
    }

    /** The FS_MKDIR branch; `accessible` is the outcome of the check on the user's buffer. */
    method MakeDirectory(path: Text, accessible: bool) returns (status: Status)
      requires Valid() && IsCString(path)
      modifies fs, fs.device
      ensures Valid()
      ensures status == if readOnly || !accessible || !PathValid(drive, path) then Denied
                        else if old(Create(fs.Disk(), path, KIND_DIRECTORY)).Some? then Ok else State
      ensures if status == Ok then old(Create(fs.Disk(), path, KIND_DIRECTORY)) == Some(fs.Disk())
              else fs.Disk() == old(fs.Disk())
      ensures forall other :: old(FileContent(fs.Disk(), other)).Some? ==>
                FileContent(fs.Disk(), other) == old(FileContent(fs.Disk(), other))
    {
      hide Mounted;
      hide Stat;
      hide Create;
      hide ReadFile;
      hide Layout;
      hide LoadSuper;
      hide PathValid;
      hide HandleOk;
      ghost var image := fs.Disk();
      if readOnly || !accessible || !PathValid(drive, path) { return Denied; }
      var ok := fs.CreateNode(path, KIND_DIRECTORY);
      if !ok { return State; }
      CreateKeepsContent(image, drive, path, KIND_DIRECTORY, []);
      forall other
        ensures FileContent(image, other).Some? ==> FileContent(fs.Disk(), other) == FileContent(image, other)
      {
        CreateKeepsContent(image, drive, path, KIND_DIRECTORY, other);
      }
      HandlesSurvive(image);
      status := Ok;
    }

    /** The FS_CLOSE branch. */
    method Close(handle: nat) returns (status: Status)
      requires Valid()
      modifies files, this`delivered
      ensures Valid() && fs.Disk() == old(fs.Disk())
      ensures status == if 1 <= handle <= TASK_MAX_FILE_HANDLES && old(files[handle - 1].active) then Ok else Invalid
      ensures OthersKept(handle - 1)
      ensures 1 <= handle <= TASK_MAX_FILE_HANDLES ==> !files[handle - 1].active
    {
      hide Mounted;
      var slot := FileForHandle(handle);
      if slot == None { return Invalid; }
      files[slot.value] := TaskFile(false, 0, 0, []);
      delivered := delivered[slot.value := []];
      status := Ok;
    }

    /** The FS_READ_HANDLE branch; `accessible` is the outcome of the checks on the user's buffer. */
    method ReadHandle(handle: nat, length: nat, accessible: bool) returns (status: Status, chunk: seq<byte>)
      requires Valid()
      modifies files, this`delivered, fs, fs.device`faults
      ensures Valid() && fs.Disk() == old(fs.Disk())
      ensures status == if 1 <= handle <= TASK_MAX_FILE_HANDLES && old(files[handle - 1].active)
                           && 0 < length <= MAX_BUFFER && accessible
                        then Ok else Invalid
      ensures OthersKept(handle - 1)
      ensures status == Ok ==>
                && chunk == Chunk(old(Content(handle - 1)), old(files[handle - 1].offset), length)
                && files[handle - 1] == old(files[handle - 1]).(offset := old(files[handle - 1].offset) + |chunk|)
                && delivered[handle - 1] == old(delivered[handle - 1]) + chunk
      ensures status == Ok && chunk == [] && Content(handle - 1).Some? ==>
                delivered[handle - 1] == Content(handle - 1).value
      ensures status != Ok ==> chunk == [] && forall i :: 0 <= i < files.Length ==> files[i] == old(files[i])
    {
      hide Mounted;
      hide ReadFile;
      hide Layout;
      hide LoadSuper;
      hide PathValid;
      chunk := [];
      var slot := FileForHandle(handle);
      if slot == None || length == 0 || length > MAX_BUFFER || !accessible { return Invalid, chunk; }
      var file := files[slot.value];
      ReadKeepsHandle(fs.Disk(), drive, file, delivered[slot.value], length);
      assert IsCString(file.path);
      hide IsCString;
      hide HandleOk;
      var result, contents := fs.ReadPath(file.path, MAX_BUFFER);
      status := Ok;
      if result < 0 || file.offset >= result { return; }
      var available := result - file.offset;
      if available > length { available := length; }
      chunk := contents[file.offset..file.offset + available];
      assert chunk == Chunk(Some(contents), file.offset, length);
      hide Chunk;
      files[slot.value] := file.(offset := file.offset + available);
      delivered := delivered[slot.value := delivered[slot.value] + chunk];
    }

    /** Any interleaving of opens, closes, reads and directory creations: at every point every open
        handle has delivered a prefix of its file. */
    method Session(calls: seq<FileCall>)
      requires Valid()
      requires forall i :: 0 <= i < |calls| ==> (calls[i].OpenCall? || calls[i].MakeCall? ==> IsCString(calls[i].path))
      modifies files, this`delivered, fs, fs.device
      ensures Valid()
      ensures forall other :: old(FileContent(fs.Disk(), other)).Some? ==>
                FileContent(fs.Disk(), other) == old(FileContent(fs.Disk(), other))
    {
      hide Mounted;
      hide ReadFile;
      hide Layout;
      hide LoadSuper;
      hide HandleOk;
      var i := 0;
      while i < |calls|
        invariant 0 <= i <= |calls| && Valid()
        invariant forall other :: old(FileContent(fs.Disk(), other)).Some? ==>
                    FileContent(fs.Disk(), other) == old(FileContent(fs.Disk(), other))
      {
        match calls[i] {
          case OpenCall(path, flags, accessible) => var status, handle := Open(path, flags, accessible);
          case CloseCall(handle) => var status := Close(handle);
          case ReadCall(handle, length, accessible) => var status, chunk := ReadHandle(handle, length, accessible);
          case MakeCall(path, accessible) => var status := MakeDirectory(path, accessible);
        }
        i := i + 1;
      }
    }
  }

  datatype FileCall =
    | OpenCall(path: Text, flags: nat, accessible: bool)
    | CloseCall(handle: nat)
    | ReadCall(handle: nat, length: nat, accessible: bool)
    | MakeCall(path: Text, accessible: bool)
}
