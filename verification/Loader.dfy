/** `load_kernel` and `build_tables` of bootloader/uefi/loader.c on physical memory. */
module KernelLoader {
  import opened Bits
  import opened Bytes
  import opened Options
  import opened Frames
  import opened Paging
  import opened Elf

  const KERNEL_PAGES: nat := 512
  const TABLE_PAGES: nat := 6

  // ---------------------------------------------------------------------------------------------
  // Loading
  // ---------------------------------------------------------------------------------------------

  lemma SpliceIs(before: seq<byte>, at: nat, data: seq<byte>, after: seq<byte>)
    requires at + |data| <= |before| == |after|
    requires forall i :: 0 <= i < |before| ==> after[i] == if at <= i < at + |data| then data[i - at] else before[i]
    ensures after == Splice(before, at, data)
  {
    SpliceAt(before, at, data);
    hide Splice;
  }

  /** `copy_bytes` */
  method CopyBytes(memory: array<byte>, destination: nat, source: seq<byte>, from: nat, length: nat)
    requires from + length <= |source| && destination + length <= memory.Length
    modifies memory
    ensures memory[..] == Splice(old(memory[..]), destination, source[from..from + length])
  {
    hide Splice;
    var n := 0;
    while n < length
      invariant 0 <= n <= length
      invariant forall i :: 0 <= i < memory.Length ==>
                  memory[i] == if destination <= i < destination + n then source[from + (i - destination)]
                               else old(memory[i])
    {
      memory[destination + n] := source[from + n];
      n := n + 1;
    }
    SpliceIs(old(memory[..]), destination, source[from..from + length], memory[..]);
  }

  /** `clear_bytes` */
  method ClearBytes(memory: array<byte>, destination: nat, length: nat)
    requires destination + length <= memory.Length
    modifies memory
    ensures memory[..] == Splice(old(memory[..]), destination, Zeros(length))
  {
    hide Splice;
    var n := 0;
    while n < length
      invariant 0 <= n <= length
      invariant forall i :: 0 <= i < memory.Length ==>
                  memory[i] == if destination <= i < destination + n then 0 else old(memory[i])
    {
      memory[destination + n] := 0;
      n := n + 1;
    }
    SpliceIs(old(memory[..]), destination, Zeros(length), memory[..]);
  }

  /** `add_overflow`: `None` when the 64-bit sum does not fit. */
  method AddOverflow(left: nat, right: nat) returns (sum: Option<nat>)
    requires left < B64 && right < B64
    ensures sum == if left + right < B64 then Some(left + right) else None
  {
    if left > B64 - 1 - right { return None; }
    sum := Some((left + right) % B64);
  }

  /** The bytes of a segment stand in the window at `base`. */
  predicate Loaded(memory: seq<byte>, base: nat, p: Program, image: seq<byte>, window: nat)
    requires base + window <= |memory| && SegmentOk(p, |image|, window)
  {
    var at := base + (p.physical - KERNEL_PHYSICAL);
    memory[at..at + p.memorySize] == SegmentBytes(p, image)
  }

  ghost predicate OutsideSame(before: seq<byte>, after: seq<byte>, base: nat, length: nat) {
    |after| == |before| && forall i :: 0 <= i < |before| && !(base <= i < base + length) ==> after[i] == before[i]
  }

  function AfterSegment(before: seq<byte>, base: nat, p: Program, image: seq<byte>, window: nat): (after: seq<byte>)
    requires base + window <= |before| && SegmentOk(p, |image|, window)
    ensures |after| == |before|
  {
    Splice(before, base + (p.physical - KERNEL_PHYSICAL), SegmentBytes(p, image))
  }

  lemma SpliceInside(before: seq<byte>, at: nat, data: seq<byte>, base: nat, length: nat)
    requires base <= at && at + |data| <= base + length && at + |data| <= |before|
    ensures OutsideSame(before, Splice(before, at, data), base, length)
  {
    SpliceAt(before, at, data);
    hide Splice;
  }

  lemma SegmentLoaded(before: seq<byte>, base: nat, p: Program, image: seq<byte>, window: nat)
    requires base + window <= |before| && SegmentOk(p, |image|, window)
    ensures Loaded(AfterSegment(before, base, p, image, window), base, p, image, window)
    ensures OutsideSame(before, AfterSegment(before, base, p, image, window), base, window)
  {
    var at, data := base + (p.physical - KERNEL_PHYSICAL), SegmentBytes(p, image);
    SpliceAt(before, at, data);
    SpliceInside(before, at, data, base, window);
    hide Splice;
    hide SegmentBytes;
    hide OutsideSame;
  }

  lemma LoadedKept(before: seq<byte>, base: nat, p: Program, q: Program, image: seq<byte>, window: nat)
    requires base + window <= |before| && SegmentOk(p, |image|, window) && SegmentOk(q, |image|, window)
    requires p.physical + p.memorySize <= q.physical || q.physical + q.memorySize <= p.physical
    requires Loaded(before, base, p, image, window)
    ensures Loaded(AfterSegment(before, base, q, image, window), base, p, image, window)
  {
    var at := base + (p.physical - KERNEL_PHYSICAL);
    SpliceElsewhere(before, base + (q.physical - KERNEL_PHYSICAL), SegmentBytes(q, image), at, at + p.memorySize);
  }

  /** The checks of the loop on one load segment. */
  method CheckSegment(p: Program, size: nat, window: nat) returns (ok: bool)
    requires p.offset < B64 && p.virtual < B64 && p.physical < B64 && p.fileSize < B64 && p.memorySize < B64
             && p.alignment < B64
    ensures ok <==> SegmentOk(p, size, window)
  {
    if p.fileSize > p.memorySize || p.offset > size || p.fileSize > size - p.offset || p.physical < KERNEL_PHYSICAL {
      return false;
    }
    var physicalEnd := AddOverflow(p.physical, p.memorySize);
    if physicalEnd == None || physicalEnd.value < p.physical || physicalEnd.value - KERNEL_PHYSICAL > window {
      return false;
    }
    var virtualEnd := AddOverflow(p.virtual, p.memorySize);
    if virtualEnd == None { return false; }
    if p.alignment > 1 && And(p.alignment, p.alignment - 1) != 0 { return false; }
    if p.alignment > 1 && p.physical % p.alignment != p.offset % p.alignment { return false; }
    ok := p.offset + p.fileSize <= size;
  }

  /** `load_kernel`.  It succeeds exactly for the acceptable images.  Even when it fails it has written
      nothing outside the window; when it succeeds and the segments are disjoint, the window holds every
      load segment: the file's bytes and then zeros. */
  method LoadKernel(memory: array<byte>, image: seq<byte>, base: nat, window: nat) returns (ok: bool, entry: nat)
    requires base + window <= memory.Length
    modifies memory
    ensures OutsideSame(old(memory[..]), memory[..], base, window)
    ensures ok <==> ImageOk(image, window)
    ensures ok ==> entry == Entry(image)
    ensures ok && Disjoint(Programs(image)) ==>
              forall i :: 0 <= i < |Programs(image)| && Loadable(Programs(image)[i]) ==>
                Loaded(memory[..], base, Programs(image)[i], image, window)
  {
    hide And;
    hide DecodeHeader;
    hide DecodeProgram;
    hide Programs;
    hide HeaderOk;
    hide Loaded;
    hide SegmentOk;
    hide Loadable;
    hide Holds;
    hide OutsideSame;
    hide Disjoint;
    ok, entry := false, 0;
    OutsideNothing(memory[..], base, window);
    if !HeaderOk(image) { return; }
    HeaderSized(image);
    var programs := Programs(image);
    var header := DecodeHeader(image[..HEADER_SIZE]);
    var entryLoadable := false;
    var index := 0;
    while index < |programs|
      invariant 0 <= index <= |programs|
      invariant OutsideSame(old(memory[..]), memory[..], base, window)
      invariant forall i :: 0 <= i < index && Loadable(programs[i]) ==> SegmentOk(programs[i], |image|, window)
      invariant entryLoadable <==> exists i :: 0 <= i < index && Loadable(programs[i])
                                     && Holds(programs[i], header.entry)
      invariant Disjoint(programs) ==> forall i :: 0 <= i < index && Loadable(programs[i]) ==>
                  Loaded(memory[..], base, programs[i], image, window)
    {
      var program := programs[index];
      if Loadable(program) {
        ProgramFields(image, index);
        var fits := CheckSegment(program, |image|, window);
        if !fits { return; }
        ghost var loaded := memory[..];
        LoadSegment(memory, image, base, window, program, programs, index);
        OutsideTransitive(old(memory[..]), loaded, memory[..], base, window);
        if Holds(program, header.entry) { entryLoadable := true; }
      }
      index := index + 1;
    }
    if !entryLoadable { return; }
    ok, entry := true, header.entry;
  }

  lemma OutsideNothing(memory: seq<byte>, base: nat, length: nat)
    ensures OutsideSame(memory, memory, base, length)
  {
  }

  lemma OutsideTransitive(a: seq<byte>, b: seq<byte>, c: seq<byte>, base: nat, length: nat)
    requires OutsideSame(a, b, base, length) && OutsideSame(b, c, base, length)
    ensures OutsideSame(a, c, base, length)
  {
  }

  lemma HeaderSized(image: seq<byte>)
    requires HeaderOk(image)
    ensures |image| >= HEADER_SIZE
  {
  }

  lemma ProgramFields(image: seq<byte>, i: nat)
    requires HeaderOk(image) && i < |Programs(image)|
    ensures var p := Programs(image)[i];
            p.offset < B64 && p.virtual < B64 && p.physical < B64 && p.fileSize < B64 && p.memorySize < B64
            && p.alignment < B64
  {
  }

  /** The copy and the clearing of one segment. */
  method LoadSegment(memory: array<byte>, image: seq<byte>, base: nat, window: nat, program: Program,
                     ghost programs: seq<Program>, ghost index: nat)
    requires base + window <= memory.Length && index < |programs| && Loadable(programs[index])
             && program == programs[index]
    requires forall i :: 0 <= i <= index && Loadable(programs[i]) ==> SegmentOk(programs[i], |image|, window)
    modifies memory
    ensures OutsideSame(old(memory[..]), memory[..], base, window)
    ensures Loaded(memory[..], base, programs[index], image, window)
    ensures Disjoint(programs) ==>
              forall i ::
                0 <= i < index && Loadable(programs[i]) && Loaded(old(memory[..]), base, programs[i], image, window) ==>
                Loaded(memory[..], base, programs[i], image, window)
  {
    ghost var before := memory[..];
    PlaceSegment(memory, image, base, window, program);
    SegmentLoaded(before, base, program, image, window);
    if Disjoint(programs) { AllKept(before, image, base, window, programs, index); }
    hide *;
  }

  method PlaceSegment(memory: array<byte>, image: seq<byte>, base: nat, window: nat, program: Program)
    requires base + window <= memory.Length && SegmentOk(program, |image|, window)
    modifies memory
    ensures memory[..] == AfterSegment(old(memory[..]), base, program, image, window)
  {
    hide SegmentBytes;
    hide Splice;
    hide SegmentOk;
    hide AfterSegment;
    TwoSplices(memory[..], base, program, image, window);
    var destination := base + (program.physical - KERNEL_PHYSICAL);
    CopyBytes(memory, destination, image, program.offset, program.fileSize);
    ClearBytes(memory, destination + program.fileSize, program.memorySize - program.fileSize);
  }

  /** The copy and the clearing together place the segment. */
  lemma TwoSplices(before: seq<byte>, base: nat, p: Program, image: seq<byte>, window: nat)
    requires base + window <= |before| && SegmentOk(p, |image|, window)
    ensures p.offset + p.fileSize <= |image| && p.fileSize <= p.memorySize && p.physical >= KERNEL_PHYSICAL
    ensures var at := base + (p.physical - KERNEL_PHYSICAL);
            && at + p.memorySize <= |before|
            && AfterSegment(before, base, p, image, window)
               == Splice(Splice(before, at, image[p.offset..p.offset + p.fileSize]), at + p.fileSize,
                         Zeros(p.memorySize - p.fileSize))
  {
    hide Splice;
    hide And;
    var data, rest := image[p.offset..p.offset + p.fileSize], Zeros(p.memorySize - p.fileSize);
    assert SegmentBytes(p, image) == data + rest;
    SpliceAppend(before, base + (p.physical - KERNEL_PHYSICAL), data, rest);
  }

  lemma AllKept(before: seq<byte>, image: seq<byte>, base: nat, window: nat, programs: seq<Program>, index: nat)
    requires base + window <= |before| && index < |programs| && Loadable(programs[index]) && Disjoint(programs)
    requires SegmentOk(programs[index], |image|, window)
    requires forall i :: 0 <= i <= index && Loadable(programs[i]) ==> SegmentOk(programs[i], |image|, window)
    ensures var p := programs[index];
            var after := AfterSegment(before, base, p, image, window);
            forall i :: 0 <= i < index && Loadable(programs[i]) && Loaded(before, base, programs[i], image, window) ==>
              Loaded(after, base, programs[i], image, window)
  {
    var p := programs[index];
    assert SegmentOk(p, |image|, window);
    var after := AfterSegment(before, base, p, image, window);
    hide Loaded;
    hide Splice;
    hide SegmentBytes;
    hide SegmentOk;
    forall i | 0 <= i < index && Loadable(programs[i]) && Loaded(before, base, programs[i], image, window)
      ensures Loaded(after, base, programs[i], image, window)
    {
      LoadedKept(before, base, programs[i], p, image, window);
    }
  }

  // ---------------------------------------------------------------------------------------------
  // Page tables
  // ---------------------------------------------------------------------------------------------

  /** The 64-bit word at an address. */
  function Word(memory: seq<byte>, address: nat): nat
    requires address + 8 <= |memory|
  {
    U64(memory[address..address + 8])
  }

  /** The words of the six table pages. */
  ghost predicate Tables(memory: seq<byte>, root: nat, words: seq<nat>) {
    && |words| == TABLE_PAGES * 512 && root + TABLE_PAGES * PAGE_SIZE <= |memory|
    && forall k :: 0 <= k < |words| ==> Word(memory, root + 8 * k) == words[k]
  }

  lemma WordSplice(memory: seq<byte>, address: nat, value: nat, other: nat)
    requires address + 8 <= |memory| && other + 8 <= |memory| && value < B64
    ensures Word(Splice(memory, address, Le64(value)), address) == value
    ensures other + 8 <= address || address + 8 <= other ==>
              Word(Splice(memory, address, Le64(value)), other) == Word(memory, other)
  {
    SpliceAt(memory, address, Le64(value));
    U64Le64(value);
    if other + 8 <= address || address + 8 <= other { SpliceElsewhere(memory, address, Le64(value), other, other + 8); }
  }

  /** One table entry. */
  method StoreEntry(memory: array<byte>, root: nat, k: nat, value: nat, ghost words: seq<nat>)
    returns (ghost after: seq<nat>)
    requires Tables(memory[..], root, words) && k < |words| && value < B64
    modifies memory
    ensures after == words[k := value] && Tables(memory[..], root, after)
    ensures OutsideSame(old(memory[..]), memory[..], root, TABLE_PAGES * PAGE_SIZE)
  {
    hide Le64;
    hide U64;
    ghost var before := memory[..];
    CopyBytes(memory, root + 8 * k, Le64(value), 0, 8);
    assert Le64(value)[0..0 + 8] == Le64(value);
    SpliceAt(before, root + 8 * k, Le64(value));
    after := words[k := value];
    forall j | 0 <= j < |after|
      ensures Word(memory[..], root + 8 * j) == after[j]
    {
      WordSplice(before, root + 8 * k, value, root + 8 * j);
    }
  }

  lemma ZeroWords(before: seq<byte>, root: nat)
    requires root + TABLE_PAGES * PAGE_SIZE <= |before|
    ensures Tables(Splice(before, root, Zeros(TABLE_PAGES * PAGE_SIZE)), root, seq(TABLE_PAGES * 512, _ => 0))
    ensures OutsideSame(before, Splice(before, root, Zeros(TABLE_PAGES * PAGE_SIZE)), root, TABLE_PAGES * PAGE_SIZE)
  {
    var after := Splice(before, root, Zeros(TABLE_PAGES * PAGE_SIZE));
    SpliceAt(before, root, Zeros(TABLE_PAGES * PAGE_SIZE));
    SpliceInside(before, root, Zeros(TABLE_PAGES * PAGE_SIZE), root, TABLE_PAGES * PAGE_SIZE);
    hide Splice;
    forall k | 0 <= k < TABLE_PAGES * 512
      ensures Word(after, root + 8 * k) == 0
    {
      ZeroWord(after[root + 8 * k..root + 8 * k + 8]);
    }
  }

  lemma ZeroWord(b: seq<byte>)
    requires |b| == 8 && forall i :: 0 <= i < 8 ==> b[i] == 0
    ensures U64(b) == 0
  {
  }

  /** What the tables hold once built. */
  function TableEntry(root: nat, kernel: nat, page: nat, i: nat): nat
    requires page < TABLE_PAGES && i < 512
  {
    if page == 0 then (if i == 0 || i == 511 then root + 0x1003 else 0)
    else if page == 1 then (if i == 0 then root + 0x2003 else if i == 510 then root + 0x3003 else 0)
    else if page == 2 then 0x200000 * i + 0x83
    else if page == 3 then (if i == 0 then root + 0x4003 else if i == 1 then root + 0x5003 else 0)
    else if page == 4 then (if i >= 256 then kernel + (i - 256) * PAGE_SIZE + 3 else 0)
    else if i < 256 then kernel + (256 + i) * PAGE_SIZE + 3 else 0
  }

  ghost predicate PageIs(words: seq<nat>, root: nat, kernel: nat, page: nat, start: nat)
    requires page < TABLE_PAGES && start + 512 <= |words|
  {
    forall i :: 0 <= i < 512 ==> words[start + i] == TableEntry(root, kernel, page, i)
  }

  ghost predicate Built(words: seq<nat>, root: nat, kernel: nat) {
    && |words| == TABLE_PAGES * 512
    && forall page: nat :: page < TABLE_PAGES ==> PageIs(words, root, kernel, page, 512 * page)
  }

  lemma OrAligned(address: nat, low: nat)
    requires address % PAGE_SIZE == 0 && low < PAGE_SIZE
    ensures Or(address, low) == address + low
  {
    var q := address / PAGE_SIZE;
    ShlProduct(q, 12);
    assert Shl1(12) == PAGE_SIZE;
    OrDisjoint(q, low, 12);
  }

  /** The words after the first `n` entries of each loop are written. */
  ghost predicate Top(words: seq<nat>, root: nat) {
    && |words| == TABLE_PAGES * 512
    && words[0] == root + 0x1003 && words[511] == root + 0x1003
    && words[512] == root + 0x2003 && words[512 + 510] == root + 0x3003
    && (forall i :: 0 < i < 512 && i != 511 ==> words[i] == 0)
    && (forall k :: 512 < k < 1024 && k != 1022 ==> words[k] == 0)
  }

  method BuildTop(memory: array<byte>, root: nat, ghost before: seq<nat>) returns (ghost words: seq<nat>)
    requires Tables(memory[..], root, before) && root % PAGE_SIZE == 0 && root + 0x6000 < B64
             && before == seq(TABLE_PAGES * 512, _ => 0)
    modifies memory
    ensures Tables(memory[..], root, words) && Top(words, root)
    ensures forall k :: 1024 <= k < TABLE_PAGES * 512 ==> words[k] == 0
    ensures OutsideSame(old(memory[..]), memory[..], root, TABLE_PAGES * PAGE_SIZE)
  {
    hide Tables;
    OrAligned(root + 0x1000, 3);
    OrAligned(root + 0x2000, 3);
    OrAligned(root + 0x3000, 3);
    hide Or;
    assert |before| == TABLE_PAGES * 512;
    words := StoreEntry(memory, root, 0, Or(root + 0x1000, 3), before);
    words := StoreEntry(memory, root, 511, Or(root + 0x1000, 3), words);
    words := StoreEntry(memory, root, 512, Or(root + 0x2000, 3), words);
    words := StoreEntry(memory, root, 512 + 510, Or(root + 0x3000, 3), words);
  }

  /** A run of `count` entries from index `start`, for consecutive pages of `size` bytes. */
  method FillEntries(memory: array<byte>, root: nat, start: nat, count: nat, first: nat, size: nat, flags: nat,
                     ghost before: seq<nat>)
    returns (ghost words: seq<nat>)
    requires Tables(memory[..], root, before) && start + count <= |before|
    requires first % PAGE_SIZE == 0 && (size == PAGE_SIZE || size == 0x200000) && flags < PAGE_SIZE
    requires count <= 512 && first + 512 * size + PAGE_SIZE < B64
    modifies memory
    ensures Tables(memory[..], root, words) && |words| == |before|
    ensures forall i :: 0 <= i < count ==> words[start + i] == first + i * size + flags
    ensures forall k :: 0 <= k < |before| && !(start <= k < start + count) ==> words[k] == before[k]
    ensures OutsideSame(old(memory[..]), memory[..], root, TABLE_PAGES * PAGE_SIZE)
  {
    hide Tables;
    hide Or;
    words := before;
    var index, address: nat := 0, first;
    while index < count
      invariant 0 <= index <= count && address == first + index * size && address % PAGE_SIZE == 0
      invariant Tables(memory[..], root, words) && |words| == |before|
      invariant forall i :: 0 <= i < index ==> words[start + i] == first + i * size + flags
      invariant forall k :: 0 <= k < |before| && !(start <= k < start + index) ==> words[k] == before[k]
      invariant OutsideSame(old(memory[..]), memory[..], root, TABLE_PAGES * PAGE_SIZE)
    {
      OrAligned(address, flags);
      words := StoreEntry(memory, root, start + index, Or(address, flags), words);
      index, address := index + 1, address + size;
    }
  }

  lemma PageKept(before: seq<nat>, after: seq<nat>, root: nat, kernel: nat, page: nat, start: nat)
    requires page < TABLE_PAGES && start + 512 <= |before| == |after| && PageIs(before, root, kernel, page, start)
    requires forall k :: start <= k < start + 512 ==> after[k] == before[k]
    ensures PageIs(after, root, kernel, page, start)
  {
  }

  /** The page directory and the two page tables of the kernel image. */
  method BuildHigh(memory: array<byte>, root: nat, kernel: nat, ghost before: seq<nat>) returns (ghost words: seq<nat>)
    requires Tables(memory[..], root, before) && |before| == TABLE_PAGES * 512
    requires root % PAGE_SIZE == 0 && kernel % PAGE_SIZE == 0 && root + 0x6000 < B64 && kernel + 0x400000 < B64
    requires forall k :: 1536 <= k < |before| ==> before[k] == 0
    modifies memory
    ensures Tables(memory[..], root, words) && |words| == |before|
    ensures PageIs(words, root, kernel, 3, 1536) && PageIs(words, root, kernel, 4, 2048)
            && PageIs(words, root, kernel, 5, 2560)
    ensures forall k :: 0 <= k < 1536 ==> words[k] == before[k]
    ensures OutsideSame(old(memory[..]), memory[..], root, TABLE_PAGES * PAGE_SIZE)
  {
    hide Tables;
    OrAligned(root + 0x4000, 3);
    OrAligned(root + 0x5000, 3);
    hide Or;
    words := StoreEntry(memory, root, 1536, Or(root + 0x4000, 3), before);
    words := StoreEntry(memory, root, 1537, Or(root + 0x5000, 3), words);
    words := FillEntries(memory, root, 2048 + 256, 256, kernel, PAGE_SIZE, 3, words);
    words := FillEntries(memory, root, 2560, 256, kernel + 256 * PAGE_SIZE, PAGE_SIZE, 3, words);
    forall i | 0 <= i < 512
      ensures words[2560 + i] == TableEntry(root, kernel, 5, i)
    {
      if i < 256 { assert words[2560 + i] == kernel + 256 * PAGE_SIZE + i * PAGE_SIZE + 3; }
    }
  }

  /** `build_tables` */
  method BuildTables(memory: array<byte>, root: nat, kernel: nat) returns (ghost words: seq<nat>)
    requires root % PAGE_SIZE == 0 && kernel % PAGE_SIZE == 0 && root + 0x6000 <= memory.Length
    requires root + 0x6000 < B64 && kernel + 0x400000 < B64
    modifies memory
    ensures Tables(memory[..], root, words) && Built(words, root, kernel)
    ensures OutsideSame(old(memory[..]), memory[..], root, TABLE_PAGES * PAGE_SIZE)
  {
    hide Tables;
    ZeroWords(memory[..], root);
    ClearBytes(memory, root, TABLE_PAGES * PAGE_SIZE);
    hide Splice;
    words := seq(TABLE_PAGES * 512, _ => 0);
    words := BuildTop(memory, root, words);
    words := FillEntries(memory, root, 1024, 512, 0, 0x200000, 0x83, words);
    ghost var low := words;
    forall i | 0 <= i < 512
      ensures low[1024 + i] == TableEntry(root, kernel, 2, i)
    {
      assert low[1024 + i] == 0 + i * 0x200000 + 0x83;
    }
    assert PageIs(low, root, kernel, 0, 0);
    assert PageIs(low, root, kernel, 1, 512);
    assert PageIs(low, root, kernel, 2, 1024);
    hide PageIs;
    words := BuildHigh(memory, root, kernel, words);
    PageKept(low, words, root, kernel, 0, 0);
    PageKept(low, words, root, kernel, 1, 512);
    PageKept(low, words, root, kernel, 2, 1024);
  }

  // ---------------------------------------------------------------------------------------------
  // What the processor sees
  // ---------------------------------------------------------------------------------------------

  /** Memory as pages of 64-bit words. */
  function PagesOf(memory: seq<byte>): map<nat, Page> {
    map p: nat | p < |memory| && p % PAGE_SIZE == 0 && p + PAGE_SIZE <= |memory| ::
      seq(512, i requires 0 <= i < 512 => Word(memory, p + 8 * i))
  }

  /** The physical address that a translation leads to. */
  function PhysicalOf(m: Mapping, va: nat): Option<nat> {
    match m
    case NotPresent => None
    case Mapped(entry, level, _, _) =>
      if level == 1 then Some(entry / PAGE_SIZE * PAGE_SIZE + va % PAGE_SIZE)
      else if level == 2 then Some(entry / 0x200000 * 0x200000 + va % 0x200000)
      else Some(entry / 0x40000000 * 0x40000000 + va % 0x40000000)
  }

  function Seen(memory: seq<byte>, root: nat, va: nat): Option<nat> {
    PhysicalOf(Paging.Walk(PagesOf(memory), root, 4, va), va)
  }

  lemma PageWord(memory: seq<byte>, p: nat, i: nat)
    requires p % PAGE_SIZE == 0 && p + PAGE_SIZE <= |memory| && i < 512
    ensures Load(PagesOf(memory), p, i) == Word(memory, p + 8 * i)
  {
    hide Word;
    assert p in PagesOf(memory);
  }

  lemma BuiltWord(words: seq<nat>, root: nat, kernel: nat, page: nat, i: nat)
    requires Built(words, root, kernel) && page < TABLE_PAGES && i < 512
    ensures |words| == TABLE_PAGES * 512 && words[512 * page + i] == TableEntry(root, kernel, page, i)
  {
    hide TableEntry;
    assert PageIs(words, root, kernel, page, 512 * page);
  }

  lemma LoadEntry(memory: seq<byte>, root: nat, kernel: nat, words: seq<nat>, page: nat, i: nat)
    requires Tables(memory, root, words) && Built(words, root, kernel) && root % PAGE_SIZE == 0 && page < TABLE_PAGES
             && i < 512
    ensures Load(PagesOf(memory), root + page * PAGE_SIZE, i) == TableEntry(root, kernel, page, i)
  {
    hide TableEntry;
    hide PageIs;
    hide PagesOf;
    hide Load;
    hide Word;
    hide Tables;
    hide Built;
    BuiltWord(words, root, kernel, page, i);
    TableWord(memory, root, words, 512 * page + i);
    PageInside(root, page, |memory|);
    PageWord(memory, root + page * PAGE_SIZE, i);
    assert root + page * PAGE_SIZE + 8 * i == root + 8 * (512 * page + i);
  }

  lemma TableWord(memory: seq<byte>, root: nat, words: seq<nat>, k: nat)
    requires Tables(memory, root, words) && k < |words|
    ensures root + TABLE_PAGES * PAGE_SIZE <= |memory| && Word(memory, root + 8 * k) == words[k]
  {
    hide Word;
  }

  lemma PageInside(root: nat, page: nat, size: nat)
    requires root % PAGE_SIZE == 0 && page < TABLE_PAGES && root + TABLE_PAGES * PAGE_SIZE <= size
    ensures (root + page * PAGE_SIZE) % PAGE_SIZE == 0 && root + page * PAGE_SIZE + PAGE_SIZE <= size
  {
  }

  lemma UpperBits(n: nat, low: nat)
    requires low < 128
    ensures (128 * n + low) / 128 == n
  {
  }

  /** Table entries: present and writable, not for user code. */
  lemma SmallEntry(q: nat)
    ensures var e := PAGE_SIZE * q + 3;
            && Present(e) && Writable(e) && !User(e) && !PageSize(e)
            && FrameOf(e) == PAGE_SIZE * q && e / PAGE_SIZE == q
  {
    var e := PAGE_SIZE * q + 3;
    EntryBits(32 * q);
    assert e == 128 * (32 * q) + 3;
    HalfOf(16 * q, 0);
    assert 32 * q == 2 * (16 * q) + 0;
    PageQuotient(q, 3);
    hide Present;
    hide Writable;
    hide User;
    hide PageSize;
  }

  lemma EntryBits(q: nat)
    ensures var e := 128 * q + 3; Present(e) && Writable(e) && !User(e) && (PageSize(e) <==> q % 2 == 1)
  {
    var e := 128 * q + 3;
    HalfOf(64 * q + 1, 1);
    HalfOf(32 * q, 1);
    HalfOf(16 * q, 0);
    assert e == 2 * (64 * q + 1) + 1 && 64 * q + 1 == 2 * (32 * q) + 1 && 32 * q == 2 * (16 * q) + 0;
    Quarter(e);
    UpperBits(q, 3);
  }

  lemma TableAt(root: nat, page: nat)
    requires root % PAGE_SIZE == 0
    ensures var e := root + page * PAGE_SIZE + 3;
            Present(e) && Writable(e) && !User(e) && !PageSize(e) && FrameOf(e) == root + page * PAGE_SIZE
  {
    var q := root / PAGE_SIZE;
    assert root + page * PAGE_SIZE == PAGE_SIZE * (q + page);
    SmallEntry(q + page);
  }

  lemma LargeEntry(i: nat)
    ensures var e := 0x200000 * i + 0x83; Present(e) && Writable(e) && !User(e) && PageSize(e) && e / 0x200000 == i
  {
    EntryBits(0x4000 * i + 1);
    assert 0x200000 * i + 0x83 == 128 * (0x4000 * i + 1) + 3;
    HalfOf(0x2000 * i, 1);
    assert 0x4000 * i + 1 == 2 * (0x2000 * i) + 1;
    LargePart(i);
    hide Present;
    hide Writable;
    hide User;
    hide PageSize;
  }

  lemma LargePart(i: nat)
    ensures (0x200000 * i + 0x83) / 0x200000 == i
  {
  }

  lemma KernelIndex(x: nat)
    requires x < 0x200000
    ensures Index(KERNEL_VMA + x, 4) == 511 && Index(KERNEL_VMA + x, 3) == 510
    ensures x < 0x100000 ==> Index(KERNEL_VMA + x, 2) == 0 && Index(KERNEL_VMA + x, 1) == 256 + x / PAGE_SIZE
    ensures x >= 0x100000 ==> Index(KERNEL_VMA + x, 2) == 1 && Index(KERNEL_VMA + x, 1) == x / PAGE_SIZE - 256
    ensures (KERNEL_VMA + x) % PAGE_SIZE == x % PAGE_SIZE
  {
    var va := KERNEL_VMA + x;
    assert va / 0x8000000000 == 0x1ffffff;
    assert va / 0x40000000 == 0x3fffffffe;
    assert va / 0x200000 == 0x7fffffffc00 + (x + 0x100000) / 0x200000;
    assert va / 0x1000 == 0xffffffff80100 + x / 0x1000;
  }

  /** The page table that maps `KERNEL_VMA + x`. */
  function KernelTablePage(x: nat): nat { if x < 0x100000 then 4 else 5 }

  lemma KernelLeaf(memory: seq<byte>, root: nat, kernel: nat, words: seq<nat>, x: nat)
    requires Tables(memory, root, words) && Built(words, root, kernel)
    requires root % PAGE_SIZE == 0 && kernel % PAGE_SIZE == 0 && x < 0x200000
    ensures Paging.Walk(PagesOf(memory), root + KernelTablePage(x) * PAGE_SIZE, 1, KERNEL_VMA + x)
            == Leaf(kernel + x / PAGE_SIZE * PAGE_SIZE + 3, 1)
    ensures var e := kernel + x / PAGE_SIZE * PAGE_SIZE + 3; Present(e) && Writable(e) && !User(e)
  {
    var va := KERNEL_VMA + x;
    KernelIndex(x);
    LoadEntry(memory, root, kernel, words, KernelTablePage(x), Index(va, 1));
    hide Index;
    var q := kernel / PAGE_SIZE + x / PAGE_SIZE;
    SmallEntry(q);
    assert kernel + x / PAGE_SIZE * PAGE_SIZE == PAGE_SIZE * q;
    hide Load;
    hide PagesOf;
    hide Tables;
    hide Built;
    hide Present;
  }

  /** The address is mapped for the kernel alone, which may write there. */
  predicate KernelWritable(memory: seq<byte>, root: nat, va: nat) {
    var m := Paging.Walk(PagesOf(memory), root, 4, va);
    m.Mapped? && m.writable && !m.user
  }

  /** Kernel addresses lead to the loaded image. */
  lemma KernelVisible(memory: seq<byte>, root: nat, kernel: nat, words: seq<nat>, x: nat)
    requires Tables(memory, root, words) && Built(words, root, kernel)
    requires root % PAGE_SIZE == 0 && kernel % PAGE_SIZE == 0 && x < 0x200000
    ensures Seen(memory, root, KERNEL_VMA + x) == Some(kernel + x)
    ensures KernelWritable(memory, root, KERNEL_VMA + x)
  {
    hide User;
    hide Writable;
    hide Index;
    hide TableEntry;
    hide KernelTablePage;
    hide Tables;
    hide Built;
    hide PagesOf;
    hide Present;
    hide Paging.Walk;
    hide Seen;
    var va, page := KERNEL_VMA + x, KernelTablePage(x);
    KernelEntries(root, kernel, x);
    KernelLeaf(memory, root, kernel, words, x);
    WalkThrough(memory, root, kernel, words, va, 3, 2, page);
    WalkThrough(memory, root, kernel, words, va, 1, 3, 3);
    WalkThrough(memory, root, kernel, words, va, 0, 4, 1);
    SeenSmall(memory, root, va, kernel + x / PAGE_SIZE * PAGE_SIZE + 3);
    RoundDown(kernel, x);
  }

  lemma KernelEntries(root: nat, kernel: nat, x: nat)
    requires x < 0x200000
    ensures var va := KERNEL_VMA + x;
            && TableEntry(root, kernel, 3, Index(va, 2)) == root + KernelTablePage(x) * PAGE_SIZE + 3
            && TableEntry(root, kernel, 1, Index(va, 3)) == root + 3 * PAGE_SIZE + 3
            && TableEntry(root, kernel, 0, Index(va, 4)) == root + 1 * PAGE_SIZE + 3
            && va % PAGE_SIZE == x % PAGE_SIZE
  {
    KernelIndex(x);
    hide Index;
  }

  lemma SeenSmall(memory: seq<byte>, root: nat, va: nat, e: nat)
    requires SameLeaf(Paging.Walk(PagesOf(memory), root, 4, va), Leaf(e, 1)) && Present(e)
    ensures Seen(memory, root, va) == Some(e / PAGE_SIZE * PAGE_SIZE + va % PAGE_SIZE)
  {
    hide Paging.Walk;
    hide PagesOf;
    hide Present;
  }

  lemma SeenLarge(memory: seq<byte>, root: nat, va: nat, i: nat)
    requires SameLeaf(Paging.Walk(PagesOf(memory), root, 4, va), Leaf(0x200000 * i + 0x83, 2)) && va / 0x200000 == i
    ensures Seen(memory, root, va) == Some(va)
  {
    LargeEntry(i);
    hide Paging.Walk;
    hide PagesOf;
    hide Present;
    hide PageSize;
  }

  /** One step of the walk through an entry that points to another of the tables. */
  lemma WalkThrough(memory: seq<byte>, root: nat, kernel: nat, words: seq<nat>, va: nat, page: nat, level: nat,
                    next: nat)
    requires Tables(memory, root, words) && Built(words, root, kernel) && root % PAGE_SIZE == 0
    requires page < TABLE_PAGES && level > 1
             && TableEntry(root, kernel, page, Index(va, level)) == root + next * PAGE_SIZE + 3
    ensures SameLeaf(Paging.Walk(PagesOf(memory), root + page * PAGE_SIZE, level, va),
                     Paging.Walk(PagesOf(memory), root + next * PAGE_SIZE, level - 1, va))
  {
    LoadEntry(memory, root, kernel, words, page, Index(va, level));
    TableAt(root, next);
    hide Load;
    hide PagesOf;
    hide Index;
    hide Tables;
    hide Built;
    hide Present;
    hide PageSize;
    hide FrameOf;
    hide Writable;
    hide User;
    hide TableEntry;
  }

  /** Two translations that end at the same entry; the first goes through an entry that bars the user. */
  predicate SameLeaf(m: Mapping, n: Mapping) {
    if n.NotPresent? then m.NotPresent?
    else m.Mapped? && m.entry == n.entry && m.level == n.level && m.writable == n.writable && !m.user
  }

  lemma RoundDown(kernel: nat, x: nat)
    requires kernel % PAGE_SIZE == 0
    ensures (kernel + x / PAGE_SIZE * PAGE_SIZE + 3) / PAGE_SIZE * PAGE_SIZE + x % PAGE_SIZE == kernel + x
  {
    var q, r := kernel / PAGE_SIZE, x / PAGE_SIZE;
    assert kernel + r * PAGE_SIZE + 3 == PAGE_SIZE * (q + r) + 3;
  }

  lemma LowIndex(va: nat)
    requires va < IDENTITY_LIMIT
    ensures Index(va, 4) == 0 && Index(va, 3) == 0 && Index(va, 2) == va / 0x200000
  {
  }

  /** Addresses in the first gigabyte lead to themselves. */
  lemma LowVisible(memory: seq<byte>, root: nat, kernel: nat, words: seq<nat>, va: nat)
    requires Tables(memory, root, words) && Built(words, root, kernel) && root % PAGE_SIZE == 0 && va < IDENTITY_LIMIT
    ensures Seen(memory, root, va) == Some(va) && KernelWritable(memory, root, va)
  {
    var i := va / 0x200000;
    LowIndex(va);
    LoadEntry(memory, root, kernel, words, 2, i);
    LargeEntry(i);
    assert Paging.Walk(PagesOf(memory), root + 2 * PAGE_SIZE, 2, va) == Leaf(0x200000 * i + 0x83, 2) by {
      hide Index;
      hide Load;
      hide PagesOf;
      hide Tables;
      hide Built;
      hide Present;
      hide PageSize;
    }
    WalkThrough(memory, root, kernel, words, va, 1, 3, 2);
    WalkThrough(memory, root, kernel, words, va, 0, 4, 1);
    hide Index;
    hide Tables;
    hide Built;
    hide PagesOf;
    hide Present;
    hide PageSize;
    hide Paging.Walk;
    hide Seen;
    SeenLarge(memory, root, va, i);
  }

  // ---------------------------------------------------------------------------------------------
  // Together
  // ---------------------------------------------------------------------------------------------

  /** Byte `i` of a segment, read at its virtual address through the tables. */
  ghost predicate Visible(memory: seq<byte>, root: nat, p: Program, image: seq<byte>, i: nat)
    requires p.fileSize <= p.memorySize && p.offset + p.fileSize <= |image| && i < p.memorySize
  {
    var a := Seen(memory, root, p.virtual + i);
    a.Some? && a.value < |memory| && memory[a.value] == if i < p.fileSize then image[p.offset + i] else 0
  }

  lemma SegmentVisible(memory: seq<byte>, root: nat, kernel: nat, words: seq<nat>, p: Program, image: seq<byte>, i: nat)
    requires Tables(memory, root, words) && Built(words, root, kernel)
    requires root % PAGE_SIZE == 0 && kernel % PAGE_SIZE == 0 && kernel + KERNEL_PAGES * PAGE_SIZE <= |memory|
    requires SegmentOk(p, |image|, KERNEL_PAGES * PAGE_SIZE) && RunsWhereLinked(p) && i < p.memorySize
    requires Loaded(memory, kernel, p, image, KERNEL_PAGES * PAGE_SIZE)
    ensures Visible(memory, root, p, image, i)
  {
    hide Seen;
    hide Tables;
    hide Built;
    var x := p.physical - KERNEL_PHYSICAL + i;
    KernelVisible(memory, root, kernel, words, x);
    assert p.virtual + i == KERNEL_VMA + x;
    var at := kernel + (p.physical - KERNEL_PHYSICAL);
    assert memory[at..at + p.memorySize][i] == memory[kernel + x];
    assert SegmentBytes(p, image)[i] == if i < p.fileSize then image[p.offset + i] else 0;
    hide SegmentBytes;
  }

  lemma LoadedElsewhere(before: seq<byte>, after: seq<byte>, base: nat, p: Program, image: seq<byte>, window: nat,
                        other: nat, length: nat)
    requires base + window <= |before| && SegmentOk(p, |image|, window) && Loaded(before, base, p, image, window)
    requires OutsideSame(before, after, other, length) && (base + window <= other || other + length <= base)
    ensures Loaded(after, base, p, image, window)
  {
    var at := base + (p.physical - KERNEL_PHYSICAL);
    assert after[at..at + p.memorySize] == before[at..at + p.memorySize];
    hide SegmentBytes;
  }

  /** The loading part of `efi_main`: when both succeed and the segments are disjoint, every byte of every
      load segment that runs where it was linked is visible at its virtual address: the file's byte, or
      zero past the file's part.  Nothing outside the kernel's window and the table pages is written, and
      nothing outside the window when the image is refused. */
  method Boot(memory: array<byte>, image: seq<byte>, kernel: nat, root: nat) returns (ok: bool, entry: nat)
    requires root % PAGE_SIZE == 0 && kernel % PAGE_SIZE == 0
    requires root + 0x6000 <= memory.Length < B64 - 0x400000 && kernel + KERNEL_PAGES * PAGE_SIZE <= memory.Length
    requires kernel + KERNEL_PAGES * PAGE_SIZE <= root || root + 0x6000 <= kernel
    modifies memory
    ensures ok <==> ImageOk(image, KERNEL_PAGES * PAGE_SIZE)
    ensures !ok ==> OutsideSame(old(memory[..]), memory[..], kernel, KERNEL_PAGES * PAGE_SIZE)
    ensures ok ==> entry == Entry(image)
    ensures ok && Disjoint(Programs(image)) ==>
              forall s, i: nat ::
                0 <= s < |Programs(image)| && Loadable(Programs(image)[s]) && RunsWhereLinked(Programs(image)[s])
                && i < Programs(image)[s].memorySize ==>
                Visible(memory[..], root, Programs(image)[s], image, i)
    ensures ok ==> forall a: nat :: a < IDENTITY_LIMIT ==> Seen(memory[..], root, a) == Some(a)
  {
    hide HeaderOk;
    hide Programs;
    hide Loaded;
    hide Entry;
    ok, entry := LoadKernel(memory, image, kernel, KERNEL_PAGES * PAGE_SIZE);
    if !ok { return; }
    ghost var before := memory[..];
    ghost var words := BuildTables(memory, root, kernel);
    hide Tables;
    hide Built;
    hide Seen;
    hide Visible;
    hide SegmentOk;
    hide OutsideSame;
    ghost var programs := Programs(image);
    if Disjoint(programs) {
      forall s, i: nat | 0 <= s < |programs| && Loadable(programs[s]) && RunsWhereLinked(programs[s])
      && i < programs[s].memorySize
        ensures Visible(memory[..], root, programs[s], image, i)
      {
        LoadedElsewhere(before, memory[..], kernel, programs[s], image, KERNEL_PAGES * PAGE_SIZE, root,
                        TABLE_PAGES * PAGE_SIZE);
        SegmentVisible(memory[..], root, kernel, words, programs[s], image, i);
      }
    }
    forall a: nat | a < IDENTITY_LIMIT
      ensures Seen(memory[..], root, a) == Some(a)
    {
      LowVisible(memory[..], root, kernel, words, a);
    }
  }
}
