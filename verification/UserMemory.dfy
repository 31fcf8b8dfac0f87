/** The user address space that `create` of kernel/core/task.c builds, and the range check that the
    system calls make on user addresses. */
module UserMemory {
  import opened Bits
  import opened Options
  import opened Frames
  import opened Paging
  import opened AddressSpaces
  import opened KernelMemory

  const USER_CODE_BASE: nat := 0x400000
  const USER_STACK_BASE: nat := 0x7fffffffd000
  const USER_STACK_END: nat := 0x7ffffffff000
  const TEXT_BUFFER: nat := 0xb8000
  const TASK_MAX_CODE_PAGES: nat := 16
  const USER_LIMIT: nat := 0x800000000000
  const WORD_END: nat := 0x1_0000_0000_0000_0000

  /** Present, writable, user. */
  const CODE_FLAGS: nat := 7
  const NO_EXECUTE: nat := 0x8000000000000000

  datatype Storage = Storage(physical: nat, sectors: nat)

  function StoragePages(storage: Storage): nat {
    if storage.physical == 0 then 0 else (storage.sectors + 7) / 8
  }

  function StoragePage(storage: Storage, p: nat): nat { storage.physical + p * PAGE_SIZE }

  /** The loaded storage lies in user addresses, and its pages can be counted in 32 bits. */
  predicate StorageOk(storage: Storage) {
    StoragePages(storage) < 0x1_0000_0000 && StoragePage(storage, StoragePages(storage)) <= USER_LIMIT
  }

  /** What a task keeps of its address space. */
  datatype Space = Space(root: nat, code: seq<nat>, stack: seq<nat>)

  function CodeRequests(code: seq<nat>): seq<Request> {
    seq(|code|, k requires 0 <= k < |code| => Request(USER_CODE_BASE + k * PAGE_SIZE, code[k], CODE_FLAGS))
  }

  function StackRequests(stack: seq<nat>): seq<Request> {
    seq(|stack|,
        k requires 0 <= k < |stack| => Request(USER_STACK_BASE + k * PAGE_SIZE, stack[k], CODE_FLAGS + NO_EXECUTE))
  }

  function StorageRequests(storage: Storage, n: nat): seq<Request> {
    seq(n, p requires 0 <= p < n => Request(StoragePage(storage, p), StoragePage(storage, p), 5 + NO_EXECUTE))
  }

  /** The mappings of `create`, in order. */
  function Layout(space: Space, storage: Storage): seq<Request> {
    CodeRequests(space.code) + StackRequests(space.stack) + [Request(TEXT_BUFFER, TEXT_BUFFER, CODE_FLAGS)]
    + StorageRequests(storage, StoragePages(storage))
  }

  /** `user_range_valid` */
  predicate RangeValid(codePages: nat, address: nat, length: nat)
    requires address < WORD_END && length < WORD_END
  {
    if length == 0 then address != 0
    else if address > WORD_END - 1 - length then false
    else
      var end := address + length;
      || (address >= USER_STACK_BASE && end <= USER_STACK_END)
      || (address >= USER_CODE_BASE && end <= USER_CODE_BASE + codePages * PAGE_SIZE)
  }

  // ---------------------------------------------------------------------------------------------
  // Building the space
  // ---------------------------------------------------------------------------------------------

  lemma {:induction false} UpdatedAppend(requests: seq<Request>, r: Request, before: Mapping, vb: nat)
    ensures Updated(requests + [r], before, vb)
            == if SamePage(r.va, vb) then Leaf(Or(FrameOf(r.pa), r.flags), 1) else Updated(requests, before, vb)
    decreases |requests|
  {
    hide SamePage;
    hide Or;
    hide FrameOf;
    hide Leaf;
    if requests == [] {
      assert [] + [r] == [r] && [r][1..] == [];
    } else {
      assert (requests + [r])[1..] == requests[1..] + [r];
      var q := requests[0];
      UpdatedAppend(requests[1..], r, if SamePage(q.va, vb) then Leaf(Or(FrameOf(q.pa), q.flags), 1) else before, vb);
    }
  }

  /** What a new space translates before anything is mapped. */
  function NewMapping(m: Memory, vb: nat): Mapping {
    if Index(vb, 4) == KERNEL_SLOT then Translate(m, BOOT_PML4, vb) else NotPresent
  }

  /** The task's frames are distinct, come from the pool, and were not allocated before. */
  ghost predicate FramesFresh(m: Memory, frames: seq<nat>) {
    Distinct(frames) && forall f :: f in frames ==> !Allocated(m, f) && Aligned(f) && f < IDENTITY_LIMIT
  }

  ghost predicate Translates(first: Memory, m: Memory, root: nat, requests: seq<Request>) {
    forall vb: nat :: Translate(m, root, vb) == Updated(requests, NewMapping(first, vb), vb)
  }

  ghost predicate OthersSame(first: Memory, m: Memory, roots: set<nat>) {
    forall r, vb: nat :: r in roots ==> Translate(m, r, vb) == Translate(first, r, vb)
  }

  ghost predicate StillAllocated(first: Memory, m: Memory) {
    forall f: nat :: Allocated(first, f) ==> Allocated(m, f)
  }

  /** A new space, and everything taken and mapped for it so far. */
  ghost predicate Building(first: System, s: System, root: nat, requests: seq<Request>, frames: seq<nat>) {
    && root !in first.roots && s.roots == first.roots + {root} && s.pinned == first.pinned
    && (forall f :: f in s.held <==> f in first.held || f in frames)
    && FramesFresh(first.mem, frames)
    && StillAllocated(first.mem, s.mem)
    && OthersSame(first.mem, s.mem, first.roots)
    && Translates(first.mem, s.mem, root, requests)
  }

  lemma StartStep(s: System, free: seq<nat>, t: Tables) returns (free': seq<nat>, t': Tables)
    requires Sound(s, free, t) && CreateSpace(s.mem).1.Some?
    ensures Sound(Apply(s, NewSpace), free', t')
    ensures Building(s, Apply(s, NewSpace), CreateSpace(s.mem).1.value, [], [])
  {
    hide CreateSpace;
    hide Consistent;
    hide SamePage;
    hide Allocated;
    hide Translate;
    hide PagesKept;
    hide Forest;
    free', t' := NewSpaceSound(s, free, t);
    var f1, t1 := CreateSpaceOk(s.mem, free, t);
  }

  lemma HeldAllocated(s: System, free: seq<nat>, t: Tables)
    requires Sound(s, free, t)
    ensures forall f :: f in s.held ==> Allocated(s.mem, f)
    ensures forall f :: f in s.roots ==> Allocated(s.mem, f)
  {
    hide Consistent;
    hide Allocated;
  }

  lemma SoundConsistent(s: System, free: seq<nat>, t: Tables)
    requires Sound(s, free, t)
    ensures Consistent(s.mem, free) && s.mem.poolEnd <= IDENTITY_LIMIT
  {
    PoolOkWhenConsistent(s.mem, free);
  }

  lemma TakeTranslates(first: System, s: System, n: System, root: nat, requests: seq<Request>)
    requires OthersTranslateSame(s, TakeFrame, n) && n.roots == s.roots == first.roots + {root}
    requires OthersSame(first.mem, s.mem, first.roots) && Translates(first.mem, s.mem, root, requests)
    ensures OthersSame(first.mem, n.mem, first.roots) && Translates(first.mem, n.mem, root, requests)
  {
    hide Translate;
    hide Updated;
    hide NewMapping;
  }

  lemma TakeFresh(first: Memory, m: Memory, n: Memory, frames: seq<nat>, r: nat)
    requires FramesFresh(first, frames) && StillAllocated(first, m)
    requires !Allocated(m, r) && Aligned(r) && r < IDENTITY_LIMIT && forall f :: f in frames ==> Allocated(m, f)
    requires forall g: nat :: Allocated(n, g) == (g == r || Allocated(m, g))
    ensures FramesFresh(first, frames + [r]) && StillAllocated(first, n)
  {
    hide Allocated;
  }

  lemma TakeStep(first: System, s: System, free: seq<nat>, t: Tables, root: nat, requests: seq<Request>,
                 frames: seq<nat>)
    returns (free': seq<nat>)
    requires Sound(s, free, t) && Building(first, s, root, requests, frames) && Allocate(s.mem).1.Some?
    ensures Sound(Apply(s, TakeFrame), free', t)
    ensures Building(first, Apply(s, TakeFrame), root, requests, frames + [Allocate(s.mem).1.value])
  {
    hide Allocate;
    hide Sound;
    hide Consistent;
    hide Allocated;
    hide Translates;
    hide OthersSame;
    hide StillAllocated;
    hide FramesFresh;
    free' := TakeFrameSound(s, free, t);
    SoundConsistent(s, free, t);
    HeldAllocated(s, free, t);
    var f1 := AllocateOk(s.mem, free);
    TakeTranslates(first, s, Apply(s, TakeFrame), root, requests);
    TakeFresh(first.mem, s.mem, Allocate(s.mem).0, frames, Allocate(s.mem).1.value);
  }

  lemma MapKeepsAllocated(s: System, free: seq<nat>, t: Tables, op: Op)
    requires Sound(s, free, t) && op.Map? && Legal(s, op)
    ensures StillAllocated(s.mem, Apply(s, op).mem)
  {
    hide Consistent;
    hide Allocated;
    hide Translate;
    hide PagesKept;
    hide MapPage;
    hide RootsKept;
    hide SamePage;
    hide Or;
    hide FrameOf;
    assert Index(op.va, 4) != KERNEL_SLOT;
    hide Index;
    var free', t' := MapPageOk(s.mem, free, t, op.root, op.va, op.pa, op.flags);
    hide Forest;
  }

  lemma MapStep(first: System, s: System, free: seq<nat>, t: Tables, root: nat, requests: seq<Request>,
                frames: seq<nat>, r: Request)
    returns (free': seq<nat>, t': Tables)
    requires Sound(s, free, t) && Building(first, s, root, requests, frames) && Index(r.va, 4) != KERNEL_SLOT
    requires MapPage(s.mem, root, r.va, r.pa, r.flags).1
    ensures Sound(Apply(s, Map(root, r.va, r.pa, r.flags)), free', t')
    ensures Building(first, Apply(s, Map(root, r.va, r.pa, r.flags)), root, requests + [r], frames)
  {
    hide Index;
    hide MapPage;
    hide Sound;
    hide Translates;
    hide OthersSame;
    hide StillAllocated;
    hide OthersTranslateSame;
    hide FramesFresh;
    hide Allocated;
    hide Translate;
    hide SamePage;
    hide Or;
    hide FrameOf;
    var op := Map(root, r.va, r.pa, r.flags);
    var n := Apply(s, op);
    free', t' := MapSound(s, free, t, op);
    MapKeepsAllocated(s, free, t, op);
    MapTranslates(first, s, op, root, requests, r);
    MapOthers(first, s, op, root);
    StillAllocatedSame(first.mem, s.mem, n.mem);
  }

  lemma StillAllocatedSame(a: Memory, b: Memory, c: Memory)
    requires StillAllocated(a, b) && StillAllocated(b, c)
    ensures StillAllocated(a, c)
  {
    hide Allocated;
  }

  lemma MapTranslates(first: System, s: System, op: Op, root: nat, requests: seq<Request>, r: Request)
    requires op == Map(root, r.va, r.pa, r.flags) && root in s.roots
    requires Translates(first.mem, s.mem, root, requests) && OthersTranslateSame(s, op, Apply(s, op))
    requires forall vb: nat :: SamePage(r.va, vb) ==>
               Translate(Apply(s, op).mem, root, vb) == Leaf(Or(FrameOf(r.pa), r.flags), 1)
    ensures Translates(first.mem, Apply(s, op).mem, root, requests + [r])
  {
    var n := Apply(s, op);
    assert n.roots == s.roots;
    hide Apply;
    hide Translate;
    hide Updated;
    hide NewMapping;
    hide SamePage;
    hide Or;
    hide FrameOf;
    hide Leaf;
    forall vb: nat
      ensures Translate(n.mem, root, vb) == Updated(requests + [r], NewMapping(first.mem, vb), vb)
    {
      UpdatedAppend(requests, r, NewMapping(first.mem, vb), vb);
    }
  }

  lemma MapOthers(first: System, s: System, op: Op, root: nat)
    requires op.Map? && op.root == root && root !in first.roots && s.roots == first.roots + {root}
    requires OthersSame(first.mem, s.mem, first.roots) && OthersTranslateSame(s, op, Apply(s, op))
    ensures OthersSame(first.mem, Apply(s, op).mem, first.roots)
  {
    assert Apply(s, op).roots == s.roots;
    hide Apply;
    hide Translate;
    hide SamePage;
  }

  /** Proof state: the run so far, and what was mapped and taken. */
  datatype Progress = Progress(now: System, free: seq<nat>, tables: Tables, requests: seq<Request>, frames: seq<nat>)

  ghost predicate Ready(memory: PhysicalMemory, first: System, root: nat, p: Progress)
    reads memory
  {
    p.now.mem == memory.State() && Sound(p.now, p.free, p.tables) && Building(first, p.now, root, p.requests, p.frames)
  }

  lemma ReadyAllocates(s: System, free: seq<nat>, t: Tables)
    requires Sound(s, free, t)
    ensures Consistent(s.mem, free) && Forest(s.mem, t)
    ensures PoolOk(s.mem) && MemoryMapped(s.mem.pages)
    ensures s.mem.freeHead != 0 ==> s.mem.poolStart <= s.mem.freeHead < s.mem.poolEnd && Aligned(s.mem.freeHead)
    ensures forall f :: f in s.roots ==> IsRoot(t, f)
  {
    FreeHeadOk(s.mem, free);
    hide Consistent;
    hide Forest;
    hide Allocated;
  }

  /** No frame is left, neither on the free list nor above it. */
  ghost predicate Exhausted(m: Memory) { Consistent(m, []) && m.nextFrame == m.poolEnd }

  lemma TakeFails(m: Memory, free: seq<nat>)
    requires Consistent(m, free) && Allocate(m).1 == None
    ensures Exhausted(Allocate(m).0)
  {
    hide Consistent;
    hide Allocate;
    var free' := AllocateOk(m, free);
  }

  lemma MapFails(m: Memory, free: seq<nat>, t: Tables, root: nat, va: nat, pa: nat, flags: nat)
    requires Consistent(m, free) && Forest(m, t) && IsRoot(t, root) && Index(va, 4) != KERNEL_SLOT
    requires !MapPage(m, root, va, pa, flags).1
    ensures Exhausted(MapPage(m, root, va, pa, flags).0)
  {
    hide Consistent;
    hide Forest;
    hide MapPage;
    var free', t' := MapPageOk(m, free, t, root, va, pa, flags);
  }

  lemma CreateFails(m: Memory, free: seq<nat>, t: Tables)
    requires Consistent(m, free) && Forest(m, t) && CreateSpace(m).1 == None
    ensures Exhausted(CreateSpace(m).0)
  {
    hide Consistent;
    hide Forest;
    hide CreateSpace;
    var free', t' := CreateSpaceOk(m, free, t);
  }

  method Take(memory: PhysicalMemory, ghost first: System, ghost root: nat, ghost p: Progress)
    returns (frame: Option<nat>, ghost p': Progress)
    requires Ready(memory, first, root, p)
    modifies memory
    ensures frame.Some? ==>
              Ready(memory, first, root, p') && p'.frames == p.frames + [frame.value] && p'.requests == p.requests
    ensures frame == None ==> Exhausted(memory.State())
  {
    ReadyAllocates(p.now, p.free, p.tables);
    hide Exhausted;
    hide Sound;
    hide Building;
    hide Allocate;
    p' := p;
    frame := memory.FrameAllocate();
    if frame.Some? {
      ghost var free' := TakeStep(first, p.now, p.free, p.tables, root, p.requests, p.frames);
      p' := Progress(Apply(p.now, TakeFrame), free', p.tables, p.requests, p.frames + [frame.value]);
    } else {
      TakeFails(p.now.mem, p.free);
    }
  }

  method MapOne(memory: PhysicalMemory, root: nat, va: nat, pa: nat, flags: nat, ghost first: System, ghost p: Progress)
    returns (done: bool, ghost p': Progress)
    requires Ready(memory, first, root, p) && Index(va, 4) != KERNEL_SLOT
    modifies memory
    ensures done ==> Ready(memory, first, root,
                           p') && p'.frames == p.frames && p'.requests == p.requests + [Request(va, pa, flags)]
    ensures !done ==> Exhausted(memory.State())
  {
    ReadyAllocates(p.now, p.free, p.tables);
    RootReady(first, p, root);
    assert Apply(p.now, Map(root, va, pa, flags)).mem == MapPage(p.now.mem, root, va, pa, flags).0;
    hide Exhausted;
    hide Sound;
    hide Building;
    hide MapPage;
    hide Apply;
    hide Consistent;
    hide Forest;
    hide Index;
    p' := p;
    done := memory.MapVirtualPage(root, va, pa, flags, p.free, p.tables);
    if done {
      ghost var free', t' := MapStep(first, p.now, p.free, p.tables, root, p.requests, p.frames,
                                     Request(va, pa, flags));
      p' := Progress(Apply(p.now, Map(root, va, pa, flags)), free', t', p.requests + [Request(va, pa, flags)],
                     p.frames);
    } else {
      MapFails(p.now.mem, p.free, p.tables, root, va, pa, flags);
    }
  }

  lemma RootReady(first: System, p: Progress, root: nat)
    requires Building(first, p.now, root, p.requests, p.frames)
    ensures root in p.now.roots
  {
  }

  /** A frame of its own for one page of the task. */
  method MapFresh(memory: PhysicalMemory, root: nat, va: nat, flags: nat, ghost first: System, ghost p: Progress)
    returns (frame: Option<nat>, ghost p': Progress)
    requires Ready(memory, first, root, p) && Index(va, 4) != KERNEL_SLOT
    modifies memory
    ensures frame.Some? ==>
              Ready(memory, first, root, p') && p'.frames == p.frames + [frame.value]
              && p'.requests == p.requests + [Request(va, frame.value, flags)]
    ensures frame == None ==> Exhausted(memory.State())
  {
    hide Exhausted;
    hide Ready;
    hide Index;
    frame, p' := Take(memory, first, root, p);
    if frame.Some? {
      var done;
      done, p' := MapOne(memory, root, va, frame.value, flags, first, p');
      if !done { frame := None; }
    }
  }

  method MapCode(memory: PhysicalMemory, root: nat, pages: nat, ghost first: System, ghost p: Progress)
    returns (code: Option<seq<nat>>, ghost p': Progress)
    requires Ready(memory, first, root, p) && p.requests == [] && p.frames == [] && pages <= TASK_MAX_CODE_PAGES
    modifies memory
    ensures code.Some? ==>
              && Ready(memory, first, root, p') && |code.value| == pages
              && p'.requests == CodeRequests(code.value) && p'.frames == code.value
    ensures code == None ==> Exhausted(memory.State())
  {
    hide Exhausted;
    hide Ready;
    hide Index;
    var done: seq<nat> := [];
    p' := p;
    while |done| < pages
      invariant |done| <= pages
      invariant Ready(memory, first, root, p') && p'.requests == CodeRequests(done) && p'.frames == done
    {
      var va: nat := USER_CODE_BASE + |done| * PAGE_SIZE;
      UserIndex(va);
      var frame;
      frame, p' := MapFresh(memory, root, va, CODE_FLAGS, first, p');
      if frame == None { return None, p'; }
      assert CodeRequests(done + [frame.value]) == CodeRequests(done) + [Request(va, frame.value, CODE_FLAGS)];
      done := done + [frame.value];
    }
    code := Some(done);
  }

  method MapStack(memory: PhysicalMemory, root: nat, ghost first: System, ghost p: Progress)
    returns (stack: Option<seq<nat>>, ghost p': Progress)
    requires Ready(memory, first, root, p)
    modifies memory
    ensures stack.Some? ==>
              && Ready(memory, first, root, p') && |stack.value| == 2
              && p'.requests == p.requests + StackRequests(stack.value) && p'.frames == p.frames + stack.value
    ensures stack == None ==> Exhausted(memory.State())
  {
    hide Exhausted;
    hide Ready;
    hide Index;
    UserIndex(USER_STACK_BASE);
    UserIndex(USER_STACK_BASE + PAGE_SIZE);
    stack := None;
    var low, high;
    low, p' := MapFresh(memory, root, USER_STACK_BASE, CODE_FLAGS + NO_EXECUTE, first, p);
    if low == None { return; }
    high, p' := MapFresh(memory, root, USER_STACK_BASE + PAGE_SIZE, CODE_FLAGS + NO_EXECUTE, first, p');
    if high == None { return; }
    stack := Some([low.value, high.value]);
    ghost var requests := StackRequests(stack.value);
    assert requests == [Request(USER_STACK_BASE, low.value, CODE_FLAGS + NO_EXECUTE)]
                       + [Request(USER_STACK_BASE + PAGE_SIZE, high.value, CODE_FLAGS + NO_EXECUTE)];
  }

  /** The storage is mapped where it lies. */
  method MapStorage(memory: PhysicalMemory, root: nat, storage: Storage, ghost first: System, ghost p: Progress)
    returns (done: bool, ghost p': Progress)
    requires Ready(memory, first, root, p) && StorageOk(storage)
    modifies memory
    ensures done ==>
              && Ready(memory, first, root, p') && p'.frames == p.frames
              && p'.requests == p.requests + StorageRequests(storage, StoragePages(storage))
    ensures !done ==> Exhausted(memory.State())
  {
    hide Exhausted;
    hide Ready;
    hide Index;
    p' := p;
    done := true;
    var page := 0;
    assert p.requests == p.requests + StorageRequests(storage, 0);
    while page < StoragePages(storage)
      invariant 0 <= page <= StoragePages(storage)
      invariant Ready(memory, first, root, p') && p'.frames == p.frames
      invariant p'.requests == p.requests + StorageRequests(storage, page)
    {
      var physical: nat := storage.physical + page * PAGE_SIZE;
      UserIndex(physical);
      assert StorageRequests(storage, page + 1) == StorageRequests(storage, page)
               + [Request(physical, physical, 5 + NO_EXECUTE)];
      done, p' := MapOne(memory, root, physical, physical, 5 + NO_EXECUTE, first, p');
      if !done { return; }
      page := page + 1;
    }
  }

  /** The lower half of the addresses is below the kernel's slot. */
  lemma UserIndex(va: nat)
    requires va < USER_LIMIT
    ensures Index(va, 4) != KERNEL_SLOT
  {
  }

  lemma StartReady(memory: PhysicalMemory, first: System, p: Progress, root: nat)
    requires p.now.mem == memory.State() && Sound(p.now, p.free, p.tables)
    requires Building(first, p.now, root, p.requests, p.frames)
    ensures Ready(memory, first, root, p)
  {
  }

  function CodePages(size: nat): nat { (size + PAGE_SIZE - 1) / PAGE_SIZE % 0x1_0000_0000 }

  /** The code takes the least number of pages that holds it, for all images below 2^44 bytes. */
  lemma CodePagesLeast(size: nat)
    requires size + 0x1000 <= 0x1000_0000_0000
    ensures size <= CodePages(size) * 0x1000 < size + 0x1000
  {
  }

  /** The mappings of `create`, in its order. */
  method MapTask(memory: PhysicalMemory, root: nat, pages: nat, storage: Storage, ghost first: System,
                 ghost p: Progress)
    returns (space: Option<Space>, ghost p': Progress)
    requires Ready(memory, first, root, p) && p.requests == [] && p.frames == [] && StorageOk(storage)
    requires 1 <= pages <= TASK_MAX_CODE_PAGES
    modifies memory
    ensures space.Some? ==>
              && space.value.root == root && |space.value.code| == pages && |space.value.stack| == 2
              && Ready(memory, first, root, p')
              && p'.requests == Layout(space.value, storage) && p'.frames == space.value.code + space.value.stack
    ensures space == None ==> Exhausted(memory.State())
  {
    hide Exhausted;
    hide Ready;
    hide Index;
    hide Layout;
    hide CodeRequests;
    hide StackRequests;
    hide StorageRequests;
    space := None;
    var code, stack, done;
    code, p' := MapCode(memory, root, pages, first, p);
    if code == None { return; }
    stack, p' := MapStack(memory, root, first, p');
    if stack == None { return; }
    UserIndex(TEXT_BUFFER);
    done, p' := MapOne(memory, root, TEXT_BUFFER, TEXT_BUFFER, CODE_FLAGS, first, p');
    if !done { return; }
    done, p' := MapStorage(memory, root, storage, first, p');
    if !done { return; }
    space := Some(Space(root, code.value, stack.value));
    LayoutParts(space.value, storage);
  }

  lemma LayoutParts(space: Space, storage: Storage)
    ensures Layout(space, storage)
            == CodeRequests(space.code) + StackRequests(space.stack) + [Request(TEXT_BUFFER, TEXT_BUFFER, CODE_FLAGS)]
               + StorageRequests(storage, StoragePages(storage))
  {
  }

  /** `create`: build the address space of a task; `None` stands for the halt, which happens only when the
      image does not fit or no frame is left. */
  method Create(memory: PhysicalMemory, size: nat, storage: Storage, ghost first: System, ghost free: seq<nat>,
                ghost t: Tables)
    returns (space: Option<Space>, ghost p: Progress)
    requires Sound(first, free, t) && first.mem == memory.State() && StorageOk(storage)
    requires size + PAGE_SIZE < WORD_END
    modifies memory
    ensures space.Some? ==>
              && 1 <= |space.value.code| <= TASK_MAX_CODE_PAGES && |space.value.stack| == 2
              && |space.value.code| == CodePages(size)
              && Ready(memory, first, space.value.root, p)
              && p.requests == Layout(space.value, storage) && p.frames == space.value.code + space.value.stack
    ensures space == None ==> CodePages(size) == 0 || CodePages(size) > TASK_MAX_CODE_PAGES || Exhausted(memory.State())
  {
    ReadyAllocates(first, free, t);
    hide Sound;
    hide Building;
    hide Consistent;
    hide CreateSpace;
    hide Index;
    hide Exhausted;
    p := Progress(first, free, t, [], []);
    space := None;
    var root := memory.AddressSpaceCreate(free);
    if root == None {
      CreateFails(first.mem, free, t);
      return;
    }
    ghost var free', t' := StartStep(first, free, t);
    p := Progress(Apply(first, NewSpace), free', t', [], []);
    StartReady(memory, first, p, root.value);
    hide Ready;
    var pages := CodePages(size);
    if pages == 0 || pages > TASK_MAX_CODE_PAGES { return; }
    space, p := MapTask(memory, root.value, pages, storage, first, p);
  }

  // ---------------------------------------------------------------------------------------------
  // What the range check admits
  // ---------------------------------------------------------------------------------------------

  /** The physical page of a leaf entry: bits 12 to 51. */
  function Physical(entry: nat): nat { entry / PAGE_SIZE % 0x100_0000_0000 * PAGE_SIZE }

  /** `m` is a page of the user in `frame`.  In its entry, bit 0 says present, bit 1 writable, bit 2 user, and
      bit 63 that nothing may be executed. */
  predicate Maps(m: Mapping, frame: nat, writable: bool, executable: bool) {
    && m.Mapped? && m.level == 1 && m.user && m.writable == writable && Physical(m.entry) == frame
    && Bit(m.entry, 0) && Bit(m.entry, 1) == writable && Bit(m.entry, 2) && Bit(m.entry, 63) == !executable
  }

  lemma {:induction false} OrComm(a: nat, b: nat)
    ensures Or(a, b) == Or(b, a)
  {
    if a != 0 && b != 0 { OrComm(a / 2, b / 2); }
  }

  lemma OrPages(q: nat, p: nat, low: nat)
    requires low < PAGE_SIZE
    ensures Or(PAGE_SIZE * q, PAGE_SIZE * p + low) == PAGE_SIZE * Or(q, p) + low
  {
    OrShifted(q, p, low, 12);
    Twelve(q);
    Twelve(p);
    Twelve(Or(q, p));
    assert Shl1(12) == PAGE_SIZE;
  }

  lemma Twelve(q: nat)
    ensures Shl(q, 12) == PAGE_SIZE * q
  {
    ShlProduct(q, 12);
    assert Shl1(12) == PAGE_SIZE;
  }

  lemma {:induction false} OrShifted(q: nat, p: nat, low: nat, k: nat)
    requires low < Shl1(k)
    ensures Or(Shl(q, k), Shl(p, k) + low) == Shl(Or(q, p), k) + low
  {
    if k > 0 { OrShifted(q, p, low / 2, k - 1); }
  }

  lemma TopBitOr(q: nat)
    requires q < 0x8_0000_0000_0000
    ensures Or(q, 0x8_0000_0000_0000) == q + 0x8_0000_0000_0000
  {
    OrComm(q, 0x8_0000_0000_0000);
    BitFiftyOne();
    OrDisjoint(1, q, 51);
  }

  lemma BitFiftyOne()
    ensures Shl1(51) == Shl(1, 51) == 0x8_0000_0000_0000
  {
    assert Shl1(8) == 0x100;
    assert Shl1(16) == 0x1_0000;
    ShlTwice(1, 16, 16);
    ShlTwice(1, 32, 16);
    ShlTwice(1, 48, 3);
    ShlProduct(0x1_0000, 16);
    ShlProduct(0x1_0000_0000, 16);
    assert Shl(Shl(1, 48), 3) == 8 * Shl(1, 48);
  }

  /** A leaf for a frame and the flags of `create` decodes to that frame and those flags. */
  lemma LeafDecodes(frame: nat, low: nat, noExecute: bool)
    requires Aligned(frame) && frame < 0x10_0000_0000_0000 && (low == 5 || low == 7)
    ensures Maps(Leaf(Or(FrameOf(frame), low + if noExecute then NO_EXECUTE else 0), 1), frame, low == 7, !noExecute)
  {
    var q, p := frame / PAGE_SIZE, if noExecute then 0x8_0000_0000_0000 else 0;
    assert FrameOf(frame) == PAGE_SIZE * q;
    LeafBits(frame, low, noExecute);
    LeafWord(q, p, low);
    FlagBits(q + p, low);
    hide Or;
    hide Bit;
    hide Present;
    hide User;
    hide Writable;
    assert (q + p) % 0x100_0000_0000 == q;
  }

  lemma LeafBits(frame: nat, low: nat, noExecute: bool)
    requires frame < 0x10_0000_0000_0000 && (low == 5 || low == 7)
    ensures var e := Or(FrameOf(frame), low + if noExecute then NO_EXECUTE else 0);
            Bit(e, 0) && Bit(e, 1) == (low == 7) && Bit(e, 2) && Bit(e, 63) == noExecute
  {
    var flags := low + if noExecute then NO_EXECUTE else 0;
    hide Or;
    hide Bit;
    FlagWord(low, noExecute);
    FrameBits(frame);
    OrBit(FrameOf(frame), flags, 0);
    OrBit(FrameOf(frame), flags, 1);
    OrBit(FrameOf(frame), flags, 2);
    OrBit(FrameOf(frame), flags, 63);
  }

  /** The flag words of `create`, bit by bit. */
  lemma FlagWord(low: nat, noExecute: bool)
    requires low == 5 || low == 7
    ensures var w := low + if noExecute then NO_EXECUTE else 0;
            Bit(w, 0) && Bit(w, 1) == (low == 7) && Bit(w, 2) && Bit(w, 63) == noExecute
  {
    LowFlags(low);
    if noExecute {
      BitSixtyThree();
      hide Bit;
      assert Shl1(3) == 8;
      Shl1Grows(3, 63);
      OrDisjoint(1, low, 63);
      OrBit(Shl(1, 63), low, 0);
      OrBit(Shl(1, 63), low, 1);
      OrBit(Shl(1, 63), low, 2);
      OrBit(Shl(1, 63), low, 63);
      Shl1Bit(63, 0);
      Shl1Bit(63, 1);
      Shl1Bit(63, 2);
      Shl1Bit(63, 63);
    }
  }

  lemma LowFlags(low: nat)
    requires low == 5 || low == 7
    ensures Bit(low, 0) && Bit(low, 1) == (low == 7) && Bit(low, 2) && !Bit(low, 63)
  {
    assert Shl1(3) == 8;
    HighBit(low, 3, 63);
    assert Bit(low, 1) == Bit(low / 2, 0) && Bit(low, 2) == Bit(low / 2, 1) == Bit(low / 2 / 2, 0);
  }

  lemma BitSixtyThree()
    ensures Shl1(63) == Shl(1, 63) == NO_EXECUTE
  {
    BitFiftyOne();
    ShlTwice(1, 51, 12);
    Twelve(0x8_0000_0000_0000);
  }

  /** The address of a frame leaves the flag bits clear. */
  lemma FrameBits(frame: nat)
    requires frame < 0x10_0000_0000_0000
    ensures !Bit(FrameOf(frame), 0) && !Bit(FrameOf(frame), 1) && !Bit(FrameOf(frame), 2) && !Bit(FrameOf(frame), 63)
  {
    var q := frame / PAGE_SIZE;
    assert FrameOf(frame) == PAGE_SIZE * q;
    BitSixtyThree();
    HighBit(FrameOf(frame), 63, 63);
    Twelve(q);
    ShlBit(q, 12, 0);
    ShlBit(q, 12, 1);
    ShlBit(q, 12, 2);
  }

  lemma LeafWord(q: nat, p: nat, low: nat)
    requires low < PAGE_SIZE && q < 0x8_0000_0000_0000 && (p == 0 || p == 0x8_0000_0000_0000)
    ensures Or(PAGE_SIZE * q, low + PAGE_SIZE * p) == PAGE_SIZE * (q + p) + low
  {
    OrPages(q, p, low);
    if p == 0 { OrComm(q, 0); } else { TopBitOr(q); }
    hide Or;
  }

  lemma FlagBits(q: nat, low: nat)
    requires low == 5 || low == 7
    ensures var e := PAGE_SIZE * q + low;
            Present(e) && User(e) && (Writable(e) <==> low == 7) && e / PAGE_SIZE == q
  {
    var middle := if low == 7 then 1 else 0;
    HalfOf(2048 * q + 2 + middle, 1);
    HalfOf(1024 * q + 1, middle);
    HalfOf(512 * q, 1);
    assert PAGE_SIZE * q + low == 2 * (2048 * q + 2 + middle) + 1;
    assert 2048 * q + 2 + middle == 2 * (1024 * q + 1) + middle;
    assert 1024 * q + 1 == 2 * (512 * q) + 1;
    PageQuotient(q, low);
    Quarter(PAGE_SIZE * q + low);
  }

  lemma {:induction false} UpdatedAtLast(a: seq<Request>, r: Request, b: seq<Request>, before: Mapping, vb: nat)
    requires SamePage(r.va, vb) && forall i :: 0 <= i < |b| ==> !SamePage(b[i].va, vb)
    ensures Updated(a + [r] + b, before, vb) == Leaf(Or(FrameOf(r.pa), r.flags), 1)
    decreases |b|
  {
    hide SamePage;
    hide Or;
    hide FrameOf;
    if b == [] {
      assert a + [r] + b == a + [r];
      UpdatedAppend(a, r, before, vb);
    } else {
      var last := b[|b| - 1];
      assert a + [r] + b == (a + [r] + b[..|b| - 1]) + [last];
      UpdatedAppend(a + [r] + b[..|b| - 1], last, before, vb);
      UpdatedAtLast(a, r, b[..|b| - 1], before, vb);
    }
  }

  /** The same, by position in the whole sequence. */
  lemma UpdatedAt(requests: seq<Request>, k: nat, before: Mapping, vb: nat)
    requires k < |requests| && SamePage(requests[k].va, vb)
    requires forall i :: k < i < |requests| ==> !SamePage(requests[i].va, vb)
    ensures Updated(requests, before, vb) == Leaf(Or(FrameOf(requests[k].pa), requests[k].flags), 1)
  {
    hide SamePage;
    hide Updated;
    hide Or;
    hide FrameOf;
    assert requests == requests[..k] + [requests[k]] + requests[k + 1..];
    UpdatedAtLast(requests[..k], requests[k], requests[k + 1..], before, vb);
  }

  /** User addresses are on one page exactly when their page numbers are equal. */
  lemma UserSamePage(a: nat, b: nat)
    requires a < USER_LIMIT && b < USER_LIMIT
    ensures SamePage(a, b) <==> a / PAGE_SIZE == b / PAGE_SIZE
  {
    SamePageIsSameNumber(a, b);
  }

  /** The storage lies at none of the addresses of the task's own code and stack pages. */
  predicate StorageApart(storage: Storage, address: nat) {
    forall p :: 0 <= p < StoragePages(storage) ==> StoragePage(storage, p) / PAGE_SIZE != address / PAGE_SIZE
  }

  predicate SpaceOk(space: Space) {
    && 1 <= |space.code| <= TASK_MAX_CODE_PAGES && |space.stack| == 2
    && (forall k :: 0 <= k < |space.code| ==> Aligned(space.code[k]) && space.code[k] < IDENTITY_LIMIT)
    && (forall k :: 0 <= k < |space.stack| ==> Aligned(space.stack[k]) && space.stack[k] < IDENTITY_LIMIT)
  }

  predicate Owned(space: Space, address: nat) {
    || USER_CODE_BASE <= address < USER_CODE_BASE + |space.code| * PAGE_SIZE
    || USER_STACK_BASE <= address < USER_STACK_END
  }

  /** The frame that `create` took for the page of an address. */
  function FrameFor(space: Space, address: nat): nat
    requires SpaceOk(space) && Owned(space, address)
  {
    if address < USER_STACK_BASE then space.code[(address - USER_CODE_BASE) / PAGE_SIZE]
    else space.stack[(address - USER_STACK_BASE) / PAGE_SIZE]
  }

  /** The place of an address's own request among those of `create`. */
  function OwnRequest(space: Space, address: nat): nat
    requires SpaceOk(space) && Owned(space, address)
  {
    if address < USER_STACK_BASE then (address - USER_CODE_BASE) / PAGE_SIZE
    else |space.code| + (address - USER_STACK_BASE) / PAGE_SIZE
  }

  lemma LayoutAt(space: Space, storage: Storage, i: nat)
    requires |space.stack| == 2 && i < |Layout(space, storage)|
    ensures |Layout(space, storage)| == |space.code| + 3 + StoragePages(storage)
    ensures Layout(space, storage)[i] ==
            if i < |space.code| then Request(USER_CODE_BASE + i * PAGE_SIZE, space.code[i], CODE_FLAGS)
            else if i < |space.code| + 2 then
              Request(USER_STACK_BASE + (i - |space.code|) * PAGE_SIZE, space.stack[i - |space.code|],
                      CODE_FLAGS + NO_EXECUTE)
            else if i == |space.code| + 2 then Request(TEXT_BUFFER, TEXT_BUFFER, CODE_FLAGS)
            else
              var page := StoragePage(storage, i - |space.code| - 3);
              Request(page, page, 5 + NO_EXECUTE)
  {
  }

  lemma OwnRequestOk(space: Space, storage: Storage, address: nat)
    requires SpaceOk(space) && StorageOk(storage) && Owned(space, address)
    ensures var k, requests := OwnRequest(space, address), Layout(space, storage);
            && k < |space.code| + 2 <= |requests|
            && SamePage(requests[k].va, address) && requests[k].pa == FrameFor(space, address)
            && requests[k].flags == CODE_FLAGS + (if address < USER_STACK_BASE then 0 else NO_EXECUTE)
            && forall i :: k < i < |space.code| + 3 ==> !SamePage(requests[i].va, address)
  {
    hide Layout;
    hide SamePage;
    LayoutSize(space, storage);
    var k, requests := OwnRequest(space, address), Layout(space, storage);
    LayoutAt(space, storage, k);
    UserSamePage(requests[k].va, address);
    forall i | k < i < |space.code| + 3
      ensures !SamePage(requests[i].va, address)
    {
      LayoutAt(space, storage, i);
      UserSamePage(requests[i].va, address);
    }
  }

  lemma LayoutSize(space: Space, storage: Storage)
    requires |space.stack| == 2
    ensures |Layout(space, storage)| == |space.code| + 3 + StoragePages(storage)
  {
  }

  /** The storage page that a request of `create` maps. */
  lemma StorageRequest(space: Space, storage: Storage, address: nat, p: nat)
    requires SpaceOk(space) && StorageOk(storage) && address < USER_LIMIT && p < StoragePages(storage)
    ensures |Layout(space, storage)| == |space.code| + 3 + StoragePages(storage)
    ensures var r := Layout(space, storage)[|space.code| + 3 + p];
            && r == Request(StoragePage(storage, p), StoragePage(storage, p), 5 + NO_EXECUTE)
            && (SamePage(r.va, address) <==> StoragePage(storage, p) / PAGE_SIZE == address / PAGE_SIZE)
  {
    hide Layout;
    hide SamePage;
    LayoutSize(space, storage);
    LayoutAt(space, storage, |space.code| + 3 + p);
    UserSamePage(StoragePage(storage, p), address);
  }

  /** Requests behind request `k` of the storage, or behind all before the storage, that map other pages. */
  lemma LaterElsewhere(space: Space, storage: Storage, address: nat, from: nat)
    requires SpaceOk(space) && StorageOk(storage) && address < USER_LIMIT
    requires forall p: nat :: from <= p < StoragePages(storage) ==>
               StoragePage(storage, p) / PAGE_SIZE != address / PAGE_SIZE
    ensures |Layout(space, storage)| == |space.code| + 3 + StoragePages(storage)
    ensures forall i :: |space.code| + 3 + from <= i < |Layout(space, storage)| ==>
              !SamePage(Layout(space, storage)[i].va, address)
  {
    hide Layout;
    hide SamePage;
    LayoutSize(space, storage);
    forall i | |space.code| + 3 + from <= i < |Layout(space, storage)|
      ensures !SamePage(Layout(space, storage)[i].va, address)
    {
      StorageRequest(space, storage, address, i - (|space.code| + 3));
    }
  }

  lemma LastStorage(storage: Storage, address: nat, n: nat) returns (p: nat)
    requires n <= StoragePages(storage) && exists p: nat :: p < n
                                             && StoragePage(storage, p) / PAGE_SIZE == address / PAGE_SIZE
    ensures p < n && StoragePage(storage, p) / PAGE_SIZE == address / PAGE_SIZE
    ensures forall o: nat :: p < o < n ==> StoragePage(storage, o) / PAGE_SIZE != address / PAGE_SIZE
  {
    if StoragePage(storage, n - 1) / PAGE_SIZE == address / PAGE_SIZE {
      p := n - 1;
    } else {
      p := LastStorage(storage, address, n - 1);
    }
  }

  /** Where the storage is mapped, an address translates to itself and the user can only read. */
  lemma StorageTranslates(first: System, m: Memory, space: Space, storage: Storage, address: nat)
    requires SpaceOk(space) && StorageOk(storage) && address < USER_LIMIT && !StorageApart(storage, address)
    requires Translates(first.mem, m, space.root, Layout(space, storage))
    ensures Maps(Translate(m, space.root, address), FrameOf(address), false, false)
  {
    hide Translate;
    hide NewMapping;
    hide Updated;
    hide SamePage;
    hide Or;
    hide Leaf;
    hide Maps;
    hide Layout;
    var p := LastStorage(storage, address, StoragePages(storage));
    LaterElsewhere(space, storage, address, p + 1);
    StorageRequest(space, storage, address, p);
    UpdatedAt(Layout(space, storage), |space.code| + 3 + p, NewMapping(first.mem, address), address);
    assert FrameOf(StoragePage(storage, p)) == FrameOf(address);
    assert FrameOf(FrameOf(address)) == FrameOf(address);
    LeafDecodes(FrameOf(address), 5, true);
  }

  /** An address of the task's code or stack that the storage leaves alone translates to the frame taken
      for it, writable, and executable exactly when it is code. */
  lemma OwnedTranslates(first: System, m: Memory, space: Space, storage: Storage, address: nat)
    requires SpaceOk(space) && StorageOk(storage) && Owned(space, address) && StorageApart(storage, address)
    requires Translates(first.mem, m, space.root, Layout(space, storage))
    ensures Maps(Translate(m, space.root, address), FrameFor(space, address), true, address < USER_STACK_BASE)
  {
    hide Translate;
    hide NewMapping;
    hide Updated;
    hide SamePage;
    hide Or;
    hide FrameOf;
    hide Leaf;
    hide Maps;
    hide Layout;
    hide StoragePage;
    OwnRequestOk(space, storage, address);
    LaterElsewhere(space, storage, address, 0);
    UpdatedAt(Layout(space, storage), OwnRequest(space, address), NewMapping(first.mem, address), address);
    LeafDecodes(FrameFor(space, address), 7, address >= USER_STACK_BASE);
  }

  /** The page of the text buffer translates to itself, writable. */
  lemma TextTranslates(first: System, m: Memory, space: Space, storage: Storage, address: nat)
    requires SpaceOk(space) && StorageOk(storage) && address / PAGE_SIZE == 0xb8 && StorageApart(storage, address)
    requires Translates(first.mem, m, space.root, Layout(space, storage))
    ensures Maps(Translate(m, space.root, address), FrameOf(address), true, true)
  {
    hide Translate;
    hide NewMapping;
    hide Updated;
    hide SamePage;
    hide Or;
    hide Leaf;
    hide Maps;
    hide Layout;
    hide StoragePage;
    LayoutSize(space, storage);
    LayoutAt(space, storage, |space.code| + 2);
    UserSamePage(TEXT_BUFFER, address);
    LaterElsewhere(space, storage, address, 0);
    UpdatedAt(Layout(space, storage), |space.code| + 2, NewMapping(first.mem, address), address);
    LeafDecodes(TEXT_BUFFER, 7, false);
  }

  lemma {:induction false} UpdatedElsewhere(requests: seq<Request>, before: Mapping, vb: nat)
    requires forall i :: 0 <= i < |requests| ==> !SamePage(requests[i].va, vb)
    ensures Updated(requests, before, vb) == before
  {
    if requests != [] { UpdatedElsewhere(requests[1..], before, vb); }
  }

  /** No other address of the user half translates. */
  lemma NothingElse(first: System, m: Memory, space: Space, storage: Storage, address: nat)
    requires SpaceOk(space) && StorageOk(storage) && address < USER_LIMIT && StorageApart(storage, address)
    requires !Owned(space, address) && address / PAGE_SIZE != 0xb8
    requires Translates(first.mem, m, space.root, Layout(space, storage))
    ensures Translate(m, space.root, address) == NotPresent
  {
    hide Translate;
    hide Updated;
    hide SamePage;
    hide Layout;
    hide StoragePage;
    var requests := Layout(space, storage);
    LaterElsewhere(space, storage, address, 0);
    forall i | 0 <= i < |space.code| + 3
      ensures !SamePage(requests[i].va, address)
    {
      LayoutAt(space, storage, i);
      UserSamePage(requests[i].va, address);
    }
    UserIndex(address);
    UpdatedElsewhere(requests, NewMapping(first.mem, address), address);
  }

  /** Eight sectors loaded at the address of the code take the first code page from the task: the range
      check accepts the page, and it translates to a page the user cannot write. */
  lemma StorageOverCode(first: System, m: Memory, space: Space)
    requires SpaceOk(space) && Translates(first.mem, m, space.root, Layout(space, Storage(USER_CODE_BASE, 8)))
    ensures RangeValid(|space.code|, USER_CODE_BASE, 1)
    ensures var t := Translate(m, space.root, USER_CODE_BASE); t.Mapped? && t.user && !t.writable
  {
    hide Layout;
    hide Translates;
    hide Translate;
    var storage := Storage(USER_CODE_BASE, 8);
    assert StoragePage(storage, 0) / PAGE_SIZE == USER_CODE_BASE / PAGE_SIZE;
    StorageTranslates(first, m, space, storage, USER_CODE_BASE);
  }

  lemma SpaceIsOk(first: System, p: Progress, space: Space, storage: Storage)
    requires Building(first, p.now, space.root, Layout(space, storage), space.code + space.stack)
    requires 1 <= |space.code| <= TASK_MAX_CODE_PAGES && |space.stack| == 2
    ensures SpaceOk(space)
    ensures forall f :: f in space.code || f in space.stack ==> f in p.now.held && !Allocated(first.mem, f)
    ensures Distinct(space.code + space.stack)
  {
    hide Allocated;
    hide Layout;
    hide Translates;
    var frames := space.code + space.stack;
    forall k | 0 <= k < |space.code|
      ensures space.code[k] in frames
    {
      assert frames[k] == space.code[k];
    }
    forall k | 0 <= k < |space.stack|
      ensures space.stack[k] in frames
    {
      assert frames[|space.code| + k] == space.stack[k];
    }
  }

  /** The byte lies in one of these pages. */
  ghost predicate OnPages(pages: seq<Request>, address: nat) {
    exists k: nat :: k < |pages| && pages[k].va <= address < pages[k].va + 0x1000
  }

  ghost predicate AllOnPages(pages: seq<Request>, address: nat, length: nat) {
    forall b: nat :: address <= b < address + length ==> OnPages(pages, b)
  }

  /** A non-empty range is accepted exactly when all its bytes lie in the pages onto which `create` mapped the
      code frames, or all lie in the two onto which it mapped the stack frames; it is then no range that
      wraps.  An empty one is accepted unless it is at zero. */
  lemma AcceptedExactly(space: Space, storage: Storage, address: nat, length: nat)
    requires SpaceOk(space) && address < WORD_END && length < WORD_END
    ensures var n, pages := |space.code|, Layout(space, storage);
            && n + 2 <= |pages|
            && (forall k :: 0 <= k < n ==> pages[k].va == 0x400000 + k * 0x1000 && pages[k].pa == space.code[k])
            && (forall k :: 0 <= k < 2 ==>
                  pages[n + k].va == 0x7fff_ffff_d000 + k * 0x1000 && pages[n + k].pa == space.stack[k])
            && (length == 0 ==> (RangeValid(n, address, length) <==> address != 0))
            && (length > 0 && address + length > 0xffff_ffff_ffff_ffff ==> !RangeValid(n, address, length))
            && (length > 0 ==>
                  (RangeValid(n, address, length) <==>
                   AllOnPages(pages[..n], address, length) || AllOnPages(pages[n..n + 2], address, length)))
  {
    hide Layout;
    hide AllOnPages;
    var n, pages := |space.code|, Layout(space, storage);
    LayoutRows(space, storage);
    if length > 0 {
      AllOnRow(pages[..n], 0x400000, address, length);
      AllOnRow(pages[n..n + 2], 0x7fff_ffff_d000, address, length);
    }
  }

  lemma LayoutRows(space: Space, storage: Storage)
    requires SpaceOk(space)
    ensures var n, pages := |space.code|, Layout(space, storage);
            && n + 2 <= |pages|
            && (forall k :: 0 <= k < n ==> pages[k].va == 0x400000 + k * 0x1000 && pages[k].pa == space.code[k])
            && (forall k :: 0 <= k < 2 ==>
                  pages[n + k].va == 0x7fff_ffff_d000 + k * 0x1000 && pages[n + k].pa == space.stack[k])
  {
    hide Layout;
    LayoutSize(space, storage);
    forall k | 0 <= k < |space.code| + 2
      ensures var r := Layout(space, storage)[k];
              && (k < |space.code| ==> r.va == 0x400000 + k * 0x1000 && r.pa == space.code[k])
              && (k >= |space.code| ==>
                    r.va == 0x7fff_ffff_d000 + (k - |space.code|) * 0x1000 && r.pa == space.stack[k - |space.code|])
    {
      LayoutAt(space, storage, k);
    }
  }

  lemma AllOnRow(pages: seq<Request>, base: nat, address: nat, length: nat)
    requires length > 0 && forall k :: 0 <= k < |pages| ==> pages[k].va == base + k * 0x1000
    ensures AllOnPages(pages, address, length) <==>
            base <= address && address + length <= base + |pages| * 0x1000
  {
    forall b: nat
      ensures OnPages(pages, b) <==> base <= b < base + |pages| * 0x1000
    {
      OnRow(pages, base, b);
    }
    hide OnPages;
    var last := address + length - 1;
    assert AllOnPages(pages, address, length) ==> OnPages(pages, address) && OnPages(pages, last);
  }

  lemma OnRow(pages: seq<Request>, base: nat, address: nat)
    requires forall k :: 0 <= k < |pages| ==> pages[k].va == base + k * 0x1000
    ensures OnPages(pages, address) <==> base <= address < base + |pages| * 0x1000
  {
    if base <= address < base + |pages| * 0x1000 {
      var k := (address - base) / 0x1000;
      assert pages[k].va <= address < pages[k].va + 0x1000;
    }
  }

  /** Every byte of every non-empty range that the check accepts translates, through the table that
      `create` built, to a frame taken for this task alone: present, user, writable; provided the
      storage does not lie at those addresses. */
  lemma AcceptedRange(first: System, p: Progress, space: Space, storage: Storage, address: nat, length: nat, i: nat)
    requires Sound(p.now, p.free, p.tables) && StorageOk(storage)
    requires Building(first, p.now, space.root, Layout(space, storage), space.code + space.stack)
    requires 1 <= |space.code| <= TASK_MAX_CODE_PAGES && |space.stack| == 2
    requires address < WORD_END && length < WORD_END && RangeValid(|space.code|, address, length)
    requires i < length && StorageApart(storage, address + i)
    ensures SpaceOk(space) && Owned(space, address + i)
    ensures Maps(Translate(p.now.mem, space.root, address + i), FrameFor(space, address + i), true,
                 address + i < USER_STACK_BASE)
    ensures Allocated(p.now.mem, FrameFor(space, address + i)) && !Allocated(first.mem, FrameFor(space, address + i))
  {
    hide Layout;
    hide Translates;
    hide Allocated;
    hide Translate;
    hide Maps;
    hide StorageApart;
    HeldAllocated(p.now, p.free, p.tables);
    hide Sound;
    hide Updated;
    SpaceIsOk(first, p, space, storage);
    hide Building;
    assert Translates(first.mem, p.now.mem, space.root,
                      Layout(space, storage)) by { BuiltTranslates(first, p, space, storage); }
    OwnedTranslates(first, p.now.mem, space, storage, address + i);
  }

  lemma BuiltTranslates(first: System, p: Progress, space: Space, storage: Storage)
    requires Building(first, p.now, space.root, Layout(space, storage), space.code + space.stack)
    ensures Translates(first.mem, p.now.mem, space.root, Layout(space, storage))
  {
    hide Layout;
    hide Translates;
  }
}
