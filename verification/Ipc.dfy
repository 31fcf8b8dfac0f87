/** Call, receive and reply between the three tasks of kernel/core/task.c, with the system calls and
    faults that switch tasks, over whole runs. */
module Ipc {
  import opened Bits
  import opened Bytes
  import opened Struct
  import opened UserMemory

  const MAX_TASKS: nat := 3
  const MAX_CAPABILITIES: nat := 8
  const MAX_PAYLOAD: nat := 64
  const MAX_BUFFER: nat := 256
  const MESSAGE_SIZE: nat := 56
  const IPC_VERSION: nat := 1

  const CAP_ENDPOINT: nat := 4
  const RIGHT_SEND: nat := 1
  const RIGHT_RECEIVE: nat := 2

  const SYSCALL_YIELD: nat := 0
  const SYSCALL_IPC_CALL: nat := 1
  const SYSCALL_IPC_RECEIVE: nat := 2
  const SYSCALL_IPC_REPLY: nat := 3
  const SYSCALL_TASK_EXIT: nat := 4

  datatype TaskState = New | Runnable | WaitReply | Done

  datatype Capability = Capability(kind: nat, resource: nat, handle: nat, rights: nat)

  datatype Task = Task(
    state: TaskState, codePages: nat, endpoint: nat, capabilities: seq<Capability>,
    ip: nat, returnIp: nat, returnFlags: nat)

  datatype Status = Ok | Invalid | Denied | Limit | State

  /** A system call returns to its caller, or control goes to another task, or the machine stops. */
  datatype Outcome = Returned(status: Status) | Switched | Halted

  // ---------------------------------------------------------------------------------------------
  // User memory and messages
  // ---------------------------------------------------------------------------------------------

  /** The bytes a task sees at its addresses. */
  type View = map<nat, byte>

  function ByteAt(view: View, address: nat): byte {
    if address in view then view[address] else 0
  }

  function Peek(view: View, address: nat, length: nat): (data: seq<byte>)
    ensures |data| == length
  {
    seq<byte>(length, i requires 0 <= i < length => ByteAt(view, address + i))
  }

  function Poke(view: View, address: nat, data: seq<byte>): View
    decreases |data|
  {
    if data == [] then view else Poke(view, address, data[..|data| - 1])[address + |data| - 1 := data[|data| - 1]]
  }

  lemma {:induction false} PokeAt(view: View, address: nat, data: seq<byte>, a: nat)
    ensures ByteAt(Poke(view, address, data), a)
            == if address <= a < address + |data| then data[a - address] else ByteAt(view, a)
    decreases |data|
  {
    if data != [] { PokeAt(view, address, data[..|data| - 1], a); }
  }

  lemma PeekPoke(view: View, address: nat, data: seq<byte>)
    ensures Peek(Poke(view, address, data), address, |data|) == data
  {
    forall i | 0 <= i < |data|
      ensures Peek(Poke(view, address, data), address, |data|)[i] == data[i]
    {
      PokeAt(view, address, data, address + i);
    }
  }

  /** The receiver's bytes after a receive: first the message is copied, then the payload. */
  function Delivered(view: View, message: nat, m: seq<byte>, payload: nat, data: seq<byte>): View {
    Poke(Poke(view, message, m), payload, data)
  }

  /** Wherever the payload is copied over the message, it holds the message's byte. */
  predicate Agrees(message: nat, m: seq<byte>, payload: nat, data: seq<byte>) {
    forall i :: 0 <= i < |m| && payload <= message + i < payload + |data| ==> m[i] == data[message + i - payload]
  }

  /** The payload arrives; the message arrives exactly when the payload agrees with it where the two
      buffers overlap; nothing else changes. */
  lemma DeliveredIs(view: View, message: nat, m: seq<byte>, payload: nat, data: seq<byte>)
    ensures var after := Delivered(view, message, m, payload, data);
            && Peek(after, payload, |data|) == data
            && (Peek(after, message, |m|) == m <==> Agrees(message, m, payload, data))
            && forall a: nat :: !(message <= a < message + |m|) && !(payload <= a < payload + |data|) ==>
                 ByteAt(after, a) == ByteAt(view, a)
  {
    hide Poke;
    hide ByteAt;
    var first := Poke(view, message, m);
    var after := Poke(first, payload, data);
    PeekPoke(first, payload, data);
    forall a: nat
      ensures ByteAt(after, a) == if payload <= a < payload + |data| then data[a - payload]
                                  else if message <= a < message + |m| then m[a - message] else ByteAt(view, a)
    {
      PokeAt(first, payload, data, a);
      PokeAt(view, message, m, a);
    }
    forall i | 0 <= i < |m|
      ensures Peek(after, message, |m|)[i] == if payload <= message + i < payload + |data|
                                              then data[message + i - payload] else m[i]
    {
    }
  }

  /** An empty payload is not copied. */
  lemma DeliveredAs(view: View, message: nat, m: seq<byte>, payload: nat, data: seq<byte>, after: View)
    requires after == if |data| == 0 then Poke(view, message, m) else Poke(Poke(view, message, m), payload, data)
    ensures after == Delivered(view, message, m, payload, data)
  {
  }

  /** `copy_bytes` out of user memory. */
  method CopyIn(view: View, address: nat, length: nat, buffer: array<byte>)
    requires length <= buffer.Length
    modifies buffer
    ensures buffer[..length] == Peek(view, address, length) && buffer[length..] == old(buffer[length..])
  {
    var index := 0;
    while index < length
      invariant 0 <= index <= length
      invariant forall i :: 0 <= i < index ==> buffer[i] == ByteAt(view, address + i)
      invariant buffer[length..] == old(buffer[length..])
    {
      buffer[index] := ByteAt(view, address + index);
      index := index + 1;
    }
  }

  /** `copy_bytes` into user memory. */
  method CopyOut(view: View, address: nat, buffer: array<byte>, length: nat) returns (after: View)
    requires length <= buffer.Length
    ensures after == Poke(view, address, buffer[..length])
  {
    after := view;
    var index := 0;
    while index < length
      invariant 0 <= index <= length
      invariant after == Poke(view, address, buffer[..index])
    {
      assert buffer[..index + 1][..index] == buffer[..index];
      after := after[address + index := buffer[index]];
      index := index + 1;
    }
  }

  /** A message copied to a local of the kernel. */
  method FetchMessage(view: View, address: nat) returns (message: seq<byte>)
    ensures message == Peek(view, address, MESSAGE_SIZE)
  {
    var copy := new byte[MESSAGE_SIZE];
    CopyIn(view, address, MESSAGE_SIZE, copy);
    message := copy[..MESSAGE_SIZE];
  }

  method Fill(buffer: array<byte>, message: seq<byte>)
    requires buffer.Length == |message|
    modifies buffer
    ensures buffer[..] == message
  {
    forall i | 0 <= i < buffer.Length { buffer[i] := message[i]; }
  }

  function Service(m: seq<byte>): nat
    requires |m| == MESSAGE_SIZE
  {
    U16(m[2..4])
  }

  function Correlation(m: seq<byte>): nat
    requires |m| == MESSAGE_SIZE
  {
    U64(m[8..16])
  }

  /** `ipc_message_valid` */
  predicate MessageValid(m: seq<byte>, length: nat)
    requires |m| == MESSAGE_SIZE
  {
    U16(m[..2]) == IPC_VERSION && U32(m[16..20]) == length && U16(m[20..22]) == 0 && U16(m[22..24]) == 0
  }

  /** A message is the packed record of version, service, operation, correlation id, payload length, number of
      capabilities, flags and capabilities; a valid one has version 1, the length of its payload, no
      capabilities and no flags. */
  lemma MessageLayout(m: seq<byte>, length: nat) returns (version: nat, size: nat, count: nat, flags: nat)
    requires |m| == MESSAGE_SIZE
    ensures Record(m, [Number(2, version), Number(2, Service(m)), Number(4, U32(m[4..8])), Number(8, Correlation(m)),
                       Number(4, size), Number(2, count), Number(2, flags), Raw(m[24..56])])
    ensures MessageValid(m, length) <==> version == 1 && size == length && count == 0 && flags == 0
  {
    hide U16;
    hide U32;
    hide U64;
    hide Record;
    assert m[..2] == m[0..2];
    version, size, count, flags := U16(m[0..2]), U32(m[16..20]), U16(m[20..22]), U16(m[22..24]);
    var f := [Number(2, version), Number(2, Service(m)), Number(4, U32(m[4..8])), Number(8, Correlation(m)),
              Number(4, size), Number(2, count), Number(2, flags), Raw(m[24..56])];
    RecordEnd(m, f);
    AtRaw(m, f, 7, 24, 56);
    At16(m, f, 6, 22, 24);
    At16(m, f, 5, 20, 22);
    At32(m, f, 4, 16, 20);
    At64(m, f, 3, 8, 16);
    At32(m, f, 2, 4, 8);
    At16(m, f, 1, 2, 4);
    At16(m, f, 0, 0, 2);
    assert m[0..] == m && f[0..] == f;
  }

  /** `has_endpoint_capability` */
  predicate HasEndpoint(capabilities: seq<Capability>, handle: nat, rights: nat) {
    exists i :: 0 <= i < |capabilities| && capabilities[i].handle == handle && capabilities[i].kind == CAP_ENDPOINT
                && And(capabilities[i].rights, rights) == rights
  }

  /** A task may use an endpoint by a handle of its own that has every right asked for. */
  lemma HasEndpointIs(capabilities: seq<Capability>, handle: nat, rights: nat)
    ensures HasEndpoint(capabilities, handle, rights) <==>
            exists i :: 0 <= i < |capabilities| && AllowsAll(capabilities[i], handle, rights)
  {
    forall i | 0 <= i < |capabilities|
      ensures And(capabilities[i].rights, rights) == rights <==> HasBits(capabilities[i].rights, rights)
    {
      MaskKeeps(capabilities[i].rights, rights);
    }
    hide And;
    hide HasBits;
  }

  ghost predicate AllowsAll(capability: Capability, handle: nat, rights: nat) {
    && capability.handle == handle && capability.kind == CAP_ENDPOINT && HasBits(capability.rights, rights)
  }

  method CheckEndpoint(capabilities: seq<Capability>, handle: nat, rights: nat) returns (has: bool)
    ensures has <==> HasEndpoint(capabilities, handle, rights)
  {
    var index := 0;
    while index < |capabilities|
      invariant 0 <= index <= |capabilities|
      invariant forall i :: 0 <= i < index ==>
                  !(capabilities[i].handle == handle && capabilities[i].kind == CAP_ENDPOINT
                    && And(capabilities[i].rights, rights) == rights)
    {
      if capabilities[index].handle == handle && capabilities[index].kind == CAP_ENDPOINT
         && And(capabilities[index].rights, rights) == rights { return true; }
      index := index + 1;
    }
    has := false;
  }

  /** `after` is `before` without its first capability with the handle. */
  ghost predicate RemovesFirst(before: seq<Capability>, after: seq<Capability>, handle: nat) {
    exists i ::
      && 0 <= i < |before|
      && before[i].handle == handle
      && (forall j :: 0 <= j < i ==> before[j].handle != handle)
      && after == before[..i] + before[i + 1..]
  }

  // ---------------------------------------------------------------------------------------------
  // Runs
  // ---------------------------------------------------------------------------------------------

  /** The accepted operations, with the message and payload that each sent, or that stand in the
      receiver's buffers afterwards. */
  datatype Event =
    | Called(message: seq<byte>, payload: seq<byte>)
    | Received(message: seq<byte>, payload: seq<byte>)
    | Replied(message: seq<byte>, payload: seq<byte>)

  /** The order of accepted operations: one call, then one receive that delivers the payload sent, then
      one reply for the same service and correlation. */
  ghost predicate Orderly(log: seq<Event>) {
    && |log| <= 3
    && (forall i :: 0 <= i < |log| ==> |log[i].message| == MESSAGE_SIZE)
    && (|log| >= 1 ==> log[0].Called?)
    && (|log| >= 2 ==> log[1].Received? && log[1].payload == log[0].payload)
    && (|log| >= 3 ==> log[2].Replied? && Service(log[2].message) == Service(log[0].message)
                       && Correlation(log[2].message) == Correlation(log[0].message))
  }

  /** The call at `i` and the receive at `j` are the only ones, in this order before the reply at `k`; the
      receive delivered what the call sent, and the reply is for the call's service and correlation. */
  ghost predicate Answers(log: seq<Event>, i: nat, j: nat, k: nat) {
    && i < j < k < |log| && log[i].Called? && log[j].Received?
    && (forall e :: 0 <= e < |log| && log[e].Called? ==> e == i)
    && (forall e :: 0 <= e < |log| && log[e].Received? ==> e == j)
    && log[j].payload == log[i].payload
    && |log[i].message| == |log[k].message| == MESSAGE_SIZE
    && Service(log[k].message) == Service(log[i].message) && Correlation(log[k].message) == Correlation(log[i].message)
  }

  ghost predicate EveryReplyAnswers(log: seq<Event>) {
    forall k :: 0 <= k < |log| && log[k].Replied? ==> exists i, j :: Answers(log, i, j, k)
  }

  lemma OrderlyCall(message: seq<byte>, payload: seq<byte>)
    requires |message| == MESSAGE_SIZE
    ensures Orderly([Called(message, payload)])
  {
  }

  lemma OrderlyReply(log: seq<Event>, message: seq<byte>, payload: seq<byte>)
    requires Orderly(log) && |log| == 2 && |message| == MESSAGE_SIZE && |log[0].message| == MESSAGE_SIZE
    requires Service(message) == Service(log[0].message) && Correlation(message) == Correlation(log[0].message)
    ensures Orderly(log + [Replied(message, payload)])
  {
    hide Service;
    hide Correlation;
  }

  lemma OrderlyFirst(log: seq<Event>)
    requires Orderly(log) && log != []
    ensures |log| <= 3 && |log[0].message| == MESSAGE_SIZE
  {
  }

  lemma OrderlyAnswers(log: seq<Event>)
    requires Orderly(log)
    ensures EveryReplyAnswers(log)
  {
    hide Service;
    hide Correlation;
    forall k | 0 <= k < |log| && log[k].Replied?
      ensures exists i, j :: Answers(log, i, j, k)
    {
      assert k == 2;
      assert Answers(log, 0, 1, 2);
    }
  }

  class TaskLayer {
    const tasks: array<Task>
    var views: seq<View>
    var current: nat
    var halted: bool
    const request: array<byte>
    const reply: array<byte>
    const requestPayload: array<byte>
    const replyPayload: array<byte>
    var requestLength: nat
    var replyLength: nat
    var pending: bool
    var received: bool
    ghost var log: seq<Event>

    ghost predicate Shape()
      reads this
    {
      && tasks.Length == MAX_TASKS && |views| == MAX_TASKS && current < MAX_TASKS
      && request.Length == reply.Length == MESSAGE_SIZE && requestPayload.Length == replyPayload.Length == MAX_PAYLOAD
      && request != reply && request != requestPayload && request != replyPayload
      && reply != requestPayload && reply != replyPayload && requestPayload != replyPayload
      && requestLength <= MAX_PAYLOAD && replyLength <= MAX_PAYLOAD
    }

    /** The invariant of every run. */
    ghost predicate Valid()
      reads this, tasks, request, requestPayload
    {
      && Shape() && Orderly(log)
      && (pending <==> |log| == 1 || |log| == 2)
      && (pending ==> tasks[0].state == WaitReply)
      && (received <==> |log| >= 2)
      && (current == 0 ==> log == [])
      && (current == 1 ==> pending)
      && (|log| >= 1 ==> log[0] == Called(request[..], requestPayload[..requestLength]))
    }

    /** `quanta_task_bootstrap`, once the three address spaces exist. */
    constructor (codePages: seq<nat>, endpoints: seq<nat>)
      requires |codePages| == |endpoints| == MAX_TASKS
      ensures Valid() && current == 0 && log == [] && !halted && fresh(tasks) && fresh(request) && fresh(reply)
      ensures fresh(requestPayload) && fresh(replyPayload)
      ensures forall i :: 0 <= i < MAX_TASKS ==>
                tasks[i] == Task(Runnable, codePages[i], endpoints[i], [], USER_CODE_BASE, 0, 0)
    {
      tasks := new Task[MAX_TASKS](i requires 0 <= i < MAX_TASKS =>
                                   Task(Runnable, codePages[i], endpoints[i], [], USER_CODE_BASE, 0, 0));
      views := seq(MAX_TASKS, _ => map[]);
      current, halted := 0, false;
      request, reply := new byte[MESSAGE_SIZE](_ => 0), new byte[MESSAGE_SIZE](_ => 0);
      requestPayload, replyPayload := new byte[MAX_PAYLOAD](_ => 0), new byte[MAX_PAYLOAD](_ => 0);
      requestLength, replyLength, pending, received := 0, 0, false, false;
      log := [];
    }

    /** The current task may use `length` bytes at `address`. */
    predicate Accessible(address: nat, length: nat)
      requires Shape() && address < WORD_END && length < WORD_END
      reads this, tasks
    {
      RangeValid(tasks[current].codePages, address, length)
    }

    /** Nothing but the current task's bytes has changed. */
    twostate predicate Idle()
      reads this, tasks
    {
      && log == old(log) && current == old(current) && pending == old(pending) && received == old(received)
      && halted == old(halted) && tasks[..] == old(tasks[..]) && views == old(views)
    }

    /** What IPC_CALL asks for: the first task, its endpoint and the right to send, buffers in its own
        memory, and a message fit for the length. */
    ghost predicate CallAccepted(handle: nat, message: nat, payload: nat, length: nat)
      requires Shape() && message < WORD_END && payload < WORD_END && length < WORD_END
      reads this, tasks
    {
      && current == 0 && handle == tasks[0].endpoint && HasEndpoint(tasks[0].capabilities, handle, RIGHT_SEND)
      && Accessible(message, MESSAGE_SIZE) && (length != 0 ==> Accessible(payload, length))
      && MessageValid(Peek(views[0], message, MESSAGE_SIZE), length)
    }

    /** What IPC_RECEIVE asks for: the second task, a call that was not received yet, and room for it. */
    ghost predicate ReceiveAccepted(handle: nat, message: nat, payload: nat, length: nat)
      requires Shape() && message < WORD_END && payload < WORD_END
      reads this, tasks
    {
      && current == 1 && handle == tasks[1].endpoint && HasEndpoint(tasks[1].capabilities, handle, RIGHT_RECEIVE)
      && |log| == 1 && |log[0].payload| <= length && Accessible(message, MESSAGE_SIZE)
      && (requestLength != 0 ==> Accessible(payload, requestLength))
    }

    /** What IPC_REPLY asks for: a received call, and a message for the same service and correlation. */
    ghost predicate ReplyAccepted(handle: nat, message: nat, payload: nat, length: nat)
      requires Valid() && message < WORD_END && payload < WORD_END && length < WORD_END
      reads this, tasks, request, requestPayload
    {
      && current == 1 && handle == tasks[1].endpoint && HasEndpoint(tasks[1].capabilities, handle, RIGHT_SEND)
      && |log| == 2 && Accessible(message, MESSAGE_SIZE) && (length != 0 ==> Accessible(payload, length))
      && MessageValid(Peek(views[1], message, MESSAGE_SIZE), length)
      && Service(Peek(views[1], message, MESSAGE_SIZE)) == Service(log[0].message)
      && Correlation(Peek(views[1], message, MESSAGE_SIZE)) == Correlation(log[0].message)
    }

    /** The accepted part of the IPC_CALL branch: the first task waits, the second runs. */
    method TakeCall(copy: seq<byte>, payload: nat, length: nat, returnIp: nat, flags: nat)
      requires Valid() && !halted && current == 0 && |copy| == MESSAGE_SIZE && length <= MAX_PAYLOAD
      modifies this, tasks, request, requestPayload
      ensures Valid() && !halted && current == 1 && views == old(views)
      ensures log == [Called(copy, Peek(old(views[0]), payload, length))]
      ensures tasks[..] == old(tasks[..])[0 := old(tasks[0]).(returnIp := returnIp, returnFlags := flags,
                                                              state := WaitReply)]
    {
      hide Orderly;
      hide Peek;
      Fill(request, copy);
      requestLength := length;
      if length != 0 { CopyIn(views[0], payload, length, requestPayload); }
      ghost var data := Peek(views[0], payload, length);
      assert requestPayload[..length] == data;
      pending, received, replyLength := true, false, 0;
      tasks[0] := tasks[0].(returnIp := returnIp, returnFlags := flags, state := WaitReply);
      current := 1;
      log := [Called(copy, data)];
      OrderlyCall(copy, data);
    }

    /** The IPC_CALL branch. */
    method Call(handle: nat, message: nat, payload: nat, length: nat, returnIp: nat, flags: nat)
      returns (outcome: Outcome)
      requires Valid() && !halted && message < WORD_END && payload < WORD_END && length <= MAX_PAYLOAD
      modifies this, tasks, request, requestPayload
      ensures Valid() && !halted && current >= old(current)
      ensures outcome == Switched <==> old(CallAccepted(handle, message, payload, length))
      ensures outcome == Switched ==>
                && log == [Called(Peek(old(views[0]), message, MESSAGE_SIZE), Peek(old(views[0]), payload, length))]
                && current == 1 && views == old(views)
                && tasks[..] == old(tasks[..])[0 := old(tasks[0]).(returnIp := returnIp, returnFlags := flags,
                                                                   state := WaitReply)]
      ensures outcome != Switched ==> Idle() && outcome.Returned?
    {
      hide Orderly;
      hide MessageValid;
      hide Peek;
      hide HasEndpoint;
      hide RangeValid;
      var task := tasks[current];
      var has := CheckEndpoint(task.capabilities, handle, RIGHT_SEND);
      if current != 0 || handle != task.endpoint || !has { return Returned(Denied); }
      if pending || !Accessible(message, MESSAGE_SIZE) || (length != 0 && !Accessible(payload, length)) {
        return Returned(Invalid);
      }
      var copy := FetchMessage(views[0], message);
      if !MessageValid(copy, length) { return Returned(Invalid); }
      TakeCall(copy, payload, length, returnIp, flags);
      outcome := Switched;
    }

    /** The IPC_RECEIVE branch. */
    method Receive(handle: nat, message: nat, payload: nat, length: nat) returns (outcome: Outcome)
      requires Valid() && !halted && message < WORD_END && payload < WORD_END && length <= MAX_PAYLOAD
      modifies this
      ensures Valid() && !halted && current == old(current) && tasks[..] == old(tasks[..])
      ensures outcome == Returned(Ok) <==> old(ReceiveAccepted(handle, message, payload, length))
      ensures outcome == Returned(Ok) ==>
                && |old(log)| == 1
                && var (m, data) := (old(log)[0].message, old(log)[0].payload);
                   && views == old(views)[1 := Delivered(old(views)[1], message, m, payload, data)]
                   && log == old(log) + [Received(Peek(views[1], message, MESSAGE_SIZE), data)]
                   && Peek(views[1], payload, |data|) == data
                   && (log[1].message == m <==> Agrees(message, m, payload, data))
      ensures outcome != Returned(Ok) ==> Idle() && outcome.Returned?
    {
      hide HasEndpoint;
      hide RangeValid;
      hide Peek;
      hide Poke;
      hide Agrees;
      hide Service;
      hide Correlation;
      hide Delivered;
      var task := tasks[current];
      var has := CheckEndpoint(task.capabilities, handle, RIGHT_RECEIVE);
      if current != 1 || handle != task.endpoint || !has || tasks[0].state != WaitReply || !pending || received {
        return Returned(State);
      }
      if length < requestLength || length > MAX_PAYLOAD || !Accessible(message, MESSAGE_SIZE)
         || (requestLength != 0 && !Accessible(payload, requestLength)) {
        return Returned(Invalid);
      }
      ghost var m, data := log[0].message, log[0].payload;
      var view := CopyOut(views[1], message, request, MESSAGE_SIZE);
      assert request[..MESSAGE_SIZE] == m;
      if requestLength != 0 { view := CopyOut(view, payload, requestPayload, requestLength); }
      DeliveredAs(views[1], message, m, payload, data, view);
      DeliveredIs(views[1], message, m, payload, data);
      views := views[1 := view];
      received := true;
      log := log + [Received(Peek(view, message, MESSAGE_SIZE), data)];
      outcome := Returned(Ok);
    }

    /** The accepted part of the IPC_REPLY branch: the first task is done, the third runs. */
    method TakeReply(copy: seq<byte>, payload: nat, length: nat)
      requires Valid() && !halted && |log| == 2 && current == 1 && |copy| == |log[0].message| == MESSAGE_SIZE
               && length <= MAX_PAYLOAD
      requires Service(copy) == Service(log[0].message) && Correlation(copy) == Correlation(log[0].message)
      modifies this, tasks, reply, replyPayload
      ensures Valid() && !halted && current == 2 && views == old(views)
      ensures log == old(log) + [Replied(copy, Peek(old(views[1]), payload, length))]
      ensures reply[..] == copy && replyPayload[..length] == Peek(old(views[1]), payload, length)
      ensures tasks[..] == old(tasks[..])[0 := old(tasks[0]).(ip := old(tasks[0].returnIp), state := Done)]
    {
      hide Orderly;
      hide Service;
      hide Correlation;
      hide Peek;
      ghost var data := Peek(views[1], payload, length);
      OrderlyReply(log, copy, data);
      Fill(reply, copy);
      replyLength := length;
      if length != 0 { CopyIn(views[1], payload, length, replyPayload); }
      assert replyPayload[..length] == data;
      pending := false;
      tasks[0] := tasks[0].(ip := tasks[0].returnIp, state := Done);
      current := 2;
      log := log + [Replied(copy, data)];
    }

    /** The IPC_REPLY branch. */
    method Reply(handle: nat, message: nat, payload: nat, length: nat) returns (outcome: Outcome)
      requires Valid() && !halted && message < WORD_END && payload < WORD_END && length <= MAX_PAYLOAD
      modifies this, tasks, reply, replyPayload
      ensures Valid() && !halted && current >= old(current)
      ensures outcome == Switched <==> old(ReplyAccepted(handle, message, payload, length))
      ensures outcome == Switched ==>
                && log == old(log)
                     + [Replied(Peek(old(views[1]), message, MESSAGE_SIZE), Peek(old(views[1]), payload, length))]
                && reply[..] == Peek(old(views[1]), message, MESSAGE_SIZE)
                && replyPayload[..length] == Peek(old(views[1]), payload, length)
                && current == 2 && views == old(views)
                && tasks[..] == old(tasks[..])[0 := old(tasks[0]).(ip := old(tasks[0].returnIp), state := Done)]
      ensures outcome != Switched ==> Idle() && outcome.Returned?
    {
      hide Orderly;
      hide Service;
      hide Correlation;
      hide MessageValid;
      hide Peek;
      hide HasEndpoint;
      hide RangeValid;
      if log != [] { OrderlyFirst(log); }
      var task := tasks[current];
      var has := CheckEndpoint(task.capabilities, handle, RIGHT_SEND);
      if current != 1 || handle != task.endpoint || !has || tasks[0].state != WaitReply || !pending || !received {
        return Returned(State);
      }
      if !Accessible(message, MESSAGE_SIZE) || (length != 0 && !Accessible(payload, length)) {
        return Returned(Invalid);
      }
      var copy := FetchMessage(views[1], message);
      if !MessageValid(copy, length) || Service(copy) != Service(request[..])
         || Correlation(copy) != Correlation(request[..]) {
        return Returned(Invalid);
      }
      TakeReply(copy, payload, length);
      outcome := Switched;
    }

    /** The TASK_EXIT branch. */
    method Exit() returns (outcome: Outcome)
      requires Valid() && !halted
      modifies this, tasks
      ensures Valid() && current >= old(current) && log == old(log) && views == old(views)
      ensures outcome == if old(current) == 0 then Switched else Halted
      ensures halted == (old(current) != 0) && (old(current) == 0 ==> current == 2)
      ensures tasks[..] == old(tasks[..])[old(current) := old(tasks[current]).(state := Done)]
    {
      tasks[current] := tasks[current].(state := Done);
      if current == 0 {
        current := 2;
        return Switched;
      }
      halted := true;
      outcome := Halted;
    }

    /** `quanta_task_user_fault` */
    method UserFault(vector: nat) returns (outcome: Outcome)
      requires Valid() && !halted
      modifies this, tasks
      ensures Valid() && current == 2 && log == old(log) && views == old(views)
      ensures outcome == if old(current) == 2 then Halted else Switched
      ensures halted == (old(current) == 2)
      ensures tasks[..] == old(tasks[..])[old(current) := old(tasks[current]).(state := Done)]
    {
      tasks[current] := tasks[current].(state := Done);
      if current == 2 {
        halted := true;
        return Halted;
      }
      current := 2;
      outcome := Switched;
    }

    /** `quanta_task_grant`: a new last capability, whose handle is the number of capabilities. */
    method Grant(slot: nat, kind: nat, resource: nat) returns (status: Status, handle: nat)
      requires Valid() && slot < MAX_TASKS
      modifies tasks
      ensures Valid() && log == old(log)
      ensures status == if kind == 0 || |old(tasks[slot].capabilities)| >= MAX_CAPABILITIES then Limit else Ok
      ensures status == Ok ==>
                && handle == |old(tasks[slot].capabilities)| + 1
                && tasks[..] == old(tasks[..])[slot := old(tasks[slot]).(
                     capabilities := old(tasks[slot].capabilities)
                                       + [Capability(kind, resource, handle, RIGHT_SEND + RIGHT_RECEIVE)],
                     endpoint := if kind == CAP_ENDPOINT then handle else old(tasks[slot].endpoint))]
      ensures status == Ok && kind == CAP_ENDPOINT ==>
                && HasEndpoint(tasks[slot].capabilities, tasks[slot].endpoint, RIGHT_SEND)
                && HasEndpoint(tasks[slot].capabilities, tasks[slot].endpoint, RIGHT_RECEIVE)
      ensures status != Ok ==> tasks[..] == old(tasks[..])
    {
      var task := tasks[slot];
      var count := |task.capabilities|;
      handle := 0;
      if kind == 0 || count >= MAX_CAPABILITIES { return Limit, handle; }
      handle := count + 1;
      var granted := task.capabilities + [Capability(kind, resource, handle, RIGHT_SEND + RIGHT_RECEIVE)];
      tasks[slot] := task.(capabilities := granted, endpoint := if kind == CAP_ENDPOINT then handle else task.endpoint);
      assert granted[count].handle == handle;
      assert And(3, 1) == 1 && And(3, 2) == 2;
      status := Ok;
    }

    /** `quanta_task_revoke`: the first capability with the handle goes; the later ones move down. */
    method Revoke(slot: nat, handle: nat) returns (status: Status)
      requires Valid() && slot < MAX_TASKS
      modifies tasks
      ensures Valid() && log == old(log)
      ensures status == Ok <==>
                && handle != 0
                && exists i :: 0 <= i < |old(tasks[slot].capabilities)|
                     && old(tasks[slot].capabilities)[i].handle == handle
      ensures status == Ok ==>
                && RemovesFirst(old(tasks[slot].capabilities), tasks[slot].capabilities, handle)
                && tasks[..] == old(tasks[..])[slot := old(tasks[slot]).(
                     capabilities := tasks[slot].capabilities,
                     endpoint := if old(tasks[slot].endpoint) == handle then 0 else old(tasks[slot].endpoint))]
      ensures status != Ok ==> status == Invalid && tasks[..] == old(tasks[..])
    {
      if handle == 0 { return Invalid; }
      var task := tasks[slot];
      var index := 0;
      while index < |task.capabilities|
        invariant 0 <= index <= |task.capabilities| && tasks[..] == old(tasks[..])
        invariant forall j :: 0 <= j < index ==> task.capabilities[j].handle != handle
      {
        if task.capabilities[index].handle == handle {
          tasks[slot] := task.(capabilities := task.capabilities[..index] + task.capabilities[index + 1..],
                               endpoint := if task.endpoint == handle then 0 else task.endpoint);
          return Ok;
        }
        index := index + 1;
      }
      status := Invalid;
    }

    /** The task-switching system calls of `quanta_task_syscall`. */
    method Syscall(number: nat, handle: nat, message: nat, payload: nat, length: nat, returnIp: nat, flags: nat)
      returns (outcome: Outcome)
      requires Valid() && !halted && message < WORD_END && payload < WORD_END && number <= SYSCALL_TASK_EXIT
      modifies this, tasks, request, reply, requestPayload, replyPayload
      ensures Valid() && current >= old(current)
      ensures |log| <= |old(log)| + 1 && old(log) <= log
      ensures log == old(log) || number == [SYSCALL_IPC_CALL, SYSCALL_IPC_RECEIVE, SYSCALL_IPC_REPLY][|old(log)|]
      ensures number == SYSCALL_IPC_CALL ==>
                (log != old(log) <==> length <= MAX_PAYLOAD && old(CallAccepted(handle, message, payload, length)))
      ensures number == SYSCALL_IPC_RECEIVE ==>
                (log != old(log) <==> length <= MAX_PAYLOAD && old(ReceiveAccepted(handle, message, payload, length)))
      ensures number == SYSCALL_IPC_REPLY ==>
                (log != old(log) <==> length <= MAX_PAYLOAD && old(ReplyAccepted(handle, message, payload, length)))
      ensures number == SYSCALL_TASK_EXIT && length <= MAX_BUFFER ==>
                tasks[..] == old(tasks[..])[old(current) := old(tasks[current]).(state := Done)]
                && (halted <==> old(current) != 0)
      ensures log == old(log) && !(number == SYSCALL_TASK_EXIT && length <= MAX_BUFFER) ==> Idle()
      ensures number == SYSCALL_YIELD && length <= MAX_BUFFER ==> outcome == Returned(Ok)
      ensures outcome == Halted <==> halted
    {
      if number in {SYSCALL_IPC_CALL, SYSCALL_IPC_RECEIVE, SYSCALL_IPC_REPLY} && length > MAX_PAYLOAD {
        return Returned(Limit);
      }
      if length > MAX_BUFFER { return Returned(Limit); }
      if number == SYSCALL_IPC_CALL {
        outcome := Call(handle, message, payload, length, returnIp, flags);
      } else if number == SYSCALL_IPC_RECEIVE {
        outcome := Receive(handle, message, payload, length);
      } else if number == SYSCALL_IPC_REPLY {
        outcome := Reply(handle, message, payload, length);
      } else if number == SYSCALL_TASK_EXIT {
        outcome := Exit();
      } else {
        outcome := Returned(Ok);
      }
    }

    /** User code, or a system call outside this model, changed bytes of the current task. */
    method UserRuns(view: View)
      requires Valid() && !halted
      modifies this`views
      ensures Valid() && views == old(views)[current := view]
    {
      views := views[current := view];
    }

    /** Every run: whatever the tasks do, however calls are made, faults happen and capabilities come and
        go, control never goes back to an earlier task, a pending request means that the first task waits
        for its reply, and every accepted reply answers the one accepted call, which one accepted receive
        delivered. */
    method Run(steps: seq<Step>) returns (done: nat)
      requires Valid() && !halted && forall i :: 0 <= i < |steps| ==> StepOk(steps[i])
      modifies this, tasks, request, reply, requestPayload, replyPayload
      ensures Valid() && current >= old(current) && old(log) <= log
      ensures pending ==> tasks[0].state == WaitReply
      ensures EveryReplyAnswers(log)
      ensures done == |steps| || (done < |steps| && halted)
    {
      hide Orderly;
      hide EveryReplyAnswers;
      hide HasEndpoint;
      hide RemovesFirst;
      hide Peek;
      done := 0;
      while done < |steps|
        invariant 0 <= done <= |steps| && !halted
        invariant Valid() && current >= old(current) && old(log) <= log
      {
        match steps[done] {
          case Runs(view) => UserRuns(view);
          case Calls(number, handle, message, payload, length, returnIp, flags) =>
            var outcome := Syscall(number, handle, message, payload, length, returnIp, flags);
          case Faults(vector) => var outcome := UserFault(vector);
          case Grants(slot, kind, resource) => var status, handle := Grant(slot, kind, resource);
          case Revokes(slot, handle) => var status := Revoke(slot, handle);
        }
        if halted {
          OrderlyAnswers(log);
          return;
        }
        done := done + 1;
      }
      OrderlyAnswers(log);
    }
  }

  datatype Step =
    | Runs(view: View)
    | Calls(number: nat, handle: nat, message: nat, payload: nat, length: nat, returnIp: nat, flags: nat)
    | Faults(vector: nat)
    | Grants(slot: nat, kind: nat, resource: nat)
    | Revokes(slot: nat, handle: nat)

  predicate StepOk(s: Step) {
    match s
    case Calls(number, _, message, payload, _, _, _) => number <= SYSCALL_TASK_EXIT && message < WORD_END
                                                        && payload < WORD_END
    case Grants(slot, _, _) => slot < MAX_TASKS
    case Revokes(slot, _) => slot < MAX_TASKS
    case _ => true
  }

  // ---------------------------------------------------------------------------------------------
  // A receive into overlapping buffers
  // ---------------------------------------------------------------------------------------------

  /** A message for a payload of one byte. */
  function ShortMessage(): (m: seq<byte>)
    ensures |m| == MESSAGE_SIZE && m[0] == 1 && MessageValid(m, 1)
  {
    var m: seq<byte> := seq(MESSAGE_SIZE, i => if i == 0 || i == 16 then 1 else 0);
    assert m[..2] == [1, 0] && m[16..20] == [1, 0, 0, 0] && m[20..22] == [0, 0] && m[22..24] == [0, 0];
    assert [1, 0, 0, 0][..2] == [1, 0] && [1, 0, 0, 0][2..] == [0, 0];
    m
  }

  /** A run from bootstrap in which the server receives message and payload at one address: the call is
      accepted, the payload arrives and the message does not. */
  method OverlappingReceive() returns (layer: TaskLayer, outcome: Outcome)
    ensures fresh(layer) && layer.Valid() && outcome == Returned(Ok)
    ensures |layer.log| == 2 && layer.log[0] == Called(ShortMessage(), [255])
    ensures layer.log[1].Received? && layer.log[1].payload == [255] && layer.log[1].message != ShortMessage()
  {
    hide MessageValid;
    hide Poke;
    hide Peek;
    hide HasEndpoint;
    hide And;
    hide ShortMessage;
    layer := new TaskLayer([1, 1, 1], [0, 0, 0]);
    var client, clientHandle := layer.Grant(0, CAP_ENDPOINT, 7);
    var server, serverHandle := layer.Grant(1, CAP_ENDPOINT, 7);
    var here := USER_CODE_BASE;
    DeliveredIs(map[], here, ShortMessage(), here + MESSAGE_SIZE, [255]);
    layer.UserRuns(Delivered(map[], here, ShortMessage(), here + MESSAGE_SIZE, [255]));
    outcome := layer.Call(clientHandle, here, here + MESSAGE_SIZE, 1, 0, 0);
    assert !Agrees(here, ShortMessage(), here, [255]) by { assert ShortMessage()[0] == 1; }
    outcome := layer.Receive(serverHandle, here, here, 1);
  }
}
