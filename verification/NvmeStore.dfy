/**
 The NVMe controller as a block store: the driver's read and write commands through the queue pair
 and a bounce buffer, against a device that fetches, executes and completes commands at any time.
 */
module NvmeStore {
  import opened Wrappers
  import opened Bytes
  import opened DivMod
  import opened Nvme

  const IO_CMD_WRITE := 1

  const IO_CMD_READ := 2

  const SECTOR := 512

  const DMA_SIZE := 4096

  datatype NvmeError = Timeout | CommandError(status: nat) | BufferTooSmall

  /** The queue pair, the bounce buffer and the disk. */
  datatype Store = Store(pair: Pair, dma: seq<byte>, disk: seq<byte>)

  /** The command addresses sectors of the disk and fits the bounce buffer. */
  predicate InRange(cmd: Sqe, dma: seq<byte>, disk: seq<byte>) {
    (cmd.Lba() + cmd.Count()) * SECTOR <= |disk| && cmd.Count() * SECTOR <= |dma|
  }

  /** Nothing outside the sectors of the command differs. */
  predicate SameOutside(cmd: Sqe, disk: seq<byte>, disk': seq<byte>) {
    && |disk'| == |disk|
    && forall i :: 0 <= i < |disk| && !(cmd.Lba() * SECTOR <= i < (cmd.Lba() + cmd.Count()) * SECTOR) ==>
         disk'[i] == disk[i]
  }

  /**
   What completing `cmd` with a status code does to the bounce buffer and the disk.  A failed read
   may leave anything in the buffer, a failed write anything in its own sectors.
   */
  ghost predicate Executes(cmd: Sqe, code: nat, dma: seq<byte>, disk: seq<byte>, dma': seq<byte>, disk': seq<byte>) {
    && |dma'| == |dma| && |disk'| == |disk|
    && (cmd.Opcode() != IO_CMD_WRITE ==> disk' == disk)
    && (cmd.Opcode() != IO_CMD_READ ==> dma' == dma)
    && SameOutside(cmd, disk, disk')
    && (code == 0 ==> InRange(cmd, dma, disk))
    && (code == 0 && cmd.Opcode() == IO_CMD_READ ==>
          dma' == Splice(dma, 0, disk[cmd.Lba() * SECTOR..(cmd.Lba() + cmd.Count()) * SECTOR]))
    && (code == 0 && cmd.Opcode() == IO_CMD_WRITE ==>
          disk' == Splice(disk, cmd.Lba() * SECTOR, dma[..cmd.Count() * SECTOR]))
  }

  /** One step of the device, or none. */
  ghost predicate DeviceStep(s: Store, t: Store)
    requires Shape(s.pair)
  {
    || t == s
    || (CanFetch(s.pair) && t == s.(pair := Fetch(s.pair)))
    || exists i, code, dw0 :: CompletesWith(s, t, i, code, dw0)
  }

  ghost predicate CompletesWith(s: Store, t: Store, i: nat, code: nat, dw0: nat)
    requires Shape(s.pair)
  {
    && code < 2048 && CanComplete(s.pair, i) && t.pair == Complete(s.pair, i, code, dw0)
    && Executes(s.pair.inflight[i], code, s.dma, s.disk, t.dma, t.disk)
  }

  // ---------------------------------------------------------------- what a device chooses

  /**
   What the device tries next: to fetch a command, or to finish command `i` in flight with a status
   code.  A command that fails leaves the given bytes in buffer and disk, where it may.
   */
  datatype Act = FetchNext | Finish(i: nat, code: nat, dw0: nat, dma: seq<byte>, disk: seq<byte>)

  /** What the device does before each look of the host, numbered from power-on; in the end it rests. */
  type Plan = seq<seq<Act>>

  function ActsAt(plan: Plan, k: nat): seq<Act> {
    if k < |plan| then plan[k] else []
  }

  /** A failed command may leave these bytes behind. */
  predicate FailureLeaves(cmd: Sqe, dma: seq<byte>, disk: seq<byte>, dma': seq<byte>, disk': seq<byte>) {
    && |dma'| == |dma| && SameOutside(cmd, disk, disk')
    && (cmd.Opcode() != IO_CMD_WRITE ==> disk' == disk)
    && (cmd.Opcode() != IO_CMD_READ ==> dma' == dma)
  }

  /** Status code, buffer and disk after a command; one that is out of range cannot succeed. */
  function Executed(cmd: Sqe, act: Act, dma: seq<byte>, disk: seq<byte>): (r: (nat, seq<byte>, seq<byte>))
    requires act.Finish? && act.code < 2048
    ensures r.0 < 2048 && Executes(cmd, r.0, dma, disk, r.1, r.2)
    ensures act.code == 0 && InRange(cmd, dma, disk) ==> r.0 == 0
  {
    if act.code == 0 && InRange(cmd, dma, disk) then
      assert (cmd.Lba() + cmd.Count()) * SECTOR == cmd.Lba() * SECTOR + cmd.Count() * SECTOR;
      if cmd.Opcode() == IO_CMD_READ then
        (0, Splice(dma, 0, disk[cmd.Lba() * SECTOR..(cmd.Lba() + cmd.Count()) * SECTOR]), disk)
      else if cmd.Opcode() == IO_CMD_WRITE then
        (0, dma, Splice(disk, cmd.Lba() * SECTOR, dma[..cmd.Count() * SECTOR]))
      else (0, dma, disk)
    else
      var code := if act.code == 0 then 1 else act.code;
      if FailureLeaves(cmd, dma, disk, act.dma, act.disk) then (code, act.dma, act.disk) else (code, dma, disk)
  }

  /** One act of the device; what it cannot do is skipped. */
  function Do(s: Store, act: Act): (t: Store)
    requires Shape(s.pair)
    ensures Shape(t.pair)
  {
    match act
    case FetchNext => if CanFetch(s.pair) then s.(pair := Fetch(s.pair)) else s
    case Finish(i, code, dw0, _, _) =>
      if code < 2048 && CanComplete(s.pair, i) then
        var (status, dma, disk) := Executed(s.pair.inflight[i], act, s.dma, s.disk);
        Store(Complete(s.pair, i, status, dw0), dma, disk)
      else s
  }

  function DoAll(s: Store, acts: seq<Act>): (t: Store)
    requires Shape(s.pair)
    ensures Shape(t.pair)
    decreases |acts|
  {
    if acts == [] then s else DoAll(Do(s, acts[0]), acts[1..])
  }

  lemma DoIsStep(s: Store, act: Act)
    requires Shape(s.pair)
    ensures DeviceStep(s, Do(s, act))
  {
    if act.Finish? && act.code < 2048 && CanComplete(s.pair, act.i) {
      var (status, dma, disk) := Executed(s.pair.inflight[act.i], act, s.dma, s.disk);
      assert CompletesWith(s, Do(s, act), act.i, status, act.dw0);
    }
  }

  /** Acts are no restriction: every step of a device is one. */
  lemma StepIsDo(s: Store, t: Store) returns (act: Act)
    requires Shape(s.pair) && DeviceStep(s, t)
    ensures t == Do(s, act)
  {
    if t == s {
      act := Finish(0, 2048, 0, [], []);
    } else if CanFetch(s.pair) && t == s.(pair := Fetch(s.pair)) {
      act := FetchNext;
    } else {
      var i, code, dw0 :| CompletesWith(s, t, i, code, dw0);
      act := Finish(i, code, dw0, t.dma, t.disk);
    }
  }

  /** The store after what the device does before `n` looks, from look `from` of the plan on. */
  function After(s: Store, plan: Plan, from: nat, n: nat): (t: Store)
    requires Shape(s.pair)
    ensures Shape(t.pair)
  {
    if n == 0 then s else DoAll(After(s, plan, from, n - 1), ActsAt(plan, from + n - 1))
  }

  /** The store that look `k` of the host finds when no look before it has found an answer. */
  function AtLook(s: Store, plan: Plan, from: nat, k: nat): (t: Store)
    requires Shape(s.pair)
    ensures Shape(t.pair)
  {
    After(s, plan, from, k + 1)
  }

  predicate Answered(s: Store)
    requires Shape(s.pair)
  {
    Poll(s.pair).1.Some?
  }

  /** Look `k` is the first to find an answer. */
  ghost predicate FirstAnswer(s: Store, plan: Plan, from: nat, k: nat)
    requires Shape(s.pair)
  {
    Answered(AtLook(s, plan, from, k)) && forall j :: 0 <= j < k ==> !Answered(AtLook(s, plan, from, j))
  }

  /** No look finds an answer before the host gives up. */
  ghost predicate TimesOut(s: Store, plan: Plan, from: nat)
    requires Shape(s.pair)
  {
    forall k :: 0 <= k < 500_000_000 ==> !Answered(AtLook(s, plan, from, k))
  }

  /** The first answer found comes in time, in the state that `t` leaves after taking it. */
  ghost predicate Takes(s: Store, plan: Plan, from: nat, k: nat, entry: Cqe, t: Store)
    requires Shape(s.pair)
  {
    && k < 500_000_000 && FirstAnswer(s, plan, from, k)
    && (t.pair, Some(entry)) == Poll(AtLook(s, plan, from, k).pair)
    && t == AtLook(s, plan, from, k).(pair := t.pair)
  }

  ghost predicate AnswersWith(s: Store, plan: Plan, from: nat, code: nat)
    requires Shape(s.pair)
  {
    exists k, entry, t :: Takes(s, plan, from, k, entry, t) && entry.StatusCode() == code
  }

  /** After `i` looks without an answer, the store is in state `u`. */
  ghost predicate Waited(s: Store, plan: Plan, from: nat, i: nat, u: Store)
    requires Shape(s.pair)
  {
    && u == After(s, plan, from, i)
    && forall k :: 0 <= k < i ==> !Answered(AtLook(s, plan, from, k))
  }

  /** What waiting from state `s` on finds: the first answer, taken in the state before `t`, or nothing in time. */
  ghost predicate Finds(s: Store, plan: Plan, from: nat, r: Result<Cqe, NvmeError>, t: Store)
    requires Shape(s.pair)
  {
    if r.Ok? then exists k :: Takes(s, plan, from, k, r.value, t) else r.error == Timeout && TimesOut(s, plan, from)
  }

  lemma WaitOn(s: Store, plan: Plan, from: nat, i: nat, u: Store, clock: nat, v: Store)
    requires Shape(s.pair) && Waited(s, plan, from, i, u) && Shape(u.pair)
    requires clock == from + i && v == DoAll(u, ActsAt(plan, clock))
    ensures var (pair, found) := Poll(v.pair);
            if found.Some? then i < 500_000_000 ==> Finds(s, plan, from, Ok(found.value), v.(pair := pair))
            else Waited(s, plan, from, i + 1, v)
  {
    assert v == AtLook(s, plan, from, i);
    var (pair, found) := Poll(v.pair);
    if found.Some? && i < 500_000_000 { assert Takes(s, plan, from, i, found.value, v.(pair := pair)); }
  }

  /** What waiting from state `s` on has to report: a timeout, or the status that the first answer carries. */
  ghost predicate Reports(s: Store, plan: Plan, from: nat, r: Result<(), NvmeError>)
    requires Shape(s.pair)
  {
    && (r == Err(Timeout) <==> TimesOut(s, plan, from))
    && (r.Ok? <==> AnswersWith(s, plan, from, 0))
    && forall code :: r == Err(CommandError(code)) <==> code != 0 && AnswersWith(s, plan, from, code)
  }

  /** The status of what was found is what there is to report. */
  lemma FoundIsReported(s: Store, plan: Plan, from: nat, found: Result<Cqe, NvmeError>, t: Store)
    requires Shape(s.pair) && Finds(s, plan, from, found, t)
    ensures Reports(s, plan, from,
                    if found.Err? then Err(Timeout)
                    else if found.value.StatusCode() != 0 then Err(CommandError(found.value.StatusCode()))
                    else Ok(()))
  {
    if found.Ok? {
      var status := found.value.StatusCode();
      assert AnswersWith(s, plan, from, status);
      forall code
        ensures AnswersWith(s, plan, from, code) <==> code == status
      {
        OneOutcome(s, plan, from, status, code);
      }
      OneOutcome(s, plan, from, status, status);
    } else {
      forall code
        ensures !AnswersWith(s, plan, from, code)
      {
        if AnswersWith(s, plan, from, code) { OneOutcome(s, plan, from, code, code); }
      }
    }
  }

  /** There is one first answer, or none in time. */
  lemma OneOutcome(s: Store, plan: Plan, from: nat, code: nat, code': nat)
    requires Shape(s.pair) && AnswersWith(s, plan, from, code)
    ensures !TimesOut(s, plan, from)
    ensures AnswersWith(s, plan, from, code') ==> code' == code
  {
    var k, entry, t :| Takes(s, plan, from, k, entry, t) && entry.StatusCode() == code;
    if AnswersWith(s, plan, from, code') {
      var k', entry', t' :| Takes(s, plan, from, k', entry', t') && entry'.StatusCode() == code';
      assert Answered(AtLook(s, plan, from, k)) && Answered(AtLook(s, plan, from, k'));
      assert k == k';
    }
  }

  // ---------------------------------------------------------------- the disk as a map

  /** A successful write. */
  datatype WriteOp = WriteOp(lba: nat, data: seq<byte>) {
    predicate Covers(i: nat) {
      lba * SECTOR <= i < lba * SECTOR + |data|
    }
  }

  /** The disk after a history of successful writes, oldest first. */
  function Replay(disk: seq<byte>, ops: seq<WriteOp>): (r: seq<byte>)
    requires forall k :: 0 <= k < |ops| ==> ops[k].lba * SECTOR + |ops[k].data| <= |disk|
    ensures |r| == |disk|
  {
    if ops == [] then disk
    else
      var op := ops[|ops| - 1];
      Splice(Replay(disk, ops[..|ops| - 1]), op.lba * SECTOR, op.data)
  }

  /** Every byte of the disk is that of the last write to it, or was there from the start. */
  lemma {:induction false} LastWriteWins(disk: seq<byte>, ops: seq<WriteOp>, i: nat) returns (k: nat)
    requires i < |disk| && forall j :: 0 <= j < |ops| ==> ops[j].lba * SECTOR + |ops[j].data| <= |disk|
    ensures k <= |ops| && forall j :: 0 <= j < |ops| && (k == |ops| || k < j) ==> !ops[j].Covers(i)
    ensures k < |ops| ==> ops[k].Covers(i)
    ensures Replay(disk, ops)[i] == if k < |ops| then ops[k].data[i - ops[k].lba * SECTOR] else disk[i]
  {
    if ops == [] { return 0; }
    var n := |ops| - 1;
    LastWrite(disk, ops, i);
    if ops[n].Covers(i) { return n; }
    var front := ops[..n];
    k := LastWriteWins(disk, front, i);
    forall j | 0 <= j < |ops| && (k == n || k < j)
      ensures !ops[j].Covers(i)
    {
      if j < n { assert ops[j] == front[j]; }
    }
    if k == n { k := |ops|; }
  }

  lemma LastWrite(disk: seq<byte>, ops: seq<WriteOp>, i: nat)
    requires i < |disk| && ops != [] && forall j :: 0 <= j < |ops| ==> ops[j].lba * SECTOR + |ops[j].data| <= |disk|
    ensures var op := ops[|ops| - 1];
            Replay(disk, ops)[i]
            == if op.Covers(i) then op.data[i - op.lba * SECTOR] else Replay(disk, ops[..|ops| - 1])[i]
  {
  }

  // ---------------------------------------------------------------- one command at a time

  /** No command is outstanding. */
  ghost predicate Idle(s: Store) {
    Inv(s.pair) && |s.pair.submitted| == s.pair.returned
  }

  /**
   The store after command `cmd` was submitted to the idle store `s0` and before its completion is
   taken: not fetched yet, being executed, or completed.
   */
  ghost predicate Pending(s0: Store, cmd: Sqe, s: Store) {
    var m := |s0.pair.submitted|;
    && Inv(s.pair) && s.pair.n == s0.pair.n && s.pair.returned == m && s.pair.submitted == s0.pair.submitted + [cmd]
    && ( || (s.pair.inflight == [] && |s.pair.posted| == m && s.dma == s0.dma && s.disk == s0.disk)
         || (s.pair.inflight == [cmd] && |s.pair.posted| == m && s.dma == s0.dma && s.disk == s0.disk)
         || Done(s0, cmd, s))
  }

  ghost predicate Done(s0: Store, cmd: Sqe, s: Store) {
    var m := |s0.pair.submitted|;
    && s.pair.inflight == [] && |s.pair.posted| == m + 1 && s.pair.posted[m].cid == cmd.Cid()
    && Executes(cmd, s.pair.posted[m].StatusCode(), s0.dma, s0.disk, s.dma, s.disk)
  }

  lemma SubmitPends(s0: Store, cmd: Sqe)
    requires Idle(s0)
    ensures Inv(s0.pair) && Pending(s0, cmd.SetCid(s0.pair.cid), s0.(pair := Submit(s0.pair, cmd)))
  {
    NothingOutstanding(s0.pair);
    SubmitInv(s0.pair, cmd);
  }

  lemma StatusRoundTrip(code: nat, phase: bool, e: Cqe)
    requires code < 2048 && e.status == StatusWord(code, phase)
    ensures e.StatusCode() == code && e.Phase() == phase
  {
  }

  lemma FetchKeepsPending(s0: Store, cmd: Sqe, s: Store)
    requires Pending(s0, cmd, s) && CanFetch(s.pair)
    ensures Pending(s0, cmd, s.(pair := Fetch(s.pair)))
  {
    FetchInv(s.pair);
    assert s.pair.fetched == |s0.pair.submitted|;
  }

  lemma CompleteKeepsPending(s0: Store, cmd: Sqe, s: Store, t: Store, i: nat, code: nat, dw0: nat)
    requires Pending(s0, cmd, s) && CompletesWith(s, t, i, code, dw0)
    ensures Pending(s0, cmd, t)
  {
    CompleteInv(s.pair, i, code, dw0);
    var m := |s0.pair.submitted|;
    assert s.pair.inflight == [cmd] && i == 0;
    assert t.pair.posted[m] == CompletionOf(s.pair, cmd, code, dw0);
    StatusRoundTrip(code, s.pair.devPhase, t.pair.posted[m]);
  }

  lemma StepKeepsPending(s0: Store, cmd: Sqe, s: Store, t: Store)
    requires Pending(s0, cmd, s) && DeviceStep(s, t)
    ensures Pending(s0, cmd, t)
  {
    if t != s && !(CanFetch(s.pair) && t == s.(pair := Fetch(s.pair))) {
      var i, code, dw0 :| CompletesWith(s, t, i, code, dw0);
      CompleteKeepsPending(s0, cmd, s, t, i, code, dw0);
    } else if t != s {
      FetchKeepsPending(s0, cmd, s);
    }
  }

  lemma {:induction false} DoAllKeepsPending(s0: Store, cmd: Sqe, s: Store, acts: seq<Act>)
    requires Pending(s0, cmd, s)
    ensures Pending(s0, cmd, DoAll(s, acts))
    decreases |acts|
  {
    if acts != [] {
      DoIsStep(s, acts[0]);
      StepKeepsPending(s0, cmd, s, Do(s, acts[0]));
      DoAllKeepsPending(s0, cmd, Do(s, acts[0]), acts[1..]);
    }
  }

  /** A poll finds nothing until the command is done; then it takes its completion and the store is idle again. */
  lemma PollPending(s0: Store, cmd: Sqe, s: Store)
    requires Pending(s0, cmd, s)
    ensures Poll(s.pair).1.None? ==> Poll(s.pair).0 == s.pair
    ensures Poll(s.pair).1.Some? ==>
      && Idle(s.(pair := Poll(s.pair).0)) && Done(s0, cmd, s)
      && Poll(s.pair).1.value == s.pair.posted[|s0.pair.submitted|]
  {
    PollInv(s.pair);
  }

  /**
   After a timeout the old answer may come late.  If it is there when the next command is sent, the
   driver takes it at once for the new command, with its status, on a bounce buffer that the new
   command has not touched.
   */
  lemma AnswerAfterTimeout(s0: Store, late: Sqe, s: Store, cmd: Sqe)
    requires Idle(s0) && late == late.SetCid(s0.pair.cid)
    requires Pending(s0, late, s) && |s.pair.posted| == |s0.pair.submitted| + 1 && HasRoom(s.pair)
    ensures var t := s.(pair := Submit(s.pair, cmd));
            && Inv(t.pair) && Poll(t.pair).1.Some?
            && Poll(t.pair).1.value.cid == late.Cid() != cmd.SetCid(s.pair.cid).Cid()
            && Executes(late, Poll(t.pair).1.value.StatusCode(), s0.dma, s0.disk, t.dma, t.disk)
  {
    SubmitInv(s.pair, cmd);
    PollInv(Submit(s.pair, cmd));
    CidRoundTrip(cmd, s.pair.cid);
    CidRoundTrip(late, s0.pair.cid);
    CidsDiffer(s0.pair, s.pair);
  }

  lemma CidsDiffer(s0: Pair, s: Pair)
    requires Inv(s0) && Inv(s) && |s.submitted| == |s0.submitted| + 1
    ensures s.cid != s0.cid
  {
    SlotsDiffer(WORD16, |s0.submitted|, |s.submitted|);
  }

  /** An idle device has nothing to do. */
  lemma IdleStays(s: Store, t: Store)
    requires Idle(s) && DeviceStep(s, t)
    ensures t == s
  {
    NothingOutstanding(s.pair);
    if CanFetch(s.pair) { FetchInv(s.pair); }
  }

  // ---------------------------------------------------------------- the driver

  class SubmissionQueue {
    const ring: array<Sqe>
    const size: nat
    var tail: nat
    var cidCounter: nat
    /** The tail doorbell register. */
    var doorbell: nat
    ghost var submitted: seq<Sqe>

    constructor (ring: array<Sqe>)
      ensures this.ring == ring && size == ring.Length && tail == 0
      ensures cidCounter == 0 && doorbell == 0 && submitted == []
    {
      this.ring, size, tail, cidCounter, doorbell := ring, ring.Length, 0, 0, 0;
      submitted := [];
    }

    method Submit(cmd: Sqe) returns (cid: nat)
      requires 0 < size == ring.Length && tail < size && cidCounter < WORD16
      modifies this, ring
      ensures cid == old(cidCounter) && cidCounter == (old(cidCounter) + 1) % WORD16
      ensures ring[..] == old(ring[..])[old(tail) := cmd.SetCid(cid)]
      ensures tail == (old(tail) + 1) % size && doorbell == tail
      ensures submitted == old(submitted) + [cmd.SetCid(cid)]
    {
      cid := cidCounter;
      cidCounter := (cidCounter + 1) % WORD16;
      var entry := cmd.SetCid(cid);
      ring[tail] := entry;
      tail := (tail + 1) % size;
      doorbell := tail;
      submitted := submitted + [entry];
    }
  }

  class CompletionQueue {
    const ring: array<Cqe>
    const size: nat
    var head: nat
    var phase: bool
    /** The head doorbell register. */
    var doorbell: nat
    ghost var returned: nat

    constructor (ring: array<Cqe>)
      ensures this.ring == ring && size == ring.Length && head == 0 && phase && doorbell == 0 && returned == 0
    {
      this.ring, size, head, phase, doorbell := ring, ring.Length, 0, true, 0;
      returned := 0;
    }

    method Poll() returns (r: Option<Cqe>)
      requires 0 < size == ring.Length && head < size
      modifies this
      ensures r == if old(ring[head].Phase()) == old(phase) then Some(old(ring[head])) else None
      ensures r.None? ==>
                head == old(head) && phase == old(phase) && doorbell == old(doorbell) && returned == old(returned)
      ensures r.Some? ==>
        && head == (if old(head) + 1 >= size then 0 else old(head) + 1) && doorbell == head
        && phase == (if old(head) + 1 >= size then !old(phase) else old(phase)) && returned == old(returned) + 1
    {
      var entry := ring[head];
      if entry.Phase() != phase { return None; }
      head := head + 1;
      if head >= size {
        head := 0;
        phase := !phase;
      }
      doorbell := head;
      returned := returned + 1;
      r := Some(entry);
    }
  }

  /** The controller hardware.  What it does before each look of the host is in its plan, which is arbitrary. */
  class Device {
    const sq: SubmissionQueue
    const cq: CompletionQueue
    const dma: array<byte>
    const disk: array<byte>
    const plan: Plan
    /** How many looks of the host the plan has reached. */
    var clock: nat
    var sqHead: nat
    var cqTail: nat
    var phase: bool
    var inflight: seq<Sqe>
    ghost var fetched: nat
    ghost var completed: seq<Sqe>
    ghost var posted: seq<Cqe>

    constructor (sq: SubmissionQueue, cq: CompletionQueue, dma: array<byte>, disk: array<byte>, plan: Plan)
      ensures this.sq == sq && this.cq == cq && this.dma == dma && this.disk == disk && this.plan == plan && clock == 0
      ensures sqHead == 0 && cqTail == 0 && phase && inflight == [] && fetched == 0 && completed == [] && posted == []
    {
      this.sq, this.cq, this.dma, this.disk, this.plan, clock := sq, cq, dma, disk, plan, 0;
      sqHead, cqTail, phase, inflight := 0, 0, true, [];
      fetched, completed, posted := 0, [], [];
    }

    ghost predicate Separate() {
      && dma != disk && sq.size == sq.ring.Length && cq.size == cq.ring.Length == sq.size
      && dma as object != cq.ring && disk as object != cq.ring
      && dma as object != sq.ring && disk as object != sq.ring && sq.ring as object != cq.ring
    }

    /** Host, device and memory as one value. */
    ghost function Abs(): Store
      reads this, sq, cq, sq.ring, cq.ring, dma, disk
    {
      Store(Pair(sq.size, sq.ring[..], sq.doorbell, sq.tail, sq.cidCounter, sqHead,
                 cq.ring[..], cq.doorbell, cq.head, cq.phase, cqTail, phase, inflight,
                 sq.submitted, fetched, completed, posted, cq.returned),
            dma[..], disk[..])
    }

    /** Read the submission entry at the device's head. */
    method FetchOne()
      requires Separate() && Shape(Abs().pair) && CanFetch(Abs().pair)
      modifies this
      ensures Abs() == old(Abs()).(pair := Fetch(old(Abs()).pair)) && clock == old(clock)
    {
      inflight := inflight + [sq.ring[sqHead]];
      sqHead := (sqHead + 1) % sq.size;
      fetched := fetched + 1;
    }

    /** Move the data of a command. */
    method Execute(cmd: Sqe, act: Act) returns (code: nat)
      requires Separate() && act.Finish? && act.code < 2048
      modifies dma, disk
      ensures (code, dma[..], disk[..]) == Executed(cmd, act, old(dma[..]), old(disk[..]))
    {
      var from, len := cmd.Lba() * SECTOR, cmd.Count() * SECTOR;
      assert from + len == (cmd.Lba() + cmd.Count()) * SECTOR;
      if act.code == 0 && from + len <= disk.Length && len <= dma.Length {
        code := 0;
        Succeed(cmd.Opcode(), from, len);
      } else {
        code := if act.code == 0 then 1 else act.code;
        if FailureLeaves(cmd, dma[..], disk[..], act.dma, act.disk) { Overwrite(act.dma, act.disk); }
      }
    }

    method Succeed(opcode: nat, from: nat, len: nat)
      requires Separate() && from + len <= disk.Length && len <= dma.Length
      modifies dma, disk
      ensures dma[..] == if opcode == IO_CMD_READ then Splice(old(dma[..]), 0, old(disk[..])[from..from + len])
                         else old(dma[..])
      ensures disk[..] == if opcode == IO_CMD_WRITE then Splice(old(disk[..]), from, old(dma[..])[..len])
                          else old(disk[..])
    {
      assert disk[from..from + len] == disk[..][from..from + len] && dma[..len] == dma[..][..len];
      if opcode == IO_CMD_READ {
        Transfer(dma, 0, disk[from..from + len]);
      } else if opcode == IO_CMD_WRITE {
        Transfer(disk, from, dma[..len]);
      }
    }

    method Overwrite(dmaAfter: seq<byte>, diskAfter: seq<byte>)
      requires Separate() && |dmaAfter| == dma.Length && |diskAfter| == disk.Length
      modifies dma, disk
      ensures dma[..] == dmaAfter && disk[..] == diskAfter
    {
      Transfer(dma, 0, dmaAfter);
      Transfer(disk, 0, diskAfter);
    }

    method Transfer(dst: array<byte>, at: nat, bytes: seq<byte>)
      requires at + |bytes| <= dst.Length
      modifies dst
      ensures dst[..] == Splice(old(dst[..]), at, bytes)
    {
      forall k | 0 <= k < |bytes| { dst[at + k] := bytes[k]; }
    }

    /** Finish a command and post its completion entry with the device's phase. */
    method CompleteOne(act: Act)
      requires Separate() && Shape(Abs().pair) && act.Finish? && act.code < 2048 && CanComplete(Abs().pair, act.i)
      modifies this, cq.ring, dma, disk
      ensures Abs() == Do(old(Abs()), act) && clock == old(clock)
    {
      var i := act.i;
      var cmd := inflight[i];
      var code := Execute(cmd, act);
      var e := Cqe(act.dw0, 0, sqHead, 1, cmd.Cid(), StatusWord(code, phase));
      ghost var s := old(Abs());
      cq.ring[cqTail] := e;
      cqTail := cqTail + 1;
      if cqTail == cq.size {
        cqTail := 0;
        phase := !phase;
      }
      inflight := inflight[..i] + inflight[i + 1..];
      completed, posted := completed + [cmd], posted + [e];
      assert Abs().pair == Complete(s.pair, i, code, act.dw0);
    }

    method TakeStep(act: Act)
      requires Separate() && Shape(Abs().pair)
      modifies this, cq.ring, dma, disk
      ensures Abs() == Do(old(Abs()), act) && clock == old(clock)
    {
      match act {
        case FetchNext => if sqHead != sq.doorbell { FetchOne(); }
        case Finish(i, code, _, _, _) =>
          if code < 2048 && i < |inflight| && (cqTail + 1) % cq.size != cq.doorbell { CompleteOne(act); }
      }
    }

    /** All that the plan has for the time before the next look. */
    method Run()
      requires Separate() && Shape(Abs().pair)
      modifies this, cq.ring, dma, disk
      ensures Abs() == DoAll(old(Abs()), ActsAt(plan, old(clock))) && clock == old(clock) + 1
    {
      var acts := ActsAt(plan, clock);
      for n := 0 to |acts|
        invariant Shape(Abs().pair) && clock == old(clock)
        invariant DoAll(Abs(), acts[n..]) == DoAll(old(Abs()), acts)
      {
        assert acts[n..][1..] == acts[n + 1..];
        TakeStep(acts[n]);
      }
      clock := clock + 1;
    }
  }

  /** The driver's view of the device: the I/O queue pair and the bounce buffer. */
  class NvmeController {
    const ioSq: SubmissionQueue
    const ioCq: CompletionQueue
    const dma: array<byte>
    const device: Device

    constructor (device: Device)
      requires device.Separate() && device.dma.Length == DMA_SIZE
      ensures this.device == device && ioSq == device.sq && ioCq == device.cq && dma == device.dma
    {
      this.device, ioSq, ioCq, dma := device, device.sq, device.cq, device.dma;
    }

    ghost const Footprint: set<object> := {ioSq, ioCq, ioSq.ring, ioCq.ring, dma, device, device.disk}

    /** Objects are wired up and do not share memory. */
    ghost predicate Valid() {
      && device.sq == ioSq && device.cq == ioCq && device.dma == dma && device.Separate()
      && dma.Length == DMA_SIZE
    }

    ghost function Abs(): Store
      reads device, device.sq, device.cq, device.sq.ring, device.cq.ring, device.dma, device.disk
    {
      device.Abs()
    }

    /** One look of the host at the completion ring, after what the device does before it, which leaves `s`. */
    method Look(ghost s0: Store, ghost cmd: Sqe, ghost s: Store) returns (r: Option<Cqe>)
      requires Valid() && Pending(s0, cmd, Abs()) && s == DoAll(Abs(), ActsAt(device.plan, device.clock))
      modifies Footprint
      ensures Abs() == s.(pair := Nvme.Poll(s.pair).0) && r == Nvme.Poll(s.pair).1 && (r.None? ==> Abs() == s)
      ensures device.clock == old(device.clock) + 1
      ensures r.None? ==> Pending(s0, cmd, Abs())
      ensures r.Some? ==>
        Idle(Abs()) && r.value.cid == cmd.Cid() &&
        Executes(cmd, r.value.StatusCode(), s0.dma, s0.disk, Abs().dma, Abs().disk)
    {
      DoAllKeepsPending(s0, cmd, Abs(), ActsAt(device.plan, device.clock));
      device.Run();
      PollPending(s0, cmd, s);
      r := ioCq.Poll();
      assert Abs() == s.(pair := Nvme.Poll(s.pair).0);
    }

    /**
     Poll until a completion arrives or patience runs out: a timeout is reported exactly when none of
     the looks finds an answer, and otherwise the first answer found is taken.
     */
    method Wait(ghost s0: Store, ghost cmd: Sqe) returns (r: Result<Cqe, NvmeError>)
      requires Valid() && Pending(s0, cmd, Abs())
      modifies Footprint
      ensures r.Ok? ==>
        Idle(Abs()) && r.value.cid == cmd.Cid() &&
        Executes(cmd, r.value.StatusCode(), s0.dma, s0.disk, Abs().dma, Abs().disk)
      ensures r.Err? ==> Pending(s0, cmd, Abs())
      ensures Finds(old(Abs()), device.plan, old(device.clock), r, Abs())
      ensures old(device.clock) < device.clock <= old(device.clock) + 500_000_000
    {
      ghost var s, from := Abs(), device.clock;
      for i := 0 to 500_000_000
        invariant Pending(s0, cmd, Abs()) && device.clock == from + i && Waited(s, device.plan, from, i, Abs())
      {
        ghost var v := DoAll(Abs(), ActsAt(device.plan, device.clock));
        WaitOn(s, device.plan, from, i, Abs(), device.clock, v);
        var cqe := Look(s0, cmd, v);
        if cqe.Some? { return Ok(cqe.value); }
      }
      r := Err(Timeout);
    }

    /** The command both operations send: opcode, address, and the sector range. */
    static function Command(opcode: nat, lba: nat, count: nat): Sqe
      requires opcode < 256 && lba < WORD32 * WORD32 && 0 < count < WORD16
    {
      ZERO_SQE.SetOpcode(opcode).(nsid := 1, cdw10 := lba % WORD32, cdw11 := lba / WORD32, cdw12 := count - 1)
    }

    /** The device decodes the range, the opcode and the identifier that the driver encoded. */
    static lemma CommandRoundTrip(opcode: nat, lba: nat, count: nat, cid: nat)
      requires opcode < 256 && lba < WORD32 * WORD32 && 0 < count < WORD16 && cid < WORD16
      ensures var e := Command(opcode, lba, count).SetCid(cid);
              && e.Lba() == lba && e.Count() == count && e.Opcode() == opcode && e.Cid() == cid && e.nsid == 1
              && e.cdw10 < 0x1_0000_0000 && e.cdw10 + 0x1_0000_0000 * e.cdw11 == lba && e.cdw12 == count - 1
    {
      var c := Command(opcode, lba, count);
      CidRoundTrip(c, cid);
      assert lba == (lba / WORD32) * WORD32 + lba % WORD32;
    }

    /** The store after a command was sent with `data` at the start of the bounce buffer. */
    static function Sent(s: Store, opcode: nat, lba: nat, count: nat, data: seq<byte>): Store
      requires Shape(s.pair) && |data| <= |s.dma|
      requires opcode < 256 && lba < WORD32 * WORD32 && 0 < count < WORD16
    {
      s.(dma := Splice(s.dma, 0, data), pair := Nvme.Submit(s.pair, Command(opcode, lba, count)))
    }

    /** Submit a command on an idle store and wait for its completion. */
    method Perform(cmd: Sqe) returns (r: Result<(), NvmeError>, ghost sent: Sqe)
      requires Valid() && Idle(Abs())
      modifies Footprint
      ensures sent == cmd.SetCid(old(Abs()).pair.cid)
      ensures r.Ok? ==> Idle(Abs()) && Executes(sent, 0, old(Abs()).dma, old(Abs()).disk, Abs().dma, Abs().disk)
      ensures r.Err? ==> r.error.Timeout? || r.error.CommandError?
      ensures r.Err? && r.error.CommandError? ==>
        Idle(Abs()) && r.error.status != 0 &&
        Executes(sent, r.error.status, old(Abs()).dma, old(Abs()).disk, Abs().dma, Abs().disk)
      ensures r.Err? && r.error.Timeout? ==> Pending(old(Abs()), sent, Abs())
      ensures Reports(old(Abs().(pair := Nvme.Submit(Abs().pair, cmd))), device.plan, old(device.clock), r)
      ensures old(device.clock) <= device.clock <= old(device.clock) + 500_000_000
    {
      ghost var s0, from := Abs(), device.clock;
      SubmitPends(s0, cmd);
      var cid := ioSq.Submit(cmd);
      sent := cmd.SetCid(cid);
      ghost var s := Abs();
      assert s == s0.(pair := Nvme.Submit(s0.pair, cmd));
      var cqe := Wait(s0, sent);
      FoundIsReported(s, device.plan, from, cqe, Abs());
      if cqe.Err? { return Err(cqe.error), sent; }
      var status := cqe.value.StatusCode();
      if status != 0 { return Err(CommandError(status)), sent; }
      r := Ok(());
    }

    static lemma ReadMeans(sent: Sqe, lba: nat, count: nat, dma: seq<byte>, disk: seq<byte>, dma': seq<byte>,
                           disk': seq<byte>)
      requires sent.Lba() == lba && sent.Count() == count && sent.Opcode() == IO_CMD_READ
      requires Executes(sent, 0, dma, disk, dma', disk')
      ensures (lba + count) * 512 <= |disk| && count * 512 <= |dma'|
      ensures dma'[..count * 512] == disk[lba * 512..(lba + count) * 512]
    {
      assert (lba + count) * 512 == lba * 512 + count * 512;
    }

    /** Send a read and wait for it. */
    method PerformRead(lba: nat, count: nat) returns (r: Result<(), NvmeError>)
      requires Valid() && Idle(Abs()) && lba < WORD32 * WORD32 && 0 < count < WORD16 && count * 512 <= 4096
      modifies Footprint
      ensures r.Ok? ==>
        (lba + count) * 512 <= |old(Abs()).disk| &&
        dma[..count * 512] == old(Abs()).disk[lba * 512..(lba + count) * 512]
      ensures Abs().disk == old(Abs()).disk
      ensures r != Err(Timeout) ==> Idle(Abs())
      ensures r != Err(BufferTooSmall) &&
        Reports(old(Sent(Abs(), 2, lba, count, [])), device.plan, old(device.clock), r)
      ensures old(device.clock) <= device.clock <= old(device.clock) + 500_000_000
    {
      var cmd := Command(IO_CMD_READ, lba, count);
      CommandRoundTrip(IO_CMD_READ, lba, count, Abs().pair.cid);
      ghost var s0 := Abs();
      assert Splice(s0.dma, 0, []) == s0.dma;
      assert Sent(s0, 2, lba, count, []) == s0.(pair := Nvme.Submit(s0.pair, cmd));
      ghost var sent;
      r, sent := Perform(cmd);
      if r.Ok? { ReadMeans(sent, lba, count, s0.dma, s0.disk, dma[..], Abs().disk); }
    }

    method CopyOut(data: seq<byte>, buffer: array<byte>)
      requires |data| <= buffer.Length
      modifies buffer
      ensures buffer[..] == Splice(old(buffer[..]), 0, data)
    {
      forall k | 0 <= k < |data| { buffer[k] := data[k]; }
    }

    /** Read `count` sectors from `lba` on into the caller's buffer. */
    method ReadSectors(lba: nat, count: nat, buffer: array<byte>) returns (r: Result<(), NvmeError>)
      requires Valid() && Idle(Abs()) && buffer !in Footprint
      requires lba < WORD32 * WORD32 && 0 < count < WORD16
      modifies Footprint, buffer
      ensures r == Err(BufferTooSmall) <==> buffer.Length < count * 512 || count * 512 > 4096
      ensures r == Err(BufferTooSmall) ==> Abs() == old(Abs())
      ensures r.Ok? ==>
        (lba + count) * 512 <= |old(Abs()).disk| &&
        buffer[..] == Splice(old(buffer[..]), 0, old(Abs()).disk[lba * 512..(lba + count) * 512])
      ensures !r.Ok? ==> buffer[..] == old(buffer[..])
      ensures Abs().disk == old(Abs()).disk
      ensures r != Err(Timeout) ==> Idle(Abs())
      ensures r != Err(BufferTooSmall) ==>
        Reports(old(Sent(Abs(), 2, lba, count, [])), device.plan, old(device.clock), r)
      ensures old(device.clock) <= device.clock <= old(device.clock) + 500_000_000
    {
      var byteCount := count * SECTOR;
      if buffer.Length < byteCount || byteCount > DMA_SIZE { return Err(BufferTooSmall); }
      r := PerformRead(lba, count);
      if r.Ok? { CopyOut(dma[..byteCount], buffer); }
    }

    method FillBounce(data: seq<byte>)
      requires Valid() && |data| <= DMA_SIZE
      modifies dma
      ensures Abs() == old(Abs()).(dma := Splice(old(Abs()).dma, 0, data)) && device.clock == old(device.clock)
    {
      forall k | 0 <= k < |data| { dma[k] := data[k]; }
    }

    static lemma SentFilled(s: Store, t: Store, lba: nat, count: nat, data: seq<byte>)
      requires Shape(s.pair) && |data| <= |s.dma| && lba < WORD32 * WORD32 && 0 < count < WORD16
      requires t == s.(dma := Splice(s.dma, 0, data))
      ensures Sent(s, 1, lba, count, data) == Sent(t, 1, lba, count, []) && t.dma[..|data|] == data
    {
      assert Splice(t.dma, 0, []) == t.dma;
    }

    /** Send a write of what is in the bounce buffer and wait for it. */
    method PerformWrite(lba: nat, count: nat) returns (r: Result<(), NvmeError>)
      requires Valid() && Idle(Abs()) && lba < WORD32 * WORD32 && 0 < count < WORD16 && count * 512 <= 4096
      modifies Footprint
      ensures r.Ok? ==>
        (lba + count) * 512 <= |old(Abs()).disk| &&
        Abs().disk == Splice(old(Abs()).disk, lba * 512, old(Abs()).dma[..count * 512])
      ensures |Abs().disk| == |old(Abs()).disk|
      ensures forall i :: 0 <= i < |Abs().disk| && !(lba * 512 <= i < (lba + count) * 512) ==>
                Abs().disk[i] == old(Abs()).disk[i]
      ensures r != Err(Timeout) ==> Idle(Abs())
      ensures r != Err(BufferTooSmall) &&
        Reports(old(Sent(Abs(), 1, lba, count, [])), device.plan, old(device.clock), r)
      ensures old(device.clock) <= device.clock <= old(device.clock) + 500_000_000
    {
      var cmd := Command(IO_CMD_WRITE, lba, count);
      CommandRoundTrip(IO_CMD_WRITE, lba, count, Abs().pair.cid);
      ghost var s0 := Abs();
      assert Splice(s0.dma, 0, []) == s0.dma;
      assert Sent(s0, 1, lba, count, []) == s0.(pair := Nvme.Submit(s0.pair, cmd));
      ghost var sent;
      r, sent := Perform(cmd);
    }

    /** Write `count` sectors from the caller's buffer, from `lba` on. */
    method WriteSectors(lba: nat, count: nat, buffer: array<byte>) returns (r: Result<(), NvmeError>)
      requires Valid() && Idle(Abs()) && buffer !in Footprint
      requires lba < WORD32 * WORD32 && 0 < count < WORD16
      modifies Footprint
      ensures r == Err(BufferTooSmall) <==> buffer.Length < count * 512 || count * 512 > 4096
      ensures r == Err(BufferTooSmall) ==> Abs() == old(Abs())
      ensures r.Ok? ==>
        (lba + count) * 512 <= |old(Abs()).disk| &&
        Abs().disk == Splice(old(Abs()).disk, lba * 512, buffer[..count * 512])
      ensures |Abs().disk| == |old(Abs()).disk|
      ensures forall i :: 0 <= i < |Abs().disk| && !(lba * 512 <= i < (lba + count) * 512) ==>
                Abs().disk[i] == old(Abs()).disk[i]
      ensures r != Err(Timeout) ==> Idle(Abs())
      ensures r != Err(BufferTooSmall) ==>
        Reports(old(Sent(Abs(), 1, lba, count, buffer[..count * 512])), device.plan, old(device.clock), r)
      ensures old(device.clock) <= device.clock <= old(device.clock) + 500_000_000
    {
      var byteCount := count * SECTOR;
      if buffer.Length < byteCount || byteCount > DMA_SIZE { return Err(BufferTooSmall); }
      ghost var s, from := Abs(), device.clock;
      FillBounce(buffer[..byteCount]);
      SentFilled(s, Abs(), lba, count, buffer[..byteCount]);
      ghost var t := Sent(Abs(), 1, lba, count, []);
      r := PerformWrite(lba, count);
      assert Reports(t, device.plan, from, r);
    }
  }

  /** The I/O queue pair as the driver sets it up: zeroed frames, both sides at their start. */
  method CreateIoQueues(sqRing: array<Sqe>, cqRing: array<Cqe>, dma: array<byte>, disk: array<byte>, plan: Plan)
    returns (c: NvmeController)
    requires 2 <= sqRing.Length == cqRing.Length < WORD16 && dma.Length == DMA_SIZE && dma != disk
    requires dma as object != cqRing && disk as object != cqRing && dma as object != sqRing
    requires disk as object != sqRing && sqRing as object != cqRing
    requires forall k :: 0 <= k < sqRing.Length ==> sqRing[k] == ZERO_SQE && cqRing[k] == ZERO_CQE
    ensures c.device.plan == plan && c.device.clock == 0
    ensures c.Valid() && fresh(c) && c.ioSq.ring == sqRing
    ensures c.ioCq.ring == cqRing && c.dma == dma && c.device.disk == disk
    ensures fresh(c.device) && fresh(c.ioSq) && fresh(c.ioCq)
    ensures Idle(c.Abs()) && c.Abs().disk == disk[..]
  {
    var sq := new SubmissionQueue(sqRing);
    var cq := new CompletionQueue(cqRing);
    var device := new Device(sq, cq, dma, disk, plan);
    c := new NvmeController(device);
    assert sqRing[..] == Initial(sqRing.Length).sq && cqRing[..] == Initial(cqRing.Length).cq;
    assert c.Abs().pair == Initial(sqRing.Length);
    InitialInv(sqRing.Length);
  }
}
