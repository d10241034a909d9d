/**
 The NVMe queue pair: a submission ring and a completion ring shared by host and device, with
 doorbells and a phase bit, as interleaved steps.  Entry layouts follow sections 4.1.1 and 4.2.1 of
 the NVM Express Base Specification, revision 2.3.  History fields record what has happened.
 */
module Nvme {
  import opened Wrappers
  import opened DivMod

  const WORD16 := 0x1_0000

  const WORD32 := 0x1_0000_0000

  /**
   Submission queue entry, without the fields the driver leaves zero and the data pointer, which is always the bounce
   buffer.
   */
  datatype Sqe = Sqe(cdw0: nat, nsid: nat, cdw10: nat, cdw11: nat, cdw12: nat) {
    predicate Fits() {
      cdw0 < WORD32 && cdw10 < WORD32 && cdw11 < WORD32 && cdw12 < WORD32
    }

    function Opcode(): nat { cdw0 % 256 }

    function Cid(): nat { cdw0 / WORD16 }

    /** `(cdw0 & !0xFF) | opcode` */
    function SetOpcode(opcode: nat): Sqe
      requires opcode < 256
    {
      this.(cdw0 := cdw0 - cdw0 % 256 + opcode)
    }

    /** `(cdw0 & 0xFFFF) | (cid << 16)` */
    function SetCid(cid: nat): Sqe
      requires cid < WORD16
    {
      this.(cdw0 := cdw0 % WORD16 + cid * WORD16)
    }

    function Lba(): nat { cdw10 + cdw11 * WORD32 }

    /** Number of sectors; the field is zero-based. */
    function Count(): nat { cdw12 % WORD16 + 1 }
  }

  /** Completion queue entry. */
  datatype Cqe = Cqe(dw0: nat, dw1: nat, sqHead: nat, sqId: nat, cid: nat, status: nat) {
    /** Bit 0 of the status field. */
    function Phase(): bool { status % 2 != 0 }

    /** Bits 1 to 11 of the status field; zero is success. */
    function StatusCode(): nat { status / 2 % 2048 }
  }

  /** Setting the command identifier keeps the opcode and is read back. */
  lemma CidRoundTrip(e: Sqe, cid: nat)
    requires cid < WORD16
    ensures e.SetCid(cid).Cid() == cid && e.SetCid(cid).Opcode() == e.Opcode()
    ensures e.SetCid(cid).Fits() <==> e.(cdw0 := 0).Fits()
    ensures e.SetCid(cid).cdw0 % WORD16 == e.cdw0 % WORD16
  {
    DivModUnique(e.SetCid(cid).cdw0, WORD16, cid, e.cdw0 % WORD16);
    ModShift(e.cdw0 % WORD16, cid * 256, 256);
    ModOfMod(e.cdw0, WORD16, 256);
  }

  /** Setting the opcode keeps the bits above it and is read back. */
  lemma OpcodeRoundTrip(e: Sqe, opcode: nat)
    requires opcode < 256
    ensures e.SetOpcode(opcode).Opcode() == opcode && e.SetOpcode(opcode).cdw0 / 256 == e.cdw0 / 256
  {
    DivModUnique(e.SetOpcode(opcode).cdw0, 256, e.cdw0 / 256, opcode);
  }

  /** The status field that carries a code and a phase bit. */
  function StatusWord(code: nat, phase: bool): nat
    requires code < 2048
  {
    code * 2 + if phase then 1 else 0
  }

  // ---------------------------------------------------------------- the two rings

  /**
   Both rings, all registers, and the two sides' private variables.
   - `sqTail`, `cid`, `cqHead`, `cqPhase`: the host's.
   - `sqHead`, `cqTail`, `devPhase`, `inflight`: the device's.
   - `sqTailDb`, `cqHeadDb`: the doorbell registers.
   - `submitted`, `completed`, `posted`: history of submitted commands, of commands the device has
     finished, and of the completion entries it posted for them.
   - `fetched`, `returned`: how many commands the device has fetched and how many entries the host
     has taken.
   */
  datatype Pair = Pair(
    n: nat,
    sq: seq<Sqe>, sqTailDb: nat, sqTail: nat, cid: nat, sqHead: nat,
    cq: seq<Cqe>, cqHeadDb: nat, cqHead: nat, cqPhase: bool, cqTail: nat, devPhase: bool,
    inflight: seq<Sqe>,
    submitted: seq<Sqe>, fetched: nat, completed: seq<Sqe>, posted: seq<Cqe>, returned: nat)

  const ZERO_SQE := Sqe(0, 0, 0, 0, 0)

  const ZERO_CQE := Cqe(0, 0, 0, 0, 0, 0)

  /** Rings start zeroed and both sides agree on phase one. */
  function Initial(n: nat): Pair {
    Pair(n, seq(n, _ => ZERO_SQE), 0, 0, 0, 0, seq(n, _ => ZERO_CQE), 0, 0, true, 0, true, [], [], 0, [], [], 0)
  }

  /** Host: write the entry at the tail, advance, ring the doorbell. */
  function Submit(s: Pair, cmd: Sqe): Pair
    requires s.n > 0 && |s.sq| == s.n && s.sqTail < s.n && s.cid < WORD16
  {
    var entry := cmd.SetCid(s.cid);
    var tail := (s.sqTail + 1) % s.n;
    s.(sq := s.sq[s.sqTail := entry], sqTail := tail, sqTailDb := tail, cid := (s.cid + 1) % WORD16,
       submitted := s.submitted + [entry])
  }

  /** Host: take the entry at the head if its phase bit is the expected one. */
  function Poll(s: Pair): (Pair, Option<Cqe>)
    requires s.n > 0 && |s.cq| == s.n && s.cqHead < s.n
  {
    var entry := s.cq[s.cqHead];
    if entry.Phase() != s.cqPhase then (s, None)
    else
      var wrap := s.cqHead + 1 >= s.n;
      var head := if wrap then 0 else s.cqHead + 1;
      var phase := if wrap then !s.cqPhase else s.cqPhase;
      (s.(cqHead := head, cqPhase := phase, cqHeadDb := head, returned := s.returned + 1), Some(entry))
  }

  /** Device: commands are waiting when its head differs from the tail doorbell. */
  predicate CanFetch(s: Pair) {
    s.sqHead != s.sqTailDb
  }

  function Fetch(s: Pair): Pair
    requires s.n > 0 && |s.sq| == s.n && s.sqHead < s.n && CanFetch(s)
  {
    s.(inflight := s.inflight + [s.sq[s.sqHead]], sqHead := (s.sqHead + 1) % s.n, fetched := s.fetched + 1)
  }

  /** Device: it respects the head doorbell, so it never fills the last free slot. */
  predicate CanComplete(s: Pair, i: nat) {
    i < |s.inflight| && s.n > 0 && (s.cqTail + 1) % s.n != s.cqHeadDb
  }

  function CompletionOf(s: Pair, cmd: Sqe, code: nat, dw0: nat): Cqe
    requires code < 2048
  {
    Cqe(dw0, 0, s.sqHead, 1, cmd.Cid(), StatusWord(code, s.devPhase))
  }

  /** Device: finish any command in flight and post its completion. */
  function Complete(s: Pair, i: nat, code: nat, dw0: nat): Pair
    requires |s.cq| == s.n && s.cqTail < s.n && CanComplete(s, i) && code < 2048
  {
    var e := CompletionOf(s, s.inflight[i], code, dw0);
    var wrap := s.cqTail + 1 == s.n;
    s.(cq := s.cq[s.cqTail := e], cqTail := if wrap then 0 else s.cqTail + 1,
       devPhase := if wrap then !s.devPhase else s.devPhase,
       inflight := s.inflight[..i] + s.inflight[i + 1..],
       completed := s.completed + [s.inflight[i]], posted := s.posted + [e])
  }

  // ---------------------------------------------------------------- the invariant

  /** The phase bit carried by the `k`-th entry: it flips on every lap. */
  predicate LapPhase(n: nat, k: nat)
    requires n > 0
  {
    k / n % 2 == 0
  }

  predicate Shape(s: Pair) {
    && 2 <= s.n < WORD16 && |s.sq| == s.n && |s.cq| == s.n
    && s.sqTail < s.n && s.sqHead < s.n && s.cqHead < s.n && s.cqTail < s.n && s.cid < WORD16
  }

  /** The submission ring holds the unfetched commands, in order. */
  ghost predicate SubmissionInv(s: Pair)
    requires Shape(s)
  {
    && s.fetched <= |s.submitted| < s.fetched + s.n
    && s.sqTail == s.sqTailDb == |s.submitted| % s.n
    && s.sqHead == s.fetched % s.n
    && (forall k :: s.fetched <= k < |s.submitted| ==> s.sq[k % s.n] == s.submitted[k])
    && s.cid == |s.submitted| % WORD16
    && (forall k :: 0 <= k < |s.submitted| ==> s.submitted[k].Cid() == k % WORD16)
  }

  /**
   The completion ring: slots from the host's head to the device's tail hold the posted entries
   with the expected phase, all other slots carry the opposite phase.
   */
  ghost predicate CompletionInv(s: Pair)
    requires Shape(s)
  {
    && s.returned <= |s.posted| < s.returned + s.n
    && s.cqHead == s.cqHeadDb == s.returned % s.n
    && s.cqPhase == LapPhase(s.n, s.returned)
    && s.cqTail == |s.posted| % s.n
    && s.devPhase == LapPhase(s.n, |s.posted|)
    && (forall k :: s.returned <= k < |s.posted| ==> s.cq[k % s.n] == s.posted[k])
    && (forall k :: 0 <= k < |s.posted| ==> s.posted[k].Phase() == LapPhase(s.n, k))
    && (forall k {:trigger s.cq[k % s.n]} :: |s.posted| <= k < s.returned + s.n ==>
          s.cq[k % s.n].Phase() != LapPhase(s.n, k))
  }

  /** Every fetched command is in flight or completed, once, and completions carry its identifier. */
  ghost predicate CommandInv(s: Pair) {
    && s.fetched <= |s.submitted|
    && multiset(s.submitted[..s.fetched]) == multiset(s.completed) + multiset(s.inflight)
    && |s.completed| == |s.posted| && |s.completed| + |s.inflight| == s.fetched
    && forall k :: 0 <= k < |s.posted| ==> s.posted[k].cid == s.completed[k].Cid()
  }

  /** The whole invariant; it needs a host that only submits when there is room. */
  ghost predicate Inv(s: Pair) {
    Shape(s) && SubmissionInv(s) && CompletionInv(s) && CommandInv(s)
  }

  /** Registers, counters and identifiers. */
  ghost predicate Counters(s: Pair)
    requires Shape(s)
  {
    && s.fetched <= |s.submitted|
    && s.sqTail == s.sqTailDb == |s.submitted| % s.n
    && s.sqHead == s.fetched % s.n
    && s.cid == |s.submitted| % WORD16
    && (forall k :: 0 <= k < |s.submitted| ==> s.submitted[k].Cid() == k % WORD16)
    && |s.completed| == |s.posted| && |s.completed| + |s.inflight| == s.fetched
    && (forall k :: 0 <= k < |s.posted| ==> s.posted[k].cid == s.completed[k].Cid())
  }

  /** The part of the invariant that every host keeps, even one that submits on a full ring. */
  ghost predicate Kept(s: Pair) {
    Shape(s) && CompletionInv(s) && Counters(s)
  }

  lemma InvIsKept(s: Pair)
    requires Inv(s)
    ensures Kept(s)
  {
  }

  /** The next index around the ring. */
  lemma NextSlot(n: nat, k: nat)
    requires n > 1
    ensures (k + 1) % n == (if k % n + 1 == n then 0 else k % n + 1) == (k % n + 1) % n
    ensures (k + 1) / n == if k % n + 1 == n then k / n + 1 else k / n
  {
    var q, r := k / n, k % n;
    assert k == q * n + r;
    if r + 1 == n {
      assert (q + 1) * n == q * n + n;
      DivModUnique(k + 1, n, q + 1, 0);
      DivModUnique(r + 1, n, 1, 0);
    } else {
      DivModUnique(k + 1, n, q, r + 1);
      DivModUnique(r + 1, n, 0, r + 1);
    }
  }

  lemma NextPhase(n: nat, k: nat)
    requires n > 1
    ensures LapPhase(n, k + 1) == if k % n + 1 == n then !LapPhase(n, k) else LapPhase(n, k)
  {
    NextSlot(n, k);
  }

  /** One lap later the slot is the same and the phase is the other one. */
  lemma LapLater(n: nat, k: nat)
    requires n > 0
    ensures (k + n) % n == k % n && LapPhase(n, k + n) == !LapPhase(n, k)
  {
    ModShift(k, 1, n);
  }

  /** Two counters less than a lap apart use different slots. */
  lemma SlotsDiffer(n: nat, j: nat, k: nat)
    requires n > 0 && j < k < j + n
    ensures j % n != k % n
  {
    if j % n == k % n {
      var q := k / n - j / n;
      assert k - j == q * n by {
        assert k == (k / n) * n + k % n && j == (j / n) * n + j % n;
        assert q * n == (k / n) * n - (j / n) * n;
      }
      if q >= 1 { MulMono(1, q, n); } else { MulMono(q, 0, n); }
    }
  }

  lemma InitialInv(n: nat)
    requires 2 <= n < WORD16
    ensures Inv(Initial(n))
  {
    var s := Initial(n);
    forall k {:trigger s.cq[k % n]} | 0 <= k < n ensures s.cq[k % n].Phase() != LapPhase(n, k) {
      DivModUnique(k, n, 0, k);
    }
    DivModUnique(0, n, 0, 0);
    assert s.submitted[..0] == [];
  }

  /** Submitting is safe while the device has fewer than `n - 1` commands to fetch. */
  predicate HasRoom(s: Pair) {
    |s.submitted| - s.fetched < s.n - 1
  }

  lemma SubmitRing(s: Pair, cmd: Sqe)
    requires Shape(s) && SubmissionInv(s) && HasRoom(s)
    ensures Shape(Submit(s, cmd)) && SubmissionInv(Submit(s, cmd))
  {
    var t, n, m := Submit(s, cmd), s.n, |s.submitted|;
    NextSlot(n, m);
    NextSlot(WORD16, m);
    CidRoundTrip(cmd, s.cid);
    forall k | t.fetched <= k < |t.submitted|
      ensures t.sq[k % n] == t.submitted[k]
    {
      if k < m { SlotsDiffer(n, k, m); }
    }
  }

  /** The completion side does not look at the submission side, and commands are counted once fetched. */
  lemma CompletionFrame(s: Pair, t: Pair)
    requires Shape(s) && Shape(t) && CompletionInv(s) && CommandInv(s)
    requires t.n == s.n && t.cq == s.cq && t.cqHeadDb == s.cqHeadDb && t.cqHead == s.cqHead && t.cqPhase == s.cqPhase
    requires t.cqTail == s.cqTail && t.devPhase == s.devPhase && t.posted == s.posted && t.returned == s.returned
    requires t.inflight == s.inflight && t.completed == s.completed
    requires t.fetched == s.fetched && s.submitted <= t.submitted
    ensures CompletionInv(t) && CommandInv(t)
  {
    assert t.submitted[..t.fetched] == s.submitted[..s.fetched];
  }

  lemma SubmitInv(s: Pair, cmd: Sqe)
    requires Inv(s) && HasRoom(s)
    ensures Inv(Submit(s, cmd))
  {
    SubmitRing(s, cmd);
    CompletionFrame(s, Submit(s, cmd));
  }

  lemma FetchRing(s: Pair)
    requires Shape(s) && SubmissionInv(s) && CanFetch(s)
    ensures s.fetched < |s.submitted| && s.sq[s.sqHead] == s.submitted[s.fetched]
    ensures Shape(Fetch(s)) && SubmissionInv(Fetch(s))
  {
    var f := s.fetched;
    assert f < |s.submitted|;
    NextSlot(s.n, f);
    assert s.sq[f % s.n] == s.submitted[f];
  }

  lemma FetchInv(s: Pair)
    requires Inv(s) && CanFetch(s)
    ensures s.fetched < |s.submitted| && Inv(Fetch(s))
    ensures Fetch(s).inflight == s.inflight + [s.submitted[s.fetched]]
  {
    FetchRing(s);
    var f := s.fetched;
    assert s.submitted[..f + 1] == s.submitted[..f] + [s.submitted[f]];
  }

  lemma RemoveAt(q: seq<Sqe>, i: nat)
    requires i < |q|
    ensures multiset(q) == multiset(q[..i] + q[i + 1..]) + multiset{q[i]}
  {
    assert q == q[..i] + [q[i]] + q[i + 1..];
  }

  lemma CompletionPhase(s: Pair, cmd: Sqe, code: nat, dw0: nat)
    requires code < 2048
    ensures CompletionOf(s, cmd, code, dw0).Phase() == s.devPhase
  {
    assert StatusWord(code, s.devPhase) % 2 == if s.devPhase then 1 else 0;
  }

  /** The posted entry lands in the free slot at the device's tail. */
  lemma CompleteRing(s: Pair, i: nat, code: nat, dw0: nat)
    requires Shape(s) && CompletionInv(s) && CanComplete(s, i) && code < 2048
    ensures Shape(Complete(s, i, code, dw0)) && CompletionInv(Complete(s, i, code, dw0))
  {
    var t, n, p := Complete(s, i, code, dw0), s.n, |s.posted|;
    var e := CompletionOf(s, s.inflight[i], code, dw0);
    NextSlot(n, p);
    NextPhase(n, p);
    CompletionPhase(s, s.inflight[i], code, dw0);
    assert p + 1 < s.returned + n by {
      if p + 1 == s.returned + n { LapLater(n, s.returned); }
    }
    forall k | s.returned <= k < p + 1
      ensures t.cq[k % n] == t.posted[k]
    {
      if k < p { SlotsDiffer(n, k, p); }
    }
    forall k {:trigger t.cq[k % n]} | p + 1 <= k < s.returned + n
      ensures t.cq[k % n].Phase() != LapPhase(n, k)
    {
      SlotsDiffer(n, p, k);
      assert s.cq[k % n].Phase() != LapPhase(n, k);
    }
  }

  lemma CompleteCommands(s: Pair, i: nat, code: nat, dw0: nat)
    requires Shape(s) && CommandInv(s) && CanComplete(s, i) && code < 2048
    ensures CommandInv(Complete(s, i, code, dw0))
  {
    RemoveAt(s.inflight, i);
    assert Complete(s, i, code, dw0).submitted[..s.fetched] == s.submitted[..s.fetched];
  }

  lemma CompleteInv(s: Pair, i: nat, code: nat, dw0: nat)
    requires Inv(s) && CanComplete(s, i) && code < 2048
    ensures Inv(Complete(s, i, code, dw0))
  {
    CompleteRing(s, i, code, dw0);
    CompleteCommands(s, i, code, dw0);
  }

  /** Polling keeps the completion ring and returns the oldest entry not yet taken, if there is one. */
  lemma PollRing(s: Pair)
    requires Shape(s) && CompletionInv(s)
    ensures Shape(Poll(s).0) && CompletionInv(Poll(s).0)
    ensures Poll(s).1.Some? <==> s.returned < |s.posted|
    ensures Poll(s).1.Some? ==> Poll(s).1.value == s.posted[s.returned] && Poll(s).0.returned == s.returned + 1
  {
    var n, r := s.n, s.returned;
    if r < |s.posted| {
      assert s.cq[r % n] == s.posted[r];
      var t := Poll(s).0;
      NextSlot(n, r);
      NextPhase(n, r);
      forall k {:trigger t.cq[k % n]} | |t.posted| <= k < t.returned + n
        ensures t.cq[k % n].Phase() != LapPhase(n, k)
      {
        if k == r + n { LapLater(n, r); } else { assert s.cq[k % n].Phase() != LapPhase(n, k); }
      }
    } else {
      assert s.cq[r % n].Phase() != LapPhase(n, r);
    }
  }

  lemma PollInv(s: Pair)
    requires Inv(s)
    ensures Inv(Poll(s).0)
    ensures Poll(s).1.Some? <==> s.returned < |s.posted|
    ensures Poll(s).1.Some? ==> Poll(s).1.value == s.posted[s.returned]
  {
    PollRing(s);
  }

  // ---------------------------------------------------------------- whole runs

  datatype Step =
    | HostSubmit(cmd: Sqe)
    | HostPoll
    | DevFetch
    | DevComplete(i: nat, code: nat, dw0: nat)

  /** A step that is allowed in `s`: the host does what it likes, the device respects the doorbells. */
  predicate Enabled(s: Pair, step: Step) {
    Shape(s) &&
    match step
    case HostSubmit(_) => true
    case HostPoll => true
    case DevFetch => CanFetch(s)
    case DevComplete(i, code, _) => CanComplete(s, i) && code < 2048
  }

  function Apply(s: Pair, step: Step): Pair
    requires Enabled(s, step)
  {
    match step
    case HostSubmit(cmd) => Submit(s, cmd)
    case HostPoll => Poll(s).0
    case DevFetch => Fetch(s)
    case DevComplete(i, code, dw0) => Complete(s, i, code, dw0)
  }

  /** The run of `steps` from `s` is allowed step by step, and ends in `t`. */
  ghost predicate Runs(s: Pair, steps: seq<Step>, t: Pair)
    decreases |steps|
  {
    if steps == [] then s == t
    else Enabled(s, steps[0]) && Runs(Apply(s, steps[0]), steps[1..], t)
  }

  /** History only grows. */
  ghost predicate Grows(s: Pair, t: Pair) {
    && t.n == s.n && s.posted <= t.posted && s.submitted <= t.submitted && s.completed <= t.completed
    && s.fetched <= t.fetched && s.returned <= t.returned
  }

  /** In this run the host only submits when there is room. */
  ghost predicate Guarded(s: Pair, steps: seq<Step>)
    decreases |steps|
  {
    steps != [] && Enabled(s, steps[0]) ==>
      (steps[0].HostSubmit? ==> HasRoom(s)) && Guarded(Apply(s, steps[0]), steps[1..])
  }

  lemma StepInv(s: Pair, step: Step)
    requires Inv(s) && Enabled(s, step) && (step.HostSubmit? ==> HasRoom(s))
    ensures Inv(Apply(s, step)) && Grows(s, Apply(s, step))
  {
    match step
    case HostSubmit(cmd) => SubmitInv(s, cmd);
    case HostPoll => PollInv(s);
    case DevFetch => FetchInv(s);
    case DevComplete(i, code, dw0) => CompleteInv(s, i, code, dw0);
  }

  lemma SubmitKeeps(s: Pair, cmd: Sqe)
    requires Kept(s)
    ensures Kept(Submit(s, cmd)) && Grows(s, Submit(s, cmd))
  {
    NextSlot(s.n, |s.submitted|);
    NextSlot(WORD16, |s.submitted|);
    CidRoundTrip(cmd, s.cid);
  }

  lemma FetchKeeps(s: Pair)
    requires Kept(s) && CanFetch(s)
    ensures Kept(Fetch(s)) && Grows(s, Fetch(s))
  {
    NextSlot(s.n, s.fetched);
  }

  lemma CompleteKeeps(s: Pair, i: nat, code: nat, dw0: nat)
    requires Kept(s) && CanComplete(s, i) && code < 2048
    ensures Kept(Complete(s, i, code, dw0)) && Grows(s, Complete(s, i, code, dw0))
  {
    CompleteRing(s, i, code, dw0);
  }

  lemma StepKeeps(s: Pair, step: Step)
    requires Kept(s) && Enabled(s, step)
    ensures Kept(Apply(s, step)) && Grows(s, Apply(s, step))
  {
    match step
    case HostSubmit(cmd) => SubmitKeeps(s, cmd);
    case HostPoll => PollRing(s);
    case DevFetch => FetchKeeps(s);
    case DevComplete(i, code, dw0) => CompleteKeeps(s, i, code, dw0);
  }

  lemma GrowsTransitive(s: Pair, u: Pair, t: Pair)
    requires Grows(s, u) && Grows(u, t)
    ensures Grows(s, t)
  {
  }

  /** Safety over every interleaving, whether or not the host overruns its ring. */
  lemma {:induction false} RunKeeps(s: Pair, steps: seq<Step>, t: Pair)
    requires Kept(s) && Runs(s, steps, t)
    ensures Kept(t) && Grows(s, t)
    decreases |steps|
  {
    if steps != [] {
      var u := Apply(s, steps[0]);
      StepKeeps(s, steps[0]);
      RunKeeps(u, steps[1..], t);
      GrowsTransitive(s, u, t);
    }
  }

  /** A host that only submits when there is room keeps the whole invariant. */
  lemma {:induction false} RunInv(s: Pair, steps: seq<Step>, t: Pair)
    requires Inv(s) && Runs(s, steps, t) && Guarded(s, steps)
    ensures Inv(t) && Grows(s, t)
    decreases |steps|
  {
    if steps != [] {
      var u := Apply(s, steps[0]);
      StepInv(s, steps[0]);
      RunInv(u, steps[1..], t);
      GrowsTransitive(s, u, t);
    }
  }

  /** A run that submits nothing needs no room. */
  lemma {:induction false} QuietIsGuarded(s: Pair, steps: seq<Step>, t: Pair)
    requires Kept(s) && Runs(s, steps, t) && |t.submitted| == |s.submitted|
    ensures Guarded(s, steps)
    decreases |steps|
  {
    if steps != [] {
      var u := Apply(s, steps[0]);
      StepKeeps(s, steps[0]);
      RunKeeps(u, steps[1..], t);
      QuietIsGuarded(u, steps[1..], t);
    }
  }

  /** What the polls of a run return, in order. */
  function Taken(s: Pair, steps: seq<Step>): seq<Cqe>
    decreases |steps|
  {
    if steps == [] || !Enabled(s, steps[0]) then []
    else
      (if steps[0].HostPoll? && Poll(s).1.Some? then [Poll(s).1.value] else []) + Taken(Apply(s, steps[0]), steps[1..])
  }

  lemma TakenStep(s: Pair, step: Step)
    requires Kept(s) && Enabled(s, step)
    ensures var u := Apply(s, step);
            if step.HostPoll? && Poll(s).1.Some?
            then s.returned < |s.posted| && u.returned == s.returned + 1 && Poll(s).1.value == s.posted[s.returned]
            else u.returned == s.returned
  {
    PollRing(s);
  }

  /**
   Exactly-once FIFO delivery: in every run the entries taken by the host are the next posted ones,
   in posting order, none lost, none repeated, across any number of laps.
   */
  lemma {:induction false} TakenIsPosted(s: Pair, steps: seq<Step>, t: Pair)
    requires Kept(s) && Runs(s, steps, t)
    ensures Kept(t) && Grows(s, t) && t.returned <= |t.posted|
    ensures Taken(s, steps) == t.posted[s.returned..t.returned]
    decreases |steps|
  {
    RunKeeps(s, steps, t);
    KeptBounds(t);
    if steps != [] {
      var u := Apply(s, steps[0]);
      StepKeeps(s, steps[0]);
      TakenIsPosted(u, steps[1..], t);
      TakenStep(s, steps[0]);
      if u.returned == s.returned + 1 { SliceCons(t.posted, s.returned, t.returned); }
    }
  }

  lemma KeptBounds(t: Pair)
    requires Kept(t)
    ensures t.returned <= |t.posted| == |t.completed| <= t.fetched <= |t.submitted|
  {
  }

  lemma SliceCons(p: seq<Cqe>, a: nat, b: nat)
    requires a < b <= |p|
    ensures p[a..b] == [p[a]] + p[a + 1..b]
  {
  }

  /** From power-on, in every run: the k-th entry the host takes is the k-th the device posted. */
  lemma DeliveryFromReset(n: nat, steps: seq<Step>, t: Pair)
    requires 2 <= n < WORD16 && Runs(Initial(n), steps, t)
    ensures t.returned <= |t.posted| == |t.completed| && Taken(Initial(n), steps) == t.posted[..t.returned]
    ensures forall k :: 0 <= k < t.returned ==> Taken(Initial(n), steps)[k].cid == t.completed[k].Cid()
  {
    InitialInv(n);
    InvIsKept(Initial(n));
    TakenIsPosted(Initial(n), steps, t);
  }

  // ---------------------------------------------------------------- overruns and stale completions

  /** An unguarded submit stays visible to the device exactly when there was room. */
  lemma SubmitVisibleIffRoom(s: Pair, cmd: Sqe)
    requires Inv(s)
    ensures CanFetch(Submit(s, cmd)) <==> HasRoom(s)
  {
    var m := |s.submitted|;
    NextSlot(s.n, m);
    if HasRoom(s) { SlotsDiffer(s.n, s.fetched, m + 1); } else { LapLater(s.n, s.fetched); }
  }

  /** The device has completed its commands in the order of their submission so far. */
  ghost predicate InOrder(s: Pair) {
    |s.completed| <= |s.submitted| && s.completed == s.submitted[..|s.completed|]
  }

  /**
   `wait` does not look at the identifier.  With a device that completes in order, the next entry the
   host takes after a submit carries the identifier of that submit if and only if nothing was
   outstanding before it; after a timeout something is, and the answer belongs to an older command.
   */
  lemma NextAnswerIsOwnIffIdle(s: Pair, cmd: Sqe, steps: seq<Step>, t: Pair)
    requires Kept(s) && Runs(Submit(s, cmd), steps, t) && InOrder(t)
    requires s.returned == t.returned < |t.posted|
    requires |s.submitted| - s.returned < WORD16
    ensures Kept(t) && Poll(t).1.Some? && (Poll(t).1.value.cid == s.cid <==> |s.submitted| == s.returned)
  {
    SubmitKeeps(s, cmd);
    NextAnswer(Submit(s, cmd), steps, t);
    OldestCid(s);
  }

  /**
   With nothing outstanding before it, the next entry taken after a submit is its own, whatever order
   the device works in.
   */
  lemma IdleAnswerIsOwn(s: Pair, cmd: Sqe, steps: seq<Step>, t: Pair)
    requires Inv(s) && HasRoom(s) && |s.submitted| == s.returned
    requires Runs(Submit(s, cmd), steps, t) && |t.submitted| == |s.submitted| + 1
    requires t.returned == s.returned < |t.posted|
    ensures Inv(t) && Poll(t).1.Some? && Poll(t).1.value.cid == s.cid
  {
    SubmitInv(s, cmd);
    InvIsKept(Submit(s, cmd));
    QuietIsGuarded(Submit(s, cmd), steps, t);
    RunInv(Submit(s, cmd), steps, t);
    PollInv(t);
    NothingOutstanding(s);
    AllDone(s);
    AllDone(t);
    CidRoundTrip(cmd, s.cid);
    var entry := cmd.SetCid(s.cid);
    assert Submit(s, cmd).submitted == s.submitted + [entry];
    assert t.submitted == s.submitted + [entry];
    LastOne(s.submitted, s.completed, entry, t.completed);
  }

  /** When as many commands are completed as submitted, they are the same. */
  lemma AllDone(s: Pair)
    requires Inv(s)
    ensures |s.completed| == |s.posted| <= |s.submitted|
    ensures |s.completed| == |s.submitted| ==> multiset(s.completed) == multiset(s.submitted)
  {
    if |s.completed| == |s.submitted| {
      assert s.submitted[..s.fetched] == s.submitted;
      assert s.inflight == [];
    }
  }

  lemma LastOne(before: seq<Sqe>, done: seq<Sqe>, entry: Sqe, done': seq<Sqe>)
    requires multiset(before) == multiset(done) && done <= done' && |done'| == |done| + 1
    requires multiset(done') == multiset(before + [entry])
    ensures done'[|done|] == entry
  {
    var last := done'[|done|];
    assert done' == done + [last];
    assert multiset(done')[last] == multiset(done)[last] + 1;
    assert multiset(before + [entry])[last] == multiset(before)[last] + if last == entry then 1 else 0;
  }

  lemma NextAnswer(u: Pair, steps: seq<Step>, t: Pair)
    requires Kept(u) && Runs(u, steps, t) && InOrder(t) && t.returned < |t.posted|
    ensures Kept(t) && Poll(t).1.Some? && Poll(t).1.value.cid == t.returned % WORD16
  {
    RunKeeps(u, steps, t);
    PollRing(t);
    AnswerOf(t, t.returned);
  }

  lemma AnswerOf(t: Pair, k: nat)
    requires Kept(t) && InOrder(t) && k < |t.posted|
    ensures t.posted[k].cid == k % WORD16
  {
    assert t.completed[k] == t.submitted[k];
  }

  lemma OldestCid(s: Pair)
    requires Kept(s) && |s.submitted| - s.returned < WORD16
    ensures s.returned <= |s.submitted| && (s.returned % WORD16 == s.cid <==> |s.submitted| == s.returned)
  {
    if s.returned < |s.submitted| { SlotsDiffer(WORD16, s.returned, |s.submitted|); }
  }

  lemma NothingOutstanding(s: Pair)
    requires Inv(s)
    ensures s.returned <= |s.submitted|
    ensures |s.submitted| == s.returned ==> s.inflight == [] && |s.posted| == s.returned && s.fetched == |s.submitted|
  {
  }

  /** The answer to `a` is posted, but nobody has taken it. */
  function Unanswered(a: Sqe): Pair {
    var e := Cqe(0, 0, 1, 1, 0, 1);
    Pair(2, [a.SetCid(0), ZERO_SQE], 1, 1, 1, 1, [e, ZERO_CQE], 0, 0, true, 1, true,
         [], [a.SetCid(0)], 1, [a.SetCid(0)], [e], 0)
  }

  lemma ReachUnanswered(a: Sqe)
    ensures var s1 := Submit(Initial(2), a);
            && Poll(s1) == (s1, None) && CanFetch(s1)
            && CanComplete(Fetch(s1), 0) && Complete(Fetch(s1), 0, 0, 0) == Unanswered(a)
  {
    var s1 := Submit(Initial(2), a);
    assert s1.sq == [a.SetCid(0), ZERO_SQE] && s1.cq == [ZERO_CQE, ZERO_CQE];
    var s2 := Fetch(s1);
    assert s2.inflight == [a.SetCid(0)];
    CidRoundTrip(a, 0);
    var t := Complete(s2, 0, 0, 0);
    assert t.cq == Unanswered(a).cq && t.inflight == [] && t.posted == Unanswered(a).posted;
  }

  /** A command whose wait timed out before the device answered: the next command gets its answer. */
  lemma StaleAnswer(a: Sqe, b: Sqe)
    ensures var s := Initial(2);
            var steps := [HostSubmit(a), HostPoll, DevFetch, DevComplete(0, 0, 0), HostSubmit(b), HostPoll];
            |Taken(s, steps)| == 1 && Taken(s, steps)[0].cid == 0 && a.SetCid(0).Cid() == 0 && b.SetCid(1).Cid() == 1
  {
    CidRoundTrip(a, 0);
    CidRoundTrip(b, 1);
    ReachUnanswered(a);
    var s1 := Submit(Initial(2), a);
    var p1, p2, p3, p4, p5, p6 := HostSubmit(a), HostPoll, DevFetch, DevComplete(0, 0, 0), HostSubmit(b), HostPoll;
    AnswerToOther(a, b);
    TakenUnfold(Fetch(s1), p4, [p5, p6]);
    TakenUnfold(s1, p3, [p4, p5, p6]);
    TakenUnfold(s1, p2, [p3, p4, p5, p6]);
    TakenUnfold(Initial(2), p1, [p2, p3, p4, p5, p6]);
    assert [p1, p2, p3, p4, p5, p6] == [p1] + [p2, p3, p4, p5, p6];
    assert [p2, p3, p4, p5, p6] == [p2] + [p3, p4, p5, p6];
    assert [p3, p4, p5, p6] == [p3] + [p4, p5, p6];
    assert [p4, p5, p6] == [p4] + [p5, p6];
  }

  lemma AnswerToOther(a: Sqe, b: Sqe)
    ensures var t := Taken(Unanswered(a), [HostSubmit(b), HostPoll]); |t| == 1 && t[0].cid == 0
  {
    var s, p5, p6 := Unanswered(a), HostSubmit(b), HostPoll;
    var t := Submit(s, b);
    assert Shape(s) && HasRoom(s);
    assert Shape(t) && t.cq == s.cq && t.cqHead == 0 && t.cqPhase;
    assert Poll(t).1 == Some(s.cq[0]);
    TakenUnfold(t, p6, []);
    TakenUnfold(s, p5, [p6]);
    assert [p5, p6] == [p5] + [p6] && [p6] == [p6] + [];
  }

  lemma TakenUnfold(s: Pair, step: Step, rest: seq<Step>)
    requires Enabled(s, step)
    ensures Taken(s, [step] + rest)
         == (if step.HostPoll? && Poll(s).1.Some? then [Poll(s).1.value] else []) + Taken(Apply(s, step), rest)
  {
    assert ([step] + rest)[1..] == rest;
  }
}
