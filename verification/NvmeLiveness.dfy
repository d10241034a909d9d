/**
 When commands do succeed: a device that finishes no command with an error, and gets round to
 fetching and to finishing often enough, answers every command that is in range before the host gives up.
 */
module NvmeLiveness {
  import opened Wrappers
  import opened Bytes
  import opened Nvme
  import opened NvmeStore

  /** No command is made to fail. */
  ghost predicate Healthy(plan: Plan) {
    forall t: nat, act :: act in ActsAt(plan, t) && act.Finish? ==> act.code == 0
  }

  predicate Fetches(plan: Plan, t: nat) {
    FetchNext in ActsAt(plan, t)
  }

  /** One of the acts is to finish the oldest command. */
  ghost predicate HasFinish(acts: seq<Act>) {
    exists act :: act in acts && act.Finish? && act.i == 0
  }

  ghost predicate Finishes(plan: Plan, t: nat) {
    HasFinish(ActsAt(plan, t))
  }

  /** From look `from` to look `to` there are no 250 million looks in a row without a fetch or without a finish. */
  ghost predicate Lively(plan: Plan, from: nat, to: nat) {
    forall t: nat | from <= t && t + 250_000_000 <= to :: GetsRound(plan, t)
  }

  ghost predicate GetsRound(plan: Plan, t: nat) {
    && (exists u :: t <= u < t + 250_000_000 && Fetches(plan, u))
    && (exists u :: t <= u < t + 250_000_000 && Finishes(plan, u))
  }

  /** The device of `c` is healthy and lively for as long as the next commands can take. */
  ghost predicate Serving(c: NvmeController, commands: nat)
    reads c.device
  {
    Healthy(c.device.plan) && Lively(c.device.plan, c.device.clock, c.device.clock + commands * 500_000_000)
  }

  /** After at most `i` of `n` commands there is time for another one. */
  lemma StillServing(c: NvmeController, from: nat, n: nat, i: nat)
    requires Healthy(c.device.plan) && Lively(c.device.plan, from, from + n * 500_000_000)
    requires i < n && from <= c.device.clock <= from + i * 500_000_000
    ensures Serving(c, 1)
  {
    var now := c.device.clock;
    forall t: nat | now <= t && t + 250_000_000 <= now + 500_000_000
      ensures GetsRound(c.device.plan, t)
    {
      assert t + 250_000_000 <= from + n * 500_000_000;
    }
  }

  // ---------------------------------------------------------------- progress of one command

  /** Nothing has gone wrong with the outstanding command. */
  ghost predicate Good(s0: Store, cmd: Sqe, s: Store) {
    Pending(s0, cmd, s) && (Done(s0, cmd, s) ==> s.pair.posted[|s0.pair.submitted|].StatusCode() == 0)
  }

  /** It has been fetched. */
  ghost predicate Taken(s0: Store, cmd: Sqe, s: Store) {
    s.pair.inflight == [cmd] || Done(s0, cmd, s)
  }

  lemma FetchAdvances(s0: Store, cmd: Sqe, s: Store)
    requires Good(s0, cmd, s)
    ensures var t := Do(s, FetchNext);
            Good(s0, cmd, t) && Taken(s0, cmd, t) && (Done(s0, cmd, s) ==> t == s)
  {
    var n, m := s.pair.n, |s0.pair.submitted|;
    if CanFetch(s.pair) {
      FetchInv(s.pair);
      FetchKeepsPending(s0, cmd, s);
    } else if s.pair.fetched == m {
      SlotsDiffer(n, m, m + 1);
    }
  }

  lemma FinishAdvances(s0: Store, cmd: Sqe, s: Store, act: Act)
    requires Good(s0, cmd, s) && InRange(cmd, s0.dma, s0.disk) && act.Finish? && act.code == 0
    ensures var t := Do(s, act);
            && Good(s0, cmd, t) && (Taken(s0, cmd, s) ==> Taken(s0, cmd, t)) && (Done(s0, cmd, s) ==> t == s)
            && (Taken(s0, cmd, s) && act.i == 0 ==> Done(s0, cmd, t))
  {
    if s.pair.inflight == [cmd] && act.i == 0 {
      FinishesCommand(s0, cmd, s, act);
    } else {
      assert Do(s, act) == s;
    }
  }

  lemma FinishesCommand(s0: Store, cmd: Sqe, s: Store, act: Act)
    requires Good(s0, cmd, s) && InRange(cmd, s0.dma, s0.disk) && act.Finish? && act.code == 0
    requires s.pair.inflight == [cmd] && act.i == 0
    ensures Good(s0, cmd, Do(s, act)) && Done(s0, cmd, Do(s, act))
  {
    var m := |s0.pair.submitted|;
    SlotsDiffer(s.pair.n, m, m + 1);
    NextSlot(s.pair.n, m);
    assert CanComplete(s.pair, 0);
    var (status, dma, disk) := Executed(cmd, act, s.dma, s.disk);
    assert CompletesWith(s, Do(s, act), 0, status, act.dw0);
    CompleteKeepsPending(s0, cmd, s, Do(s, act), 0, status, act.dw0);
    StatusRoundTrip(status, s.pair.devPhase, Do(s, act).pair.posted[m]);
  }

  lemma {:induction false} DoAllAdvances(s0: Store, cmd: Sqe, s: Store, acts: seq<Act>)
    requires Good(s0, cmd, s) && InRange(cmd, s0.dma, s0.disk)
    requires forall act :: act in acts && act.Finish? ==> act.code == 0
    ensures Good(s0, cmd, DoAll(s, acts))
    ensures Taken(s0, cmd, s) || FetchNext in acts ==> Taken(s0, cmd, DoAll(s, acts))
    ensures Done(s0, cmd, s) || (Taken(s0, cmd, s) && HasFinish(acts)) ==> Done(s0, cmd, DoAll(s, acts))
    decreases |acts|
  {
    if acts != [] {
      var act, u := acts[0], Do(s, acts[0]);
      if act.FetchNext? { FetchAdvances(s0, cmd, s); } else { FinishAdvances(s0, cmd, s, act); }
      DoAllAdvances(s0, cmd, u, acts[1..]);
      assert forall a :: a in acts <==> a == act || a in acts[1..];
    }
  }

  /** How far the outstanding command has come: submitted, fetched, done. */
  ghost function Stage(s0: Store, cmd: Sqe, s: Store): int {
    if !Good(s0, cmd, s) then -1 else if Done(s0, cmd, s) then 2 else if Taken(s0, cmd, s) then 1 else 0
  }

  /** The same after what the plan has for `n` looks. */
  ghost function Stages(s0: Store, cmd: Sqe, s: Store, plan: Plan, from: nat): nat -> int {
    (n: nat) => if Shape(s.pair) then Stage(s0, cmd, After(s, plan, from, n)) else -1
  }

  lemma StageAdvances(s0: Store, cmd: Sqe, s: Store, acts: seq<Act>)
    requires Stage(s0, cmd, s) >= 0 && InRange(cmd, s0.dma, s0.disk)
    requires forall act :: act in acts && act.Finish? ==> act.code == 0
    ensures Shape(s.pair)
    ensures var before, after := Stage(s0, cmd, s), Stage(s0, cmd, DoAll(s, acts));
            && after >= before && (FetchNext in acts ==> after >= 1)
            && (before >= 1 && HasFinish(acts) ==> after == 2)
  {
    DoAllAdvances(s0, cmd, s, acts);
  }

  lemma ActsAdvance(s0: Store, cmd: Sqe, s: Store, plan: Plan, from: nat, n: nat)
    requires InRange(cmd, s0.dma, s0.disk) && Healthy(plan)
    ensures var stages := Stages(s0, cmd, s, plan, from);
            stages(n) >= 0 ==>
              && stages(n + 1) >= stages(n)
              && (Fetches(plan, from + n) ==> stages(n + 1) >= 1)
              && (stages(n) >= 1 && Finishes(plan, from + n) ==> stages(n + 1) == 2)
  {
    if Stages(s0, cmd, s, plan, from)(n) >= 0 {
      assert After(s, plan, from, n + 1) == DoAll(After(s, plan, from, n), ActsAt(plan, from + n));
      StageAdvances(s0, cmd, After(s, plan, from, n), ActsAt(plan, from + n));
    }
  }

  lemma StagesRise(s0: Store, cmd: Sqe, s: Store, plan: Plan, from: nat)
    requires InRange(cmd, s0.dma, s0.disk) && Healthy(plan)
    ensures var stages := Stages(s0, cmd, s, plan, from);
            forall n: nat :: stages(n) >= 0 ==> stages(n + 1) >= stages(n)
  {
    forall n: nat
      ensures var stages := Stages(s0, cmd, s, plan, from); stages(n) >= 0 ==> stages(n + 1) >= stages(n)
    {
      ActsAdvance(s0, cmd, s, plan, from, n);
    }
  }

  lemma {:induction false} NeverFalls(stages: nat -> int, i: nat, j: nat)
    requires forall n: nat :: stages(n) >= 0 ==> stages(n + 1) >= stages(n)
    requires stages(i) >= 0 && i <= j
    ensures stages(j) >= stages(i)
    decreases j
  {
    if i < j { NeverFalls(stages, i, j - 1); }
  }

  lemma DoneIsAnswered(s0: Store, cmd: Sqe, s: Store, plan: Plan, from: nat, k: nat)
    requires Shape(s.pair) && Stages(s0, cmd, s, plan, from)(k + 1) >= 0
    ensures Stages(s0, cmd, s, plan, from)(k + 1) == 2 ==> Answered(AtLook(s, plan, from, k))
    ensures Answered(AtLook(s, plan, from, k)) ==> Poll(AtLook(s, plan, from, k).pair).1.value.StatusCode() == 0
  {
    var t := AtLook(s, plan, from, k);
    PollInv(t.pair);
    PollPending(s0, cmd, t);
  }

  /** Whatever a look finds as an answer reports success. */
  lemma AnswerIsGood(s0: Store, cmd: Sqe, s: Store, plan: Plan, from: nat, k: nat)
    requires Shape(s.pair) && InRange(cmd, s0.dma, s0.disk) && Healthy(plan)
    requires Stages(s0, cmd, s, plan, from)(0) >= 0 && Answered(AtLook(s, plan, from, k))
    ensures Poll(AtLook(s, plan, from, k).pair).1.value.StatusCode() == 0
  {
    var stages := Stages(s0, cmd, s, plan, from);
    StagesRise(s0, cmd, s, plan, from);
    NeverFalls(stages, 0, k + 1);
    DoneIsAnswered(s0, cmd, s, plan, from, k);
  }

  /** Stages climb to the top when there is a way up at `i` and another at `k`. */
  lemma Climb(stages: nat -> int, i: nat, k: nat)
    requires forall n: nat :: stages(n) >= 0 ==> stages(n + 1) >= stages(n)
    requires stages(0) >= 0 && i < k
    requires stages(i) >= 0 ==> stages(i + 1) >= 1
    requires stages(k) >= 1 ==> stages(k + 1) == 2
    ensures stages(k + 1) == 2
  {
    NeverFalls(stages, 0, i);
    NeverFalls(stages, i + 1, k);
  }

  /** Once the plan has had a fetch and later a finish, a look finds an answer. */
  lemma AnsweredAtLook(s0: Store, cmd: Sqe, s: Store, plan: Plan, from: nat, i: nat, k: nat)
    requires Shape(s.pair) && InRange(cmd, s0.dma, s0.disk) && Healthy(plan)
    requires Stages(s0, cmd, s, plan, from)(0) >= 0
    requires i < k && Fetches(plan, from + i) && Finishes(plan, from + k)
    ensures Answered(AtLook(s, plan, from, k))
  {
    StagesRise(s0, cmd, s, plan, from);
    ActsAdvance(s0, cmd, s, plan, from, i);
    ActsAdvance(s0, cmd, s, plan, from, k);
    Climb(Stages(s0, cmd, s, plan, from), i, k);
    DoneIsAnswered(s0, cmd, s, plan, from, k);
  }

  /** If a look finds an answer, there is a first one that does. */
  lemma {:induction false} LeastAnswer(s: Store, plan: Plan, from: nat, k: nat) returns (first: nat)
    requires Shape(s.pair) && Answered(AtLook(s, plan, from, k))
    ensures first <= k && FirstAnswer(s, plan, from, first)
    decreases k
  {
    if j :| 0 <= j < k && Answered(AtLook(s, plan, from, j)) {
      first := LeastAnswer(s, plan, from, j);
    } else {
      first := k;
    }
  }

  lemma AnswersInTime(s0: Store, cmd: Sqe, s: Store, plan: Plan, from: nat, i: nat, k: nat)
    requires Shape(s.pair) && InRange(cmd, s0.dma, s0.disk) && Healthy(plan)
    requires Stages(s0, cmd, s, plan, from)(0) >= 0
    requires i < k < 500_000_000 && Fetches(plan, from + i) && Finishes(plan, from + k)
    ensures AnswersWith(s, plan, from, 0)
  {
    AnsweredAtLook(s0, cmd, s, plan, from, i, k);
    var first := LeastAnswer(s, plan, from, k);
    AnswerIsGood(s0, cmd, s, plan, from, first);
    var t := AtLook(s, plan, from, first);
    assert Takes(s, plan, from, first, Poll(t.pair).1.value, t.(pair := Poll(t.pair).0));
  }

  lemma FirstRound(plan: Plan, from: nat) returns (i: nat, k: nat)
    requires Lively(plan, from, from + 500_000_000)
    ensures i < k < 500_000_000 && Fetches(plan, from + i) && Finishes(plan, from + k)
  {
    assert GetsRound(plan, from) && GetsRound(plan, from + 250_000_000);
    var u :| from <= u < from + 250_000_000 && Fetches(plan, u);
    var v :| from + 250_000_000 <= v < from + 500_000_000 && Finishes(plan, v);
    i, k := u - from, v - from;
    assert u == from + i && v == from + k;
  }

  /** A command in range, sent to an idle store, is answered in time and with success. */
  lemma LivelyDeviceAnswers(s0: Store, cmd: Sqe, plan: Plan, from: nat)
    requires Idle(s0) && InRange(cmd.SetCid(s0.pair.cid), s0.dma, s0.disk)
    requires Healthy(plan) && Lively(plan, from, from + 500_000_000)
    ensures AnswersWith(s0.(pair := Submit(s0.pair, cmd)), plan, from, 0)
  {
    var i, k := FirstRound(plan, from);
    JustSubmitted(s0, cmd, plan, from);
    AnswersInTime(s0, cmd.SetCid(s0.pair.cid), s0.(pair := Submit(s0.pair, cmd)), plan, from, i, k);
  }

  lemma JustSubmitted(s0: Store, cmd: Sqe, plan: Plan, from: nat)
    requires Idle(s0)
    ensures var s := s0.(pair := Submit(s0.pair, cmd));
            Shape(s.pair) && Stages(s0, cmd.SetCid(s0.pair.cid), s, plan, from)(0) == 0
  {
    SubmitPends(s0, cmd);
    NothingOutstanding(s0.pair);
  }

  /** The reads and writes of the driver are answered. */
  lemma LivelyDeviceServes(s: Store, opcode: nat, lba: nat, count: nat, data: seq<byte>, plan: Plan, from: nat)
    requires Idle(s) && opcode < 256 && lba < WORD32 * WORD32 && 0 < count < WORD16 && |data| <= |s.dma|
    requires (lba + count) * 512 <= |s.disk| && count * 512 <= |s.dma|
    requires Healthy(plan) && Lively(plan, from, from + 500_000_000)
    ensures AnswersWith(NvmeController.Sent(s, opcode, lba, count, data), plan, from, 0)
  {
    var filled, cmd := s.(dma := Splice(s.dma, 0, data)), NvmeController.Command(opcode, lba, count);
    NvmeController.CommandRoundTrip(opcode, lba, count, s.pair.cid);
    assert NvmeController.Sent(s, opcode, lba, count, data) == filled.(pair := Submit(filled.pair, cmd));
    LivelyDeviceAnswers(filled, cmd, plan, from);
  }

  lemma ServedInTime(s: Store, opcode: nat, lba: nat, count: nat, data: seq<byte>, plan: Plan, from: nat,
                     r: Result<(), NvmeError>)
    requires Idle(s) && opcode < 256 && lba < WORD32 * WORD32 && 0 < count < WORD16 && |data| <= |s.dma|
    requires (lba + count) * 512 <= |s.disk| && count * 512 <= |s.dma|
    requires Healthy(plan) && Lively(plan, from, from + 500_000_000)
    requires Reports(NvmeController.Sent(s, opcode, lba, count, data), plan, from, r)
    ensures r.Ok?
  {
    LivelyDeviceServes(s, opcode, lba, count, data, plan, from);
  }
}
