/**
 Whole sessions of the block store: any list of reads and writes through the driver, against the
 history of writes they leave behind.
 */
module Session {
  import opened Wrappers
  import opened Bytes
  import opened Nvme
  import opened NvmeStore
  import opened NvmeLiveness

  /** A call of the driver: `count` sectors, from or to `lba` on. */
  datatype Request = WriteRequest(lba: nat, count: nat, data: seq<byte>) | ReadRequest(lba: nat, count: nat) {
    predicate Fits() {
      lba < WORD32 * WORD32 && 0 < count < WORD16
    }

    /** The request is in range of a disk of that size, and its data fits the bounce buffer. */
    predicate Possible(size: nat) {
      Fits() && To() <= size && count * 512 <= 4096 && (WriteRequest? ==> count * 512 <= |data|)
    }

    function From(): nat { lba * SECTOR }

    function To(): nat { (lba + count) * SECTOR }
  }

  datatype Reply = Written | Bytes(data: seq<byte>) | Failed(error: NvmeError)

  /** The write that changes nothing. */
  const NO_WRITE := WriteOp(0, [])

  /** What a log of writes, one a request, does to the disk. */
  ghost predicate OnDisk(size: nat, log: seq<WriteOp>) {
    forall k :: 0 <= k < |log| ==> log[k].lba * SECTOR + |log[k].data| <= size
  }

  // ---------------------------------------------------------------- one request

  /**
   What a reply says about the request, the disk before it, and the write it leaves in the log: a
   read leaves none, a successful write its own bytes, a failed one unknown bytes in its own sectors.
   */
  ghost predicate Answers(r: Request, disk: seq<byte>, reply: Reply, op: WriteOp) {
    && (reply.Bytes? ==> r.ReadRequest? && r.To() <= |disk| && reply.data == disk[r.From()..r.To()])
    && (reply.Written? ==>
          && r.WriteRequest? && r.count * SECTOR <= |r.data|
          && op == WriteOp(r.lba, r.data[..r.count * SECTOR]))
    && (r.ReadRequest? ==> op == NO_WRITE)
    && (op == NO_WRITE || (op.lba == r.lba && |op.data| <= r.count * SECTOR))
  }

  /** The disk `disk'` is `disk` after the write. */
  ghost predicate Leaves(disk: seq<byte>, op: WriteOp, disk': seq<byte>) {
    op.lba * SECTOR + |op.data| <= |disk| && disk' == Splice(disk, op.lba * SECTOR, op.data)
  }

  lemma NoWriteLeaves(disk: seq<byte>)
    ensures Leaves(disk, NO_WRITE, disk)
  {
    assert disk == Splice(disk, 0, []);
  }

  /** What a failed write may have changed, as a write of unknown bytes. */
  lemma UnknownWrite(r: Request, disk: seq<byte>, disk': seq<byte>) returns (op: WriteOp)
    requires r.WriteRequest? && |disk'| == |disk|
    requires forall i :: 0 <= i < |disk| && !(r.From() <= i < r.To()) ==> disk'[i] == disk[i]
    ensures Leaves(disk, op, disk') && (op == NO_WRITE || (op.lba == r.lba && |op.data| <= r.count * SECTOR))
  {
    if r.From() < |disk| {
      var end := if r.To() < |disk| then r.To() else |disk|;
      op := WriteOp(r.lba, disk'[r.From()..end]);
      assert disk' == Splice(disk, r.From(), op.data);
    } else {
      op := NO_WRITE;
      assert disk' == disk;
      NoWriteLeaves(disk);
    }
  }

  lemma Succeeds(s: Store, r: Request, plan: Plan, from: nat)
    requires Idle(s) && r.Possible(|s.disk|) && |s.dma| == 4096
    requires Healthy(plan) && Lively(plan, from, from + 500_000_000)
    ensures r.ReadRequest? ==> AnswersWith(NvmeController.Sent(s, 2, r.lba, r.count, []), plan, from, 0)
    ensures r.WriteRequest? ==>
      AnswersWith(NvmeController.Sent(s, 1, r.lba, r.count, r.data[..r.count * 512]), plan, from, 0)
  {
    match r
    case ReadRequest(lba, count) => LivelyDeviceServes(s, 2, lba, count, [], plan, from);
    case WriteRequest(lba, count, data) => LivelyDeviceServes(s, 1, lba, count, data[..count * 512], plan, from);
  }

  /** Serve one request on an idle store. */
  method Serve(c: NvmeController, r: Request) returns (reply: Reply, ghost op: WriteOp)
    requires c.Valid() && Idle(c.Abs()) && r.Fits()
    modifies c.Footprint
    ensures Answers(r, old(c.Abs()).disk, reply, op) && Leaves(old(c.Abs()).disk, op, c.Abs().disk)
    ensures reply != Failed(Timeout) ==> Idle(c.Abs())
    ensures old(c.device.clock) <= c.device.clock <= old(c.device.clock) + 500_000_000
    ensures r.Possible(|old(c.Abs()).disk|) && old(Serving(c, 1)) ==> !reply.Failed?
  {
    if r.Possible(|c.Abs().disk|) && Serving(c, 1) { Succeeds(c.Abs(), r, c.device.plan, c.device.clock); }
    if r.ReadRequest? {
      reply := ServeRead(c, r);
      op := NO_WRITE;
      NoWriteLeaves(c.Abs().disk);
    } else {
      reply, op := ServeWrite(c, r);
    }
  }

  method ServeRead(c: NvmeController, r: Request) returns (reply: Reply)
    requires c.Valid() && Idle(c.Abs()) && r.Fits() && r.ReadRequest?
    modifies c.Footprint
    ensures Answers(r, old(c.Abs()).disk, reply, NO_WRITE) && c.Abs().disk == old(c.Abs()).disk
    ensures reply != Failed(Timeout) ==> Idle(c.Abs())
    ensures old(c.device.clock) <= c.device.clock <= old(c.device.clock) + 500_000_000
    ensures r.count * 512 <= 4096 ==>
      Reports(old(NvmeController.Sent(c.Abs(), 2, r.lba, r.count, [])), c.device.plan, old(c.device.clock),
              if reply.Failed? then Err(reply.error) else Ok(()))
  {
    var buffer := new byte[r.count * SECTOR](_ => 0);
    var read := c.ReadSectors(r.lba, r.count, buffer);
    reply := if read.Err? then Failed(read.error) else Bytes(buffer[..]);
  }

  method ServeWrite(c: NvmeController, r: Request) returns (reply: Reply, ghost op: WriteOp)
    requires c.Valid() && Idle(c.Abs()) && r.Fits() && r.WriteRequest?
    modifies c.Footprint
    ensures Answers(r, old(c.Abs()).disk, reply, op) && Leaves(old(c.Abs()).disk, op, c.Abs().disk)
    ensures reply != Failed(Timeout) ==> Idle(c.Abs())
    ensures old(c.device.clock) <= c.device.clock <= old(c.device.clock) + 500_000_000
    ensures r.count * 512 <= |r.data| && r.count * 512 <= 4096 ==>
      Reports(old(NvmeController.Sent(c.Abs(), 1, r.lba, r.count, r.data[..r.count * 512])), c.device.plan,
              old(c.device.clock), if reply.Failed? then Err(reply.error) else Ok(()))
  {
    var buffer := new byte[|r.data|](k requires 0 <= k < |r.data| => r.data[k]);
    assert buffer[..] == r.data;
    var written := c.WriteSectors(r.lba, r.count, buffer);
    if written.Err? {
      reply := Failed(written.error);
      op := UnknownWrite(r, old(c.Abs()).disk, c.Abs().disk);
    } else {
      reply := Written;
      op := WriteOp(r.lba, r.data[..r.count * SECTOR]);
    }
  }

  // ---------------------------------------------------------------- whole sessions

  /** Each reply of a session answers its request on the disk that the log had left by then. */
  ghost predicate Serves(disk: seq<byte>, requests: seq<Request>, replies: seq<Reply>, log: seq<WriteOp>) {
    && |log| == |replies| <= |requests| && OnDisk(|disk|, log)
    && forall k :: 0 <= k < |replies| ==> ServesAt(disk, requests, replies, log, k)
  }

  ghost predicate ServesAt(disk: seq<byte>, requests: seq<Request>, replies: seq<Reply>, log: seq<WriteOp>, k: nat)
    requires |log| == |replies| <= |requests| && OnDisk(|disk|, log) && k < |log|
  {
    Answers(requests[k], Replay(disk, log[..k]), replies[k], log[k])
  }

  lemma ServesOneMore(disk: seq<byte>, requests: seq<Request>, replies: seq<Reply>, log: seq<WriteOp>, reply: Reply,
                      op: WriteOp, disk': seq<byte>)
    requires Serves(disk, requests, replies, log) && |replies| < |requests|
    requires Answers(requests[|replies|], Replay(disk, log), reply, op) && Leaves(Replay(disk, log), op, disk')
    ensures Serves(disk, requests, replies + [reply], log + [op]) && disk' == Replay(disk, log + [op])
  {
    var n, replies', log' := |replies|, replies + [reply], log + [op];
    ReplayOneMore(disk, log, op);
    forall k | 0 <= k < |replies'|
      ensures ServesAt(disk, requests, replies', log', k)
    {
      if k < n { ServesStill(disk, requests, replies, log, reply, op, k); } else { assert log'[..k] == log; }
    }
  }

  lemma ReplayOneMore(disk: seq<byte>, log: seq<WriteOp>, op: WriteOp)
    requires OnDisk(|disk|, log) && op.lba * SECTOR + |op.data| <= |disk|
    ensures OnDisk(|disk|, log + [op])
    ensures Replay(disk, log + [op]) == Splice(Replay(disk, log), op.lba * SECTOR, op.data)
  {
    assert (log + [op])[..|log|] == log;
  }

  lemma ServesStill(disk: seq<byte>, requests: seq<Request>, replies: seq<Reply>, log: seq<WriteOp>, reply: Reply,
                    op: WriteOp, k: nat)
    requires Serves(disk, requests, replies, log) && |replies| < |requests|
    requires k < |replies| && OnDisk(|disk|, log + [op])
    ensures ServesAt(disk, requests, replies + [reply], log + [op], k)
  {
    assert ServesAt(disk, requests, replies, log, k);
    assert (log + [op])[..k] == log[..k];
  }

  predicate NoneFailed(replies: seq<Reply>) {
    forall reply :: reply in replies ==> !reply.Failed?
  }

  predicate AllPossible(requests: seq<Request>, size: nat) {
    forall k :: 0 <= k < |requests| ==> requests[k].Possible(size)
  }

  /**
   Perform a list of requests, up to the first timeout.  A device that works lets all of them succeed
   that are possible.
   */
  method PerformAll(c: NvmeController, requests: seq<Request>) returns (replies: seq<Reply>, ghost log: seq<WriteOp>)
    requires c.Valid() && Idle(c.Abs()) && forall k :: 0 <= k < |requests| ==> requests[k].Fits()
    modifies c.Footprint
    ensures Serves(old(c.Abs()).disk, requests, replies, log)
    ensures c.Abs().disk == Replay(old(c.Abs()).disk, log)
    ensures |replies| < |requests| ==> replies != [] && replies[|replies| - 1] == Failed(Timeout)
    ensures old(Serving(c, |requests|)) && AllPossible(requests, |old(c.Abs()).disk|) ==>
      |replies| == |requests| && NoneFailed(replies)
  {
    ghost var disk := c.Abs().disk;
    ghost var works := Serving(c, |requests|) && AllPossible(requests, |disk|);
    replies, log := [], [];
    for i := 0 to |requests|
      invariant |replies| == i && Idle(c.Abs()) && Serves(disk, requests, replies, log)
      invariant c.Abs().disk == Replay(disk, log)
      invariant old(c.device.clock) <= c.device.clock <= old(c.device.clock) + i * 500_000_000
      invariant works ==> NoneFailed(replies)
    {
      if works { StillServing(c, old(c.device.clock), |requests|, i); }
      var reply;
      ghost var op;
      reply, op := Serve(c, requests[i]);
      ServesOneMore(disk, requests, replies, log, reply, op, c.Abs().disk);
      replies, log := replies + [reply], log + [op];
      if reply == Failed(Timeout) { return; }
    }
  }

  /** Request `k` is a write whose sectors include byte `i`. */
  predicate Touches(requests: seq<Request>, k: nat, i: nat) {
    k < |requests| && requests[k].WriteRequest? && requests[k].From() <= i < requests[k].To()
  }

  /** Byte `i` of the disk, as request `k` wanted it. */
  predicate Wanted(requests: seq<Request>, k: nat, i: nat, b: byte) {
    && Touches(requests, k, i) && i - requests[k].From() < |requests[k].data|
    && b == requests[k].data[i - requests[k].From()]
  }

  /**
   A successful read returns the last bytes written.  For every byte of it, either the last write
   that changed it was successful and the byte is that of its request; or it failed and the byte is
   unknown; or there was none, and the byte is as it was at the start.  No successful write came in between.
   */
  lemma ReadReturnsLastWrite(disk: seq<byte>, requests: seq<Request>, replies: seq<Reply>, log: seq<WriteOp>, n: nat,
                             i: nat)
    returns (k: nat)
    requires Serves(disk, requests, replies, log) && n < |replies| && replies[n].Bytes?
    requires requests[n].From() <= i < requests[n].To()
    ensures k <= n && i < |disk| && i - requests[n].From() < |replies[n].data|
    ensures forall l :: 0 <= l < n && (k == n || k < l) && replies[l].Written? ==> !Touches(requests, l, i)
    ensures var b := replies[n].data[i - requests[n].From()];
            if k < n then Touches(requests, k, i) && (replies[k].Failed? || Wanted(requests, k, i, b)) else b == disk[i]
  {
    var ops := log[..n];
    assert ServesAt(disk, requests, replies, log, n);
    k := LastWriteWins(disk, ops, i);
    forall l | 0 <= l < n && (k == n || k < l) && replies[l].Written?
      ensures !Touches(requests, l, i)
    {
      WrittenCovers(disk, requests, replies, log, l, i);
      assert ops[l] == log[l];
    }
    if k < n {
      assert ServesAt(disk, requests, replies, log, k);
      assert ops[k] == log[k] && log[k].Covers(i);
    }
  }

  lemma WrittenCovers(disk: seq<byte>, requests: seq<Request>, replies: seq<Reply>, log: seq<WriteOp>, l: nat, i: nat)
    requires Serves(disk, requests, replies, log) && l < |replies| && replies[l].Written?
    ensures Touches(requests, l, i) <==> log[l].Covers(i)
  {
    assert ServesAt(disk, requests, replies, log, l);
  }
}
