/** The physical frame allocator over the boot memory map. */
module Frames {
  import opened Wrappers
  import opened Bytes
  import opened DivMod

  const FRAME := 4096

  /** A region of physical memory, `start` inclusive, `end` exclusive. */
  datatype Region = Region(start: nat, end: nat, usable: bool)

  type MemoryMap = seq<Region>

  /** Number of steps of 4096 from `start` that stay below `end`. */
  function StepCount(r: Region): nat {
    if r.start < r.end then (r.end - r.start + FRAME - 1) / FRAME else 0
  }

  /** The frame that contains an address. */
  function ContainingFrame(address: nat): nat {
    address - address % FRAME
  }

  function RegionFrames(r: Region): seq<nat> {
    if r.usable then seq(StepCount(r), i requires 0 <= i => ContainingFrame(r.start + i * FRAME)) else []
  }

  /** All usable frames, region after region. */
  function UsableFrames(m: MemoryMap): seq<nat> {
    if m == [] then [] else RegionFrames(m[0]) + UsableFrames(m[1..])
  }

  // ---------------------------------------------------------------- what the boot loader promises

  /** Usable regions have page-aligned borders. */
  ghost predicate Aligned(m: MemoryMap) {
    forall r :: r in m && r.usable ==> r.start <= r.end && r.start % FRAME == 0 && r.end % FRAME == 0
  }

  predicate Apart(r: Region, s: Region) {
    r.end <= s.start || s.end <= r.start
  }

  /** Usable regions do not overlap. */
  ghost predicate Disjoint(m: MemoryMap) {
    forall i, j :: 0 <= i < j < |m| && m[i].usable && m[j].usable ==> Apart(m[i], m[j])
  }

  /** The whole frame lies in a usable region. */
  ghost predicate InUsable(m: MemoryMap, f: nat) {
    exists r :: r in m && r.usable && r.start <= f && f + FRAME <= r.end
  }

  lemma AlignedRegion(r: Region)
    requires r.usable && r.start <= r.end && r.start % FRAME == 0 && r.end % FRAME == 0
    ensures |RegionFrames(r)| == (r.end - r.start) / FRAME
    ensures forall i :: 0 <= i < |RegionFrames(r)| ==>
              RegionFrames(r)[i] == r.start + i * FRAME && r.start + i * FRAME + FRAME <= r.end
  {
  }

  /** A frame handed out lies wholly in usable memory and is page-aligned. */
  lemma {:induction false} FramesAreUsable(m: MemoryMap, k: nat)
    requires Aligned(m) && k < |UsableFrames(m)|
    ensures InUsable(m, UsableFrames(m)[k]) && UsableFrames(m)[k] % 4096 == 0
  {
    var n := |RegionFrames(m[0])|;
    assert m[0] in m;
    if k < n {
      AlignedRegion(m[0]);
    } else {
      FramesAreUsable(m[1..], k - n);
      var f := UsableFrames(m)[k];
      var r :| r in m[1..] && r.usable && r.start <= f && f + FRAME <= r.end;
      assert r in m;
    }
  }

  /** Frames of later regions lie outside the first one. */
  lemma LaterIsElsewhere(m: MemoryMap, k: nat)
    requires Aligned(m) && Disjoint(m) && m != [] && m[0].usable && |RegionFrames(m[0])| <= k < |UsableFrames(m)|
    ensures var f := UsableFrames(m)[k]; f + FRAME <= m[0].start || m[0].end <= f
  {
    var rest, f := m[1..], UsableFrames(m)[k];
    FramesAreUsable(rest, k - |RegionFrames(m[0])|);
    var r :| r in rest && r.usable && r.start <= f && f + FRAME <= r.end;
    var i :| 0 <= i < |rest| && rest[i] == r;
    assert Apart(m[0], m[i + 1]);
  }

  /** No frame is handed out twice. */
  lemma {:induction false} FramesAreDistinct(m: MemoryMap, j: nat, k: nat)
    requires Aligned(m) && Disjoint(m) && j < k < |UsableFrames(m)|
    ensures UsableFrames(m)[j] != UsableFrames(m)[k]
  {
    var n, rest := |RegionFrames(m[0])|, m[1..];
    assert m[0] in m;
    assert Disjoint(rest) by {
      forall i, l | 0 <= i < l < |rest| && rest[i].usable && rest[l].usable ensures Apart(rest[i], rest[l]) {
        assert m[i + 1] == rest[i] && m[l + 1] == rest[l];
      }
    }
    if n <= j {
      FramesAreDistinct(rest, j - n, k - n);
    } else {
      AlignedRegion(m[0]);
      if n <= k { LaterIsElsewhere(m, k); }
    }
  }

  /** Total size of the usable regions, in frames. */
  function UsableSize(m: MemoryMap): nat {
    if m == [] then 0
    else (if m[0].usable && m[0].start <= m[0].end then (m[0].end - m[0].start) / FRAME else 0) + UsableSize(m[1..])
  }

  /** Exactly as many calls succeed as usable frames fit. */
  lemma {:induction false} FrameCount(m: MemoryMap)
    requires Aligned(m)
    ensures |UsableFrames(m)| == UsableSize(m)
  {
    if m != [] {
      assert m[0] in m;
      FrameCount(m[1..]);
      if m[0].usable { AlignedRegion(m[0]); }
    }
  }

  /** Every aligned frame inside a usable region is handed out by some call. */
  lemma {:induction false} FramesAreComplete(m: MemoryMap, f: nat) returns (k: nat)
    requires Aligned(m) && f % FRAME == 0 && InUsable(m, f)
    ensures k < |UsableFrames(m)| && UsableFrames(m)[k] == f
  {
    var r :| r in m && r.usable && r.start <= f && f + FRAME <= r.end;
    if m[0] == r {
      k := FrameOfRegion(r, f);
    } else {
      assert r in m[1..];
      k := FramesAreComplete(m[1..], f);
      k := |RegionFrames(m[0])| + k;
    }
  }

  lemma FrameOfRegion(r: Region, f: nat) returns (k: nat)
    requires r.usable && r.start % FRAME == 0 && r.end % FRAME == 0 && f % FRAME == 0
    requires r.start <= f && f + FRAME <= r.end
    ensures k < |RegionFrames(r)| && RegionFrames(r)[k] == f
  {
    AlignedRegion(r);
    k := (f - r.start) / FRAME;
  }

  // ---------------------------------------------------------------- the allocator

  class BootInfoFrameAllocator {
    const memoryMap: MemoryMap
    var next: nat

    constructor (memoryMap: MemoryMap)
      ensures this.memoryMap == memoryMap && next == 0
    {
      this.memoryMap := memoryMap;
      next := 0;
    }

    /** The next usable frame, if any is left; the counter moves either way. */
    method AllocateFrame() returns (frame: Option<nat>)
      modifies this
      ensures next == old(next) + 1
      ensures frame == if old(next) < |UsableFrames(memoryMap)| then Some(UsableFrames(memoryMap)[old(next)]) else None
    {
      var frames := UsableFrames(memoryMap);
      frame := if next < |frames| then Some(frames[next]) else None;
      next := next + 1;
    }

    /**
     Allocate a frame for a driver and zero it.  `None` stands for the panic when memory is out.
     `memory` is all of physical memory.
     */
    method AllocPhysFrame(memory: array<byte>) returns (frame: Option<nat>)
      requires Aligned(memoryMap) && forall r :: r in memoryMap && r.usable ==> r.end <= memory.Length
      modifies this, memory
      ensures next == old(next) + 1
      ensures frame == if old(next) < |UsableFrames(memoryMap)| then Some(UsableFrames(memoryMap)[old(next)]) else None
      ensures forall i :: 0 <= i < memory.Length ==>
        memory[i] == if frame.Some? && frame.value <= i < frame.value + 4096 then 0 else old(memory[i])
    {
      frame := AllocateFrame();
      if frame.Some? {
        var start := frame.value;
        FramesAreUsable(memoryMap, old(next));
        forall i | start <= i < start + FRAME { memory[i] := 0; }
      }
    }

    /**
     Back `pages` heap pages.  Mapping a page may take further frames for page tables; how many is
     up to the mapper.  `taken` lists which calls gave the heap frames.
     */
    method InitHeap(pages: nat) returns (r: Result<seq<nat>, ()>, ghost taken: seq<nat>)
      modifies this
      ensures next >= old(next)
      ensures r.Err? ==> next > |UsableFrames(memoryMap)|
      ensures r.Ok? ==> |r.value| == pages == |taken|
      ensures r.Ok? ==> forall i :: 0 <= i < pages ==>
        && old(next) <= taken[i] < next && taken[i] < |UsableFrames(memoryMap)|
        && r.value[i] == UsableFrames(memoryMap)[taken[i]]
      ensures r.Ok? ==> forall i, j :: 0 <= i < j < pages ==> taken[i] < taken[j]
    {
      var frames: seq<nat> := [];
      taken := [];
      for page := 0 to pages
        invariant |frames| == |taken| == page && next >= old(next)
        invariant forall i :: 0 <= i < page ==>
          && old(next) <= taken[i] < next && taken[i] < |UsableFrames(memoryMap)|
          && frames[i] == UsableFrames(memoryMap)[taken[i]]
        invariant forall i, j :: 0 <= i < j < page ==> taken[i] < taken[j]
      {
        ghost var at := next;
        var frame := AllocateFrame();
        if frame.None? { return Err(()), taken; }
        var tables :| 0 <= tables;
        for t := 0 to tables
          invariant next > at
        {
          var table := AllocateFrame();
          if table.None? { return Err(()), taken; }
        }
        frames, taken := frames + [frame.value], taken + [at];
      }
      r := Ok(frames);
    }
  }

  /** Heap frames and the frames later given to drivers are all different and do not overlap. */
  method BootSequence(alloc: BootInfoFrameAllocator, memory: array<byte>, pages: nat, drivers: nat)
    returns (heap: seq<nat>, dma: seq<nat>)
    requires Aligned(alloc.memoryMap) && Disjoint(alloc.memoryMap)
    requires forall r :: r in alloc.memoryMap && r.usable ==> r.end <= memory.Length
    modifies alloc, memory
    ensures (|heap| == pages && |dma| == drivers) || alloc.next > |UsableFrames(alloc.memoryMap)|
    ensures forall i, j :: 0 <= i < j < |heap + dma| ==> (heap + dma)[i] != (heap + dma)[j]
    ensures forall f :: f in heap + dma ==> InUsable(alloc.memoryMap, f) && f % 4096 == 0
  {
    var r: Result<seq<nat>, ()>;
    ghost var taken: seq<nat>;
    r, taken := alloc.InitHeap(pages);
    heap, dma := [], [];
    if r.Err? { return; }
    heap := r.value;
    for k := 0 to drivers
      invariant |taken| == |heap + dma| && |dma| == k
      invariant forall i :: 0 <= i < |taken| ==> taken[i] < alloc.next && taken[i] < |UsableFrames(alloc.memoryMap)|
      invariant forall i :: 0 <= i < |taken| ==> (heap + dma)[i] == UsableFrames(alloc.memoryMap)[taken[i]]
      invariant forall i, j :: 0 <= i < j < |taken| ==> taken[i] < taken[j]
    {
      ghost var at := alloc.next;
      var frame := alloc.AllocPhysFrame(memory);
      if frame.None? { break; }
      assert heap + (dma + [frame.value]) == (heap + dma) + [frame.value];
      dma, taken := dma + [frame.value], taken + [at];
    }
    forall i, j | 0 <= i < j < |heap + dma| ensures (heap + dma)[i] != (heap + dma)[j] {
      FramesAreDistinct(alloc.memoryMap, taken[i], taken[j]);
    }
    forall f | f in heap + dma ensures InUsable(alloc.memoryMap, f) && f % FRAME == 0 {
      var i :| 0 <= i < |heap + dma| && (heap + dma)[i] == f;
      FramesAreUsable(alloc.memoryMap, taken[i]);
    }
  }
}
