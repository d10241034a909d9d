/** The global glyph cache: a map with an insertion-order queue that decides what to evict. */
module GlyphCache {
  import opened Wrappers
  import opened Bytes

  const MAX_CACHE_ENTRIES := 256

  /** Character and font size. */
  type Key = (byte, nat)

  ghost predicate NoDuplicates(q: seq<Key>) {
    forall i, j :: 0 <= i < j < |q| ==> q[i] != q[j]
  }

  function Elements(q: seq<Key>): set<Key> {
    set i | 0 <= i < |q| :: q[i]
  }

  lemma {:induction false} DistinctCount(q: seq<Key>)
    requires NoDuplicates(q)
    ensures |Elements(q)| == |q|
  {
    if q != [] {
      var front, last := q[..|q| - 1], q[|q| - 1];
      DistinctCount(front);
      assert Elements(q) == Elements(front) + {last};
      assert last !in Elements(front);
    }
  }

  /** The newest `n` keys of a history, oldest first. */
  function Newest(history: seq<Key>, n: nat): seq<Key> {
    if |history| <= n then history else history[|history| - n..]
  }

  /** The queue after a miss: the oldest key leaves when it is full, the new one joins. */
  function Enqueue(order: seq<Key>, key: Key): seq<Key> {
    (if |order| >= MAX_CACHE_ENTRIES then order[1..] else order) + [key]
  }

  lemma EnqueueKeepsOrder(order: seq<Key>, key: Key, history: seq<Key>)
    requires NoDuplicates(order) && key !in order && |order| <= MAX_CACHE_ENTRIES
    requires order == Newest(history, MAX_CACHE_ENTRIES)
    ensures NoDuplicates(Enqueue(order, key)) && |Enqueue(order, key)| <= MAX_CACHE_ENTRIES
    ensures Enqueue(order, key) == Newest(history + [key], MAX_CACHE_ENTRIES)
  {
  }

  lemma Append(q: seq<Key>, k: Key)
    ensures Elements(q + [k]) == Elements(q) + {k}
  {
    assert forall i :: 0 <= i < |q| ==> (q + [k])[i] == q[i];
    assert (q + [k])[|q|] == k;
  }

  lemma Tail(q: seq<Key>)
    requires q != [] && NoDuplicates(q)
    ensures Elements(q[1..]) == Elements(q) - {q[0]}
  {
    assert forall i :: 0 < i < |q| ==> q[i] == q[1..][i - 1];
  }

  class GlyphCache<Data> {
    /** What the font makes of a character; uninterpreted. */
    const rasterize: Key -> Data
    var cache: map<Key, Data>
    var order: seq<Key>
    /** All keys ever inserted, in order. */
    ghost var inserted: seq<Key>

    constructor (rasterize: Key -> Data)
      ensures this.rasterize == rasterize && Valid() && inserted == []
    {
      this.rasterize := rasterize;
      cache, order, inserted := map[], [], [];
    }

    /**
     The queue lists the cached keys without repetition, at most 256 of them; they are the newest
     insertions; and every cached value is what rasterising gives.
     */
    ghost predicate Valid()
      reads this
    {
      && NoDuplicates(order) && cache.Keys == Elements(order) && |order| <= MAX_CACHE_ENTRIES
      && order == Newest(inserted, MAX_CACHE_ENTRIES)
      && forall k :: k in cache ==> cache[k] == rasterize(k)
    }

    method GetRaster(c: byte, size: nat) returns (entry: Data)
      requires Valid()
      modifies this
      ensures Valid()
      ensures entry == rasterize((c, size))
      ensures inserted == if (c, size) in old(cache) then old(inserted) else old(inserted) + [(c, size)]
      ensures (c, size) in cache
      ensures (c, size) !in old(cache) ==>
        order == (if |old(order)| == 256 then old(order)[1..] else old(order)) + [(c, size)]
    {
      var key := (c, size);
      if key in cache { return cache[key]; }
      DistinctCount(order);
      assert |cache.Keys| == |order| && key !in order;
      EnqueueKeepsOrder(order, key, inserted);
      entry := rasterize(key);
      if |cache| >= MAX_CACHE_ENTRIES && order != [] {
        Tail(order);
        var oldest := order[0];
        order := order[1..];
        cache := cache - {oldest};
      }
      // the push below is unchecked in the original: there is room
      assert |order| < MAX_CACHE_ENTRIES && cache.Keys == Elements(order);
      Append(order, key);
      order := order + [key];
      cache := cache[key := entry];
      inserted := inserted + [key];
    }
  }
}
