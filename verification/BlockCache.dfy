/** The write-back block cache (easy-fs/src/block_cache.rs).

    A device is a fixed number of 512-byte blocks. The cache keeps at most 16 of
    them in a queue. A block whose handle is out (its reference count is above one)
    is pinned and cannot be evicted. Handles are locked for as long as they are out,
    so a block is held at most once. */
module BlockCache {
  import opened Bytes

  const BLOCK_SZ: nat := 512
  const BLOCK_CACHE_SIZE: nat := 16

  type Block = b: seq<byte> | |b| == BLOCK_SZ witness Zeros(BLOCK_SZ)

  datatype Entry = Entry(id: nat, data: Block, modified: bool, pinned: bool)

  ghost predicate UniqueIds(q: seq<Entry>) {
    forall i, j | 0 <= i < j < |q| :: q[i].id != q[j].id
  }

  ghost function Ids(q: seq<Entry>): set<nat> {
    set i | 0 <= i < |q| :: q[i].id
  }

  /** Unique ids: as many ids as entries. */
  lemma {:induction false} IdsCount(q: seq<Entry>)
    requires UniqueIds(q)
    ensures |Ids(q)| == |q|
  {
    if q != [] {
      var n := |q| - 1;
      IdsCount(q[..n]);
      assert Ids(q) == Ids(q[..n]) + {q[n].id};
      assert q[n].id !in Ids(q[..n]);
    }
  }

  /** Index of the first entry from the front that is not pinned, or the queue's length. */
  ghost function FirstUnpinned(q: seq<Entry>): (i: nat)
    ensures i <= |q|
    ensures i < |q| ==> !q[i].pinned
    ensures forall j | 0 <= j < i :: q[j].pinned
  {
    if q == [] || !q[0].pinned then 0 else 1 + FirstUnpinned(q[1..])
  }

  /** First in, first out among the unpinned: what a lookup that misses does to the queue. */
  ghost function AfterMiss(q: seq<Entry>, id: nat, data: Block): seq<Entry> {
    var i := FirstUnpinned(q);
    var kept := if |q| == BLOCK_CACHE_SIZE && i < |q| then q[..i] + q[i + 1..] else q;
    kept + [Entry(id, data, false, true)]
  }

  class BlockCacheManager {
    var device: seq<Block>
    var queue: seq<Entry>
    /** What the cache's users see: cached contents where present, the device elsewhere. */
    ghost var view: seq<Block>
    /** Blocks whose handle is out. */
    ghost var held: set<nat>

    ghost predicate Valid()
      reads this
    {
      && |view| == |device|
      && |queue| <= BLOCK_CACHE_SIZE
      && UniqueIds(queue)
      && (forall i | 0 <= i < |queue| ::
            && queue[i].id < |device|
            && view[queue[i].id] == queue[i].data
            && (!queue[i].modified ==> device[queue[i].id] == queue[i].data)
            && (queue[i].pinned <==> queue[i].id in held))
      && (forall b | 0 <= b < |device| && b !in Ids(queue) :: view[b] == device[b])
      && held <= Ids(queue)
    }

    /** The only state in which a lookup panics: the block is not cached, the queue is
        full and every entry is pinned. */
    ghost predicate Exhausted(id: nat)
      reads this
    {
      && id !in Ids(queue)
      && |queue| == BLOCK_CACHE_SIZE
      && (forall i | 0 <= i < |queue| :: queue[i].pinned)
    }

    /** Fewer than 16 handles out: a lookup never panics. */
    lemma HeldBound(id: nat)
      requires Valid() && |held| < BLOCK_CACHE_SIZE
      ensures !Exhausted(id)
    {
      if |queue| == BLOCK_CACHE_SIZE {
        IdsCount(queue);
        assert |Ids(queue) - held| == |Ids(queue)| - |held|;
        var b :| b in Ids(queue) - held;
        var i :| 0 <= i < |queue| && queue[i].id == b;
      }
    }

    constructor (blocks: seq<Block>)
      ensures Valid() && device == view == blocks && queue == [] && held == {}
    {
      device, view, queue, held := blocks, blocks, [], {};
    }

    /** Position of a block in the queue, or the queue's length. */
    method Position(id: nat) returns (p: nat)
      requires Valid()
      ensures p <= |queue|
      ensures p < |queue| ==> queue[p].id == id
      ensures p == |queue| <==> id !in Ids(queue)
    {
      p := 0;
      while p < |queue| && queue[p].id != id
        invariant p <= |queue|
        invariant forall i | 0 <= i < p :: queue[i].id != id
      {
        p := p + 1;
      }
    }

    /** Write one cached block back if it was modified. */
    method SyncEntry(i: nat)
      requires Valid() && i < |queue|
      modifies this`device, this`queue
      ensures Valid()
      ensures queue == old(queue)[i := old(queue)[i].(modified := false)]
      ensures device[queue[i].id] == view[queue[i].id]
      ensures |device| == |old(device)|
      ensures forall b | 0 <= b < |device| && b != queue[i].id :: device[b] == old(device)[b]
      ensures old(device) == old(view) ==> device == view
    {
      if queue[i].modified {
        device := device[queue[i].id := queue[i].data];
        queue := queue[i := queue[i].(modified := false)];
        assert Ids(queue) == Ids(old(queue)) by { SameIds(old(queue), queue); }
      } else {
        assert queue[i := queue[i].(modified := false)] == queue;
      }
    }

    static lemma SameIds(q: seq<Entry>, r: seq<Entry>)
      requires |q| == |r| && forall i | 0 <= i < |q| :: q[i].id == r[i].id
      ensures Ids(q) == Ids(r)
    {
      assert forall i | 0 <= i < |q| :: r[i].id in Ids(r) && q[i].id in Ids(q);
    }

    /** Remove one unpinned entry from the queue, writing it back as it is dropped. */
    method Drop(i: nat)
      requires Valid() && i < |queue| && !queue[i].pinned
      modifies this`device, this`queue
      ensures Valid() && |device| == |old(device)|
      ensures queue == old(queue)[..i] + old(queue)[i + 1..]
      ensures Ids(queue) <= Ids(old(queue))
      ensures old(device) == old(view) ==> device == view
    {
      SyncEntry(i);
      ghost var q := queue;
      queue := queue[..i] + queue[i + 1..];
      Removed(old(queue), q, i);
      assert forall j | 0 <= j < |queue| :: queue[j] == q[if j < i then j else j + 1];
    }

    /** Drop the first entry from the front that is not pinned. */
    method Evict() returns (ok: bool)
      requires Valid()
      modifies this`device, this`queue
      ensures Valid() && |device| == |old(device)|
      ensures ok <==> FirstUnpinned(old(queue)) < |old(queue)|
      ensures ok ==>
                var i := FirstUnpinned(old(queue));
                queue == old(queue)[..i] + old(queue)[i + 1..] && Ids(queue) <= Ids(old(queue))
      ensures !ok ==> queue == old(queue)
      ensures old(device) == old(view) ==> device == view
    {
      hide Valid, Ids;
      var i := 0;
      while i < |queue| && queue[i].pinned
        modifies {}
        invariant i <= |queue|
        invariant forall j | 0 <= j < i :: queue[j].pinned
      {
        i := i + 1;
      }
      ok := i < |queue|;
      if ok { Drop(i); }
    }

    static lemma Removed(q0: seq<Entry>, q: seq<Entry>, i: nat)
      requires UniqueIds(q0) && i < |q0|
      requires q == q0[i := q0[i].(modified := false)]
      ensures var r := q[..i] + q[i + 1..];
              Ids(r) == Ids(q0) - {q0[i].id} && UniqueIds(r)
    {
      var r := q[..i] + q[i + 1..];
      forall j | 0 <= j < |q0| && j != i ensures q0[j].id in Ids(r) {
        assert r[if j < i then j else j - 1].id == q0[j].id;
      }
    }

    /** Read a block from the device and push it to the back of the queue, handle out. */
    method Load(id: nat)
      requires Valid() && id < |device| && id !in Ids(queue) && |queue| < BLOCK_CACHE_SIZE
      modifies this`queue, this`held
      ensures Valid() && held == old(held) + {id}
      ensures queue == old(queue) + [Entry(id, view[id], false, true)]
    {
      queue := queue + [Entry(id, device[id], false, true)];
      assert queue[|old(queue)|].id == id;
      assert forall i | 0 <= i < |old(queue)| :: queue[i] == old(queue)[i];
      assert Ids(queue) == Ids(old(queue)) + {id};
      held := held + {id};
    }

    /** Hand out the handle of a cached block. */
    method Pin(p: nat)
      requires Valid() && p < |queue|
      modifies this`queue, this`held
      ensures Valid() && held == old(held) + {old(queue)[p].id}
    {
      queue := queue[p := queue[p].(pinned := true)];
      SameIds(old(queue), queue);
      held := held + {queue[p].id};
    }

    /** Look a block up, loading it (after an eviction, if the queue is full) when absent,
        and hand out its locked handle. A second lock on a held block would never return,
        so the caller must not hold it. `ok` is false exactly in the panicking state. */
    method GetBlockCache(id: nat) returns (ok: bool)
      requires Valid() && id < |device| && id !in held
      modifies this
      ensures Valid() && view == old(view)
      ensures ok <==> !old(Exhausted(id))
      ensures ok ==> held == old(held) + {id}
      ensures ok && id !in old(Ids(queue)) ==> queue == AfterMiss(old(queue), id, view[id])
      ensures !ok ==> held == old(held)
      ensures old(device) == old(view) ==> device == view
    {
      var p := Position(id);
      ok := true;
      if p < |queue| {
        Pin(p);
      } else {
        if |queue| == BLOCK_CACHE_SIZE {
          ok := Evict();
        }
        if ok { Load(id); }
      }
    }

    /** Give a handle back. */
    method Release(id: nat)
      requires Valid() && id in held
      modifies this`queue, this`held
      ensures Valid() && held == old(held) - {id}
    {
      var p := Position(id);
      queue := queue[p := queue[p].(pinned := false)];
      SameIds(old(queue), queue);
      held := held - {id};
    }

    /** Read through a held handle. */
    method Read(id: nat) returns (b: Block)
      requires Valid() && id in held
      ensures id < |view| && b == view[id]
    {
      var p := Position(id);
      b := queue[p].data;
    }

    /** Change a block through its held handle; nothing else changes. */
    method Modify(id: nat, b: Block)
      requires Valid() && id in held
      modifies this`queue, this`view
      ensures Valid() && id < |old(view)| && view == old(view)[id := b]
    {
      var p := Position(id);
      queue := queue[p := queue[p].(data := b, modified := true)];
      SameIds(old(queue), queue);
      view := view[id := b];
    }

    /** Write every modified block back. Locking each block in turn needs all handles in. */
    method SyncAll()
      requires Valid() && held == {}
      modifies this`device, this`queue
      ensures Valid() && device == view
      ensures forall i | 0 <= i < |queue| :: !queue[i].modified
    {
      var i := 0;
      while i < |queue|
        invariant i <= |queue| == |old(queue)| && Valid()
        invariant forall j | 0 <= j < i :: !queue[j].modified
      {
        SyncEntry(i);
        i := i + 1;
      }
      forall b | 0 <= b < |device| ensures device[b] == view[b] {
        if b in Ids(queue) {
          var j :| 0 <= j < |queue| && queue[j].id == b;
        }
      }
    }

    /** `get_block_cache(id).lock()` by a caller that holds few enough handles. */
    method Lock(id: nat)
      requires Valid() && id < |view| && id !in held && |held| < BLOCK_CACHE_SIZE
      modifies this
      ensures Valid() && view == old(view) && held == old(held) + {id}
      ensures old(device) == old(view) ==> device == view
    {
      HeldBound(id);
      var ok := GetBlockCache(id);
    }

    /** `get_block_cache(id).lock().read(..)` in one statement. */
    method Fetch(id: nat) returns (b: Block)
      requires Valid() && id < |view| && id !in held && |held| < BLOCK_CACHE_SIZE
      modifies this
      ensures Valid() && view == old(view) && held == old(held) && b == view[id]
      ensures old(device) == old(view) ==> device == view
    {
      Lock(id);
      b := Read(id);
      Release(id);
    }

    /** `get_block_cache(id).lock().modify(..)` in one statement, with the new contents. */
    method Store(id: nat, b: Block)
      requires Valid() && id < |view| && id !in held && |held| < BLOCK_CACHE_SIZE
      modifies this
      ensures Valid() && view == old(view)[id := b] && held == old(held)
    {
      Lock(id);
      Modify(id, b);
      Release(id);
    }
  }
}
