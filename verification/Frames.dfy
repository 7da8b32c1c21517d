/** Physical memory and the recycling frame allocator (os/src/mm/frame_allocator.rs). */
module Frames {
  import opened Options
  import opened Sequences
  import opened Bytes
  import opened Sv39

  class Machine {
    var mem: seq<Frame>
    var current: nat
    var end: nat
    var recycled: seq<nat>
    /** First frame given to the allocator. */
    ghost var start: nat
    /** Frames handed out and not returned: one more with each allocation, one less with each
        return. */
    ghost var live: set<nat>

    ghost predicate Valid()
      reads this
    {
      && start <= current <= end <= |mem| <= PPN_LIMIT
      && (forall i | 0 <= i < |recycled| :: start <= recycled[i] < current)
      && (forall i, j | 0 <= i < j < |recycled| :: recycled[i] != recycled[j])
      && (forall p | p in live :: start <= p < current && p !in recycled)
      && (forall p | start <= p < current :: p in live || p in recycled)
      && |live| + |recycled| == current - start
    }

    ghost predicate Live(p: nat)
      reads this`live
    {
      p in live
    }

    /** Frames the allocator can still hand out. */
    function Free(): int
      reads this`current, this`end, this`recycled
    {
      |recycled| + end - current
    }

    constructor (memory: seq<Frame>, l: nat, r: nat)
      requires l <= r <= |memory| <= PPN_LIMIT
      ensures Valid() && mem == memory && start == l && Free() == r - l && forall p :: !Live(p)
    {
      mem, current, end, recycled, start, live := memory, l, r, [], l, {};
    }

    /** No frame is lost: those in use and those free make up the range. */
    lemma Conserved()
      requires Valid()
      ensures |live| + Free() == end - start
    {
    }

    lemma LiveBound()
      requires Valid()
      ensures forall p: nat | Live(p) :: p < |mem|
    {
    }

    /** A fresh zeroed frame: the most recently returned one, else the next untouched. */
    method Alloc() returns (r: Option<nat>)
      requires Valid()
      modifies this`mem, this`current, this`recycled, this`live
      ensures Valid() && end == old(end)
      ensures r.None? <==> old(Free()) == 0
      ensures r.None? ==> mem == old(mem) && Free() == 0 && forall p :: Live(p) <==> old(Live(p))
      ensures r.Some? ==>
                && !old(Live(r.value)) && start <= r.value < end
                && r.value == (if old(recycled) != [] then old(recycled)[|old(recycled)| - 1] else old(current))
                && live == old(live) + {r.value} && (forall p :: Live(p) <==> old(Live(p)) || p == r.value)
                && mem == old(mem)[r.value := Zeros(PAGE_SIZE)] && Free() == old(Free()) - 1
    {
      if |recycled| > 0 {
        var p := recycled[|recycled| - 1];
        recycled := recycled[..|recycled| - 1];
        assert forall q :: q in old(recycled) <==> q in recycled || q == p;
        r := Some(p);
      } else if current == end {
        return None;
      } else {
        current := current + 1;
        r := Some(current - 1);
      }
      mem := mem[r.value := Zeros(PAGE_SIZE)];
      live := live + {r.value};
    }

    /** The allocator panics unless the frame is one it handed out and did not get back. */
    method Dealloc(p: nat)
      requires Valid() && Live(p)
      modifies this`recycled, this`live
      ensures Valid() && Free() == old(Free()) + 1 && live == old(live) - {p}
      ensures forall q :: Live(q) <==> old(Live(q)) && q != p
    {
      recycled := recycled + [p];
      live := live - {p};
    }

    /** A store to physical memory. */
    method Store(p: nat, f: Frame)
      requires Valid() && p < |mem|
      modifies this`mem
      ensures Valid() && mem == old(mem)[p := f]
    {
      mem := mem[p := f];
    }

    /** A store of one table entry. */
    method StoreEntry(p: nat, i: nat, bits: nat)
      requires Valid() && p < |mem| && i < ENTRIES
      modifies this`mem
      ensures Valid() && mem == PutEntry(old(mem), p, i, bits)
    {
      mem := PutEntry(mem, p, i, bits);
    }

    /** The frames in use are those held, each once. */
    ghost predicate Owns(held: seq<nat>)
      reads this`live
    {
      (forall p :: p in live <==> p in held) && NoDup(held)
    }

    method TakeOne(held: seq<nat>) returns (h: seq<nat>)
      requires Valid() && Owns(held)
      modifies this`mem, this`current, this`recycled, this`live
      ensures Valid() && Owns(h) && end == old(end)
      ensures if old(Free()) > 0 then |h| == |held| + 1 && Free() == old(Free()) - 1
              else h == held && Free() == old(Free())
    {
      var r := Alloc();
      h := if r.Some? then held + [r.value] else held;
    }

    method DropOne(held: seq<nat>, k: nat) returns (h: seq<nat>)
      requires Valid() && Owns(held) && k < |held|
      modifies this`recycled, this`live
      ensures Valid() && Owns(h) && |h| == |held| - 1 && Free() == old(Free()) + 1
    {
      assert held[k] in held;
      Dealloc(held[k]);
      RemoveOne(held, k);
      h := held[..k] + held[k + 1..];
    }

    /** Any run of taking frames and dropping held ones: the frames in use are exactly those held,
        each once; every frame of the range is in use, recycled or untouched and in only one of
        these; none is lost, so taking fails only when the whole range is held. */
    method Execute(ops: seq<FrameOp>) returns (held: seq<nat>)
      requires Valid() && live == {}
      modifies this`mem, this`current, this`recycled, this`live
      ensures Valid() && Owns(held)
      ensures forall p | start <= p < end :: p in live <==> !(p in recycled || current <= p)
      ensures |held| + Free() == end - start && |held| == HeldCount(ops, end - start)
    {
      held := [];
      for i := 0 to |ops|
        modifies this`mem, this`current, this`recycled, this`live
        invariant Valid() && Owns(held) && end == old(end)
        invariant |held| + Free() == end - start && |held| == HeldCount(ops[..i], end - start)
      {
        hide Valid, Owns, Free;
        FreeBound();
        assert ops[..i + 1][..i] == ops[..i];
        match ops[i] {
          case Take => held := TakeOne(held);
          case Drop(k) =>
            if k < |held| { held := DropOne(held, k); }
        }
      }
      assert ops[..|ops|] == ops;
    }

    lemma FreeBound()
      requires Valid()
      ensures Free() >= 0
    {
    }
  }

  /** Frames are returned by dropping what holds them. */
  datatype FrameOp = Take | Drop(which: nat)

  /** Number of frames held after a run. */
  function HeldCount(ops: seq<FrameOp>, capacity: int): nat {
    if ops == [] then 0
    else
      var n := HeldCount(ops[..|ops| - 1], capacity);
      match ops[|ops| - 1]
      case Take => if n < capacity then n + 1 else n
      case Drop(k) => if k < n then n - 1 else n
  }
}
