/**
 Physical memory and `StackFrameAllocator` (os/src/mm/frame_allocator.rs). A `FrameTracker` is the
 number of a frame in `live`; dropping one is `Dealloc`.
 */
module FrameAlloc {
  import opened Options
  import opened Seqs
  import opened Paging

  class Memory {
    const start: nat
    var current: nat
    const end: nat
    var recycled: seq<nat>
    var ram: seq<Frame>
    ghost var live: set<nat>

    /** Every managed frame is exactly one of never used, recycled, or live. */
    ghost predicate Valid()
      reads this
    {
      && start <= current <= end <= |ram| <= PPN_LIMIT
      && NoDup(recycled)
      && (forall f | f in recycled :: start <= f < current && f !in live)
      && (forall f | f in live :: start <= f < current)
      && (forall f: nat | start <= f < current :: f in live || f in recycled)
    }

    /** `init`: manage the frames from `l` to `r`. */
    constructor (l: nat, r: nat, ram: seq<Frame>)
      requires l <= r <= |ram| <= PPN_LIMIT
      ensures Valid() && start == l && end == r && this.ram == ram && live == {} && Free() == r - l && NextFrame() == l
    {
      start, current, end, recycled, this.ram, live := l, l, r, [], ram, {};
    }

    /** The number of frames that can still be allocated. */
    ghost function Free(): int
      reads this
    {
      end - current + |recycled|
    }

    /** The number of frames it manages. */
    ghost function Total(): int
    {
      end - start
    }

    /** Whatever is not in use is free. */
    lemma FreeIsRest()
      requires Valid()
      ensures Free() == Total() - |live|
    {
      hide NoDup;
      ElementsCount(recycled);
      RangeCount(start, current);
      assert Range(start, current) == live + Elements(recycled);
    }

    /** The frame that the next allocation takes, if there is one. */
    ghost function NextFrame(): nat
      reads this
    {
      if |recycled| > 0 then recycled[|recycled| - 1] else current
    }

    /** `frame_alloc`: take a frame and clear it. */
    method Alloc() returns (r: Option<nat>)
      requires Valid()
      modifies this`current, this`recycled, this`ram, this`live
      ensures Valid() && |ram| == |old(ram)|
      ensures r == if |old(recycled)| == 0 && old(current) == end then None else Some(old(NextFrame()))
      ensures r.None? <==> old(Free()) == 0
      ensures r.None? ==> ram == old(ram) && live == old(live) && Free() == old(Free())
      ensures r.Some? ==> r.value < |ram| && r.value !in old(live) && live == old(live) + {r.value}
                          && ram == old(ram)[r.value := ZeroFrame()] && Free() == old(Free()) - 1
    {
      var f;
      if |recycled| > 0 {
        f := recycled[|recycled| - 1];
        recycled := recycled[..|recycled| - 1];
        TakeLast(old(recycled));
      } else if current == end {
        return None;
      } else {
        current := current + 1;
        f := current - 1;
      }
      live := live + {f};
      ram := ram[f := ZeroFrame()];
      r := Some(f);
    }

    /** A write through `get_pte_array` or `get_bytes_array`. */
    method Write(f: nat, bytes: Frame)
      requires Valid() && f < |ram|
      modifies this`ram
      ensures Valid() && ram == old(ram)[f := bytes]
    {
      ram := ram[f := bytes];
    }

    /**
     `frame_dealloc`; `ok == false` is the panic that the frame has not been allocated. A frame below
     the managed range is not noticed.
     */
    method Dealloc(f: nat) returns (ok: bool)
      requires Valid()
      modifies this`recycled, this`live
      ensures ok <==> f in old(live) || f < start
      ensures f in old(live) || f >= start ==> Valid()
      ensures recycled == if ok then old(recycled) + [f] else old(recycled)
      ensures live == old(live) - {f} && Free() == old(Free()) + if ok then 1 else 0
    {
      if f >= current {
        return false;
      }
      for i := 0 to |recycled|
        invariant recycled == old(recycled) && live == old(live) && f !in recycled[..i]
      {
        if recycled[i] == f {
          return false;
        }
      }
      NoDupAppend(recycled, f);
      recycled := recycled + [f];
      live := live - {f};
      ok := true;
    }

    static lemma TakeLast(s: seq<nat>)
      requires NoDup(s) && s != []
      ensures var r, x := s[..|s| - 1], s[|s| - 1];
              NoDup(r) && x in s && x !in r && forall y :: y in s <==> y in r || y == x
    {
      var r, x := s[..|s| - 1], s[|s| - 1];
      assert s == r + [x];
    }
  }
}
