/** The pool in front of the system allocator, and the handles that use it. */
module PoolAllocator {
  import opened Basics
  import opened PoolModel
  import opened MemoryHandle

  /** The system allocator with what it has handed out and not got back. Giving back
      what is not outstanding is an error that no caller may make. */
  class Allocator {
    var outstanding: map<Ptr, nat>

    constructor ()
      ensures outstanding == map[]
    {
      outstanding := map[];
    }

    method Alloc(size: nat) returns (p: Ptr)
      modifies this
      ensures p !in old(outstanding) && outstanding == old(outstanding)[p := size]
    {
      p := 0;
      ghost var tried := {};
      while p in outstanding
        invariant forall q :: q in tried ==> q < p
        decreases outstanding.Keys - tried
      {
        assert p in outstanding.Keys - tried;
        tried := tried + {p};
        p := p + 1;
      }
      outstanding := outstanding[p := size];
    }

    method Free(p: Ptr)
      requires p in outstanding
      modifies this
      ensures outstanding == old(outstanding) - {p}
    {
      outstanding := outstanding - {p};
    }
  }

  ghost function PooledIn(pool: map<nat, seq<Ptr>>, sizes: set<nat>): set<Ptr> {
    set size, i | size in sizes && size in pool && 0 <= i < |pool[size]| :: pool[size][i]
  }

  class PoolAllocator {
    const allocator: Allocator
    const sizeLimit: nat
    const accounting: Accounting
    var pool: map<nat, seq<Ptr>>
    var poolMemorySize: nat
    ghost var live: map<Ptr, nat>

    constructor (allocator: Allocator, sizeLimit: nat, accounting: Accounting)
      requires allocator.outstanding == map[]
      ensures Valid() && State() == INITIAL && this.allocator == allocator
      ensures this.sizeLimit == sizeLimit && this.accounting == accounting
    {
      this.allocator, this.sizeLimit, this.accounting := allocator, sizeLimit, accounting;
      this.pool, this.poolMemorySize, this.live := map[], 0, map[];
    }

    function Cfg(): Config {
      Config(sizeLimit, accounting)
    }

    ghost function State(): State
      reads this, allocator
    {
      PoolModel.State(pool, poolMemorySize, live, allocator.outstanding)
    }

    ghost predicate Valid()
      reads this, allocator
    {
      Owned(State()) && (sizeLimit == 0 ==> pool == map[])
    }

    /** Hands out a pooled block of exactly this size, or a new one; `block` is what the
        underlying allocator returned, if it was asked. */
    method Alloc(size: nat) returns (p: Ptr, ghost block: Ptr)
      requires Valid()
      modifies this, allocator
      ensures Valid() && Admissible(Cfg(), old(State()), Op.Alloc(size, block))
      ensures State() == Apply(Cfg(), old(State()), Op.Alloc(size, block))
      ensures p == Returned(Cfg(), old(State()), Op.Alloc(size, block))
    {
      ghost var s := State();
      block := 0;
      if sizeLimit > 0 {
        if size !in pool || |pool[size]| == 0 {
          if poolMemorySize >= sizeLimit {
            FreeAll();
          }
          p := allocator.Alloc(size);
          block := p;
        } else {
          var bucket := pool[size];
          p := bucket[|bucket| - 1];
          pool := pool[size := bucket[..|bucket| - 1]];
          poolMemorySize := CounterAfterHit(Cfg(), poolMemorySize, size);
        }
      } else {
        p := allocator.Alloc(size);
        block := p;
      }
      live := live[p := size];
      OwnedStep(Cfg(), s, Op.Alloc(size, block));
    }

    /** Takes a block back into the bucket of its size. */
    method Free(ptr: Ptr, size: nat)
      requires Valid() && ptr in live && live[ptr] == size
      modifies this, allocator
      ensures Valid() && State() == Apply(Cfg(), old(State()), Op.Free(ptr, size))
    {
      ghost var s := State();
      if sizeLimit > 0 {
        if size !in pool {
          pool := pool[size := []];
        }
        pool := pool[size := pool[size] + [ptr]];
        poolMemorySize := poolMemorySize + size;
      } else {
        allocator.Free(ptr);
      }
      live := live - {ptr};
      assert State().pool == Apply(Cfg(), s, Op.Free(ptr, size)).pool;
      OwnedStep(Cfg(), s, Op.Free(ptr, size));
    }

    /** Gives every pooled block back to the underlying allocator, each exactly once. */
    method FreeAll()
      requires Valid()
      modifies this, allocator
      ensures Valid() && State() == Purged(old(State())) && allocator.outstanding == live
    {
      ghost var s := State();
      var sizes := pool.Keys;
      while sizes != {}
        invariant sizes <= pool.Keys && pool == s.pool && live == s.live
        invariant allocator.outstanding == s.outstanding - PooledIn(pool, pool.Keys - sizes)
        decreases sizes
      {
        var size :| size in sizes;
        ghost var gone := PooledIn(pool, pool.Keys - sizes);
        FreeBucket(pool[size]);
        assert s.outstanding - gone - (set x | x in pool[size]) == s.outstanding - (gone + set x | x in pool[size]);
        assert PooledIn(pool, pool.Keys - (sizes - {size})) ==
               PooledIn(pool, pool.Keys - sizes) + (set x | x in pool[size]);
        sizes := sizes - {size};
      }
      assert PooledIn(pool, pool.Keys - {}) == Pooled(pool);
      OwnedPurged(s);
      poolMemorySize := 0;
      pool := map[];
    }

    method FreeBucket(bucket: seq<Ptr>)
      requires forall i :: 0 <= i < |bucket| ==> bucket[i] in allocator.outstanding
      requires forall i, j :: 0 <= i < j < |bucket| ==> bucket[i] != bucket[j]
      modifies allocator
      ensures allocator.outstanding == old(allocator.outstanding) - set x | x in bucket
    {
      var i := 0;
      while i < |bucket|
        invariant i <= |bucket|
        invariant allocator.outstanding == old(allocator.outstanding) - set x | x in bucket[..i]
      {
        allocator.Free(bucket[i]);
        assert bucket[..i + 1] == bucket[..i] + [bucket[i]];
        i := i + 1;
      }
      assert bucket[..i] == bucket;
    }

    /** Destruction returns every pooled block; with no live block left, nothing leaks. */
    method Destroy()
      requires Valid()
      modifies this, allocator
      ensures allocator.outstanding == old(live)
      ensures old(live) == map[] ==> allocator.outstanding == map[]
    {
      FreeAll();
    }
  }

  class CpuMemoryHandle {
    const allocator: PoolAllocator
    const size: nat
    const allocSize: nat
    const buf: Ptr

    /** The handle owns a block of the least size class that holds the request, which nobody
        owned before; a
        request for nothing is only remarked on, and gets a block like any other. */
    constructor (allocator: PoolAllocator, size: nat)
      requires allocator.Valid()
      modifies allocator, allocator.allocator
      ensures Valid() && allocator.Valid() && this.allocator == allocator && this.size == size
      ensures IsClass(allocSize) && size <= allocSize && forall c :: IsClass(c) && size <= c ==> allocSize <= c
      ensures buf !in old(allocator.live) && allocator.live == old(allocator.live)[buf := allocSize]
      ensures buf in allocator.allocator.outstanding && allocator.allocator.outstanding[buf] == allocSize
    {
      this.allocator, this.size := allocator, size;
      LeastClass(size);
      this.allocSize := AllocSize(size);
      ghost var s := allocator.State();
      var p, block := allocator.Alloc(AllocSize(size));
      ReturnedIsFree(allocator.Cfg(), s, Op.Alloc(AllocSize(size), block));
      this.buf := p;
    }

    ghost predicate Valid()
      reads this, allocator, allocator.allocator
    {
      allocator.Valid() && buf in allocator.live && allocator.live[buf] == allocSize
    }

    /** The block goes back with the size it was allocated with. */
    method Destroy()
      requires Valid()
      modifies allocator, allocator.allocator
      ensures allocator.Valid() && allocator.live == old(allocator.live) - {buf}
      ensures allocator.sizeLimit > 0 ==>
                allocSize in allocator.pool && buf in allocator.pool[allocSize]
                && allocator.allocator.outstanding == old(allocator.allocator.outstanding)
    {
      allocator.Free(buf, allocSize);
    }
  }
}
