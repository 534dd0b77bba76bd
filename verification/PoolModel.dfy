/** The memory pool as a state with two operations, and what holds over all its runs. */
module PoolModel {
  import opened Basics
  import opened Bytes
  import opened MemoryHandle

  /** A pool hit assigns the block's size to the counter of pooled bytes, where the rest
      of the allocator needs it subtracted. */
  datatype Accounting = AsWritten | AsIntended

  datatype Config = Config(limit: nat, accounting: Accounting)

  /** `live` holds the blocks that clients own, `outstanding` those that the underlying
      allocator has handed out and not got back; both with their sizes. */
  datatype State = State(pool: map<nat, seq<Ptr>>, counter: nat, live: map<Ptr, nat>, outstanding: map<Ptr, nat>)

  const INITIAL := State(map[], 0, map[], map[])

  /** `block` is what the underlying allocator would return if it were asked. */
  datatype Op = Alloc(size: nat, block: Ptr) | Free(ptr: Ptr, size: nat)

  function Pooled(pool: map<nat, seq<Ptr>>): set<Ptr> {
    set size, i | size in pool && 0 <= i < |pool[size]| :: pool[size][i]
  }

  predicate IsHit(cfg: Config, s: State, op: Op) {
    op.Alloc? && cfg.limit > 0 && op.size in s.pool && s.pool[op.size] != []
  }

  /** Whether a miss first gives the whole pool back. */
  predicate Purges(cfg: Config, s: State) {
    cfg.limit > 0 && s.counter >= cfg.limit
  }

  function Purged(s: State): State {
    State(map[], 0, s.live, s.outstanding - Pooled(s.pool))
  }

  function BeforeMiss(cfg: Config, s: State): State {
    if Purges(cfg, s) then Purged(s) else s
  }

  function CounterAfterHit(cfg: Config, counter: nat, size: nat): nat {
    if cfg.accounting.AsWritten? then size
    else if size <= counter then counter - size
    else Wrap(counter + WORD - size % WORD)
  }

  /** The block an allocation returns. */
  function Returned(cfg: Config, s: State, op: Op): Ptr
    requires op.Alloc?
  {
    if IsHit(cfg, s, op) then s.pool[op.size][|s.pool[op.size]| - 1] else op.block
  }

  function Bucket(pool: map<nat, seq<Ptr>>, size: nat): seq<Ptr> {
    if size in pool then pool[size] else []
  }

  function Apply(cfg: Config, s: State, op: Op): State {
    match op
    case Alloc(size, block) =>
      if IsHit(cfg, s, op) then
        var bucket := s.pool[size];
        State(s.pool[size := bucket[..|bucket| - 1]], CounterAfterHit(cfg, s.counter, size),
              s.live[Returned(cfg, s, op) := size], s.outstanding)
      else
        var t := BeforeMiss(cfg, s);
        State(t.pool, t.counter, t.live[block := size], t.outstanding[block := size])
    case Free(ptr, size) =>
      if cfg.limit > 0 then
        State(s.pool[size := Bucket(s.pool, size) + [ptr]], s.counter + size, s.live - {ptr}, s.outstanding)
      else State(s.pool, s.counter, s.live - {ptr}, s.outstanding - {ptr})
  }

  /** Clients free what they own with the size they asked for; the underlying allocator
      returns no block that is still outstanding. */
  predicate Admissible(cfg: Config, s: State, op: Op) {
    match op
    case Alloc(size, block) => IsHit(cfg, s, op) || block !in BeforeMiss(cfg, s).outstanding
    case Free(ptr, size) => ptr in s.live && s.live[ptr] == size
  }

  // ----- Ownership -----

  /** The outstanding blocks are the live and the pooled ones, no block is both or is
      pooled twice, and every pooled block is in the bucket of its size. */
  ghost predicate Owned(s: State) {
    && (forall p :: p in s.live ==> p in s.outstanding && s.outstanding[p] == s.live[p])
    && (forall size, i :: size in s.pool && 0 <= i < |s.pool[size]| ==>
          s.pool[size][i] in s.outstanding && s.outstanding[s.pool[size][i]] == size && s.pool[size][i] !in s.live)
    && (forall size, i, j :: size in s.pool && 0 <= i < j < |s.pool[size]| ==> s.pool[size][i] != s.pool[size][j])
    && (forall p :: p in s.outstanding ==> p in s.live || p in Bucket(s.pool, s.outstanding[p]))
  }

  lemma OwnedPurged(s: State)
    requires Owned(s)
    ensures Owned(Purged(s)) && Purged(s).outstanding == s.live
  {
    forall p | p in s.outstanding ensures p in s.live <==> p !in Pooled(s.pool) {
      if p !in s.live {
        var size := s.outstanding[p];
        var i :| 0 <= i < |s.pool[size]| && s.pool[size][i] == p;
      }
    }
    assert Purged(s).outstanding == s.live;
  }

  /** A hit returns an outstanding block of exactly the requested size that no client
      owns; a miss returns a block that is not outstanding. */
  lemma ReturnedIsFree(cfg: Config, s: State, op: Op)
    requires Owned(s) && op.Alloc? && Admissible(cfg, s, op)
    ensures Returned(cfg, s, op) !in s.live
    ensures IsHit(cfg, s, op) ==>
              Returned(cfg, s, op) in s.outstanding && s.outstanding[Returned(cfg, s, op)] == op.size
  {
    if !IsHit(cfg, s, op) && Purges(cfg, s) {
      OwnedPurged(s);
    }
  }

  lemma OwnedStep(cfg: Config, s: State, op: Op)
    requires Owned(s) && Admissible(cfg, s, op)
    ensures Owned(Apply(cfg, s, op))
  {
    match op
    case Alloc(size, block) =>
      if IsHit(cfg, s, op) {
        OwnedHit(cfg, s, op);
      } else {
        if Purges(cfg, s) {
          OwnedPurged(s);
        }
      }
    case Free(ptr, size) =>
      if cfg.limit > 0 {
        OwnedFree(cfg, s, op);
      }
  }

  lemma OwnedHit(cfg: Config, s: State, op: Op)
    requires Owned(s) && IsHit(cfg, s, op)
    ensures Owned(Apply(cfg, s, op))
  {
    HitAccounted(cfg, s, op);
    var t := Apply(cfg, s, op);
    var bucket := s.pool[op.size];
    assert t.pool[op.size] == bucket[..|bucket| - 1];
  }

  /** Whatever a hit leaves outstanding is live or still in its bucket. */
  lemma HitAccounted(cfg: Config, s: State, op: Op)
    requires Owned(s) && IsHit(cfg, s, op)
    ensures var t := Apply(cfg, s, op);
            forall q :: q in t.outstanding ==> q in t.live || q in Bucket(t.pool, t.outstanding[q])
  {
    var t := Apply(cfg, s, op);
    var bucket := s.pool[op.size];
    assert t.pool[op.size] == bucket[..|bucket| - 1];
    forall q | q in t.outstanding ensures q in t.live || q in Bucket(t.pool, t.outstanding[q]) {
      if q !in t.live && s.outstanding[q] == op.size {
        var i :| 0 <= i < |bucket| && bucket[i] == q;
        assert t.pool[op.size][i] == q;
      }
    }
  }

  lemma OwnedFree(cfg: Config, s: State, op: Op)
    requires Owned(s) && op.Free? && cfg.limit > 0 && Admissible(cfg, s, op)
    ensures Owned(Apply(cfg, s, op))
  {
    FreeAccounted(cfg, s, op);
    assert Apply(cfg, s, op).pool[op.size] == Bucket(s.pool, op.size) + [op.ptr];
  }

  /** After a release every outstanding block is live or in its bucket. */
  lemma FreeAccounted(cfg: Config, s: State, op: Op)
    requires Owned(s) && op.Free? && cfg.limit > 0 && Admissible(cfg, s, op)
    ensures var t := Apply(cfg, s, op);
            forall q :: q in t.outstanding ==> q in t.live || q in Bucket(t.pool, t.outstanding[q])
  {
    var t := Apply(cfg, s, op);
    var bucket := Bucket(s.pool, op.size);
    assert t.pool[op.size] == bucket + [op.ptr];
    forall q | q in t.outstanding ensures q in t.live || q in Bucket(t.pool, t.outstanding[q]) {
      if q == op.ptr {
        assert t.pool[op.size][|bucket|] == q;
      } else if q !in t.live && s.outstanding[q] == op.size {
        var i :| 0 <= i < |bucket| && bucket[i] == q;
        assert t.pool[op.size][i] == q;
      }
    }
  }

  // ----- Bytes -----

  ghost function Pick(m: map<nat, nat>): nat
    requires m != map[]
    ensures Pick(m) in m
  {
    var k :| k in m; k
  }

  ghost function Total(m: map<nat, nat>): nat
    decreases |m|
  {
    if m == map[] then 0 else m[Pick(m)] + Total(m - {Pick(m)})
  }

  lemma {:induction false} TotalRemove(m: map<nat, nat>, k: nat)
    requires k in m
    ensures Total(m) == m[k] + Total(m - {k})
    decreases |m|
  {
    var c := Pick(m);
    if c != k {
      TotalRemove(m - {c}, k);
      TotalRemove(m - {k}, c);
      assert m - {c} - {k} == m - {k} - {c};
    }
  }

  lemma TotalInsert(m: map<nat, nat>, k: nat, v: nat)
    ensures Total(m[k := v]) == Total(m) + v - (if k in m then m[k] else 0)
  {
    TotalRemove(m[k := v], k);
    assert m[k := v] - {k} == m - {k};
    if k in m {
      TotalRemove(m, k);
    } else {
      assert m - {k} == m;
    }
  }

  ghost function BucketBytes(pool: map<nat, seq<Ptr>>): map<nat, nat> {
    map size | size in pool :: size * |pool[size]|
  }

  /** What `print_all` recounts: the bytes in the pool. */
  ghost function PoolBytes(pool: map<nat, seq<Ptr>>): nat {
    Total(BucketBytes(pool))
  }

  lemma PoolBytesUpdate(pool: map<nat, seq<Ptr>>, size: nat, bucket: seq<Ptr>)
    ensures PoolBytes(pool[size := bucket]) == PoolBytes(pool) + size * |bucket| - size * |Bucket(pool, size)|
  {
    assert BucketBytes(pool[size := bucket]) == BucketBytes(pool)[size := size * |bucket|];
    TotalInsert(BucketBytes(pool), size, size * |bucket|);
  }

  ghost predicate Accurate(s: State) {
    s.counter == PoolBytes(s.pool)
  }

  ghost predicate Balanced(s: State) {
    Total(s.outstanding) == Total(s.live) + PoolBytes(s.pool)
  }

  lemma TimesNext(a: nat, n: nat)
    ensures a * (n + 1) == a * n + a
  {
  }

  lemma HitBytes(cfg: Config, s: State, op: Op)
    requires IsHit(cfg, s, op)
    ensures PoolBytes(Apply(cfg, s, op).pool) == PoolBytes(s.pool) - op.size
    ensures op.size <= PoolBytes(s.pool)
  {
    var bucket := s.pool[op.size];
    PoolBytesUpdate(s.pool, op.size, bucket[..|bucket| - 1]);
    TimesNext(op.size, |bucket| - 1);
  }

  lemma FreeBytes(cfg: Config, s: State, op: Op)
    requires op.Free? && cfg.limit > 0
    ensures PoolBytes(Apply(cfg, s, op).pool) == PoolBytes(s.pool) + op.size
  {
    var bucket := Bucket(s.pool, op.size);
    PoolBytesUpdate(s.pool, op.size, bucket + [op.ptr]);
    TimesNext(op.size, |bucket|);
  }

  /** Hits and frees leave the outstanding blocks as they are, and with them the sum of
      live and pooled bytes; a miss adds exactly the requested bytes to a pool that was
      kept or emptied. */
  lemma BalancedStep(cfg: Config, s: State, op: Op)
    requires Owned(s) && Balanced(s) && Admissible(cfg, s, op)
    ensures Balanced(Apply(cfg, s, op))
    ensures IsHit(cfg, s, op) || (op.Free? && cfg.limit > 0) ==> Apply(cfg, s, op).outstanding == s.outstanding
  {
    match op
    case Alloc(size, block) =>
      ReturnedIsFree(cfg, s, op);
      TotalInsert(s.live, Returned(cfg, s, op), size);
      if IsHit(cfg, s, op) {
        HitBytes(cfg, s, op);
      } else {
        if Purges(cfg, s) {
          OwnedPurged(s);
        }
        TotalInsert(BeforeMiss(cfg, s).outstanding, block, size);
      }
    case Free(ptr, size) =>
      TotalRemove(s.live, ptr);
      if cfg.limit > 0 {
        FreeBytes(cfg, s, op);
      } else {
        TotalRemove(s.outstanding, ptr);
      }
  }

  /** After a miss the pool holds less than the limit, if the counter was accurate. */
  lemma MissBelowLimit(cfg: Config, s: State, op: Op)
    requires op.Alloc? && !IsHit(cfg, s, op) && cfg.limit > 0 && Accurate(s)
    ensures PoolBytes(Apply(cfg, s, op).pool) < cfg.limit
  {
  }

  /** The counter stays accurate in every step but a pool hit as written, and there
      exactly when the block hit was half of the pool. */
  lemma AccurateStep(cfg: Config, s: State, op: Op)
    requires Accurate(s) && Admissible(cfg, s, op) && (cfg.limit == 0 ==> s.pool == map[])
    ensures Accurate(Apply(cfg, s, op)) <==>
            (cfg.accounting.AsWritten? && IsHit(cfg, s, op) ==> PoolBytes(s.pool) == 2 * op.size)
  {
    if IsHit(cfg, s, op) {
      HitBytes(cfg, s, op);
    } else if op.Free? && cfg.limit > 0 {
      FreeBytes(cfg, s, op);
    }
  }

  // ----- What each call does to the pool -----

  /** The pool is last in, first out: an allocation of a size just released returns that
      very block and undoes the release, but for the counter. */
  lemma AllocUndoesFree(cfg: Config, s: State, ptr: Ptr, size: nat, block: Ptr)
    requires Owned(s) && cfg.limit > 0 && Admissible(cfg, s, Free(ptr, size))
    ensures var t := Apply(cfg, s, Free(ptr, size));
            var u := Apply(cfg, t, Alloc(size, block));
            && IsHit(cfg, t, Alloc(size, block)) && Returned(cfg, t, Alloc(size, block)) == ptr
            && u.live == s.live && u.outstanding == s.outstanding
            && forall k :: Bucket(u.pool, k) == Bucket(s.pool, k)
  {
    var bucket := Bucket(s.pool, size);
    assert (bucket + [ptr])[..|bucket|] == bucket;
    assert (s.live - {ptr})[ptr := size] == s.live;
  }

  /** A miss keeps the pool if the counter is below the limit, and otherwise gives every
      pooled block back; either way exactly the new block is handed out. Without a limit
      every call goes straight to the underlying allocator. */
  lemma MissEffect(cfg: Config, s: State, op: Op)
    requires Owned(s) && Admissible(cfg, s, op) && (cfg.limit == 0 ==> s.pool == map[])
    ensures op.Alloc? && !IsHit(cfg, s, op) ==>
              var t := Apply(cfg, s, op);
              t.live == s.live[op.block := op.size] &&
              if cfg.limit > 0 && s.counter >= cfg.limit then
                t.pool == map[] && t.counter == 0 && t.outstanding == t.live
              else t.pool == s.pool && t.counter == s.counter && t.outstanding == s.outstanding[op.block := op.size]
    ensures cfg.limit == 0 ==>
              !IsHit(cfg, s, op) && Apply(cfg, s, op).pool == map[]
              && (op.Free? ==> Apply(cfg, s, op).outstanding == s.outstanding - {op.ptr})
  {
    OwnedPurged(s);
  }

  // ----- Runs -----

  /** A state reached, and the most bytes that were ever live on the way. */
  datatype Trace = Trace(state: State, peak: nat)

  function Max(a: nat, b: nat): nat {
    if a < b then b else a
  }

  ghost function Execute(cfg: Config, ops: seq<Op>): Trace {
    if ops == [] then Trace(INITIAL, 0)
    else
      var before := Execute(cfg, ops[..|ops| - 1]);
      var after := Apply(cfg, before.state, ops[|ops| - 1]);
      Trace(after, Max(before.peak, Total(after.live)))
  }

  ghost predicate AdmissibleRun(cfg: Config, ops: seq<Op>) {
    ops != [] ==>
      AdmissibleRun(cfg, ops[..|ops| - 1]) &&
      Admissible(cfg, Execute(cfg, ops[..|ops| - 1]).state, ops[|ops| - 1])
  }

  /** Over every run of client-correct calls, with the counter as written or as intended:
      the outstanding blocks are the disjoint union of the live and the pooled ones, and
      so are their bytes. */
  lemma {:induction false} AlwaysOwned(cfg: Config, ops: seq<Op>)
    requires AdmissibleRun(cfg, ops)
    ensures var s := Execute(cfg, ops).state;
            Owned(s) && Balanced(s) && (cfg.limit == 0 ==> s.pool == map[])
    ensures Total(Execute(cfg, ops).state.live) <= Execute(cfg, ops).peak
    decreases |ops|
  {
    if ops != [] {
      var n := |ops| - 1;
      AlwaysOwned(cfg, ops[..n]);
      OwnedStep(cfg, Execute(cfg, ops[..n]).state, ops[n]);
      BalancedStep(cfg, Execute(cfg, ops[..n]).state, ops[n]);
    }
  }

  /** With the intended accounting the bytes held from the underlying allocator never
      reach the peak of the live bytes plus the limit. */
  lemma {:induction false} AlwaysBounded(cfg: Config, ops: seq<Op>)
    requires AdmissibleRun(cfg, ops) && cfg.accounting.AsIntended? && cfg.limit > 0
    ensures var r := Execute(cfg, ops);
            Accurate(r.state) && Total(r.state.live) + PoolBytes(r.state.pool) < r.peak + cfg.limit
            && Total(r.state.outstanding) < r.peak + cfg.limit
    decreases |ops|
  {
    AlwaysOwned(cfg, ops);
    if ops != [] {
      var n := |ops| - 1;
      var s := Execute(cfg, ops[..n]).state;
      AlwaysBounded(cfg, ops[..n]);
      AlwaysOwned(cfg, ops[..n]);
      AccurateStep(cfg, s, ops[n]);
      BalancedStep(cfg, s, ops[n]);
      if ops[n].Alloc? && !IsHit(cfg, s, ops[n]) {
        MissBelowLimit(cfg, s, ops[n]);
      }
    }
  }

  ghost predicate AccurateThroughout(cfg: Config, ops: seq<Op>) {
    Accurate(Execute(cfg, ops).state) && (ops != [] ==> AccurateThroughout(cfg, ops[..|ops| - 1]))
  }

  /** Each hit of the run takes exactly half of the bytes in the pool. */
  ghost predicate HitsTakeHalf(cfg: Config, ops: seq<Op>) {
    ops != [] ==>
      var before, last := ops[..|ops| - 1], ops[|ops| - 1];
      HitsTakeHalf(cfg, before) &&
      (IsHit(cfg, Execute(cfg, before).state, last) ==>
         PoolBytes(Execute(cfg, before).state.pool) == 2 * last.size)
  }

  /** As written, the counter is right all through a run exactly when every hit takes
      half of the pool. */
  lemma {:induction false} AccurateIff(cfg: Config, ops: seq<Op>)
    requires AdmissibleRun(cfg, ops) && cfg.accounting.AsWritten?
    ensures AccurateThroughout(cfg, ops) <==> HitsTakeHalf(cfg, ops)
    decreases |ops|
  {
    if ops != [] {
      var before, last := ops[..|ops| - 1], ops[|ops| - 1];
      AccurateIff(cfg, before);
      AlwaysOwned(cfg, before);
      if Accurate(Execute(cfg, before).state) {
        AccurateStep(cfg, Execute(cfg, before).state, last);
      }
    }
  }

  // ----- The bound as written -----

  ghost predicate Bounded(cfg: Config, r: Trace) {
    Total(r.state.outstanding) < r.peak + cfg.limit
  }

  ghost predicate BoundedThroughout(cfg: Config, ops: seq<Op>) {
    Bounded(cfg, Execute(cfg, ops)) && (ops != [] ==> BoundedThroughout(cfg, ops[..|ops| - 1]))
  }

  /** How far the live bytes with one more block of this size stay below their peak. */
  ghost function Headroom(r: Trace, size: nat): nat {
    Max(r.peak, Total(r.state.live) + size) - (Total(r.state.live) + size)
  }

  predicate KeepsPool(cfg: Config, s: State, op: Op) {
    op.Alloc? && !IsHit(cfg, s, op) && !Purges(cfg, s)
  }

  /** Each miss that keeps the pool finds in it less than the limit, or no more beyond
      that than the live bytes are below their peak. */
  ghost predicate RoomAtMisses(cfg: Config, ops: seq<Op>) {
    ops != [] ==>
      var before, last := ops[..|ops| - 1], ops[|ops| - 1];
      var r := Execute(cfg, before);
      RoomAtMisses(cfg, before) &&
      (KeepsPool(cfg, r.state, last) ==> PoolBytes(r.state.pool) < cfg.limit + Headroom(r, last.size))
  }

  /** After a miss the live bytes are what they were and the new block, and the
      outstanding ones these and the pool, if it was kept. */
  lemma MissBytes(cfg: Config, s: State, op: Op)
    requires Owned(s) && Balanced(s) && Admissible(cfg, s, op) && op.Alloc? && !IsHit(cfg, s, op)
    ensures Total(Apply(cfg, s, op).live) == Total(s.live) + op.size
    ensures Total(Apply(cfg, s, op).outstanding)
         == Total(s.live) + op.size + (if Purges(cfg, s) then 0 else PoolBytes(s.pool))
  {
    ReturnedIsFree(cfg, s, op);
    TotalInsert(s.live, op.block, op.size);
    if Purges(cfg, s) {
      OwnedPurged(s);
    }
    TotalInsert(BeforeMiss(cfg, s).outstanding, op.block, op.size);
  }

  /** For either accounting: all through a run the bytes held from the underlying
      allocator stay below the peak of the live bytes plus the limit, if and only if
      each miss that keeps the pool finds room in it. */
  lemma {:induction false} BoundedIff(cfg: Config, ops: seq<Op>)
    requires AdmissibleRun(cfg, ops) && cfg.limit > 0
    ensures BoundedThroughout(cfg, ops) <==> RoomAtMisses(cfg, ops)
    decreases |ops|
  {
    if ops != [] {
      var before, last := ops[..|ops| - 1], ops[|ops| - 1];
      var s := Execute(cfg, before).state;
      BoundedIff(cfg, before);
      AlwaysOwned(cfg, before);
      AlwaysOwned(cfg, ops);
      if last.Alloc? && !IsHit(cfg, s, last) {
        MissBytes(cfg, s, last);
      } else {
        BalancedStep(cfg, s, last);
      }
    }
  }

  /** The counter has reached the limit whenever a miss finds that the pool has. */
  ghost predicate CounterFollows(cfg: Config, ops: seq<Op>) {
    ops != [] ==>
      var before, last := ops[..|ops| - 1], ops[|ops| - 1];
      var s := Execute(cfg, before).state;
      CounterFollows(cfg, before) &&
      (last.Alloc? && !IsHit(cfg, s, last) && PoolBytes(s.pool) >= cfg.limit ==> s.counter >= cfg.limit)
  }

  /** So a counter that is never short at a miss is enough, right or wrong otherwise. */
  lemma {:induction false} CounterFollowsSuffices(cfg: Config, ops: seq<Op>)
    requires AdmissibleRun(cfg, ops) && cfg.limit > 0 && CounterFollows(cfg, ops)
    ensures BoundedThroughout(cfg, ops)
    decreases |ops|
  {
    BoundedIff(cfg, ops);
    if ops != [] {
      CounterFollowsSuffices(cfg, ops[..|ops| - 1]);
      BoundedIff(cfg, ops[..|ops| - 1]);
    }
  }

  // ----- A bound that needs no counter -----

  function Blocks(m: map<Ptr, nat>, size: nat): set<Ptr> {
    set p | p in m && m[p] == size
  }

  /** The most blocks of this size that were ever live at once. */
  ghost function MostLive(cfg: Config, ops: seq<Op>, size: nat): nat {
    if ops == [] then 0
    else Max(MostLive(cfg, ops[..|ops| - 1], size), |Blocks(Execute(cfg, ops).state.live, size)|)
  }

  lemma {:induction false} SubsetSize(a: set<Ptr>, b: set<Ptr>)
    requires a <= b
    ensures |a| <= |b|
    decreases a
  {
    if a != {} {
      var x :| x in a;
      SubsetSize(a - {x}, b - {x});
    }
  }

  /** A miss finds no pooled block of its size, so it leaves none of them but live ones. */
  lemma MissAllLive(cfg: Config, s: State, op: Op)
    requires Owned(s) && Admissible(cfg, s, op) && op.Alloc? && !IsHit(cfg, s, op)
    requires cfg.limit == 0 ==> s.pool == map[]
    ensures Blocks(Apply(cfg, s, op).outstanding, op.size) == Blocks(Apply(cfg, s, op).live, op.size)
  {
    OwnedStep(cfg, s, op);
    var t := Apply(cfg, s, op);
    forall p | p in Blocks(t.outstanding, op.size) ensures p in Blocks(t.live, op.size) {
      assert Bucket(t.pool, op.size) == [];
    }
  }

  /** For either accounting and any limit, the outstanding blocks of each size never
      outnumber the most of them that were live at once. */
  lemma {:induction false} BlocksBounded(cfg: Config, ops: seq<Op>, size: nat)
    requires AdmissibleRun(cfg, ops)
    ensures |Blocks(Execute(cfg, ops).state.outstanding, size)| <= MostLive(cfg, ops, size)
    decreases |ops|
  {
    if ops != [] {
      var before, last := ops[..|ops| - 1], ops[|ops| - 1];
      var s, t := Execute(cfg, before).state, Execute(cfg, ops).state;
      BlocksBounded(cfg, before, size);
      AlwaysOwned(cfg, before);
      if last.Alloc? && !IsHit(cfg, s, last) && last.size == size {
        MissAllLive(cfg, s, last);
      } else {
        SubsetSize(Blocks(t.outstanding, size), Blocks(s.outstanding, size));
      }
    }
  }

  // ----- How far the bound can be missed as written -----

  /** Every block of the run is at least this large. */
  predicate SizesFrom(ops: seq<Op>, least: nat) {
    forall i :: 0 <= i < |ops| ==> ops[i].size >= least
  }

  /** Where no block is smaller than the limit, the counter has reached the limit whenever
      the pool has: after a hit it is the size of a block. */
  lemma {:induction false} CounterNotShort(cfg: Config, ops: seq<Op>)
    requires AdmissibleRun(cfg, ops) && cfg.limit > 0 && SizesFrom(ops, cfg.limit)
    ensures CounterFollows(cfg, ops)
    ensures var s := Execute(cfg, ops).state;
            PoolBytes(s.pool) >= cfg.limit ==> s.counter >= cfg.limit
    decreases |ops|
  {
    if cfg.accounting.AsIntended? {
      AlwaysBounded(cfg, ops);
    }
    if ops != [] {
      var before, last := ops[..|ops| - 1], ops[|ops| - 1];
      assert last.size >= cfg.limit;
      CounterNotShort(cfg, before);
    }
  }

  /** Every size above this is a size of its own, for which a handle asks unrounded. */
  const TOP: nat := 0x1_0000

  /** The block of size `base`, which is live, has an empty bucket; blocks 1 to `n`, each
      of another size, are pooled. */
  function Buckets(base: nat, n: nat): (r: map<nat, seq<Ptr>>)
    requires base <= TOP
    ensures base in r && r[base] == [] && forall size :: size in r ==> size <= TOP + n
  {
    if n == 0 then map[base := []] else Buckets(base, n - 1)[TOP + n := [n]]
  }

  function Stack(base: nat, n: nat): (r: map<Ptr, nat>)
    ensures 0 in r && forall p :: p in r ==> p <= n
  {
    if n == 0 then map[0 := base] else Stack(base, n - 1)[n := TOP + n]
  }

  function Level(base: nat, n: nat): State
    requires base <= TOP
  {
    State(Buckets(base, n), base, map[0 := base], Stack(base, n))
  }

  /** A block of a new size comes and goes, and the block of size `base` is released and
      found again, which makes the counter forget everything else. */
  function Stair(base: nat, n: nat): seq<Op> {
    [Alloc(TOP + n, n), Free(n, TOP + n), Free(0, base), Alloc(base, 0)]
  }

  function Stairs(base: nat, n: nat): seq<Op> {
    if n == 0 then [Alloc(base, 0), Free(0, base), Alloc(base, 0)] else Stairs(base, n - 1) + Stair(base, n)
  }

  lemma OneMore(cfg: Config, ops: seq<Op>, op: Op)
    requires AdmissibleRun(cfg, ops) && Admissible(cfg, Execute(cfg, ops).state, op)
    ensures AdmissibleRun(cfg, ops + [op])
    ensures var r := Execute(cfg, ops);
            var s := Apply(cfg, r.state, op);
            Execute(cfg, ops + [op]) == Trace(s, Max(r.peak, Total(s.live)))
  {
    assert (ops + [op])[..|ops|] == ops;
  }

  lemma Live(base: nat, n: nat)
    requires n > 0
    ensures Total(map[]) == 0 && Total(map[0 := base]) == base
    ensures Total(map[0 := base][n := TOP + n]) == base + TOP + n
    ensures map[0 := base] - {0} == map[] && map[0 := base][n := TOP + n] - {n} == map[0 := base]
  {
    TotalInsert(map[], 0, base);
    TotalInsert(map[0 := base], n, TOP + n);
  }

  /** A new size is a miss that keeps the pool, since the counter is below the limit. */
  lemma StairUp(cfg: Config, ops: seq<Op>, base: nat, n: nat, peak: nat)
    requires cfg.limit > base && cfg.accounting.AsWritten? && n > 0 && base <= TOP
    requires AdmissibleRun(cfg, ops) && Execute(cfg, ops) == Trace(Level(base, n - 1), peak)
    ensures var more := ops + [Alloc(TOP + n, n)] + [Free(n, TOP + n)];
            AdmissibleRun(cfg, more) &&
            Execute(cfg, more) == Trace(Level(base, n).(counter := base + TOP + n), Max(peak, base + TOP + n))
  {
    Live(base, n);
    OneMore(cfg, ops, Alloc(TOP + n, n));
    var e: seq<Ptr> := [];
    assert e + [n] == [n];
    OneMore(cfg, ops + [Alloc(TOP + n, n)], Free(n, TOP + n));
  }

  lemma BucketAgain(base: nat, n: nat)
    requires base <= TOP
    ensures Buckets(base, n)[base := [0]][base := []] == Buckets(base, n)
  {
  }

  lemma StairReset(cfg: Config, ops: seq<Op>, base: nat, n: nat, peak: nat, counter: nat)
    requires cfg.limit > base && cfg.accounting.AsWritten? && base <= TOP && peak >= base
    requires AdmissibleRun(cfg, ops) && Execute(cfg, ops) == Trace(Level(base, n).(counter := counter), peak)
    ensures var more := ops + [Free(0, base)] + [Alloc(base, 0)];
            AdmissibleRun(cfg, more) && Execute(cfg, more) == Trace(Level(base, n), peak)
  {
    Live(base, 1);
    OneMore(cfg, ops, Free(0, base));
    var e: seq<Ptr> := [];
    assert e + [0] == [0] && [0][..0] == e;
    BucketAgain(base, n);
    OneMore(cfg, ops + [Free(0, base)], Alloc(base, 0));
  }

  lemma FirstLevel(cfg: Config, base: nat)
    requires cfg.limit > base && cfg.accounting.AsWritten? && base <= TOP
    ensures AdmissibleRun(cfg, Stairs(base, 0)) && Execute(cfg, Stairs(base, 0)) == Trace(Level(base, 0), base)
  {
    Live(base, 1);
    OneMore(cfg, [], Alloc(base, 0));
    OneMore(cfg, [Alloc(base, 0)], Free(0, base));
    OneMore(cfg, [Alloc(base, 0), Free(0, base)], Alloc(base, 0));
    assert [] + [Alloc(base, 0)] == [Alloc(base, 0)];
    assert [Alloc(base, 0)] + [Free(0, base)] == [Alloc(base, 0), Free(0, base)];
    assert [Alloc(base, 0), Free(0, base)] + [Alloc(base, 0)] == Stairs(base, 0);
    var e: seq<Ptr> := [];
    assert e + [0] == [0] && [0][..0] == e;
    assert map[base := [0]][base := e] == Buckets(base, 0);
  }

  function Peak(base: nat, n: nat): nat {
    if n == 0 then base else base + TOP + n
  }

  lemma OneStair(cfg: Config, ops: seq<Op>, base: nat, n: nat)
    requires cfg.limit > base && cfg.accounting.AsWritten? && n > 0 && base <= TOP
    requires AdmissibleRun(cfg, ops) && Execute(cfg, ops) == Trace(Level(base, n - 1), Peak(base, n - 1))
    ensures AdmissibleRun(cfg, ops + Stair(base, n))
    ensures Execute(cfg, ops + Stair(base, n)) == Trace(Level(base, n), Peak(base, n))
  {
    StairUp(cfg, ops, base, n, Peak(base, n - 1));
    var half := ops + [Alloc(TOP + n, n)] + [Free(n, TOP + n)];
    StairReset(cfg, half, base, n, Peak(base, n), base + TOP + n);
    assert half + [Free(0, base)] + [Alloc(base, 0)] == ops + Stair(base, n);
  }

  lemma {:induction false} StairsRun(cfg: Config, base: nat, n: nat)
    requires cfg.limit > base && cfg.accounting.AsWritten? && base <= TOP
    ensures AdmissibleRun(cfg, Stairs(base, n))
    ensures Execute(cfg, Stairs(base, n)) == Trace(Level(base, n), Peak(base, n))
  {
    if n == 0 {
      FirstLevel(cfg, base);
    } else {
      StairsRun(cfg, base, n - 1);
      OneStair(cfg, Stairs(base, n - 1), base, n);
    }
  }

  lemma {:induction false} StackTotal(base: nat, n: nat)
    ensures Total(Stack(base, n)) + 1 >= Peak(base, n) + n
  {
    if n == 0 {
      TotalInsert(map[], 0, base);
    } else {
      StackTotal(base, n - 1);
      TotalInsert(Stack(base, n - 1), n, TOP + n);
    }
  }

  lemma {:induction false} StairSizes(base: nat, n: nat)
    requires base <= TOP
    ensures forall i :: 0 <= i < |Stairs(base, n)| ==> Stairs(base, n)[i].size == base || Stairs(base, n)[i].size > TOP
  {
    if n > 0 {
      StairSizes(base, n - 1);
    }
  }

  /** As written no bound of this kind holds at all where some block is smaller than the
      limit: with one such size and larger ones, some run of client-correct calls exceeds
      the peak plus the limit by as much as one likes. */
  lemma BoundFailsAsWritten(limit: nat, base: nat, excess: nat) returns (ops: seq<Op>)
    requires base < limit && base <= TOP
    ensures var cfg := Config(limit, AsWritten);
            AdmissibleRun(cfg, ops)
            && Total(Execute(cfg, ops).state.outstanding) >= Execute(cfg, ops).peak + limit + excess
    ensures forall i :: 0 <= i < |ops| ==> ops[i].size == base || ops[i].size > TOP
  {
    var n := limit + excess + 1;
    ops := Stairs(base, n);
    StairsRun(Config(limit, AsWritten), base, n);
    StackTotal(base, n);
    StairSizes(base, n);
  }

  // ----- The pool as memory handles use it -----

  /** Every size is one that a memory handle rounds a request to. */
  predicate FromHandles(ops: seq<Op>) {
    forall i :: 0 <= i < |ops| ==> AllocSize(ops[i].size) == ops[i].size
  }

  /** As written, and used through memory handles, the pool keeps its bound in every run if
      and only if the limit is no larger than the smallest block. */
  lemma HandlesBoundIff(limit: nat)
    requires limit > 0
    ensures var cfg := Config(limit, AsWritten);
            (forall ops: seq<Op> :: AdmissibleRun(cfg, ops) && FromHandles(ops) ==> BoundedThroughout(cfg, ops))
            <==> limit <= 256
  {
    var cfg := Config(limit, AsWritten);
    if limit <= 256 {
      forall ops: seq<Op> | AdmissibleRun(cfg, ops) && FromHandles(ops) ensures BoundedThroughout(cfg, ops) {
        forall i | 0 <= i < |ops| ensures ops[i].size >= limit {
          EnoughAndTight(ops[i].size);
        }
        CounterNotShort(cfg, ops);
        CounterFollowsSuffices(cfg, ops);
      }
    } else {
      var ops := BoundFailsAsWritten(limit, 256, 0);
      assert FromHandles(ops);
      assert !Bounded(cfg, Execute(cfg, ops));
    }
  }
}
