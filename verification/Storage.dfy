/** The double-checked creation of the one CPU allocator, by any number of threads. */
module Storage {
  import opened Basics
  import opened Locks

  /** Where a thread stands in `get_cpu_allocator`. */
  datatype PC =
    | Outside
    | WantRead
    | Reading
    | Looked(seen: Option<Ptr>)
    | WantWrite
    | Writing
    | Creating
    | Assigning(made: Ptr)
    | Returning(result: Ptr)

  /** `created` are all allocators ever made, `returned` the results of finished calls. */
  datatype State = State(
    lock: RWLock, allocator: Option<Ptr>, pcs: map<Tid, PC>, created: set<Ptr>, returned: seq<Ptr>)

  const INITIAL := State(FREE, None, map[], {}, [])

  function At(s: State, t: Tid): PC {
    if t in s.pcs then s.pcs[t] else Outside
  }

  /** The next step of one thread; `block` is the address a `new` would yield. */
  datatype Action = Action(tid: Tid, block: Ptr)

  predicate Enabled(s: State, a: Action) {
    match At(s, a.tid)
    case WantRead => s.lock.CanLockShared()
    case WantWrite => s.lock.CanLock()
    case Creating => a.block !in s.created
    case _ => true
  }

  function Apply(s: State, a: Action): State {
    var t := a.tid;
    match At(s, t)
    case Outside => s.(pcs := s.pcs[t := WantRead])
    case WantRead => s.(pcs := s.pcs[t := Reading], lock := s.lock.LockShared(t))
    case Reading => s.(pcs := s.pcs[t := Looked(s.allocator)])
    case Looked(Some(p)) =>
      s.(pcs := s.pcs[t := Outside], lock := s.lock.Unlock(t), returned := s.returned + [p])
    case Looked(None) => s.(pcs := s.pcs[t := WantWrite], lock := s.lock.Unlock(t))
    case WantWrite => s.(pcs := s.pcs[t := Writing], lock := s.lock.Lock(t))
    case Writing =>
      (match s.allocator
       case None => s.(pcs := s.pcs[t := Creating])
       case Some(p) => s.(pcs := s.pcs[t := Returning(p)]))
    case Creating => s.(pcs := s.pcs[t := Assigning(a.block)], created := s.created + {a.block})
    case Assigning(p) => s.(pcs := s.pcs[t := Returning(p)], allocator := Some(p))
    case Returning(p) =>
      s.(pcs := s.pcs[t := Outside], lock := s.lock.Unlock(t), returned := s.returned + [p])
  }

  function Execute(s: State, actions: seq<Action>): State
    decreases |actions|
  {
    if actions == [] then s else Execute(Apply(s, actions[0]), actions[1..])
  }

  predicate Possible(s: State, actions: seq<Action>)
    decreases |actions|
  {
    actions == [] || (Enabled(s, actions[0]) && Possible(Apply(s, actions[0]), actions[1..]))
  }

  // ----- What every step keeps -----

  predicate HoldsShared(pc: PC) {
    pc.Reading? || pc.Looked?
  }

  predicate HoldsExclusive(pc: PC) {
    pc.Writing? || pc.Creating? || pc.Assigning? || pc.Returning?
  }

  ghost predicate LockInv(s: State) {
    && s.lock.Exclusive()
    && (forall t :: HoldsShared(At(s, t)) <==> t in s.lock.readers)
    && (forall t :: HoldsExclusive(At(s, t)) <==> s.lock.writer == Somebody(t))
  }

  ghost predicate AllocatorInv(s: State) {
    && (s.allocator.Some? ==> s.created == {s.allocator.value})
    && (s.allocator.None? ==> s.created == {} || exists t :: At(s, t).Assigning? && s.created == {At(s, t).made})
    && (forall t :: At(s, t).Creating? ==> s.allocator.None? && s.created == {})
    && (forall t :: At(s, t).Assigning? ==> s.allocator.None? && s.created == {At(s, t).made})
    && (forall t :: At(s, t).Returning? ==> s.allocator == Some(At(s, t).result))
    && (forall t :: At(s, t).Looked? && At(s, t).seen.Some? ==> s.allocator == At(s, t).seen)
    && (forall p :: p in s.returned ==> s.allocator == Some(p))
  }

  lemma LockStep(s: State, a: Action)
    requires LockInv(s) && Enabled(s, a)
    ensures LockInv(Apply(s, a))
  {
    var s' := Apply(s, a);
    assert forall t :: t != a.tid ==> At(s', t) == At(s, t);
  }

  lemma AllocatorStep(s: State, a: Action)
    requires LockInv(s) && AllocatorInv(s) && Enabled(s, a)
    ensures AllocatorInv(Apply(s, a))
  {
    var s' := Apply(s, a);
    assert forall t :: t != a.tid ==> At(s', t) == At(s, t);
    var pc := At(s, a.tid);
    if HoldsExclusive(pc) {
      assert forall t :: t != a.tid ==> !HoldsExclusive(At(s, t));
    } else if s.allocator.None? && s.created != {} {
      var t :| At(s, t).Assigning? && s.created == {At(s, t).made};
      assert At(s', t) == At(s, t);
    }
    if pc.Creating? {
      assert s'.created == {a.block} && At(s', a.tid).made == a.block;
    }
  }

  lemma {:induction false} AlwaysInv(s: State, actions: seq<Action>)
    requires LockInv(s) && AllocatorInv(s) && Possible(s, actions)
    ensures LockInv(Execute(s, actions)) && AllocatorInv(Execute(s, actions))
    decreases |actions|
  {
    if actions != [] {
      LockStep(s, actions[0]);
      AllocatorStep(s, actions[0]);
      AlwaysInv(Apply(s, actions[0]), actions[1..]);
    }
  }

  /** Under every interleaving of any number of threads there is never more than one
      allocator, every finished call has returned it, and the lock is held by many
      readers or by one writer. */
  lemma OneAllocator(actions: seq<Action>)
    requires Possible(INITIAL, actions)
    ensures var s := Execute(INITIAL, actions);
            && |s.created| <= 1
            && (forall p :: p in s.returned ==> s.created == {p} && s.allocator == Some(p))
            && (forall t, u :: HoldsExclusive(At(s, t)) && t != u ==>
                  !HoldsExclusive(At(s, u)) && !HoldsShared(At(s, u)))
  {
    AlwaysInv(INITIAL, actions);
    var s := Execute(INITIAL, actions);
    if s.allocator.None? && s.created != {} {
      var t :| At(s, t).Assigning? && s.created == {At(s, t).made};
    }
  }

  // ----- How a call goes -----

  /** Whether the lock lets a waiting thread in: a reader beside any number of readers, a
      writer only alone. */
  lemma EntersIff(s: State, a: Action)
    requires LockInv(s)
    ensures At(s, a.tid).WantRead? ==> (Enabled(s, a) <==> forall t :: !HoldsExclusive(At(s, t)))
    ensures At(s, a.tid).WantWrite? ==>
              (Enabled(s, a) <==> forall t :: !HoldsExclusive(At(s, t)) && !HoldsShared(At(s, t)))
  {
    if s.lock.writer.Somebody? {
      assert HoldsExclusive(At(s, s.lock.writer.tid));
    }
    if s.lock.readers != {} {
      var t :| t in s.lock.readers;
      assert HoldsShared(At(s, t));
    }
  }

  /** A call is over exactly when it has a result: each step that leads outside adds one
      to the results, the allocator, and no other step does. */
  lemma CallEnds(s: State, a: Action)
    requires LockInv(s) && AllocatorInv(s) && Enabled(s, a)
    ensures var s' := Apply(s, a);
            if !At(s, a.tid).Outside? && At(s', a.tid).Outside? then
              s'.allocator.Some? && s'.returned == s.returned + [s'.allocator.value]
              && s'.created == {s'.allocator.value}
            else s'.returned == s.returned
    ensures forall t :: t != a.tid ==> At(Apply(s, a), t) == At(s, t)
  {
    AllocatorStep(s, a);
  }

  /** How many steps a thread is from the end of its call. */
  function Rank(pc: PC): nat {
    match pc
    case Outside => 0
    case Looked(Some(_)) => 1
    case Returning(_) => 1
    case Assigning(_) => 2
    case Creating => 3
    case Writing => 4
    case WantWrite => 5
    case Looked(None) => 6
    case Reading => 7
    case WantRead => 8
  }

  ghost predicate OthersOut(s: State, t: Tid) {
    forall u :: u != t ==> !HoldsShared(At(s, u)) && !HoldsExclusive(At(s, u))
  }

  lemma CallProgress(s: State, t: Tid, block: Ptr)
    requires LockInv(s) && AllocatorInv(s) && OthersOut(s, t) && !At(s, t).Outside?
    ensures Enabled(s, Action(t, block))
    ensures var s' := Apply(s, Action(t, block));
            LockInv(s') && AllocatorInv(s') && OthersOut(s', t) && Rank(At(s', t)) < Rank(At(s, t))
  {
    var a := Action(t, block);
    EntersIff(s, a);
    LockStep(s, a);
    AllocatorStep(s, a);
    assert forall u :: u != t ==> At(Apply(s, a), u) == At(s, u);
  }

  /** From every state in which the invariants hold, a thread that is inside while no other
      holds the lock finishes its call within eight steps of its own, and its result is
      the one allocator made. */
  lemma {:induction false} CallFinishes(s: State, t: Tid, block: Ptr) returns (actions: seq<Action>)
    requires LockInv(s) && AllocatorInv(s) && OthersOut(s, t) && !At(s, t).Outside?
    ensures |actions| <= Rank(At(s, t)) && forall i :: 0 <= i < |actions| ==> actions[i] == Action(t, block)
    ensures Possible(s, actions)
    ensures var r := Execute(s, actions);
            At(r, t).Outside? && r.allocator.Some? && r.created == {r.allocator.value}
            && r.returned == s.returned + [r.allocator.value]
    decreases Rank(At(s, t))
  {
    var a := Action(t, block);
    CallProgress(s, t, block);
    CallEnds(s, a);
    var s' := Apply(s, a);
    if At(s', t).Outside? {
      actions := [a];
      assert actions[1..] == [];
    } else {
      var more := CallFinishes(s', t, block);
      actions := [a] + more;
      assert actions[1..] == more;
    }
  }

  /** So in every reachable state in which the others leave the lock free, a call that is
      under way can be finished, and returns the only allocator there is. */
  lemma EveryCallReturns(before: seq<Action>, t: Tid, block: Ptr) returns (actions: seq<Action>)
    requires Possible(INITIAL, before)
    requires var s := Execute(INITIAL, before); OthersOut(s, t) && !At(s, t).Outside?
    ensures var s := Execute(INITIAL, before);
            && |actions| <= 8 && Possible(s, actions)
            && (forall i :: 0 <= i < |actions| ==> actions[i] == Action(t, block))
            && var r := Execute(s, actions);
               At(r, t).Outside? && r.allocator.Some? && r.created == {r.allocator.value}
               && r.returned == s.returned + [r.allocator.value]
  {
    AlwaysInv(INITIAL, before);
    actions := CallFinishes(Execute(INITIAL, before), t, block);
  }

  /** A call that looks when the allocator is there ends with its next step, without ever
      taking the write lock. */
  lemma FastPath(s: State, a: Action, block: Ptr)
    requires At(s, a.tid).Reading? && s.allocator.Some? && s.lock.writer.Nobody?
    ensures var r := Apply(Apply(s, a), Action(a.tid, block));
            At(r, a.tid).Outside? && r.returned == s.returned + [s.allocator.value]
            && r.lock.writer == s.lock.writer && r.created == s.created
  {
  }
}
