/** The blocking queue: its critical sections, and the protocol by which any number of
    threads run them, sleep and wake one another. */
module Queue {
  import opened Basics

  /** The fields that the queue's mutex protects. */
  datatype Core<T> = Core(elements: seq<T>, num: int) {

    predicate Valid() {
      num == |elements|
    }

    function Pushed(x: T): Core<T> {
      Core(elements + [x], num + 1)
    }

    /** The front element, if there is one. */
    function Front(): seq<T> {
      if elements == [] then [] else [elements[0]]
    }

    function Popped(): Core<T> {
      Core(elements[|Front()|..], num - 1)
    }
  }

  class Queue<T(!new)> {
    var elements: seq<T>
    var numElements: int

    constructor ()
      ensures Fields() == Core([], 0)
    {
      elements, numElements := [], 0;
    }

    function Fields(): Core<T>
      reads this
    {
      Core(elements, numElements)
    }

    /** The critical section of `enqueue`. */
    method Enqueue(element: T)
      requires Fields().Valid()
      modifies this
      ensures Fields() == old(Fields()).Pushed(element) && Fields().Valid()
      ensures forall s: State<T>, t :: s.core == old(Fields()) && At(s, t) == Enqueueing(element) ==>
                Apply(s, Enter(t)).core == Fields()
    {
      elements := elements + [element];
      numElements := numElements + 1;
    }

    /** The critical section of `dequeue` once its wait is over; says whether the queue
        became empty, so that waiters must be notified. */
    method Dequeue() returns (element: T, notify: bool)
      requires Fields().Valid() && numElements != 0
      modifies this
      ensures element == old(elements)[0]
      ensures Fields() == old(Fields()).Popped() && Fields().Valid()
      ensures notify <==> elements == []
      ensures forall s: State<T>, t :: s.core == old(Fields()) && At(s, t).Dequeueing? ==>
                Apply(s, Enter(t)).core == Fields() && Apply(s, Enter(t)).dequeued == s.dequeued + [element]
    {
      element := elements[0];
      elements := elements[1..];
      numElements := numElements - 1;
      notify := numElements == 0;
    }

    method Empty() returns (empty: bool)
      requires Fields().Valid()
      ensures empty <==> elements == []
    {
      empty := numElements == 0;
    }
  }

  // ----- The protocol -----

  /** Outside the mutex a thread is about to enter a section or asleep in one's wait. */
  datatype PC<T> =
    | Idle
    | Enqueueing(element: T)
    | Dequeueing
    | DequeueAsleep
    | WaitingEmpty
    | WaitEmptyAsleep

  datatype State<T> = State(core: Core<T>, pcs: map<Tid, PC<T>>, enqueued: seq<T>, dequeued: seq<T>)

  function Initial<T>(): State<T> {
    State(Core([], 0), map[], [], [])
  }

  function At<T>(s: State<T>, t: Tid): PC<T> {
    if t in s.pcs then s.pcs[t] else Idle
  }

  datatype Action<T> = Call(tid: Tid, pc: PC<T>) | Enter(tid: Tid) | Wake(tid: Tid)

  predicate Enabled<T>(s: State<T>, a: Action<T>) {
    match a
    case Call(t, pc) => At(s, t).Idle? && (pc.Enqueueing? || pc.Dequeueing? || pc.WaitingEmpty?)
    case Enter(t) => At(s, t).Enqueueing? || At(s, t).Dequeueing? || At(s, t).WaitingEmpty?
    case Wake(t) => At(s, t).DequeueAsleep? || At(s, t).WaitEmptyAsleep?
  }

  function Woken<T>(pc: PC<T>): PC<T> {
    match pc
    case DequeueAsleep => Dequeueing
    case WaitEmptyAsleep => WaitingEmpty
    case _ => pc
  }

  /** `notify_all` on the one condition variable. */
  function NotifyAll<T>(pcs: map<Tid, PC<T>>): map<Tid, PC<T>> {
    map t | t in pcs :: Woken(pcs[t])
  }

  /** A call, one pass through a critical section with its wait test, or a wake-up
      without notification. */
  function Apply<T>(s: State<T>, a: Action<T>): State<T>
    requires Enabled(s, a)
  {
    match a
    case Call(t, pc) => s.(pcs := s.pcs[t := pc])
    case Wake(t) => s.(pcs := s.pcs[t := Woken(At(s, t))])
    case Enter(t) =>
      match At(s, t)
      case Enqueueing(x) =>
        State(s.core.Pushed(x), NotifyAll(s.pcs)[t := Idle], s.enqueued + [x], s.dequeued)
      case Dequeueing =>
        if s.core.num == 0 then s.(pcs := s.pcs[t := DequeueAsleep])
        else
          var core := s.core.Popped();
          State(core, (if core.num == 0 then NotifyAll(s.pcs) else s.pcs)[t := Idle],
                s.enqueued, s.dequeued + s.core.Front())
      case _ =>
        if s.core.num == 0 then s.(pcs := s.pcs[t := Idle]) else s.(pcs := s.pcs[t := WaitEmptyAsleep])
  }

  /** The counter is right, elements leave in the order they came, and whoever sleeps
      has reason to: the condition it waits for does not hold. */
  ghost predicate Inv<T>(s: State<T>) {
    && s.core.Valid()
    && s.dequeued + s.core.elements == s.enqueued
    && (forall t :: At(s, t).DequeueAsleep? ==> s.core.elements == [])
    && (forall t :: At(s, t).WaitEmptyAsleep? ==> s.core.elements != [])
  }

  lemma StepInv<T>(s: State<T>, a: Action<T>)
    requires Inv(s) && Enabled(s, a)
    ensures Inv(Apply(s, a))
  {
    var s' := Apply(s, a);
    if s.core.elements != [] {
      assert s.core.elements == [s.core.elements[0]] + s.core.elements[1..];
    }
    forall t | t != a.tid ensures At(s', t) == At(s, t) || At(s', t) == Woken(At(s, t)) {
    }
  }

  /** Each action of the run is enabled where it is taken. */
  predicate Possible<T>(s: State<T>, actions: seq<Action<T>>)
    decreases |actions|
  {
    actions == [] || (Enabled(s, actions[0]) && Possible(Apply(s, actions[0]), actions[1..]))
  }

  function Execute<T>(s: State<T>, actions: seq<Action<T>>): State<T>
    requires Possible(s, actions)
    decreases |actions|
  {
    if actions == [] then s else Execute(Apply(s, actions[0]), actions[1..])
  }

  lemma {:induction false} RunInv<T>(s: State<T>, actions: seq<Action<T>>)
    requires Inv(s) && Possible(s, actions)
    ensures Inv(Execute(s, actions))
    decreases |actions|
  {
    if actions != [] {
      StepInv(s, actions[0]);
      RunInv(Apply(s, actions[0]), actions[1..]);
    }
  }

  /** In every state that any number of threads can reach, no wake-up has been lost:
      nobody sleeps in `dequeue` while there is an element, nobody sleeps in
      `wait_empty` while there is none, so the two never sleep together; and what was
      dequeued followed by what is queued is what was enqueued. */
  lemma NoLostWakeup<T>(actions: seq<Action<T>>)
    requires Possible(Initial<T>(), actions)
    ensures var s := Execute(Initial<T>(), actions);
            && s.core.num == |s.core.elements|
            && s.dequeued + s.core.elements == s.enqueued
            && (forall t :: At(s, t).DequeueAsleep? ==> s.core.elements == [])
            && (forall t :: At(s, t).WaitEmptyAsleep? ==> s.core.elements != [])
            && (forall t, u :: At(s, t).DequeueAsleep? ==> !At(s, u).WaitEmptyAsleep?)
  {
    assert Inv(Initial<T>());
    RunInv(Initial<T>(), actions);
  }

  /** How each call goes: `enqueue` is over at once, with its element last; `dequeue` is
      over exactly when it finds an element, which it takes from the front; `wait_empty`
      exactly when it finds none. Until then a thread stays in its call, and what another
      thread does neither ends the call nor changes what it is about to add. */
  lemma CallsGo<T>(s: State<T>, a: Action<T>, t: Tid)
    requires Inv(s) && Enabled(s, a)
    ensures var s', pc, pc' := Apply(s, a), At(s, t), At(Apply(s, a), t);
            var mine := a == Enter(t);
            && (pc.Idle? ==> pc' == if a.Call? && a.tid == t then a.pc else Idle)
            && (pc.Enqueueing? ==>
                  if mine then
                    pc' == Idle && s'.core.elements == s.core.elements + [pc.element]
                    && s'.enqueued == s.enqueued + [pc.element]
                  else pc' == pc)
            && (pc.Dequeueing? || pc.DequeueAsleep? ==>
                  if mine && s.core.elements != [] then
                    pc' == Idle && s.core.elements == [s.core.elements[0]] + s'.core.elements
                    && s'.dequeued == s.dequeued + [s.core.elements[0]]
                  else pc'.Dequeueing? || pc'.DequeueAsleep?)
            && (pc.WaitingEmpty? || pc.WaitEmptyAsleep? ==>
                  if mine && s.core.elements == [] then pc' == Idle && s'.core == s.core
                  else pc'.WaitingEmpty? || pc'.WaitEmptyAsleep?)
            && (!a.Enter? ==> s'.core == s.core && s'.enqueued == s.enqueued && s'.dequeued == s.dequeued)
  {
    if s.core.elements != [] {
      assert s.core.elements == [s.core.elements[0]] + s.core.elements[1..];
    }
  }

  /** Whatever a thread waits for, it can enter as soon as the condition holds. */
  lemma ReadyIsEnabled<T>(actions: seq<Action<T>>, t: Tid)
    requires Possible(Initial<T>(), actions)
    ensures var s := Execute(Initial<T>(), actions);
            && (At(s, t).Enqueueing? ==> Enabled(s, Enter(t)))
            && (s.core.elements != [] && (At(s, t).Dequeueing? || At(s, t).DequeueAsleep?) ==> Enabled(s, Enter(t)))
            && (s.core.elements == [] && (At(s, t).WaitingEmpty? || At(s, t).WaitEmptyAsleep?) ==> Enabled(s, Enter(t)))
  {
    assert Inv(Initial<T>());
    RunInv(Initial<T>(), actions);
  }
}
