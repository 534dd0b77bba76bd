/** Functions registered before start-up and run once, most urgent first. */
module InitFunctions {
  import opened Basics

  /** A function with its priority; what the function does is left open. */
  datatype Entry<F> = Entry(priority: int, func: F)

  predicate ByPriority<F>(list: seq<Entry<F>>) {
    forall i, j :: 0 <= i < j < |list| ==> list[i].priority >= list[j].priority
  }

  /** `log` lists the functions in the order in which they ran, `registered` all that
      were ever accepted. */
  datatype State<F> = State(initialized: bool, pending: seq<Entry<F>>, log: seq<Entry<F>>, registered: seq<Entry<F>>)

  function Initial<F>(): State<F> {
    State(false, [], [], [])
  }

  /** A run sorts the pending functions in an `order` that leaves ties open. */
  datatype Op<F> = Register(entry: Entry<F>) | Run(order: seq<Entry<F>>)

  /** A registration after the run trips a check; what is pending is sorted only once. */
  ghost predicate Allowed<F>(checks: Checks, s: State<F>, op: Op<F>) {
    match op
    case Register(_) => !s.initialized || checks.Printing?
    case Run(order) => s.initialized || (multiset(order) == multiset(s.pending) && ByPriority(order))
  }

  function Apply<F>(s: State<F>, op: Op<F>): State<F> {
    match op
    case Register(e) => s.(pending := s.pending + [e], registered := s.registered + [e])
    case Run(order) => if s.initialized then s else State(true, [], s.log + order, s.registered)
  }

  /** The state after the first `n` operations. */
  function Execute<F>(ops: seq<Op<F>>, n: nat): State<F>
    requires n <= |ops|
  {
    if n == 0 then Initial() else Apply(Execute(ops, n - 1), ops[n - 1])
  }

  ghost predicate AllowedRun<F>(checks: Checks, ops: seq<Op<F>>, n: nat)
    requires n <= |ops|
  {
    n > 0 ==> AllowedRun(checks, ops, n - 1) && Allowed(checks, Execute(ops, n - 1), ops[n - 1])
  }

  // ----- What is registered before and after the first run -----

  datatype Call<F> = RegisterCall(func: F, priority: int) | RunCall

  function CallOf<F>(op: Op<F>): Call<F> {
    match op
    case Register(e) => RegisterCall(e.func, e.priority)
    case Run(_) => RunCall
  }

  function Calls<F>(ops: seq<Op<F>>): (r: seq<Call<F>>)
    ensures |r| == |ops|
    ensures forall i :: 0 <= i < |r| ==> r[i] == CallOf(ops[i])
  {
    seq(|ops|, i requires 0 <= i < |ops| => CallOf(ops[i]))
  }

  function Registered<F>(call: Call<F>): seq<Entry<F>> {
    match call
    case RegisterCall(f, p) => [Entry(p, f)]
    case RunCall => []
  }

  /** Whether one of the first `n` calls is a run. */
  predicate HasRun<F>(calls: seq<Call<F>>, n: nat)
    requires n <= |calls|
  {
    n > 0 && (HasRun(calls, n - 1) || calls[n - 1].RunCall?)
  }

  /** What the first `n` calls register before the first run, in order, and after it. */
  function Early<F>(calls: seq<Call<F>>, n: nat): seq<Entry<F>>
    requires n <= |calls|
  {
    if n == 0 then [] else Early(calls, n - 1) + if HasRun(calls, n - 1) then [] else Registered(calls[n - 1])
  }

  function Late<F>(calls: seq<Call<F>>, n: nat): seq<Entry<F>>
    requires n <= |calls|
  {
    if n == 0 then [] else Late(calls, n - 1) + if HasRun(calls, n - 1) then Registered(calls[n - 1]) else []
  }

  /** None of the first `n` calls is a registration that comes after a run. */
  predicate InTime<F>(calls: seq<Call<F>>, n: nat)
    requires n <= |calls|
  {
    forall i :: 0 <= i < n && calls[i].RegisterCall? ==> !HasRun(calls, i)
  }

  lemma {:induction false} HasRunIff<F>(calls: seq<Call<F>>, n: nat)
    requires n <= |calls|
    ensures HasRun(calls, n) <==> exists i :: 0 <= i < n && calls[i].RunCall?
  {
    if n > 0 {
      HasRunIff(calls, n - 1);
    }
  }

  lemma {:induction false} LateIff<F>(calls: seq<Call<F>>, n: nat)
    requires n <= |calls|
    ensures Late(calls, n) == [] <==> InTime(calls, n)
  {
    if n > 0 {
      LateIff(calls, n - 1);
    }
  }

  /** A state after `n` calls: what was registered before the first run has run exactly
      once, in non-increasing order of priority, and what came later is still pending. */
  ghost predicate After<F>(checks: Checks, s: State<F>, calls: seq<Call<F>>, n: nat)
    requires n <= |calls|
  {
    && (checks.Stopping? ==> Late(calls, n) == [])
    && (s.initialized <==> HasRun(calls, n))
    && ByPriority(s.log)
    && s.registered == Early(calls, n) + Late(calls, n)
    && (if s.initialized then multiset(s.log) == multiset(Early(calls, n)) && s.pending == Late(calls, n)
        else s.log == [] && s.pending == Early(calls, n) && Late(calls, n) == [])
  }

  lemma AfterRegister<F>(checks: Checks, s: State<F>, calls: seq<Call<F>>, n: nat, e: Entry<F>)
    requires n < |calls| && After(checks, s, calls, n) && Allowed(checks, s, Register(e))
    requires calls[n] == RegisterCall(e.func, e.priority)
    ensures After(checks, Apply(s, Register(e)), calls, n + 1)
  {
    assert Registered(calls[n]) == [e];
    assert Early(calls, n) + Late(calls, n) + [e] == Early(calls, n) + (Late(calls, n) + [e]);
    assert !HasRun(calls, n) ==> Early(calls, n) + [] + [e] == Early(calls, n) + [e] + [];
  }

  lemma AfterRun<F>(checks: Checks, s: State<F>, calls: seq<Call<F>>, n: nat, order: seq<Entry<F>>)
    requires n < |calls| && After(checks, s, calls, n) && Allowed(checks, s, Run(order)) && calls[n] == RunCall
    ensures After(checks, Apply(s, Run(order)), calls, n + 1)
  {
    assert Early(calls, n) + [] == Early(calls, n) && Late(calls, n) + [] == Late(calls, n);
    if !s.initialized {
      assert s.log + order == order;
    }
  }

  lemma AfterOneMore<F>(checks: Checks, s: State<F>, calls: seq<Call<F>>, n: nat, op: Op<F>)
    requires n < |calls| && After(checks, s, calls, n) && Allowed(checks, s, op) && calls[n] == CallOf(op)
    ensures After(checks, Apply(s, op), calls, n + 1)
  {
    match op
    case Register(e) => AfterRegister(checks, s, calls, n, e);
    case Run(order) => AfterRun(checks, s, calls, n, order);
  }

  /** Over any registrations and runs: nothing runs before the first run; what was
      registered by then runs exactly once, in non-increasing order of priority, and
      what is registered later, if checks only print, stays pending for ever. */
  lemma {:induction false} EachRunsOnce<F>(checks: Checks, ops: seq<Op<F>>, n: nat)
    requires n <= |ops| && AllowedRun(checks, ops, n)
    ensures After(checks, Execute(ops, n), Calls(ops), n)
  {
    if n > 0 {
      EachRunsOnce(checks, ops, n - 1);
      AfterOneMore(checks, Execute(ops, n - 1), Calls(ops), n - 1, ops[n - 1]);
    }
  }

  lemma SameAsPrefix<F>(log: seq<Entry<F>>, early: seq<Entry<F>>, late: seq<Entry<F>>)
    requires multiset(log) == multiset(early)
    ensures multiset(log) == multiset(early + late) <==> late == []
  {
    assert multiset(early + late) == multiset(early) + multiset(late);
    if late != [] {
      assert late[0] in multiset(late);
    }
  }

  /** Every function registered has run if and only if there was a run, or nothing to run,
      and no registration followed it. */
  lemma AllHaveRunIff<F>(checks: Checks, ops: seq<Op<F>>)
    requires AllowedRun(checks, ops, |ops|)
    ensures var s := Execute(ops, |ops|);
            multiset(s.log) == multiset(s.registered) <==>
            InTime(Calls(ops), |ops|) && (s.registered == [] || HasRun(Calls(ops), |ops|))
  {
    EachRunsOnce(checks, ops, |ops|);
    LateIff(Calls(ops), |ops|);
    var s := Execute(ops, |ops|);
    if s.initialized {
      SameAsPrefix(s.log, Early(Calls(ops), |ops|), Late(Calls(ops), |ops|));
    } else {
      SameAsPrefix([], [], s.registered);
    }
  }

  predicate AtMost<F>(list: seq<Entry<F>>, priority: int) {
    forall i :: 0 <= i < |list| ==> list[i].priority <= priority
  }

  /** Puts an entry behind all that are at least as urgent. */
  function Insert<F>(list: seq<Entry<F>>, e: Entry<F>): seq<Entry<F>> {
    if list == [] || e.priority > list[0].priority then [e] + list
    else [list[0]] + Insert(list[1..], e)
  }

  lemma {:induction false} InsertAtMost<F>(list: seq<Entry<F>>, e: Entry<F>, priority: int)
    requires AtMost(list, priority) && e.priority <= priority
    ensures AtMost(Insert(list, e), priority)
  {
    if list != [] && e.priority <= list[0].priority {
      InsertAtMost(list[1..], e, priority);
    }
  }

  lemma SortedCons<F>(first: Entry<F>, list: seq<Entry<F>>)
    requires ByPriority(list) && AtMost(list, first.priority)
    ensures ByPriority([first] + list)
  {
  }

  lemma {:induction false} InsertSorts<F>(list: seq<Entry<F>>, e: Entry<F>)
    requires ByPriority(list)
    ensures ByPriority(Insert(list, e))
  {
    if list == [] {
    } else if e.priority > list[0].priority {
      SortedCons(e, list);
    } else {
      InsertSorts(list[1..], e);
      InsertAtMost(list[1..], e, list[0].priority);
      SortedCons(list[0], Insert(list[1..], e));
    }
  }

  lemma {:induction false} InsertKeeps<F>(list: seq<Entry<F>>, e: Entry<F>)
    ensures multiset(Insert(list, e)) == multiset(list) + multiset{e}
  {
    if list != [] && e.priority <= list[0].priority {
      InsertKeeps(list[1..], e);
      assert list == [list[0]] + list[1..];
    }
  }

  /** `std::sort` on the list: sorted, nothing lost, the order of ties unspecified. */
  method Sort<F>(list: seq<Entry<F>>) returns (sorted: seq<Entry<F>>)
    ensures multiset(sorted) == multiset(list) && ByPriority(sorted)
  {
    sorted := [];
    var i := 0;
    while i < |list|
      invariant i <= |list| && multiset(sorted) == multiset(list[..i]) && ByPriority(sorted)
    {
      assert list[..i + 1] == list[..i] + [list[i]];
      InsertSorts(sorted, list[i]);
      InsertKeeps(sorted, list[i]);
      sorted := Insert(sorted, list[i]);
      i := i + 1;
    }
    assert list[..i] == list;
  }

  class Registry<F> {
    const checks: Checks
    var initialized: bool
    var funcs: seq<Entry<F>>
    var log: seq<Entry<F>>
    ghost var registered: seq<Entry<F>>

    constructor (checks: Checks)
      ensures this.checks == checks && Abstract() == Initial()
    {
      this.checks := checks;
      initialized, funcs, log, registered := false, [], [], [];
    }

    ghost function Abstract(): State<F>
      reads this
    {
      State(initialized, funcs, log, registered)
    }

    /** After the run a function is still taken, into a new list, if the check only prints. */
    method RegisterInitFunction(func: F, priority: int) returns (alive: bool)
      modifies this
      ensures alive <==> Allowed(checks, old(Abstract()), Register(Entry(priority, func)))
      ensures Abstract() == if alive then Apply(old(Abstract()), Register(Entry(priority, func))) else old(Abstract())
    {
      alive := !initialized || checks.Printing?;
      if alive {
        funcs := funcs + [Entry(priority, func)];
        registered := registered + [Entry(priority, func)];
      }
    }

    /** Sorts and runs what is registered, the first time it is called. */
    method RunInitFunctions() returns (ghost order: seq<Entry<F>>)
      modifies this
      ensures Allowed(checks, old(Abstract()), Run(order)) && Abstract() == Apply(old(Abstract()), Run(order))
    {
      order := [];
      if !initialized {
        var sorted := Sort(funcs);
        order := sorted;
        var i := 0;
        while i < |sorted|
          invariant i <= |sorted| && log == old(log) + sorted[..i]
          invariant !initialized && registered == old(registered)
        {
          log := log + [sorted[i]];
          i := i + 1;
        }
        assert sorted[..i] == sorted;
        funcs := [];
        initialized := true;
      }
    }
  }

  // ----- A start-up, call by call -----

  /** Performs any calls on a new registry, as long as none of them stops the process. It
      survives if the check on late registrations only prints or there are none. What was
      registered before the first run has then run exactly once, in non-increasing order
      of priority, and what was registered later has not; so everything has run if and
      only if no registration follows a run. */
  method Perform<F>(checks: Checks, calls: seq<Call<F>>) returns (registry: Registry<F>, alive: bool)
    ensures alive <==> checks.Printing? || InTime(calls, |calls|)
    ensures alive ==>
              forall i, j :: 0 <= i < j < |registry.log| ==> registry.log[i].priority >= registry.log[j].priority
    ensures alive && !HasRun(calls, |calls|) ==> registry.log == [] && registry.funcs == Early(calls, |calls|)
    ensures alive && HasRun(calls, |calls|) ==>
              multiset(registry.log) == multiset(Early(calls, |calls|)) && registry.funcs == Late(calls, |calls|)
              && (registry.funcs == [] <==> InTime(calls, |calls|))
  {
    registry := new Registry(checks);
    var i := 0;
    while i < |calls|
      invariant i <= |calls| && fresh(registry) && registry.checks == checks
      invariant After(checks, registry.Abstract(), calls, i)
    {
      alive := PerformOne(registry, calls, i);
      if !alive {
        return;
      }
      i := i + 1;
    }
    LateIff(calls, |calls|);
    alive := true;
  }

  method PerformOne<F>(registry: Registry<F>, calls: seq<Call<F>>, i: nat) returns (alive: bool)
    requires i < |calls| && After(registry.checks, registry.Abstract(), calls, i)
    modifies registry
    ensures alive ==> After(registry.checks, registry.Abstract(), calls, i + 1)
    ensures !alive ==> registry.checks.Stopping? && calls[i].RegisterCall? && HasRun(calls, i)
  {
    ghost var s := registry.Abstract();
    match calls[i] {
      case RegisterCall(func, priority) =>
        alive := registry.RegisterInitFunction(func, priority);
        if alive {
          AfterOneMore(registry.checks, s, calls, i, Register(Entry(priority, func)));
        }
      case RunCall =>
        alive := true;
        ghost var order := registry.RunInitFunctions();
        AfterOneMore(registry.checks, s, calls, i, Run(order));
    }
  }
}
