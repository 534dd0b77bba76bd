/** One worker thread that runs queued jobs, and any number of client threads that add
    jobs, wait for the worker to be idle, and stop it. */
module ThreadWorker {
  import opened Basics
  import opened Queue

  datatype Job = Task(id: nat) | Sentinel

  /** Where the worker stands in `run`. */
  datatype WorkerPC =
    | Fetching
    | Asleep
    | Got(job: Job)
    | Starting(job: Job)
    | Running(job: Job)
    | Checking
    | Notifying
    | Exited

  /** Where a client stands: between the two lines of `add_job` or `stop`, in `wait`, or
      joining the worker. */
  datatype ClientPC =
    | Free
    | Adding(id: nat)
    | Waiting
    | WaitAsleep
    | StopRequested
    | Joining

  /** `empty` and `stopping` are the two flags; the last five fields are history. */
  datatype State = State(
    empty: bool, stopping: bool, queue: Core<Job>, worker: WorkerPC, clients: map<Tid, ClientPC>,
    enqueued: seq<Job>, finished: seq<Job>, dropped: seq<Job>, lateStarts: nat)

  const INITIAL := State.State(false, false, Core([], 0), Fetching, map[], [], [], [], 0)

  function Client(s: State, t: Tid): ClientPC {
    if t in s.clients then s.clients[t] else Free
  }

  datatype Action =
    | BeginAdd(tid: Tid, id: nat)
    | EndAdd(tid: Tid)
    | BeginWait(tid: Tid)
    | TestWait(tid: Tid)
    | BeginStop(tid: Tid)
    | EndStop(tid: Tid)
    | Join(tid: Tid)
    | WakeClient(tid: Tid)
    | WakeWorker
    | Work

  predicate Enabled(s: State, a: Action) {
    match a
    case BeginAdd(t, _) => Client(s, t).Free?
    case EndAdd(t) => Client(s, t).Adding?
    case BeginWait(t) => Client(s, t).Free?
    case TestWait(t) => Client(s, t).Waiting?
    case BeginStop(t) => Client(s, t).Free?
    case EndStop(t) => Client(s, t).StopRequested?
    case Join(t) => Client(s, t).Joining? && s.worker.Exited?
    case WakeClient(t) => Client(s, t).WaitAsleep?
    case WakeWorker => s.worker.Asleep?
    case Work => !s.worker.Asleep? && !s.worker.Exited?
  }

  function Enqueue(s: State, job: Job, t: Tid, pc: ClientPC): State {
    s.(queue := s.queue.Pushed(job), enqueued := s.enqueued + [job], clients := s.clients[t := pc],
       worker := if s.worker.Asleep? then Fetching else s.worker)
  }

  function Awake(clients: map<Tid, ClientPC>): map<Tid, ClientPC> {
    map t | t in clients :: if clients[t].WaitAsleep? then Waiting else clients[t]
  }

  /** One step of the worker. A front element exists whenever the counter is not zero,
      in every state that is ever reached. */
  function WorkStep(s: State): (r: State)
    requires Enabled(s, Work)
    ensures s.queue.Valid() ==> r.queue.Valid()
  {
    match s.worker
    case Fetching =>
      if s.queue.num == 0 then s.(worker := Asleep)
      else
        s.(queue := s.queue.Popped(), worker := Got(if s.queue.elements == [] then Sentinel else s.queue.elements[0]))
    case Got(job) =>
      if s.stopping then s.(worker := Exited, dropped := s.dropped + [job]) else s.(worker := Starting(job))
    case Starting(job) =>
      s.(worker := Running(job), lateStarts := s.lateStarts + (if s.stopping then 1 else 0))
    case Running(job) => s.(worker := Checking, finished := s.finished + [job])
    case Checking => s.(worker := if s.queue.num == 0 then Notifying else Fetching)
    case Notifying => s.(worker := Fetching, empty := true, clients := Awake(s.clients))
  }

  function Apply(s: State, a: Action): State
    requires Enabled(s, a)
  {
    match a
    case BeginAdd(t, id) => s.(empty := false, clients := s.clients[t := Adding(id)])
    case EndAdd(t) => Enqueue(s, Task(Client(s, t).id), t, Free)
    case BeginWait(t) => s.(clients := s.clients[t := Waiting])
    case TestWait(t) => s.(clients := s.clients[t := if s.empty then Free else WaitAsleep])
    case BeginStop(t) => s.(stopping := true, clients := s.clients[t := StopRequested])
    case EndStop(t) => Enqueue(s, Sentinel, t, Joining)
    case Join(t) => s.(clients := s.clients[t := Free])
    case WakeClient(t) => s.(clients := s.clients[t := Waiting])
    case WakeWorker => s.(worker := Fetching)
    case Work => WorkStep(s)
  }

  predicate Possible(s: State, actions: seq<Action>)
    decreases |actions|
  {
    actions == [] || (Enabled(s, actions[0]) && Possible(Apply(s, actions[0]), actions[1..]))
  }

  function Execute(s: State, actions: seq<Action>): State
    requires Possible(s, actions)
    decreases |actions|
  {
    if actions == [] then s else Execute(Apply(s, actions[0]), actions[1..])
  }

  // ----- What every step keeps -----

  function InFlight(worker: WorkerPC): seq<Job> {
    if worker.Got? || worker.Starting? || worker.Running? then [worker.job] else []
  }

  /** The jobs that were enqueued and have not finished running, oldest first. */
  function Unfinished(s: State): seq<Job> {
    InFlight(s.worker) + s.dropped + s.queue.elements
  }

  /** First in, first out, at most once: nothing is lost or run twice. */
  ghost predicate History(s: State) {
    && s.queue.Valid()
    && s.enqueued == s.finished + Unfinished(s)
    && (s.worker.Asleep? ==> s.queue.elements == [])
    && |s.dropped| == (if s.worker.Exited? then 1 else 0)
  }

  /** Stopping is announced before the sentinel is queued, the worker never runs the
      sentinel, and at most one job body begins after the announcement. */
  ghost predicate StopInv(s: State) {
    StopWorker(s) && StopClients(s)
  }

  ghost predicate StopWorker(s: State) {
    && (Sentinel in s.enqueued ==> s.stopping)
    && (s.worker.Exited? ==> s.stopping)
    && (s.worker.Starting? || s.worker.Running? ==> s.worker.job.Task?)
    && Sentinel !in s.finished
    && s.lateStarts <= (if s.stopping && !s.worker.Starting? then 1 else 0)
  }

  ghost predicate StopClients(s: State) {
    && (forall t :: Client(s, t).Joining? ==> Sentinel in s.enqueued)
    && (forall t :: Client(s, t).StopRequested? ==> s.stopping)
  }

  ghost predicate SomeoneAdding(s: State) {
    exists t :: Client(s, t).Adding?
  }

  ghost predicate SomeoneAsleep(s: State) {
    exists t :: Client(s, t).WaitAsleep?
  }

  /** The worker has nothing to do. */
  predicate Settled(s: State) {
    (s.worker.Fetching? || s.worker.Asleep?) && s.queue.elements == []
  }

  /** `empty` is only ever set together with waking everybody, and means that a job has
      run. An idle worker has told everyone, unless it never worked, is being stopped,
      or a job is just being added. */
  ghost predicate IdleKnown(s: State) {
    && (s.empty ==> !SomeoneAsleep(s))
    && (s.empty || s.worker.Checking? || s.worker.Notifying? ==> s.finished != [])
    && (Settled(s) && s.finished != [] && !s.stopping && !SomeoneAdding(s) ==> s.empty && !SomeoneAsleep(s))
  }

  lemma HistoryEnqueue(s: State, job: Job, t: Tid, pc: ClientPC)
    requires History(s)
    ensures History(Enqueue(s, job, t, pc))
  {
    var s' := Enqueue(s, job, t, pc);
    assert InFlight(s'.worker) == InFlight(s.worker);
    assert Unfinished(s') == Unfinished(s) + [job];
    assert s.finished + (Unfinished(s) + [job]) == s.finished + Unfinished(s) + [job];
  }

  lemma HistoryFetch(s: State)
    requires History(s) && s.worker.Fetching? && s.queue.elements != []
    ensures History(WorkStep(s))
  {
    assert s.queue.elements == [s.queue.elements[0]] + s.queue.elements[1..];
    assert Unfinished(WorkStep(s)) == Unfinished(s);
  }

  lemma HistoryFinish(s: State)
    requires History(s) && s.worker.Running?
    ensures History(WorkStep(s))
  {
    var behind := s.dropped + s.queue.elements;
    Regroup(s.finished, s.worker.job, behind);
    assert Unfinished(s) == [s.worker.job] + behind && Unfinished(WorkStep(s)) == behind;
  }

  lemma HistoryWork(s: State)
    requires History(s) && Enabled(s, Work)
    ensures History(WorkStep(s))
  {
    if s.worker.Running? {
      HistoryFinish(s);
    } else if s.worker.Fetching? && s.queue.elements != [] {
      HistoryFetch(s);
    } else {
      assert Unfinished(WorkStep(s)) == Unfinished(s);
    }
  }

  lemma Regroup<T>(a: seq<T>, x: T, b: seq<T>)
    ensures a + ([x] + b) == a + [x] + b
  {
  }

  lemma HistoryStep(s: State, a: Action)
    requires History(s) && Enabled(s, a)
    ensures History(Apply(s, a))
  {
    match a
    case Work => HistoryWork(s);
    case EndAdd(t) => HistoryEnqueue(s, Task(Client(s, t).id), t, Free);
    case EndStop(t) => HistoryEnqueue(s, Sentinel, t, Joining);
    case _ => assert Unfinished(Apply(s, a)) == Unfinished(s);
  }

  lemma OthersSame(s: State, a: Action)
    requires Enabled(s, a)
    ensures a.Work? || a.WakeWorker? || forall t :: t != a.tid ==> Client(Apply(s, a), t) == Client(s, t)
    ensures a.WakeWorker? ==> forall t :: Client(Apply(s, a), t) == Client(s, t)
    ensures a.Work? && !s.worker.Notifying? ==> forall t :: Client(Apply(s, a), t) == Client(s, t)
    ensures a.Work? && s.worker.Notifying? ==>
              forall t :: Client(Apply(s, a), t) == if Client(s, t).WaitAsleep? then Waiting else Client(s, t)
  {
  }

  lemma StopStep(s: State, a: Action)
    requires History(s) && StopInv(s) && Enabled(s, a)
    ensures StopInv(Apply(s, a))
  {
    StopWorkerStep(s, a);
    OthersSame(s, a);
  }

  lemma StopWorkerStep(s: State, a: Action)
    requires History(s) && StopInv(s) && Enabled(s, a)
    ensures StopWorker(Apply(s, a))
  {
    if s.worker.Got? {
      assert s.worker.job in InFlight(s.worker);
      assert s.worker.job in s.enqueued;
    }
  }

  lemma IdleStep(s: State, a: Action)
    requires History(s) && StopInv(s) && IdleKnown(s) && Enabled(s, a)
    ensures IdleKnown(Apply(s, a))
  {
    OthersSame(s, a);
    var s' := Apply(s, a);
    if a.BeginAdd? {
      assert Client(s', a.tid).Adding?;
    } else if SomeoneAdding(s) && !a.EndAdd? {
      var t :| Client(s, t).Adding?;
      assert Client(s', t).Adding?;
    }
  }

  ghost predicate Inv(s: State) {
    History(s) && StopInv(s) && IdleKnown(s)
  }

  lemma InvStep(s: State, a: Action)
    requires Inv(s) && Enabled(s, a)
    ensures Inv(Apply(s, a))
  {
    HistoryStep(s, a);
    StopStep(s, a);
    IdleStep(s, a);
  }

  lemma {:induction false} AlwaysInv(s: State, actions: seq<Action>)
    requires Inv(s) && Possible(s, actions)
    ensures Inv(Execute(s, actions))
    decreases |actions|
  {
    if actions != [] {
      InvStep(s, actions[0]);
      AlwaysInv(Apply(s, actions[0]), actions[1..]);
    }
  }

  // ----- Safety over all runs -----

  /** However clients interleave: jobs finish in the order in which they were enqueued,
      each at most once; what has not finished is in flight, was dropped by the exiting
      worker (one job) or is queued; and once stopping is announced at most one more job
      body begins. */
  lemma FirstInFirstOut(actions: seq<Action>)
    requires Possible(INITIAL, actions)
    ensures var s := Execute(INITIAL, actions);
            && s.enqueued == s.finished + InFlight(s.worker) + s.dropped + s.queue.elements
            && |s.dropped| <= 1 && Sentinel !in s.finished
            && s.lateStarts <= (if s.stopping then 1 else 0)
  {
    AlwaysInv(INITIAL, actions);
    var s := Execute(INITIAL, actions);
    assert s.finished + Unfinished(s) == s.finished + InFlight(s.worker) + s.dropped + s.queue.elements;
  }

  /** No stuck waiter: when the worker sleeps after at least one job, with no stop
      requested and no job just being added, then `empty` is set and nobody sleeps in
      `wait`. */
  lemma NoStuckWaiter(actions: seq<Action>)
    requires Possible(INITIAL, actions)
    ensures var s := Execute(INITIAL, actions);
            s.worker.Asleep? && s.finished != [] && !s.stopping && !SomeoneAdding(s) ==>
              s.empty && !SomeoneAsleep(s)
  {
    AlwaysInv(INITIAL, actions);
  }

  ghost predicate OnlySentinels(jobs: seq<Job>) {
    forall j :: j in jobs ==> j.Sentinel?
  }

  lemma {:induction false} NothingAdded(s: State, actions: seq<Action>)
    requires Possible(s, actions) && OnlySentinels(s.enqueued) && !SomeoneAdding(s)
    requires forall i :: 0 <= i < |actions| ==> !actions[i].BeginAdd?
    ensures OnlySentinels(Execute(s, actions).enqueued) && !SomeoneAdding(Execute(s, actions))
    decreases |actions|
  {
    if actions != [] {
      assert !actions[0].EndAdd?;
      SameAdders(s, actions[0]);
      NothingAdded(Apply(s, actions[0]), actions[1..]);
    }
  }

  /** Waiting can only end after some job has finished. */
  lemma EmptyMeansAJobFinished(actions: seq<Action>)
    requires Possible(INITIAL, actions) && Execute(INITIAL, actions).empty
    ensures exists j :: j in Execute(INITIAL, actions).finished && j.Task?
  {
    AlwaysInv(INITIAL, actions);
    var s := Execute(INITIAL, actions);
    assert s.finished[0] in s.finished;
  }

  /** A worker that is never given a job keeps its waiters, the one in its own destructor
      included, waiting for ever. */
  lemma WaitNeedsAJob(actions: seq<Action>, more: seq<Action>, t: Tid)
    requires Possible(INITIAL, actions) && Possible(Execute(INITIAL, actions), more)
    requires forall i :: 0 <= i < |actions| ==> !actions[i].BeginAdd?
    requires forall i :: 0 <= i < |more| ==> !more[i].BeginAdd?
    ensures var s, r := Execute(INITIAL, actions), Execute(Execute(INITIAL, actions), more);
            !s.empty && (InWait(s, t) ==> InWait(r, t))
  {
    AlwaysInv(INITIAL, actions);
    NothingAdded(INITIAL, actions);
    var s := Execute(INITIAL, actions);
    JoblessNotEmpty(s);
    if InWait(s, t) {
      WaitsForEver(s, more, t);
    }
  }

  // ----- How each call of a client goes -----

  predicate InWait(s: State, t: Tid) {
    Client(s, t).Waiting? || Client(s, t).WaitAsleep?
  }

  /** A client leaves `wait` exactly by testing `empty` and finding it set. */
  lemma WaitEnds(s: State, a: Action, t: Tid)
    requires Enabled(s, a) && InWait(s, t)
    ensures if a == TestWait(t) && s.empty then Client(Apply(s, a), t).Free? else InWait(Apply(s, a), t)
  {
    OthersSame(s, a);
  }

  /** A call of `add_job` clears `empty` and then queues exactly its own job; one of `stop`
      announces itself, queues the sentinel, and is over only when the worker has exited;
      nothing else is ever queued. */
  lemma CallsGo(s: State, a: Action, t: Tid)
    requires Enabled(s, a)
    ensures var s', pc, pc' := Apply(s, a), Client(s, t), Client(Apply(s, a), t);
            && (pc.Free? ==>
                  match a
                  case BeginAdd(u, id) => if u == t then pc' == Adding(id) && !s'.empty else pc' == Free
                  case BeginWait(u) => pc' == if u == t then Waiting else Free
                  case BeginStop(u) => if u == t then pc' == StopRequested && s'.stopping else pc' == Free
                  case _ => pc' == Free)
            && (pc.Adding? ==>
                  if a == EndAdd(t) then pc' == Free && s'.enqueued == s.enqueued + [Task(pc.id)] else pc' == pc)
            && (pc.StopRequested? ==>
                  if a == EndStop(t) then pc' == Joining && s'.enqueued == s.enqueued + [Sentinel] else pc' == pc)
            && (pc.Joining? ==> if a == Join(t) then pc' == Free && s.worker.Exited? else pc' == pc)
            && (!a.EndAdd? && !a.EndStop? ==> s'.enqueued == s.enqueued)
            && (s.stopping ==> s'.stopping) && (!a.BeginStop? ==> s'.stopping == s.stopping)
  {
    OthersSame(s, a);
  }

  /** No client is held up but by what it waits for: `empty` in `wait`, the exit of the
      worker in `stop`. */
  lemma ClientGoesOn(s: State, t: Tid, id: nat)
    ensures match Client(s, t)
            case Free => Enabled(s, BeginAdd(t, id)) && Enabled(s, BeginWait(t)) && Enabled(s, BeginStop(t))
            case Adding(_) => Enabled(s, EndAdd(t))
            case Waiting => Enabled(s, TestWait(t))
            case WaitAsleep => Enabled(s, WakeClient(t))
            case StopRequested => Enabled(s, EndStop(t))
            case Joining => Enabled(s, Join(t)) <==> s.worker.Exited?
  {
  }

  /** No job was added and none is being added. */
  ghost predicate Jobless(s: State) {
    Inv(s) && OnlySentinels(s.enqueued) && !SomeoneAdding(s)
  }

  lemma JoblessNotEmpty(s: State)
    requires Jobless(s)
    ensures !s.empty
  {
    assert forall j :: j in s.finished ==> j in s.enqueued;
    assert s.finished == [] || s.finished[0] in s.finished;
  }

  lemma JoblessStep(s: State, a: Action)
    requires Jobless(s) && Enabled(s, a) && !a.BeginAdd?
    ensures Jobless(Apply(s, a))
  {
    InvStep(s, a);
    assert !a.EndAdd?;
    SameAdders(s, a);
  }

  /** Without an `add_job` no call of `wait` ever returns. */
  lemma {:induction false} WaitsForEver(s: State, actions: seq<Action>, t: Tid)
    requires Jobless(s) && InWait(s, t) && Possible(s, actions)
    requires forall i :: 0 <= i < |actions| ==> !actions[i].BeginAdd?
    ensures InWait(Execute(s, actions), t)
    decreases |actions|
  {
    if actions != [] {
      JoblessNotEmpty(s);
      JoblessStep(s, actions[0]);
      WaitEnds(s, actions[0], t);
      WaitsForEver(Apply(s, actions[0]), actions[1..], t);
    }
  }

  // ----- When `empty` can be believed -----

  /** If `empty` is set, every job that was added has finished: what `wait` promises. */
  ghost predicate DoneIfEmpty(s: State) {
    s.empty ==> OnlySentinels(Unfinished(s))
  }

  ghost predicate DoneThroughout(s: State, actions: seq<Action>)
    requires Possible(s, actions)
    decreases |actions|
  {
    DoneIfEmpty(s) && (actions != [] ==> DoneThroughout(Apply(s, actions[0]), actions[1..]))
  }

  /** The worker sets `empty` only when no job is queued, and a client puts its job into
      the queue only while `empty` is not set. */
  predicate InTime(s: State, a: Action) {
    && (a.Work? && s.worker.Notifying? ==> forall j :: j in s.queue.elements ==> j.Sentinel?)
    && (a.EndAdd? ==> !s.empty)
  }

  predicate AllInTime(s: State, actions: seq<Action>)
    requires Possible(s, actions)
    decreases |actions|
  {
    actions != [] ==> InTime(s, actions[0]) && AllInTime(Apply(s, actions[0]), actions[1..])
  }

  /** A step that is in time keeps the promise; one that is not breaks it. */
  lemma DoneStep(s: State, a: Action)
    requires Inv(s) && DoneIfEmpty(s) && Enabled(s, a)
    ensures DoneIfEmpty(Apply(s, a)) <==> InTime(s, a)
  {
    var s' := Apply(s, a);
    if a.Work? && s.worker.Notifying? {
      assert Unfinished(s') == s.queue.elements;
    } else if a.EndAdd? {
      assert Task(Client(s, a.tid).id) in s'.queue.elements;
      assert Task(Client(s, a.tid).id) in Unfinished(s');
    } else if s'.empty {
      forall j | j in Unfinished(s') ensures j.Sentinel? {
        if !a.EndStop? {
          assert j in Unfinished(s);
        }
      }
    }
  }

  /** All through a run `empty`, and with it the return of `wait`, means that every job
      whose `add_job` is complete has finished, if and only if the run sets `empty` only
      with no job queued and queues a job only while `empty` is not set. */
  lemma {:induction false} DoneIff(s: State, actions: seq<Action>)
    requires Inv(s) && DoneIfEmpty(s) && Possible(s, actions)
    ensures DoneThroughout(s, actions) <==> AllInTime(s, actions)
    decreases |actions|
  {
    if actions != [] {
      var s' := Apply(s, actions[0]);
      HistoryStep(s, actions[0]);
      StopStep(s, actions[0]);
      IdleStep(s, actions[0]);
      DoneStep(s, actions[0]);
      if DoneIfEmpty(s') {
        DoneIff(s', actions[1..]);
      }
    }
  }

  lemma {:induction false} LastDone(s: State, actions: seq<Action>)
    requires Possible(s, actions) && DoneThroughout(s, actions)
    ensures DoneIfEmpty(Execute(s, actions))
    decreases |actions|
  {
    if actions != [] {
      LastDone(Apply(s, actions[0]), actions[1..]);
    }
  }

  lemma SameAdders(s: State, a: Action)
    requires Enabled(s, a) && !a.BeginAdd? && !a.EndAdd?
    ensures SomeoneAdding(Apply(s, a)) <==> SomeoneAdding(s)
  {
    OthersSame(s, a);
    var s' := Apply(s, a);
    if SomeoneAdding(s) {
      var t :| Client(s, t).Adding?;
      assert Client(s', t).Adding?;
    }
    if SomeoneAdding(s') {
      var t :| Client(s', t).Adding?;
      assert Client(s, t).Adding?;
    }
  }

  /** No client is inside `add_job` while the worker is between testing the queue and
      setting `empty`. */
  ghost predicate NoOverlap(s: State, actions: seq<Action>)
    requires Possible(s, actions)
    decreases |actions|
  {
    !(s.worker.Notifying? && SomeoneAdding(s)) &&
    (actions != [] ==> NoOverlap(Apply(s, actions[0]), actions[1..]))
  }

  lemma {:induction false} NoOverlapInTime(s: State, actions: seq<Action>)
    requires History(s) && Possible(s, actions) && NoOverlap(s, actions)
    requires s.worker.Notifying? ==> OnlySentinels(s.queue.elements)
    requires s.empty ==> !SomeoneAdding(s)
    ensures AllInTime(s, actions)
    decreases |actions|
  {
    if actions != [] {
      var a := actions[0];
      HistoryStep(s, a);
      if a.EndAdd? {
        assert Client(s, a.tid).Adding?;
      } else if !a.BeginAdd? {
        SameAdders(s, a);
      }
      NoOverlapInTime(Apply(s, a), actions[1..]);
    }
  }

  /** Without such an overlap the run is in time, so `empty` means that every job whose
      `add_job` is complete has finished, and nothing but sentinels has not. */
  lemma WaitMeansDone(actions: seq<Action>)
    requires Possible(INITIAL, actions) && NoOverlap(INITIAL, actions)
    ensures AllInTime(INITIAL, actions)
    ensures var s := Execute(INITIAL, actions);
            s.empty ==> s.finished <= s.enqueued && OnlySentinels(s.enqueued[|s.finished|..])
  {
    NoOverlapInTime(INITIAL, actions);
    DoneIff(INITIAL, actions);
    LastDone(INITIAL, actions);
    AlwaysInv(INITIAL, actions);
    var s := Execute(INITIAL, actions);
    assert s.enqueued[|s.finished|..] == Unfinished(s);
  }

  /** A call of `wait` that returns in any reachable state finds `empty` set, so that some
      job has finished; if no `add_job` overlapped the worker's test-then-set section up to
      then, every job whose `add_job` is complete has. */
  lemma ReturnMeansDone(actions: seq<Action>, a: Action, t: Tid)
    requires Possible(INITIAL, actions) && Enabled(Execute(INITIAL, actions), a)
    requires InWait(Execute(INITIAL, actions), t) && !InWait(Apply(Execute(INITIAL, actions), a), t)
    ensures var s := Execute(INITIAL, actions);
            && s.empty && Client(Apply(s, a), t).Free?
            && (exists j :: j in s.finished && j.Task?)
            && (NoOverlap(INITIAL, actions) ==>
                  s.finished <= s.enqueued && OnlySentinels(s.enqueued[|s.finished|..]))
  {
    WaitEnds(Execute(INITIAL, actions), a, t);
    EmptyMeansAJobFinished(actions);
    if NoOverlap(INITIAL, actions) {
      WaitMeansDone(actions);
    }
  }

  // ----- The worker left alone -----

  function PCRank(pc: WorkerPC): nat {
    match pc
    case Asleep => 0
    case Exited => 0
    case Fetching => 1
    case Notifying => 2
    case Checking => 3
    case Running(_) => 4
    case Starting(_) => 5
    case Got(_) => 6
  }

  /** More steps than the worker can take before it sleeps or exits. */
  function Rank(s: State): nat {
    6 * |s.queue.elements| + PCRank(s.worker)
  }

  /** The state in which the worker, taking steps while all clients pause, comes to rest. */
  function Settle(s: State): State
    requires s.queue.Valid()
    decreases Rank(s)
  {
    if s.worker.Asleep? || s.worker.Exited? then s else Settle(WorkStep(s))
  }

  lemma {:induction false} SettleReached(s: State) returns (actions: seq<Action>)
    requires s.queue.Valid()
    ensures Possible(s, actions) && Execute(s, actions) == Settle(s) && |actions| <= Rank(s)
    ensures forall i :: 0 <= i < |actions| ==> actions[i] == Work
    decreases Rank(s)
  {
    if s.worker.Asleep? || s.worker.Exited? {
      actions := [];
    } else {
      var more := SettleReached(WorkStep(s));
      actions := [Work] + more;
      assert actions[1..] == more;
    }
  }

  lemma {:induction false} SettleInv(s: State)
    requires Inv(s)
    ensures var r := Settle(s);
            && Inv(r) && (r.worker.Asleep? || r.worker.Exited?)
            && r.enqueued == s.enqueued && r.stopping == s.stopping
            && (SomeoneAdding(r) <==> SomeoneAdding(s))
    decreases Rank(s)
  {
    if !s.worker.Asleep? && !s.worker.Exited? {
      InvStep(s, Work);
      SameAdders(s, Work);
      SettleInv(WorkStep(s));
    }
  }

  // ----- The sentinel ends the worker under every schedule -----

  /** How many steps of its own the worker is from its exit, once it is to stop. */
  function StopRank(pc: WorkerPC): nat {
    match pc
    case Exited => 0
    case Got(_) => 1
    case Fetching => 2
    case Asleep => 2
    case Notifying => 3
    case Checking => 4
    case Running(_) => 5
    case Starting(_) => 6
  }

  function WorkCount(actions: seq<Action>): nat {
    if actions == [] then 0 else (if actions[0].Work? then 1 else 0) + WorkCount(actions[1..])
  }

  /** The sentinel is never run, so until the exit it is in flight or queued, and the
      worker does not sleep. */
  lemma SentinelAhead(s: State)
    requires Inv(s) && Sentinel in s.enqueued && !s.worker.Exited?
    ensures s.worker.Got? || s.queue.elements != []
    ensures !s.worker.Asleep?
  {
    assert Sentinel in Unfinished(s);
    assert s.dropped == [];
  }

  /** No action of a client holds up a worker that is to stop. */
  lemma StopProgress(s: State, a: Action)
    requires Inv(s) && Enabled(s, a) && s.stopping && Sentinel in s.enqueued
    ensures var s' := Apply(s, a);
            Inv(s') && s'.stopping && Sentinel in s'.enqueued
            && StopRank(s'.worker) <= StopRank(s.worker)
            && (a.Work? ==> StopRank(s'.worker) < StopRank(s.worker))
  {
    InvStep(s, a);
    if !s.worker.Exited? {
      SentinelAhead(s);
    }
  }

  /** Once the sentinel is queued, six steps of the worker are enough for it to exit, in
      whatever way clients interleave with them. */
  lemma {:induction false} WorkerExits(s: State, actions: seq<Action>)
    requires Inv(s) && Possible(s, actions) && s.stopping && Sentinel in s.enqueued
    requires WorkCount(actions) >= StopRank(s.worker)
    ensures Execute(s, actions).worker.Exited?
    decreases |actions|
  {
    if s.worker.Exited? {
      StaysExited(s, actions);
    } else {
      StopProgress(s, actions[0]);
      WorkerExits(Apply(s, actions[0]), actions[1..]);
    }
  }

  lemma {:induction false} StaysExited(s: State, actions: seq<Action>)
    requires Possible(s, actions) && s.worker.Exited?
    ensures Execute(s, actions).worker.Exited?
    decreases |actions|
  {
    if actions != [] {
      StaysExited(Apply(s, actions[0]), actions[1..]);
    }
  }

  /** So `stop` returns: from every reachable state with a sentinel enqueued, every
      continuation in which the worker takes six steps, or has no step left, ends with it
      gone, and then whoever joins it can. */
  lemma SentinelEndsWorker(actions: seq<Action>, more: seq<Action>)
    requires Possible(INITIAL, actions) && Possible(Execute(INITIAL, actions), more)
    requires Sentinel in Execute(INITIAL, actions).enqueued
    ensures var r := Execute(Execute(INITIAL, actions), more);
            (WorkCount(more) >= 6 || !Enabled(r, Work) ==> r.worker.Exited?)
            && (r.worker.Exited? ==> forall t :: Client(r, t).Joining? ==> Enabled(r, Join(t)))
  {
    AlwaysInv(INITIAL, actions);
    var s := Execute(INITIAL, actions);
    if WorkCount(more) >= 6 {
      WorkerExits(s, more);
    }
    NeverAsleep(s, more);
  }

  lemma {:induction false} NeverAsleep(s: State, actions: seq<Action>)
    requires Inv(s) && Possible(s, actions) && s.stopping && Sentinel in s.enqueued
    ensures !Execute(s, actions).worker.Asleep?
    decreases |actions|
  {
    if actions == [] {
      if !s.worker.Exited? {
        SentinelAhead(s);
      }
    } else {
      StopProgress(s, actions[0]);
      NeverAsleep(Apply(s, actions[0]), actions[1..]);
    }
  }

  /** From every reachable state the worker, left alone, comes to rest within six steps
      a queued job and six more. Unless it is being stopped it has then run everything
      that was enqueued, and if that was anything, and nobody is adding, everybody in
      `wait` is awake and will find `empty` set. Once the sentinel is queued it exits,
      so that `stop` returns. */
  lemma WorkerDrains(actions: seq<Action>) returns (work: seq<Action>)
    requires Possible(INITIAL, actions)
    ensures var s := Execute(INITIAL, actions);
            && |work| <= 6 * |s.queue.elements| + 6 && Possible(s, work)
            && (forall i :: 0 <= i < |work| ==> work[i] == Work)
            && var r := Execute(s, work);
               && (!s.stopping ==> r.worker.Asleep? && r.finished == s.enqueued)
               && (!s.stopping && s.enqueued != [] && !SomeoneAdding(s) ==> r.empty && !SomeoneAsleep(r))
               && (Sentinel in s.enqueued ==> r.worker.Exited?)
  {
    AlwaysInv(INITIAL, actions);
    var s := Execute(INITIAL, actions);
    work := SettleReached(s);
    SettleInv(s);
    var r := Settle(s);
    if Sentinel in s.enqueued {
      SentinelEndsWorker(actions, work);
    }
    if r.worker.Asleep? {
      assert Unfinished(r) == [];
      assert r.enqueued == r.finished;
    }
  }

  // ----- Waiters of a stopped worker -----

  /** Once the worker has exited nothing sets `empty` any more. */
  lemma {:induction false} NotReleased(s: State, actions: seq<Action>, t: Tid)
    requires Possible(s, actions) && s.worker.Exited? && !s.empty
    requires Client(s, t).Waiting? || Client(s, t).WaitAsleep?
    ensures Client(Execute(s, actions), t).Waiting? || Client(Execute(s, actions), t).WaitAsleep?
    decreases |actions|
  {
    if actions != [] {
      OthersSame(s, actions[0]);
      NotReleased(Apply(s, actions[0]), actions[1..], t);
    }
  }

  /** A client in `wait` when the worker has exited can still return from it, in some
      continuation of the run, if and only if `empty` is set at that point; otherwise
      `stop` has left it waiting for ever. */
  lemma WaiterOfStoppedWorker(actions: seq<Action>, t: Tid)
    requires Possible(INITIAL, actions) && Execute(INITIAL, actions).worker.Exited?
    requires var pc := Client(Execute(INITIAL, actions), t); pc.Waiting? || pc.WaitAsleep?
    ensures var s := Execute(INITIAL, actions);
            (exists more :: Possible(s, more) && Client(Execute(s, more), t).Free?) <==> s.empty
  {
    AlwaysInv(INITIAL, actions);
    var s := Execute(INITIAL, actions);
    if s.empty {
      assert Client(s, t).Waiting?;
      var more := [TestWait(t)];
      Then(s, TestWait(t), []);
      assert more == [TestWait(t)] + [];
      assert Possible(s, more) && Client(Execute(s, more), t).Free?;
    } else {
      forall more | Possible(s, more) ensures !Client(Execute(s, more), t).Free? {
        NotReleased(s, more, t);
      }
    }
  }

  // ----- An overlap that makes `wait` return too early -----

  lemma Then(s: State, a: Action, more: seq<Action>)
    requires Enabled(s, a) && Possible(Apply(s, a), more)
    ensures Possible(s, [a] + more) && Execute(s, [a] + more) == Execute(Apply(s, a), more)
  {
    assert ([a] + more)[1..] == more;
  }

  const ONE_JOB := [BeginAdd(0, 1), EndAdd(0), Work, Work, Work, Work, Work]

  const OVERLAP := [BeginAdd(0, 2), EndAdd(0), Work, BeginWait(1), TestWait(1)]

  lemma FiveSteps(s: State, job: Job)
    requires s.worker.Fetching? && s.queue == Core([job], 1) && !s.stopping
    ensures Possible(s, [Work, Work, Work, Work, Work])
    ensures Execute(s, [Work, Work, Work, Work, Work])
         == s.(worker := Notifying, queue := Core([], 0), finished := s.finished + [job])
  {
    var s1 := WorkStep(s);
    assert s1.queue == Core([], 0) && s1.worker == Got(job);
    var s2 := WorkStep(s1);
    var s3 := WorkStep(s2);
    var s4 := WorkStep(s3);
    Then(s4, Work, []);
    Then(s3, Work, [Work]);
    Then(s2, Work, [Work, Work]);
    Then(s1, Work, [Work, Work, Work]);
    Then(s, Work, [Work, Work, Work, Work]);
  }

  lemma OneJob()
    ensures Possible(INITIAL, ONE_JOB)
    ensures var s := Execute(INITIAL, ONE_JOB);
            s.worker.Notifying? && s.queue == Core([], 0) && !s.stopping
            && s.enqueued == s.finished == [Task(1)] && Client(s, 0).Free? && Client(s, 1).Free?
  {
    var s1 := Apply(INITIAL, BeginAdd(0, 1));
    var s2 := Apply(s1, EndAdd(0));
    assert s2.queue == Core([Task(1)], 1);
    FiveSteps(s2, Task(1));
    Then(s1, EndAdd(0), [Work, Work, Work, Work, Work]);
    Then(INITIAL, BeginAdd(0, 1), [EndAdd(0), Work, Work, Work, Work, Work]);
  }

  lemma AddDuringNotify(s: State)
    requires s.worker.Notifying? && s.queue == Core([], 0) && !s.stopping && History(s)
    requires Client(s, 0).Free? && Client(s, 1).Free?
    ensures Possible(s, OVERLAP)
    ensures var r := Execute(s, OVERLAP);
            Client(r, 1).Free? && r.empty && r.enqueued == s.enqueued + [Task(2)] && r.finished == s.finished
  {
    var s1 := Apply(s, BeginAdd(0, 2));
    var s2 := Apply(s1, EndAdd(0));
    var s3 := Apply(s2, Work);
    var s4 := Apply(s3, BeginWait(1));
    var s5 := Apply(s4, TestWait(1));
    Then(s4, TestWait(1), []);
    Then(s3, BeginWait(1), [TestWait(1)]);
    Then(s2, Work, [BeginWait(1), TestWait(1)]);
    Then(s1, EndAdd(0), [Work, BeginWait(1), TestWait(1)]);
    Then(s, BeginAdd(0, 2), [EndAdd(0), Work, BeginWait(1), TestWait(1)]);
  }

  lemma {:induction false} ExecuteAppend(s: State, a: seq<Action>, b: seq<Action>)
    requires Possible(s, a) && Possible(Execute(s, a), b)
    ensures Possible(s, a + b) && Execute(s, a + b) == Execute(Execute(s, a), b)
    decreases |a|
  {
    if a == [] {
      assert a + b == b;
    } else {
      ExecuteAppend(Apply(s, a[0]), a[1..], b);
      assert (a + b)[1..] == a[1..] + b;
    }
  }

  /** A job added between the worker's test of the queue and its setting of `empty`:
      a client that then waits returns at once, with that job not even begun. */
  lemma OverlapExample()
    ensures Possible(INITIAL, ONE_JOB + OVERLAP)
    ensures var s := Execute(INITIAL, ONE_JOB + OVERLAP);
            s.empty && Client(s, 1).Free? && s.enqueued == [Task(1), Task(2)] && s.finished == [Task(1)]
  {
    OneJob();
    AlwaysInv(INITIAL, ONE_JOB);
    AddDuringNotify(Execute(INITIAL, ONE_JOB));
    ExecuteAppend(INITIAL, ONE_JOB, OVERLAP);
  }
}
