/** Every interleaving of the callers, the workers and the shutdown of one work queue.

    Each step is one stretch of code that holds the context's mutex, or one move of a worker between
    two such stretches.  A run is any sequence of steps. */
module WorkQueueRuns {
  import opened Basics
  import opened Sorting
  import opened WorkQueue

  /** Where a worker is in its scheduling loop. */
  datatype Mode = Looking | Holding | Calling | Idle | Exited

  /** Open until the destroyer clears the keep-running flags, Closed once the queue is freed. */
  datatype Phase = Open | Stopping | Closed

  /** The queue, the workers, and the history of every accepted job.  A worker's current job is
      `taken[w]` before its function is called and `running[w]` from the call to its end. */
  datatype State = State(
    ctx: Ctx,
    phase: Phase,
    mode: seq<Mode>,
    taken: seq<Slot>,
    running: seq<Slot>,
    accepted: seq<Slot>,
    calls: multiset<Slot>,
    finished: multiset<Slot>,
    dequeued: multiset<Slot>,
    discarded: multiset<Slot>,
    uncounted: nat)

  ghost predicate Initial(s: State) {
    && s.ctx.queue == seq(|s.ctx.queue|, _ => None) && s.ctx.waiting == 0 && s.ctx.nextId == 0
    && s.phase == Open
    && |s.mode| == |s.taken| == |s.running|
    && s.mode == seq(|s.mode|, _ => Looking)
    && s.taken == seq(|s.mode|, _ => None) && s.running == seq(|s.mode|, _ => None)
    && s.accepted == [] && s.uncounted == 0
    && s.calls == s.finished == s.dequeued == s.discarded == multiset{}
  }

  datatype Action =
    | Add(priority: int, milliseconds: nat, work: int, now: Time, allocates: bool)
    | Cancel(id: int)
    | Empty
    | TakeJob(worker: nat, now: Time)
    | Call(worker: nat)
    | Finish(worker: nat)
    | Wake(worker: nat)
    | Exit(worker: nat)
    | BeginDestroy
    | EndDestroy

  function Jobs(q: seq<Slot>): multiset<Slot> {
    multiset(q)[None := 0]
  }

  function One(job: Slot): multiset<Slot> {
    if job.None? then multiset{} else multiset{job}
  }

  /** The keep-running flags of all workers change together, under the context's mutex. */
  predicate KeepRunning(s: State) {
    s.phase == Open
  }

  /** What a caller of the queue does while it holds the mutex. */
  ghost predicate CallerStep(s: State, a: Action, s': State) {
    match a {
      case Add(priority, milliseconds, work, now, allocates) =>
        if Full(s.ctx.queue) || !allocates then s' == s
        else
          var job := Job(priority, s.ctx.nextId, StartAfter(now, milliseconds), work, |s.accepted|);
          && Added(s.ctx, job, s'.ctx)
          && s' == s.(ctx := s'.ctx, accepted := s.accepted + [Some(job)])
      case Cancel(id) =>
        var (ctx, job) := Dequeued(s.ctx, id);
        s' == s.(ctx := ctx, dequeued := s.dequeued + One(job))
      case Empty =>
        s' == s.(ctx := Emptied(s.ctx), discarded := s.discarded + Jobs(s.ctx.queue),
                 uncounted := s.uncounted + Occupied(s.ctx.queue))
      case BeginDestroy =>
        s.phase == Open && s' == s.(phase := Stopping)
      case EndDestroy =>
        && s.phase == Stopping && (forall w | 0 <= w < |s.mode| :: s.mode[w] == Exited)
        && s' == s.(ctx := Emptied(s.ctx), phase := Closed, discarded := s.discarded + Jobs(s.ctx.queue),
                    uncounted := s.uncounted + Occupied(s.ctx.queue))
      case _ => false
    }
  }

  /** What worker `a.worker` does: scan the queue, call a job's function, finish it, sleep, stop. */
  ghost predicate WorkerStep(s: State, a: Action, s': State)
    requires IsWorkers(a) && a.worker < |s.mode| == |s.taken| == |s.running|
  {
    var w := a.worker;
    match a {
      case TakeJob(_, now) =>
        && s.mode[w] == Looking
        && if !KeepRunning(s) then s' == s.(mode := s.mode[w := Idle])
           else
             var (ctx, job) := Take(s.ctx, now);
             s' == s.(ctx := ctx, mode := s.mode[w := if job.Some? then Holding else Idle],
                      taken := s.taken[w := job])
      case Call(_) =>
        && s.mode[w] == Holding
        && s' == s.(mode := s.mode[w := Calling], taken := s.taken[w := None],
                    running := s.running[w := s.taken[w]], calls := s.calls + One(s.taken[w]))
      case Finish(_) =>
        && s.mode[w] == Calling
        && s' == s.(mode := s.mode[w := Looking], running := s.running[w := None],
                    finished := s.finished + One(s.running[w]))
      case Wake(_) =>
        s.mode[w] == Idle && KeepRunning(s) && s' == s.(mode := s.mode[w := Looking])
      case _ =>
        s.mode[w] in {Looking, Idle} && !KeepRunning(s) && s' == s.(mode := s.mode[w := Exited])
    }
  }

  predicate IsWorkers(a: Action) {
    a.TakeJob? || a.Call? || a.Finish? || a.Wake? || a.Exit?
  }

  ghost predicate Next(s: State, a: Action, s': State) {
    && s.phase != Closed
    && if IsWorkers(a) then a.worker < |s.mode| == |s.taken| == |s.running| && WorkerStep(s, a, s')
       else CallerStep(s, a, s')
  }

  ghost predicate Run(tr: seq<State>, acts: seq<Action>) {
    && |tr| == |acts| + 1 && Initial(tr[0])
    && forall i {:trigger acts[i]} | 0 <= i < |acts| :: Next(tr[i], acts[i], tr[i + 1])
  }

  // ------------------------------------------------------------ invariants

  const IDS := INT_MAX + 1

  /** The i-th accepted job carries number i, and ids wrap after 2^31 jobs. */
  ghost predicate Numbered(s: State) {
    && s.ctx.nextId == |s.accepted| % IDS
    && forall i | 0 <= i < |s.accepted| ::
         s.accepted[i].Some? && s.accepted[i].value.serial == i && s.accepted[i].value.id == i % IDS
  }

  ghost function Places(s: State, x: Slot): nat {
    multiset(s.ctx.queue)[x] + multiset(s.taken)[x] + multiset(s.running)[x]
    + s.finished[x] + s.dequeued[x] + s.discarded[x]
  }

  /** Every accepted job is held in exactly one place, and nothing else is held anywhere. */
  ghost predicate Conserved(s: State) {
    forall x: Slot {:trigger Places(s, x)} | x != None :: Places(s, x) == multiset(s.accepted)[x]
  }

  ghost predicate CallsMatch(s: State) {
    forall x: Slot {:trigger s.calls[x]} | x != None :: s.calls[x] == multiset(s.running)[x] + s.finished[x]
  }

  ghost predicate Counted(s: State) {
    s.ctx.waiting == Occupied(s.ctx.queue) + s.uncounted
  }

  ghost predicate WorkersOk(s: State) {
    && |s.mode| == |s.taken| == |s.running|
    && (forall w | 0 <= w < |s.mode| :: (s.taken[w].Some? <==> s.mode[w] == Holding)
                                     && (s.running[w].Some? <==> s.mode[w] == Calling))
    && (s.phase == Closed ==> Occupied(s.ctx.queue) == 0 && forall w | 0 <= w < |s.mode| :: s.mode[w] == Exited)
  }

  ghost predicate Inv(s: State) {
    && Numbered(s) && Conserved(s) && CallsMatch(s) && Counted(s) && WorkersOk(s) && Ordered(s.ctx.queue)
  }

  lemma {:induction false} OccupiedIs(q: seq<Slot>)
    ensures Occupied(q) == |q| - multiset(q)[None]
  {
    if q != [] {
      OccupiedIs(q[..|q| - 1]);
      assert q == q[..|q| - 1] + [q[|q| - 1]];
    }
  }

  lemma OccupiedUpdate(q: seq<Slot>, i: nat, x: Slot)
    requires i < |q|
    ensures Occupied(q[i := x]) == Occupied(q) - (if q[i].Some? then 1 else 0) + if x.Some? then 1 else 0
  {
    OccupiedIs(q);
    OccupiedIs(q[i := x]);
  }

  lemma {:induction false} Cleared(n: nat, x: Slot)
    requires x != None
    ensures Occupied(seq(n, _ => None)) == 0 && multiset(seq(n, _ => None))[x] == 0
  {
    var q: seq<Slot> := seq(n, _ => None);
    if n > 0 {
      Cleared(n - 1, x);
      assert q[..n - 1] == seq(n - 1, _ => None);
      assert q == q[..n - 1] + [q[n - 1]];
    }
  }

  lemma CountsAfterAdd(s: State, a: Action, s': State)
    requires a.Add? && Inv(s) && CallerStep(s, a, s')
    ensures Conserved(s') && CallsMatch(s') && Counted(s')
  {
    hide Numbered, WorkersOk, Ordered, Occupied, StartAfter, JobCompare;
    if !Full(s.ctx.queue) && a.allocates {
      var job := Job(a.priority, s.ctx.nextId, StartAfter(a.now, a.milliseconds), a.work, |s.accepted|);
      var i := FirstFree(s.ctx.queue);
      var q := s.ctx.queue[i := Some(job)];
      OccupiedUpdate(s.ctx.queue, i, Some(job));
      SortedLength(JobCompare, q, s'.ctx.queue);
      OccupiedIs(q);
      OccupiedIs(s'.ctx.queue);
      forall x: Slot | x != None
        ensures Places(s', x) == multiset(s'.accepted)[x] && s'.calls[x] == multiset(s'.running)[x] + s'.finished[x]
      {
        assert Places(s, x) == multiset(s.accepted)[x] && s.calls[x] == multiset(s.running)[x] + s.finished[x];
        assert multiset(s'.ctx.queue)[x] == multiset(q)[x];
      }
    }
  }

  lemma CountsAfterCancel(s: State, a: Action, s': State)
    requires a.Cancel? && Inv(s) && CallerStep(s, a, s')
    ensures Conserved(s') && CallsMatch(s') && Counted(s')
  {
    hide Dequeued, One, Numbered, WorkersOk, Ordered;
    var (ctx, job) := Dequeued(s.ctx, a.id);
    DequeuedOne(s.ctx, a.id);
    forall x: Slot | x != None
      ensures Places(s', x) == multiset(s'.accepted)[x] && s'.calls[x] == multiset(s'.running)[x] + s'.finished[x]
    {
      assert Places(s, x) == multiset(s.accepted)[x] && s.calls[x] == multiset(s.running)[x] + s.finished[x];
      assert multiset(ctx.queue)[x] + One(job)[x] == multiset(s.ctx.queue)[x];
    }
  }

  /** The job dequeued leaves the queue and the count. */
  lemma DequeuedOne(ctx: Ctx, id: int)
    ensures var (ctx', job) := Dequeued(ctx, id);
            && (forall x: Slot {:trigger multiset(ctx'.queue)[x]} | x != None ::
                  multiset(ctx'.queue)[x] + One(job)[x] == multiset(ctx.queue)[x])
            && ctx.waiting - ctx'.waiting == Occupied(ctx.queue) - Occupied(ctx'.queue)
  {
    hide One;
    var i := FirstWithId(ctx.queue, id);
    if i < |ctx.queue| {
      OccupiedUpdate(ctx.queue, i, None);
      forall x: Slot | x != None
        ensures multiset(ctx.queue[i := None])[x] + One(ctx.queue[i])[x] == multiset(ctx.queue)[x]
      {
        Moves(ctx.queue, i, [None], 0, x);
      }
    } else {
      assert forall x: Slot :: One(None)[x] == 0 by { NoJob(); }
    }
  }

  lemma NoJob()
    ensures One(None) == multiset{}
  {
  }

  lemma CountsAfterEmpty(s: State, a: Action, s': State)
    requires (a.Empty? || a.EndDestroy?) && Inv(s) && CallerStep(s, a, s')
    ensures Conserved(s') && CallsMatch(s') && Counted(s')
    ensures Occupied(s'.ctx.queue) == 0
  {
    Cleared(|s.ctx.queue|, Some(Job(0, 0, Time(0, 0), 0, 0)));
    forall x: Slot | x != None
      ensures Places(s', x) == multiset(s'.accepted)[x]
    {
      assert Places(s, x) == multiset(s.accepted)[x];
      Cleared(|s.ctx.queue|, x);
    }
  }

  /** A job moves from one place to another, and nothing else moves. */
  lemma Moves(from: seq<Slot>, i: nat, to: seq<Slot>, j: nat, x: Slot)
    requires i < |from| && j < |to| && to[j] == None && x != None
    ensures multiset(from[i := None])[x] + multiset(to[j := from[i]])[x] == multiset(from)[x] + multiset(to)[x]
    ensures multiset(from[i := None])[x] + One(from[i])[x] == multiset(from)[x]
    ensures multiset(to[j := from[i]])[x] == multiset(to)[x] + One(from[i])[x]
  {
    assert from[i] in multiset(from) && to[j] in multiset(to);
  }

  /** A worker's move keeps the number of places of each job, and counts a call when it makes one. */
  lemma PlacesAfterWorker(s: State, a: Action, s': State, x: Slot)
    requires IsWorkers(a) && WorkersOk(s) && Next(s, a, s') && x != None
    ensures Places(s', x) == Places(s, x)
    ensures s'.calls[x] + (multiset(s.running)[x] + s.finished[x])
         == s.calls[x] + (multiset(s'.running)[x] + s'.finished[x])
  {
    hide Places, WorkerStep, WorkersOk;
    match a
    case TakeJob(_, _) => PlacesAfterTake(s, a, s', x);
    case Call(_) => PlacesAfterCall(s, a, s', x);
    case Finish(_) => PlacesAfterFinish(s, a, s', x);
    case _ => PlacesAfterIdle(s, a, s', x);
  }

  lemma PlacesAfterCall(s: State, a: Action, s': State, x: Slot)
    requires a.Call? && WorkersOk(s) && a.worker < |s.mode| && WorkerStep(s, a, s') && x != None
    ensures Places(s', x) == Places(s, x)
    ensures s'.calls[x] == s.calls[x] + One(s.taken[a.worker])[x] && s'.finished == s.finished
    ensures multiset(s'.running)[x] == multiset(s.running)[x] + One(s.taken[a.worker])[x]
  {
    hide One;
    Moves(s.taken, a.worker, s.running, a.worker, x);
  }

  lemma PlacesAfterFinish(s: State, a: Action, s': State, x: Slot)
    requires a.Finish? && WorkersOk(s) && a.worker < |s.mode| && WorkerStep(s, a, s') && x != None
    ensures Places(s', x) == Places(s, x) && s'.calls == s.calls
    ensures multiset(s'.running)[x] + s'.finished[x] == multiset(s.running)[x] + s.finished[x]
  {
    hide One;
    Moves(s.running, a.worker, [None], 0, x);
  }

  lemma PlacesAfterIdle(s: State, a: Action, s': State, x: Slot)
    requires (a.Wake? || a.Exit?) && WorkersOk(s) && a.worker < |s.mode| && WorkerStep(s, a, s')
    ensures Places(s', x) == Places(s, x)
    ensures s'.calls == s.calls && s'.running == s.running && s'.finished == s.finished
  {
  }

  lemma PlacesAfterTake(s: State, a: Action, s': State, x: Slot)
    requires a.TakeJob? && WorkersOk(s) && a.worker < |s.mode| && WorkerStep(s, a, s') && x != None
    ensures Places(s', x) == Places(s, x)
    ensures s'.calls == s.calls && s'.running == s.running && s'.finished == s.finished
  {
    hide Take, WorkersOk;
    NothingTaken(s, a.worker);
    TakeMoves(s.ctx, a.now, s.taken, a.worker, x);
    assert s.taken[a.worker := None] == s.taken;
  }

  lemma NothingTaken(s: State, w: nat)
    requires WorkersOk(s) && w < |s.mode| && s.mode[w] != Holding
    ensures |s.taken| == |s.mode| == |s.running| && s.taken[w] == None
  {
  }

  /** The job taken moves from the queue to the worker. */
  lemma TakeMoves(ctx: Ctx, now: Time, taken: seq<Slot>, w: nat, x: Slot)
    requires w < |taken| && taken[w] == None && x != None
    ensures var (ctx', job) := Take(ctx, now);
            multiset(ctx'.queue)[x] + multiset(taken[w := job])[x] == multiset(ctx.queue)[x] + multiset(taken)[x]
  {
    hide Due;
    var i := FirstDue(ctx.queue, now);
    if i < |ctx.queue| {
      Moves(ctx.queue, i, taken, w, x);
    } else {
      assert taken[w := None] == taken;
    }
  }

  lemma CountsAfterWorker(s: State, a: Action, s': State)
    requires IsWorkers(a) && Inv(s) && Next(s, a, s')
    ensures Conserved(s') && CallsMatch(s') && Counted(s')
  {
    hide Next, WorkersOk, Numbered, Ordered, Places, Occupied;
    CountAfterWorker(s, a, s');
    forall x: Slot | x != None
      ensures Places(s', x) == multiset(s'.accepted)[x] && s'.calls[x] == multiset(s'.running)[x] + s'.finished[x]
    {
      PlacesAfterWorker(s, a, s', x);
      PlacesOf(s, x);
    }
  }

  lemma PlacesOf(s: State, x: Slot)
    requires Conserved(s) && CallsMatch(s) && x != None
    ensures Places(s, x) == multiset(s.accepted)[x] && s.calls[x] == multiset(s.running)[x] + s.finished[x]
  {
    hide Places;
  }

  lemma CountAfterWorker(s: State, a: Action, s': State)
    requires IsWorkers(a) && WorkersOk(s) && Next(s, a, s')
    ensures s'.ctx.waiting - s.ctx.waiting == Occupied(s'.ctx.queue) - Occupied(s.ctx.queue)
    ensures s'.accepted == s.accepted && s'.uncounted == s.uncounted
  {
    hide Occupied, WorkersOk;
    if a.TakeJob? {
      var i := FirstDue(s.ctx.queue, a.now);
      if i < |s.ctx.queue| {
        OccupiedUpdate(s.ctx.queue, i, None);
      }
    }
  }

  lemma RestAfterAdd(s: State, a: Action, s': State)
    requires a.Add? && Inv(s) && CallerStep(s, a, s') && s.phase != Closed
    ensures Numbered(s') && Ordered(s'.ctx.queue) && WorkersOk(s')
  {
    hide Conserved, CallsMatch, Counted, Ordered, Occupied, StartAfter, JobCompare, SortedPermutation;
    if !Full(s.ctx.queue) && a.allocates {
      NextIdWraps(|s.accepted|);
      var job := Job(a.priority, s.ctx.nextId, StartAfter(a.now, a.milliseconds), a.work, |s.accepted|);
      SortedIsOrdered(s.ctx.queue[FirstFree(s.ctx.queue) := Some(job)], s'.ctx.queue);
    }
  }

  lemma SortedIsOrdered(q: seq<Slot>, r: seq<Slot>)
    requires SortedPermutation(JobCompare, q, r)
    ensures Ordered(r)
  {
    hide JobCompare;
  }

  lemma NextIdWraps(n: nat)
    ensures (n + 1) % IDS == NextId(n % IDS)
  {
  }

  lemma RestAfterRemoval(s: State, a: Action, s': State)
    requires !IsWorkers(a) && !a.Add? && Inv(s) && CallerStep(s, a, s') && s.phase != Closed
    requires a.EndDestroy? ==> Occupied(s'.ctx.queue) == 0
    ensures Numbered(s') && Ordered(s'.ctx.queue) && WorkersOk(s')
  {
  }

  lemma OrderedAfterRemoval(q: seq<Slot>, i: nat)
    requires Ordered(q) && i < |q|
    ensures Ordered(q[i := None])
  {
  }

  lemma RestAfterWorker(s: State, a: Action, s': State)
    requires IsWorkers(a) && Inv(s) && Next(s, a, s')
    ensures Numbered(s') && Ordered(s'.ctx.queue) && WorkersOk(s')
  {
    if a.TakeJob? && FirstDue(s.ctx.queue, a.now) < |s.ctx.queue| {
      OrderedAfterRemoval(s.ctx.queue, FirstDue(s.ctx.queue, a.now));
    }
    ModesAfterWorker(s, a, s');
  }

  lemma ModesAfterWorker(s: State, a: Action, s': State)
    requires IsWorkers(a) && WorkersOk(s) && a.worker < |s.mode| && WorkerStep(s, a, s')
    requires s.phase != Closed
    ensures WorkersOk(s')
  {
  }

  lemma CountsAfterBegin(s: State, a: Action, s': State)
    requires a.BeginDestroy? && Inv(s) && CallerStep(s, a, s')
    ensures Conserved(s') && CallsMatch(s') && Counted(s')
  {
    forall x: Slot | x != None
      ensures Places(s', x) == multiset(s'.accepted)[x]
    {
      assert Places(s, x) == multiset(s.accepted)[x];
    }
  }

  lemma InvAfter(s: State, a: Action, s': State)
    requires Inv(s) && Next(s, a, s')
    ensures Inv(s')
  {
    hide Numbered, Conserved, CallsMatch, Counted, WorkersOk, Ordered, WorkerStep, CallerStep;
    if IsWorkers(a) {
      CountsAfterWorker(s, a, s');
      RestAfterWorker(s, a, s');
    } else if a.Add? {
      CountsAfterAdd(s, a, s');
      RestAfterAdd(s, a, s');
    } else {
      if a.Cancel? {
        CountsAfterCancel(s, a, s');
      } else if a.BeginDestroy? {
        CountsAfterBegin(s, a, s');
      } else {
        CountsAfterEmpty(s, a, s');
      }
      RestAfterRemoval(s, a, s');
    }
  }

  lemma InitialInv(s: State)
    requires Initial(s)
    ensures Inv(s)
  {
    Cleared(|s.ctx.queue|, Some(Job(0, 0, Time(0, 0), 0, 0)));
    forall x: Slot | x != None
      ensures Places(s, x) == 0
    {
      Cleared(|s.ctx.queue|, x);
      Cleared(|s.mode|, x);
    }
  }

  lemma {:induction false} RunInv(tr: seq<State>, acts: seq<Action>, i: nat)
    requires Run(tr, acts) && i < |tr|
    ensures Inv(tr[i])
  {
    if i == 0 {
      InitialInv(tr[0]);
    } else {
      RunInv(tr, acts, i - 1);
      InvAfter(tr[i - 1], acts[i - 1], tr[i]);
    }
  }

  // ------------------------------------------------------------ what holds on every run

  lemma {:induction false} AcceptedOnce(s: State, n: nat, x: Slot)
    requires Numbered(s) && n <= |s.accepted|
    ensures multiset(s.accepted[..n])[x] <= 1
    ensures multiset(s.accepted[..n])[x] == 1 ==> x.Some? && x.value.serial < n && s.accepted[x.value.serial] == x
    ensures forall i | 0 <= i < n :: multiset(s.accepted[..n])[s.accepted[i]] == 1
  {
    if n > 0 {
      AcceptedOnce(s, n - 1, x);
      assert s.accepted[..n] == s.accepted[..n - 1] + [s.accepted[n - 1]];
      forall i | 0 <= i < n
        ensures multiset(s.accepted[..n])[s.accepted[i]] == 1
      {
        AcceptedOnce(s, n - 1, s.accepted[i]);
      }
    }
  }

  /** Each accepted job is in exactly one of queued, taken, running, finished, dequeued and
      discarded; nothing that was never accepted is in any of them; its function has been called at
      most once, and never if it was dequeued or discarded. */
  lemma EachJobInOnePlace(tr: seq<State>, acts: seq<Action>, i: nat, x: Slot)
    requires Run(tr, acts) && i < |tr| && x != None
    ensures var s := tr[i];
            && Places(s, x) == (if x in s.accepted then 1 else 0)
            && s.calls[x] <= 1
            && s.calls[x] == multiset(s.running)[x] + s.finished[x]
            && (x in s.dequeued || x in s.discarded || x in s.ctx.queue || x in s.taken ==> x !in s.calls)
  {
    var s := tr[i];
    RunInv(tr, acts, i);
    AcceptedOnce(s, |s.accepted|, x);
    assert s.accepted[..|s.accepted|] == s.accepted;
    assert Places(s, x) == multiset(s.accepted)[x] && s.calls[x] == multiset(s.running)[x] + s.finished[x];
    assert x in s.accepted <==> x in multiset(s.accepted);
    assert x in s.ctx.queue <==> x in multiset(s.ctx.queue);
    assert x in s.taken <==> x in multiset(s.taken);
  }

  lemma FateStays(s: State, a: Action, s': State)
    requires Next(s, a, s')
    ensures s.dequeued <= s'.dequeued && s.discarded <= s'.discarded && s.finished <= s'.finished
  {
  }

  lemma {:induction false} FatesGrow(tr: seq<State>, acts: seq<Action>, i: nat, j: nat)
    requires Run(tr, acts) && i <= j < |tr|
    ensures tr[i].dequeued <= tr[j].dequeued && tr[i].discarded <= tr[j].discarded && tr[i].finished <= tr[j].finished
  {
    hide Next, Initial;
    if i < j {
      FatesGrow(tr, acts, i, j - 1);
      FateStays(tr[j - 1], acts[j - 1], tr[j]);
    }
  }

  /** Fates are final: a job that was dequeued or discarded is never called afterwards. */
  lemma CancelledNeverRuns(tr: seq<State>, acts: seq<Action>, i: nat, j: nat, x: Slot)
    requires Run(tr, acts) && i <= j < |tr| && x != None
    requires x in tr[i].dequeued || x in tr[i].discarded
    ensures x !in tr[j].calls
  {
    FatesGrow(tr, acts, i, j);
    EachJobInOnePlace(tr, acts, j, x);
  }

  /** Once the queue is destroyed nothing is queued, taken or running: every job ever accepted has
      either been called exactly once and finished, or was dequeued or discarded and never called. */
  lemma AfterDestroy(tr: seq<State>, acts: seq<Action>, i: nat, x: Slot)
    requires Run(tr, acts) && i < |tr| && tr[i].phase == Closed && x != None
    ensures var s := tr[i];
            && x !in s.ctx.queue && x !in s.taken && x !in s.running
            && (x in s.accepted ==>
                  || (s.finished[x] == s.calls[x] == 1 && x !in s.dequeued && x !in s.discarded)
                  || (s.dequeued[x] + s.discarded[x] == 1 && x !in s.finished && x !in s.calls))
  {
    var s := tr[i];
    RunInv(tr, acts, i);
    EachJobInOnePlace(tr, acts, i, x);
    OccupiedIs(s.ctx.queue);
    NoneLeft(s.ctx.queue);
    assert x in s.taken <==> x in multiset(s.taken);
    assert x in s.running <==> x in multiset(s.running);
    assert x in s.ctx.queue <==> x in multiset(s.ctx.queue);
    assert x in s.accepted <==> x in multiset(s.accepted);
  }

  lemma {:induction false} NoneLeft(q: seq<Slot>)
    ensures Occupied(q) == 0 <==> forall i | 0 <= i < |q| :: q[i].None?
    ensures Occupied(q) == |q| <==> Full(q)
    ensures Occupied(q) <= |q|
  {
    if q != [] {
      var front := q[..|q| - 1];
      NoneLeft(front);
      assert forall i | 0 <= i < |front| :: q[i] == front[i];
    }
  }

  /** The waiting count is the number of queued jobs exactly as long as workqueue_empty has thrown no
      job away; each job it threw away stays in the count. */
  lemma WaitingCount(tr: seq<State>, acts: seq<Action>, i: nat)
    requires Run(tr, acts) && i < |tr|
    ensures var s := tr[i];
            && s.ctx.waiting == Occupied(s.ctx.queue) + |s.discarded|
            && (s.ctx.waiting == Occupied(s.ctx.queue) <==> s.discarded == multiset{})
            && (Full(s.ctx.queue) <==> Occupied(s.ctx.queue) == |s.ctx.queue|)
  {
    RunInv(tr, acts, i);
    NoneLeft(tr[i].ctx.queue);
    UncountedAreDiscarded(tr, acts, i);
  }

  lemma {:induction false} UncountedAreDiscarded(tr: seq<State>, acts: seq<Action>, i: nat)
    requires Run(tr, acts) && i < |tr|
    ensures |tr[i].discarded| == tr[i].uncounted
  {
    hide Next;
    if i > 0 {
      UncountedAreDiscarded(tr, acts, i - 1);
      assert Next(tr[i - 1], acts[i - 1], tr[i]);
      DiscardedStep(tr[i - 1], acts[i - 1], tr[i]);
    }
  }

  lemma DiscardedStep(s: State, a: Action, s': State)
    requires Next(s, a, s') && |s.discarded| == s.uncounted
    ensures |s'.discarded| == s'.uncounted
  {
    hide Jobs, Occupied, Added, Dequeued, Take, Emptied, One;
    if IsWorkers(a) {
      assert s'.discarded == s.discarded && s'.uncounted == s.uncounted;
    } else {
      JobsCount(s.ctx.queue);
    }
  }

  lemma JobsCount(q: seq<Slot>)
    ensures |Jobs(q)| == Occupied(q)
  {
    OccupiedIs(q);
    assert multiset(q) == Jobs(q)[None := multiset(q)[None]];
  }

  // ------------------------------------------------------------ order

  /** The slots stay in job order in every reachable state, holes included.  The order is strict
      unless two queued jobs of equal priority and start time were accepted a multiple of 2^31 jobs
      apart, so that they share an id. */
  ghost predicate IdClash(q: seq<Slot>, i: nat, j: nat)
    requires i < |q| && j < |q|
  {
    && q[i].Some? && q[j].Some?
    && q[i].value.priority == q[j].value.priority && q[i].value.start == q[j].value.start
    && q[i].value.serial % IDS == q[j].value.serial % IDS
  }

  lemma OrderOnEveryRun(tr: seq<State>, acts: seq<Action>, i: nat)
    requires Run(tr, acts) && i < |tr|
    ensures var q := tr[i].ctx.queue;
            && Ordered(q)
            && (StrictlyOrdered(q) <==> forall a, b | 0 <= a < b < |q| :: !IdClash(q, a, b))
            && (|tr[i].accepted| <= IDS ==> StrictlyOrdered(q))
  {
    var s := tr[i];
    RunInv(tr, acts, i);
    forall a, b | 0 <= a < b < |s.ctx.queue| && s.ctx.queue[a].Some? && s.ctx.queue[b].Some?
      ensures JobCompare(s.ctx.queue[a], s.ctx.queue[b]) < 0 <==> !IdClash(s.ctx.queue, a, b)
      ensures |s.accepted| <= IDS ==> !IdClash(s.ctx.queue, a, b)
    {
      EachJobInOnePlace(tr, acts, i, s.ctx.queue[a]);
      PairOrder(s, a, b);
    }
  }

  lemma PairOrder(s: State, a: nat, b: nat)
    requires Inv(s) && a < b < |s.ctx.queue| && s.ctx.queue[a].Some? && s.ctx.queue[b].Some?
    requires Places(s, s.ctx.queue[a]) <= 1
    ensures JobCompare(s.ctx.queue[a], s.ctx.queue[b]) < 0 <==> !IdClash(s.ctx.queue, a, b)
    ensures |s.accepted| <= IDS ==> !IdClash(s.ctx.queue, a, b)
  {
    QueuedWasAccepted(s, a);
    QueuedWasAccepted(s, b);
    TwoCopies(s.ctx.queue, a, b);
    SmallModsDiffer(s.ctx.queue[a].value.serial, s.ctx.queue[b].value.serial);
  }

  lemma SmallModsDiffer(x: nat, y: nat)
    ensures x != y && x < IDS && y < IDS ==> x % IDS != y % IDS
  {
  }

  lemma QueuedWasAccepted(s: State, a: nat)
    requires Inv(s) && a < |s.ctx.queue| && s.ctx.queue[a].Some?
    ensures var x := s.ctx.queue[a];
            x.value.serial < |s.accepted| && s.accepted[x.value.serial] == x && x.value.id == x.value.serial % IDS
  {
    var x := s.ctx.queue[a];
    assert x in multiset(s.ctx.queue);
    assert Places(s, x) == multiset(s.accepted)[x];
    assert x in s.accepted;
  }

  /** So on every run a worker gets a job exactly when the start time of some queued job has passed; it is
      one of those, and it goes before every other of them; up to the 2^31st job it alone does. */
  lemma TakeIsLeastDue(tr: seq<State>, acts: seq<Action>, i: nat, now: Time)
    requires Run(tr, acts) && i < |tr|
    ensures var (q, job) := (tr[i].ctx.queue, Take(tr[i].ctx, now).1);
            && (job.Some? <==> exists j :: 0 <= j < |q| && Past(q[j], now))
            && (job.Some? ==> job in q && Past(job, now))
            && (job.Some? ==> forall j | 0 <= j < |q| && Past(q[j], now) :: GoesFirst(job.value, q[j].value))
            && (job.Some? && |tr[i].accepted| <= IDS ==>
                  forall j | 0 <= j < |q| && Past(q[j], now) && q[j] != job :: !GoesFirst(q[j].value, job.value))
  {
    hide Run, GoesFirst, Ordered, StrictlyOrdered;
    OrderOnEveryRun(tr, acts, i);
    TakenIsLeastDue(tr[i].ctx.queue, now);
  }
}
