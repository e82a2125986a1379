/** The priority work queue of libworkqueue: job slots, their order, and the four operations that
    run under the context's mutex. */
module WorkQueue {
  import opened Basics
  import opened Sorting

  // ------------------------------------------------------------ time

  const NSEC_PER_SEC: int := 1_000_000_000

  /** A struct timespec. */
  datatype Time = Time(sec: int, nsec: int)

  /** The instant a timespec stands for, in nanoseconds. */
  function Instant(t: Time): int {
    t.sec * NSEC_PER_SEC + t.nsec
  }

  predicate Normal(t: Time) {
    0 <= t.nsec < NSEC_PER_SEC
  }

  predicate TimeGt(x: Time, y: Time) {
    x.sec > y.sec || (x.sec == y.sec && x.nsec > y.nsec)
  }

  function TruncDiv(a: int, b: int): int
    requires b > 0
  {
    if a >= 0 then a / b else -((-a) / b)
  }

  function TimeDiffMs(x: Time, y: Time): int {
    (x.sec - y.sec) * 1000 + (TruncDiv(x.nsec, 1_000_000) - TruncDiv(y.nsec, 1_000_000))
  }

  /** `now` plus a delay; the carry is taken only when the nanoseconds exceed one second. */
  function StartAfter(now: Time, milliseconds: nat): Time {
    if milliseconds == 0 then Time(0, 0)
    else
      var sec := now.sec + milliseconds / 1000;
      var nsec := now.nsec + (milliseconds % 1000) * 1_000_000;
      if nsec > NSEC_PER_SEC then Time(sec + 1, nsec - NSEC_PER_SEC) else Time(sec, nsec)
  }

  /** The start time is the right instant, and it is a normal timespec unless the nanoseconds add up
      to exactly one second. */
  lemma StartAfterInstant(now: Time, milliseconds: nat)
    requires Normal(now) && milliseconds > 0
    ensures var t := StartAfter(now, milliseconds);
            && Instant(t) == Instant(now) + milliseconds * 1_000_000
            && (Normal(t) <==> now.nsec + (milliseconds % 1000) * 1_000_000 != NSEC_PER_SEC)
  {
    var q, r := milliseconds / 1000, milliseconds % 1000;
    assert milliseconds == q * 1000 + r;
  }

  /** Comparing timespecs field by field compares the instants, except against a start time that was
      left one second denormal: that job is taken as due at its very instant, not after it. */
  lemma TimeGtIsLater(now: Time, t: Time)
    requires Normal(now) && 0 <= t.nsec <= NSEC_PER_SEC
    ensures TimeGt(now, t) == (Instant(now) > Instant(t)) <==> !(t.nsec == NSEC_PER_SEC && now == Time(t.sec + 1, 0))
  {
    if now.sec > t.sec + 1 {
      assert (now.sec - t.sec) * NSEC_PER_SEC >= 2 * NSEC_PER_SEC;
    } else if now.sec < t.sec {
      assert (t.sec - now.sec) * NSEC_PER_SEC >= NSEC_PER_SEC;
    }
  }

  /** The wait is the time between the two, to less than a millisecond. */
  lemma TimeDiffIsClose(x: Time, y: Time)
    requires Normal(x) && Normal(y)
    ensures -1_000_000 < TimeDiffMs(x, y) * 1_000_000 - (Instant(x) - Instant(y)) < 1_000_000
  {
    assert 0 <= x.nsec - x.nsec / 1_000_000 * 1_000_000 < 1_000_000;
    assert 0 <= y.nsec - y.nsec / 1_000_000 * 1_000_000 < 1_000_000;
  }

  // ------------------------------------------------------------ jobs and slots

  /** A queued job.  `serial` tells the allocated job objects apart: it is the number of jobs
      accepted before this one.  `work` stands for the callback and its argument. */
  datatype Job = Job(priority: int, id: nat, start: Time, work: int, serial: nat)

  type Slot = Option<Job>

  function Sign(a: int, b: int): int {
    if a < b then -1 else if a > b then 1 else 0
  }

  /** Empty slots go last; jobs go by priority, then start time, then id. */
  function JobCompare(a: Slot, b: Slot): int {
    if a.None? && b.None? then 0
    else if a.None? then 1
    else if b.None? then -1
    else if a.value.priority != b.value.priority then Sign(a.value.priority, b.value.priority)
    else if a.value.start.sec != b.value.start.sec then Sign(a.value.start.sec, b.value.start.sec)
    else if a.value.start.nsec != b.value.start.nsec then Sign(a.value.start.nsec, b.value.start.nsec)
    else Sign(a.value.id, b.value.id)
  }

  /** `a` goes before `b`, or they are equal in all that is compared: the lower priority number first, then
      the earlier start time, then the lower id. */
  lemma ComparesByFields(a: Job, b: Job)
    ensures JobCompare(Some(a), Some(b)) <= 0 <==>
              || a.priority < b.priority
              || (a.priority == b.priority
                  && (|| a.start.sec < b.start.sec
                      || (a.start.sec == b.start.sec
                          && (a.start.nsec < b.start.nsec || (a.start.nsec == b.start.nsec && a.id <= b.id)))))
    ensures JobCompare(Some(a), Some(b)) == 0 <==> a.priority == b.priority && a.start == b.start && a.id == b.id
  {
  }

  lemma EmptyGoesLast(a: Job)
    ensures JobCompare(Some(a), None) < 0 < JobCompare(None, Some(a))
  {
  }

  lemma JobCompareConsistent(dom: set<Slot>)
    ensures Consistent(JobCompare, dom)
  {
  }

  /** The occupied slots are in job order, whatever holes lie between them. */
  ghost predicate Ordered(q: seq<Slot>) {
    forall i, j | 0 <= i < j < |q| && q[i].Some? && q[j].Some? :: JobCompare(q[i], q[j]) <= 0
  }

  ghost predicate StrictlyOrdered(q: seq<Slot>) {
    forall i, j | 0 <= i < j < |q| && q[i].Some? && q[j].Some? :: JobCompare(q[i], q[j]) < 0
  }

  // ------------------------------------------------------------ taking a job

  predicate Due(s: Slot, now: Time) {
    s.Some? && TimeGt(now, s.value.start)
  }

  /** A job added without a delay is due from the first second on; one with a delay is due once the delay
      is over, and at its very end only if the nanoseconds had added up to a whole second. */
  lemma DueAfterDelay(job: Job, now: Time, milliseconds: nat, later: Time)
    requires Normal(now) && Normal(later) && job.start == StartAfter(now, milliseconds)
    ensures milliseconds == 0 && later.sec > 0 ==> Due(Some(job), later)
    ensures milliseconds > 0 ==>
              var end := Instant(now) + milliseconds * 1_000_000;
              Due(Some(job), later) <==>
                || Instant(later) > end
                || (Instant(later) == end && now.nsec + (milliseconds % 1000) * 1_000_000 == NSEC_PER_SEC)
  {
    if milliseconds > 0 {
      StartAfterInstant(now, milliseconds);
      TimeGtIsLater(later, job.start);
    }
  }

  /** The first slot whose job is due, or |q|. */
  function FirstDue(q: seq<Slot>, now: Time): (i: nat)
    ensures i <= |q| && (i < |q| ==> Due(q[i], now))
    ensures forall j | 0 <= j < i :: !Due(q[j], now)
  {
    if q == [] then 0 else if Due(q[0], now) then 0 else 1 + FirstDue(q[1..], now)
  }

  lemma FirstDueIs(q: seq<Slot>, now: Time, i: nat)
    requires i <= |q| && (i < |q| ==> Due(q[i], now)) && forall j | 0 <= j < i :: !Due(q[j], now)
    ensures FirstDue(q, now) == i
  {
  }

  lemma FirstDueIsLeast(q: seq<Slot>, now: Time)
    ensures var i := FirstDue(q, now);
            && (i < |q| <==> exists j :: 0 <= j < |q| && Due(q[j], now))
            && (i < |q| && Ordered(q) ==>
                  forall j | 0 <= j < |q| && Due(q[j], now) :: JobCompare(q[i], q[j]) <= 0)
            && (i < |q| && StrictlyOrdered(q) ==>
                  forall j | 0 <= j < |q| && Due(q[j], now) && j != i :: JobCompare(q[i], q[j]) < 0)
  {
    var i := FirstDue(q, now);
    if i < |q| {
      assert Due(q[i], now) && JobCompare(q[i], q[i]) == 0;
    }
  }

  /** `job` is taken before `other`, said on the fields: a lower priority number, or else an earlier start
      time, or else an id that is not larger. */
  predicate GoesFirst(job: Job, other: Job) {
    || job.priority < other.priority
    || (job.priority == other.priority && job.start.sec < other.start.sec)
    || (job.priority == other.priority && job.start.sec == other.start.sec && job.start.nsec < other.start.nsec)
    || (job.priority == other.priority && job.start == other.start && job.id <= other.id)
  }

  /** The start time of the slot's job has passed. */
  predicate Past(x: Slot, now: Time) {
    && x.Some?
    && (now.sec > x.value.start.sec || (now.sec == x.value.start.sec && now.nsec > x.value.start.nsec))
  }

  lemma PastIsDue(x: Slot, now: Time)
    ensures Past(x, now) <==> Due(x, now)
    ensures Past(x, now) ==> x.Some?
  {
  }

  lemma OrderByFields(x: Slot, y: Slot)
    requires x.Some? && y.Some?
    ensures JobCompare(x, y) <= 0 <==> GoesFirst(x.value, y.value)
    ensures JobCompare(x, y) < 0 ==> !GoesFirst(y.value, x.value)
  {
    ComparesByFields(x.value, y.value);
    ComparesByFields(y.value, x.value);
  }

  /** While the slots are in order, the first due job goes before every other due job. */
  lemma TakenIsLeastDue(q: seq<Slot>, now: Time)
    ensures var i := FirstDue(q, now);
            && (i < |q| <==> exists j :: 0 <= j < |q| && Past(q[j], now))
            && (i < |q| ==> Past(q[i], now))
            && (i < |q| && Ordered(q) ==>
                  forall j | 0 <= j < |q| && Past(q[j], now) :: GoesFirst(q[i].value, q[j].value))
            && (i < |q| && StrictlyOrdered(q) ==>
                  forall j | 0 <= j < |q| && Past(q[j], now) && j != i :: !GoesFirst(q[j].value, q[i].value))
  {
    hide JobCompare, Due, GoesFirst, Ordered, StrictlyOrdered;
    var i := FirstDue(q, now);
    FirstDueIsLeast(q, now);
    if j :| 0 <= j < |q| && Past(q[j], now) {
      PastIsDue(q[j], now);
    }
    if i < |q| {
      PastIsDue(q[i], now);
      forall j | 0 <= j < |q| && Past(q[j], now)
        ensures Ordered(q) ==> GoesFirst(q[i].value, q[j].value)
        ensures StrictlyOrdered(q) && j != i ==> !GoesFirst(q[j].value, q[i].value)
      {
        PastIsDue(q[j], now);
        OrderByFields(q[i], q[j]);
      }
    }
  }

  /** The wake-up time a full scan settles on, starting from `limit`. */
  function Deadline(q: seq<Slot>, limit: Time): Time {
    if q == [] then limit
    else
      var before, last := Deadline(q[..|q| - 1], limit), q[|q| - 1];
      if last.Some? && TimeGt(before, last.value.start) then last.value.start else before
  }

  /** ... is the least of `limit` and the queued start times. */
  lemma {:induction false} DeadlineIsMinimum(q: seq<Slot>, limit: Time)
    ensures var d := Deadline(q, limit);
            && !TimeGt(d, limit) && (forall i | 0 <= i < |q| && q[i].Some? :: !TimeGt(d, q[i].value.start))
            && (d == limit || exists i :: 0 <= i < |q| && q[i].Some? && q[i].value.start == d)
  {
    if q != [] {
      var front := q[..|q| - 1];
      DeadlineIsMinimum(front, limit);
      if d :| 0 <= d < |front| && front[d].Some? && front[d].value.start == Deadline(front, limit) {
        assert q[d] == front[d];
      }
      forall i | 0 <= i < |q| && q[i].Some?
        ensures !TimeGt(Deadline(q, limit), q[i].value.start)
      {
        assert i < |front| ==> q[i] == front[i];
      }
    }
  }

  /** Milliseconds to sleep; 5000 unless some queued job set the deadline. */
  function WaitMs(q: seq<Slot>, now: Time, limit: Time): int {
    if Deadline(q, limit) == limit then 5000 else TimeDiffMs(Deadline(q, limit), now)
  }

  const IDLE_SECONDS := 9999

  function IdleLimit(now: Time): Time {
    Time(now.sec + IDLE_SECONDS, now.nsec)
  }

  // ------------------------------------------------------------ the shared state

  datatype Ctx = Ctx(queue: seq<Slot>, waiting: int, nextId: nat)

  function Take(c: Ctx, now: Time): (Ctx, Slot) {
    var i := FirstDue(c.queue, now);
    if i == |c.queue| then (c, None)
    else (c.(queue := c.queue[i := None], waiting := c.waiting - 1), c.queue[i])
  }

  predicate Full(q: seq<Slot>) {
    forall i | 0 <= i < |q| :: q[i].Some?
  }

  /** The first free slot, or |q|. */
  function FirstFree(q: seq<Slot>): (i: nat)
    ensures i <= |q| && (i < |q| ==> q[i].None?) && forall j | 0 <= j < i :: q[j].Some?
    ensures i == |q| <==> Full(q)
  {
    if q == [] then 0 else if q[0].None? then 0 else 1 + FirstFree(q[1..])
  }

  /** The next job id: the counter goes back to 0 when it would overflow. */
  function NextId(id: nat): nat {
    if id == INT_MAX then 0 else id + 1
  }

  /** `c'` is `c` with `job` added and the slots sorted. */
  ghost predicate Added(c: Ctx, job: Job, c': Ctx) {
    && !Full(c.queue)
    && SortedPermutation(JobCompare, c.queue[FirstFree(c.queue) := Some(job)], c'.queue)
    && c'.waiting == c.waiting + 1 && c'.nextId == NextId(c.nextId)
  }

  /** The slots afterwards: the jobs there were and the new one, in the order of their fields, and no hole
      before a job. */
  lemma AddedSlots(c: Ctx, job: Job, c': Ctx)
    requires Added(c, job, c')
    ensures multiset(c'.queue) == multiset(c.queue) - multiset{None} + multiset{Some(job)}
    ensures forall i, j | 0 <= i < j < |c'.queue| && c'.queue[j].Some? :: c'.queue[i].Some?
    ensures forall i, j | 0 <= i < j < |c'.queue| && c'.queue[i].Some? && c'.queue[j].Some? ::
              JobCompare(c'.queue[i], c'.queue[j]) <= 0
  {
    hide JobCompare;
    var i, q := FirstFree(c.queue), c.queue;
    assert q[i] in multiset(q);
    forall i, j | 0 <= i < j < |c'.queue| && c'.queue[j].Some?
      ensures c'.queue[i].Some?
    {
      assert JobCompare(c'.queue[i], c'.queue[j]) <= 0;
      EmptyGoesLast(c'.queue[j].value);
    }
  }

  predicate HasId(s: Slot, id: int) {
    s.Some? && s.value.id == id
  }

  function FirstWithId(q: seq<Slot>, id: int): (i: nat)
    ensures i <= |q| && (i < |q| ==> HasId(q[i], id))
    ensures forall j | 0 <= j < i :: !HasId(q[j], id)
  {
    if q == [] then 0 else if HasId(q[0], id) then 0 else 1 + FirstWithId(q[1..], id)
  }

  function Dequeued(c: Ctx, id: int): (Ctx, Slot) {
    var i := FirstWithId(c.queue, id);
    if i == |c.queue| then (c, None)
    else (c.(queue := c.queue[i := None], waiting := c.waiting - 1), c.queue[i])
  }

  /** Dequeuing succeeds exactly when some queued job has the id, and takes the first such job out of its
      slot. */
  lemma DequeuedById(c: Ctx, id: int)
    ensures var (c', job) := Dequeued(c, id);
            && (job.Some? <==> exists j :: 0 <= j < |c.queue| && c.queue[j].Some? && c.queue[j].value.id == id)
            && (job.None? ==> c' == c)
            && (job.Some? ==>
                  && job.value.id == id && c'.waiting == c.waiting - 1 && c'.nextId == c.nextId
                  && exists j :: 0 <= j < |c.queue| && c.queue[j] == job && c'.queue == c.queue[j := None]
                                 && forall k | 0 <= k < j && c.queue[k].Some? :: c.queue[k].value.id != id)
  {
    var i := FirstWithId(c.queue, id);
    assert i < |c.queue| ==> HasId(c.queue[i], id);
    assert forall j | 0 <= j < i :: !HasId(c.queue[j], id);
  }

  function Occupied(q: seq<Slot>): nat {
    if q == [] then 0 else Occupied(q[..|q| - 1]) + if q[|q| - 1].Some? then 1 else 0
  }

  /** Every slot cleared; the waiting count is left as it was. */
  function Emptied(c: Ctx): Ctx {
    c.(queue := seq(|c.queue|, _ => None))
  }

  class Context {
    const queue: array<Slot>
    var waitingJobs: int
    var jobCount: nat

    ghost function Abs(): Ctx
      reads this, queue
    {
      Ctx(queue[..], waitingJobs, jobCount)
    }

    constructor (queueSize: nat)
      ensures Abs() == Ctx(seq(queueSize, _ => None), 0, 0) && fresh(queue)
    {
      queue := new Slot[queueSize](_ => None);
      waitingJobs, jobCount := 0, 0;
    }

    /** Takes the first due job.  `keepRunning` is the worker's flag before the lock is taken,
        `keepScanning` its value while the lock is held. */
    method GetJob(keepRunning: bool, keepScanning: bool, now: Time, waitBefore: Time, waitMsBefore: int)
      returns (job: Slot, waitTime: Time, waitMs: int)
      modifies this`waitingJobs, queue
      ensures if keepRunning && keepScanning then (Abs(), job) == Take(old(Abs()), now)
              else Abs() == old(Abs()) && job == None
      ensures !keepRunning ==> waitTime == waitBefore && waitMs == waitMsBefore
      ensures keepRunning && !keepScanning ==> waitTime == IdleLimit(now) && waitMs == 5000
      ensures keepRunning && keepScanning && job == None ==>
                waitTime == Deadline(queue[..], IdleLimit(now)) && waitMs == WaitMs(queue[..], now, IdleLimit(now))
    {
      job := None;
      if !keepRunning {
        return None, waitBefore, waitMsBefore;
      }
      waitTime := IdleLimit(now);
      waitMs := 5000;
      var i := 0;
      while keepScanning && i < queue.Length
        invariant i <= queue.Length && job == None && Abs() == old(Abs())
        invariant forall j | 0 <= j < i :: !Due(queue[j], now)
        invariant waitTime == Deadline(queue[..i], IdleLimit(now))
        invariant waitMs == WaitMs(queue[..i], now, IdleLimit(now))
        invariant !keepScanning ==> i == 0
      {
        ghost var seen := queue[..i + 1];
        assert seen[..i] == queue[..i];
        DeadlineIsMinimum(queue[..i], IdleLimit(now));
        if queue[i].Some? {
          if TimeGt(now, queue[i].value.start) {
            FirstDueIs(queue[..], now, i);
            job := queue[i];
            queue[i] := None;
            waitingJobs := waitingJobs - 1;
            return;
          } else if TimeGt(waitTime, queue[i].value.start) {
            waitTime := queue[i].value.start;
            waitMs := TimeDiffMs(queue[i].value.start, now);
          }
        }
        i := i + 1;
      }
      if keepScanning {
        assert queue[..i] == queue[..];
        FirstDueIs(queue[..], now, i);
      }
    }

    method QueueLen() returns (n: int)
      ensures n == Abs().waiting
    {
      n := waitingJobs;
    }

    /** Adds a job to the first free slot and sorts the slots.  Returns the new job's id, -EBUSY when
        every slot is taken, or -ENOMEM when the job cannot be allocated. */
    method AddWork(priority: int, milliseconds: nat, work: int, serial: nat, now: Time, allocates: bool) returns (ret: int)
      modifies this, queue
      ensures Full(old(Abs()).queue) ==> ret == -EBUSY
      ensures !Full(old(Abs()).queue) && !allocates ==> ret == -ENOMEM
      ensures !Full(old(Abs()).queue) && allocates ==>
                && ret == old(jobCount)
                && Added(old(Abs()), Job(priority, ret, StartAfter(now, milliseconds), work, serial), Abs())
      ensures Full(old(Abs()).queue) || !allocates ==> Abs() == old(Abs())
      ensures ret == -EBUSY <==> Full(old(Abs()).queue)
    {
      var i := 0;
      while i < queue.Length
        invariant i <= queue.Length && Abs() == old(Abs())
        invariant forall j | 0 <= j < i :: queue[j].Some?
      {
        if queue[i].Some? {
          i := i + 1;
          continue;
        }
        if !allocates {
          return -ENOMEM;
        }
        ret := jobCount;
        var job := Job(priority, ret, StartAfter(now, milliseconds), work, serial);
        jobCount := NextId(jobCount);
        ghost var before := queue[..];
        FirstFreeIs(before, i);
        queue[i] := Some(job);
        waitingJobs := waitingJobs + 1;
        assert queue[..] == before[i := Some(job)];
        JobCompareConsistent(Elements(queue[..]));
        var sorted := QSort(JobCompare, queue[..]);
        SortedLength(JobCompare, queue[..], sorted);
        forall k | 0 <= k < queue.Length {
          queue[k] := sorted[k];
        }
        assert queue[..] == sorted;
        return;
      }
      assert Full(queue[..]);
      return -EBUSY;
    }

    method Dequeue(id: int) returns (ret: int)
      modifies this`waitingJobs, queue
      ensures Abs() == Dequeued(old(Abs()), id).0
      ensures ret == if Dequeued(old(Abs()), id).1.Some? then 0 else -ENOENT
    {
      var i := 0;
      while i < queue.Length
        invariant i <= queue.Length && Abs() == old(Abs())
        invariant forall j | 0 <= j < i :: !HasId(queue[j], id)
      {
        if queue[i].Some? && queue[i].value.id == id {
          FirstWithIdIs(queue[..], id, i);
          queue[i] := None;
          waitingJobs := waitingJobs - 1;
          return 0;
        }
        i := i + 1;
      }
      FirstWithIdIs(queue[..], id, i);
      return -ENOENT;
    }

    /** Clears every slot and counts the jobs thrown away. */
    method EmptyQueue() returns (count: nat)
      modifies queue
      ensures Abs() == Emptied(old(Abs()))
      ensures count == Occupied(old(Abs()).queue)
    {
      count := 0;
      var i := 0;
      while i < queue.Length
        invariant i <= queue.Length
        invariant forall j | 0 <= j < i :: queue[j] == None
        invariant forall j | i <= j < queue.Length :: queue[j] == old(queue[j])
        invariant count == Occupied(old(queue[..])[..i])
      {
        assert old(queue[..])[..i + 1][..i] == old(queue[..])[..i];
        if queue[i].Some? {
          queue[i] := None;
          count := count + 1;
        }
        i := i + 1;
      }
      assert old(queue[..])[..i] == old(queue[..]);
      assert queue[..] == Emptied(old(Abs())).queue;
    }
  }

  lemma FirstFreeIs(q: seq<Slot>, i: nat)
    requires i < |q| && q[i].None? && forall j | 0 <= j < i :: q[j].Some?
    ensures !Full(q) && FirstFree(q) == i
  {
  }

  lemma FirstWithIdIs(q: seq<Slot>, id: int, i: nat)
    requires i <= |q| && (i < |q| ==> HasId(q[i], id)) && forall j | 0 <= j < i :: !HasId(q[j], id)
    ensures FirstWithId(q, id) == i
  {
  }

  lemma SortedLength(cmp: (Slot, Slot) -> int, q: seq<Slot>, q': seq<Slot>)
    requires SortedPermutation(cmp, q, q')
    ensures |q| == |q'|
  {
    assert |multiset(q)| == |q| && |multiset(q')| == |q'|;
  }
}
