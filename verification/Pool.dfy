/** The worker pool of `Search`: one sender fills a bounded channel with indices, workers take them
    out in order, scan, and write their own slot. Any number of goroutines interleave, so a schedule
    is a sequence of three kinds of steps. */
module Pool {
  import opened Collections

  const CHANNEL_SIZE: nat := 256

  /** How many indices are sent, which wait in the channel, what each busy worker scans, which are
      done in which order, and the result slots. */
  datatype Progress<R> = Progress(sent: nat, queue: seq<nat>, busy: map<nat, nat>, done: seq<nat>, slots: seq<R>)

  datatype Step = Send | Take(worker: nat) | Finish(worker: nat)

  /** `n` files, scanned by `scan`, on `workers` workers. */
  datatype Job<R> = Job(n: nat, workers: nat, scan: nat -> R)

  function Begin<R>(job: Job<R>, blank: R): Progress<R> {
    Progress(0, [], map[], [], seq(job.n, _ => blank))
  }

  predicate Enabled<R>(job: Job<R>, s: Progress<R>, step: Step) {
    match step
    case Send => s.sent < job.n && |s.queue| < CHANNEL_SIZE
    case Take(worker) => worker < job.workers && worker !in s.busy && s.queue != []
    case Finish(worker) => worker in s.busy && s.busy[worker] < |s.slots|
  }

  function Do<R>(job: Job<R>, s: Progress<R>, step: Step): Progress<R>
    requires Enabled(job, s, step)
  {
    match step
    case Send => s.(sent := s.sent + 1, queue := s.queue + [s.sent])
    case Take(worker) => s.(queue := s.queue[1..], busy := s.busy[worker := s.queue[0]])
    case Finish(worker) =>
      var i := s.busy[worker];
      s.(busy := s.busy - {worker}, done := s.done + [i], slots := s.slots[i := job.scan(i)])
  }

  ghost predicate Runs<R>(job: Job<R>, s: Progress<R>, steps: seq<Step>, end: Progress<R>)
    decreases |steps|
  {
    if steps == [] then s == end
    else Enabled(job, s, steps[0]) && Runs(job, Do(job, s, steps[0]), steps[1..], end)
  }

  /** The channel is closed and drained, and every worker has returned. */
  predicate Complete<R>(job: Job<R>, s: Progress<R>) {
    s.sent == job.n && s.queue == [] && s.busy == map[]
  }

  /** Index `i` is in exactly one place: unsent, waiting, at one worker, or done. */
  ghost predicate Placed<R>(s: Progress<R>, i: nat) {
    && (i in s.queue ==> i < s.sent && i !in s.done && i !in s.busy.Values)
    && (i in s.busy.Values ==> i < s.sent && i !in s.done)
    && (i in s.done ==> i < s.sent)
    && (i < s.sent ==> i in s.queue || i in s.busy.Values || i in s.done)
  }

  ghost predicate Sane<R>(job: Job<R>, s: Progress<R>) {
    && s.sent <= job.n && |s.slots| == job.n
    && (forall i: nat :: Placed(s, i))
    && Distinct(s.queue) && Distinct(s.done)
    && (forall v, w :: v in s.busy && w in s.busy && s.busy[v] == s.busy[w] ==> v == w)
    && (forall w :: w in s.busy ==> w < job.workers)
    && s.sent == |s.queue| + |s.busy| + |s.done|
    && (forall i: nat :: i in s.done && i < job.n ==> s.slots[i] == job.scan(i))
  }

  /** Each index takes three steps. */
  function Work<R>(s: Progress<R>): int { s.sent + (s.sent - |s.queue|) + |s.done| }

  lemma BeginIsSane<R>(job: Job<R>, blank: R)
    ensures Sane(job, Begin(job, blank))
  {
  }

  lemma SendKeeps<R>(job: Job<R>, s: Progress<R>)
    requires Sane(job, s) && Enabled(job, s, Send)
    ensures Sane(job, Do(job, s, Send))
  {
    var s' := Do(job, s, Send);
    forall i: nat ensures Placed(s', i) {
      assert Placed(s, i);
    }
    assert Placed(s, s.sent);
  }

  lemma TakeKeeps<R>(job: Job<R>, s: Progress<R>, worker: nat)
    requires Sane(job, s) && Enabled(job, s, Take(worker))
    ensures Sane(job, Do(job, s, Take(worker)))
  {
    var s' := Do(job, s, Take(worker));
    var taken := s.queue[0];
    assert taken in s.queue && Placed(s, taken);
    forall i: nat ensures i in s'.queue <==> i in s.queue && i != taken {
      if i in s.queue && i != taken {
        var k :| 0 <= k < |s.queue| && s.queue[k] == i;
        assert s'.queue[k - 1] == i;
      }
    }
    forall i: nat ensures i in s'.busy.Values <==> i in s.busy.Values || i == taken {
      if i in s.busy.Values {
        var w :| w in s.busy && s.busy[w] == i;
        assert s'.busy[w] == i;
      }
      assert s'.busy[worker] == taken;
    }
    forall i: nat ensures Placed(s', i) {
      assert Placed(s, i);
    }
  }

  lemma FinishKeeps<R>(job: Job<R>, s: Progress<R>, worker: nat)
    requires Sane(job, s) && Enabled(job, s, Finish(worker))
    ensures Sane(job, Do(job, s, Finish(worker)))
  {
    var s' := Do(job, s, Finish(worker));
    var ready := s.busy[worker];
    assert ready in s.busy.Values && Placed(s, ready);
    forall i: nat ensures i in s'.busy.Values <==> i in s.busy.Values && i != ready {
      if i in s.busy.Values && i != ready {
        var w :| w in s.busy && s.busy[w] == i;
        assert s'.busy[w] == i;
      }
    }
    forall i: nat ensures Placed(s', i) {
      assert Placed(s, i);
    }
  }

  lemma {:induction false} RunKeeps<R>(job: Job<R>, s: Progress<R>, steps: seq<Step>, end: Progress<R>)
    requires Sane(job, s) && Runs(job, s, steps, end)
    ensures Sane(job, end) && Work(end) == Work(s) + |steps|
    decreases |steps|
  {
    hide Sane;
    if steps != [] {
      match steps[0] {
        case Send => SendKeeps(job, s);
        case Take(worker) => TakeKeeps(job, s, worker);
        case Finish(worker) => FinishKeeps(job, s, worker);
      }
      RunKeeps(job, Do(job, s, steps[0]), steps[1..], end);
    }
  }

  /** Whatever the schedule and the number of workers: every complete run takes three steps a file,
      scans every index exactly once, and leaves in each slot the result of its own file. */
  lemma PoolFillsSlots<R>(job: Job<R>, blank: R, steps: seq<Step>, end: Progress<R>)
    requires Runs(job, Begin(job, blank), steps, end)
    ensures |steps| <= 3 * job.n
    ensures Complete(job, end) ==>
      && |steps| == 3 * job.n
      && Distinct(end.done) && (forall i: nat :: i in end.done <==> i < job.n)
      && |end.slots| == job.n && (forall i: nat :: i < job.n ==> end.slots[i] == job.scan(i))
  {
    BeginIsSane(job, blank);
    RunKeeps(job, Begin(job, blank), steps, end);
    if Complete(job, end) {
      forall i: nat ensures i in end.done <==> i < job.n {
        assert Placed(end, i);
      }
    }
  }

  /** With at least one worker the pool cannot get stuck. */
  lemma PoolNeverStuck<R>(job: Job<R>, s: Progress<R>)
    requires Sane(job, s) && job.workers > 0 && !Complete(job, s)
    ensures exists step :: Enabled(job, s, step)
  {
    if s.busy != map[] {
      var w :| w in s.busy;
      assert s.busy[w] in s.busy.Values && Placed(s, s.busy[w]);
      assert Enabled(job, s, Finish(w));
    } else if s.queue != [] {
      assert Enabled(job, s, Take(0));
    } else {
      assert Enabled(job, s, Send);
    }
  }
}
