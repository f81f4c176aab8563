/**
 The worker threads of a repair (src/repair.rs): each takes a contiguous range of chunks,
 looks at the cancel flag before every chunk, and stores each result in its own cell.  Every
 interleaving is considered.

 `FinishedWithoutCancel`: if no worker saw the flag, every cell has been filled, exactly
 once, when all workers are done, so that "was not processed" cannot be reported.
 */
module Workers {
  import opened Constants
  import opened RepairChunks

  /** How many chunks each thread gets. */
  function PerThread(chunks: nat, threads: nat): nat
    requires threads > 0
  {
    (chunks + threads - 1) / threads
  }

  function StartOf(t: nat, per: nat): nat {
    t * per
  }

  function EndOf(t: nat, per: nat, chunks: nat): nat {
    Least(t * per + per, chunks)
  }

  /** Threads whose range would start after the last chunk are not started. */
  function Spawned(chunks: nat, threads: nat, per: nat, t: nat): (n: nat)
    requires t <= threads
    ensures t <= n <= threads
    ensures forall k :: t <= k < n ==> StartOf(k, per) < chunks
    ensures n < threads ==> StartOf(n, per) >= chunks
    decreases threads - t
  {
    if t == threads || StartOf(t, per) >= chunks then t else Spawned(chunks, threads, per, t + 1)
  }

  datatype Pc = AtCheck | AtWork | AtStore | Finished

  datatype Worker = Worker(next: nat, pc: Pc)

  /** writes[i] counts the stores into cell i; `flag` is the caller's cancel flag. */
  datatype State = State(workers: seq<Worker>, writes: seq<nat>, observed: bool, flag: bool)

  datatype Plan = Plan(chunks: nat, threads: nat)

  predicate Sound(p: Plan) {
    p.threads > 0
  }

  function Per(p: Plan): nat
    requires Sound(p)
  {
    PerThread(p.chunks, p.threads)
  }

  function Count(p: Plan): nat
    requires Sound(p)
  {
    Spawned(p.chunks, p.threads, Per(p), 0)
  }

  predicate Init(p: Plan, s: State)
    requires Sound(p)
  {
    && |s.workers| == Count(p) && |s.writes| == p.chunks && !s.observed
    && (forall t :: 0 <= t < |s.workers| ==> s.workers[t] == Worker(StartOf(t, Per(p)), AtCheck))
    && (forall i :: 0 <= i < |s.writes| ==> s.writes[i] == 0)
  }

  /** One step of worker t. */
  predicate WorkerStep(p: Plan, s: State, s': State, t: nat)
    requires Sound(p)
  {
    && t < |s.workers| && |s.writes| == p.chunks
    && var w := s.workers[t];
    && var end := EndOf(t, Per(p), p.chunks);
    && s'.flag == s.flag
    && match w.pc
       case AtCheck =>
         && s'.writes == s.writes && s'.observed == s.observed
         && s'.workers == s.workers[t := w.(pc := if w.next >= end then Finished
                                                  else if s.flag || s.observed then AtStore else AtWork)]
       case AtWork =>
         && w.next < p.chunks
         && s'.writes == s.writes[w.next := s.writes[w.next] + 1] && s'.observed == s.observed
         && s'.workers == s.workers[t := Worker(w.next + 1, AtCheck)]
       case AtStore =>
         s'.writes == s.writes && s'.observed && s'.workers == s.workers[t := w.(pc := Finished)]
       case Finished => false
  }

  /** Any worker moves, or the caller sets the flag. */
  ghost predicate Next(p: Plan, s: State, s': State)
    requires Sound(p)
  {
    (exists t: nat :: WorkerStep(p, s, s', t)) || s' == s.(flag := true)
  }

  ghost predicate IsRun(p: Plan, run: seq<State>)
    requires Sound(p)
  {
    run != [] && Init(p, run[0]) && forall i :: 0 <= i < |run| - 1 ==> Next(p, run[i], run[i + 1])
  }

  // ----- the ranges partition the chunks

  lemma RangesApart(p: Plan, t: nat, u: nat, i: nat)
    requires Sound(p)
    requires StartOf(t, Per(p)) <= i < EndOf(t, Per(p), p.chunks)
             && StartOf(u, Per(p)) <= i < EndOf(u, Per(p), p.chunks)
    ensures t == u
  {
    hide PerThread;
    SameQuotient(i, Per(p), t, u);
  }

  /** Every chunk is in the range of a thread that is started. */
  lemma RangeOfChunk(p: Plan, i: nat) returns (t: nat)
    requires Sound(p) && i < p.chunks
    ensures t < Count(p) && StartOf(t, Per(p)) <= i < EndOf(t, Per(p), p.chunks)
  {
    var per := Per(p);
    EnoughPerThread(p);
    hide PerThread;
    t := i / per;
    QuotientBounds(i, per);
    if t >= p.threads {
      ProductMonotone(p.threads, t, per);
    }
    if Count(p) <= t {
      ProductMonotone(Count(p), t, per);
    }
  }

  lemma EnoughPerThread(p: Plan)
    requires Sound(p) && p.chunks > 0
    ensures Per(p) > 0 && p.threads * Per(p) >= p.chunks
  {
    CeilBounds(p.chunks, p.threads);
  }

  lemma ProductMonotone(a: nat, b: nat, c: nat)
    requires a <= b
    ensures a * c <= b * c
  {
    if a < b {
      MulLess(a, b, c);
    }
  }

  // ----- the invariant

  predicate WorkerOk(p: Plan, s: State, t: nat)
    requires Sound(p) && t < |s.workers|
  {
    var w := s.workers[t];
    && StartOf(t, Per(p)) <= w.next <= EndOf(t, Per(p), p.chunks)
    && (w.pc == AtWork ==> w.next < EndOf(t, Per(p), p.chunks))
    && (w.pc == Finished ==> w.next == EndOf(t, Per(p), p.chunks) || s.observed)
  }

  /** In its range, a worker has filled the cells before its next chunk, once each. */
  predicate CellsOk(p: Plan, s: State, t: nat)
    requires Sound(p) && t < |s.workers| && |s.writes| == p.chunks
  {
    forall i :: StartOf(t, Per(p)) <= i < EndOf(t, Per(p), p.chunks) ==>
        s.writes[i] == if i < s.workers[t].next then 1 else 0
  }

  ghost predicate Invariant(p: Plan, s: State)
    requires Sound(p)
  {
    && |s.workers| == Count(p) && |s.writes| == p.chunks
    && (forall t :: 0 <= t < |s.workers| ==> WorkerOk(p, s, t) && CellsOk(p, s, t))
  }

  lemma InitInvariant(p: Plan, s: State)
    requires Sound(p) && Init(p, s)
    ensures Invariant(p, s)
  {
    hide PerThread;
    forall t | 0 <= t < |s.workers|
      ensures WorkerOk(p, s, t)
    {
      assert StartOf(t, Per(p)) < p.chunks;
    }
  }

  /** The other workers are not affected by a step. */
  lemma OthersKeep(p: Plan, s: State, s': State, t: nat, u: nat)
    requires Sound(p) && Invariant(p, s) && WorkerStep(p, s, s', t) && u < |s.workers| && u != t
    ensures WorkerOk(p, s', u) && CellsOk(p, s', u)
  {
    hide Per, Count;
    assert WorkerOk(p, s, t) && WorkerOk(p, s, u) && CellsOk(p, s, u);
    var w := s.workers[t];
    if w.pc == AtWork {
      var i := w.next;
      if StartOf(u, Per(p)) <= i < EndOf(u, Per(p), p.chunks) {
        RangesApart(p, t, u, i);
      }
    }
  }

  lemma MoverKeeps(p: Plan, s: State, s': State, t: nat)
    requires Sound(p) && Invariant(p, s) && WorkerStep(p, s, s', t)
    ensures WorkerOk(p, s', t) && CellsOk(p, s', t)
  {
    hide Per, Count;
    assert WorkerOk(p, s, t) && CellsOk(p, s, t);
  }

  lemma StepKeepsInvariant(p: Plan, s: State, s': State)
    requires Sound(p) && Invariant(p, s) && Next(p, s, s')
    ensures Invariant(p, s')
  {
    hide Per, Count, StartOf, EndOf;
    if t: nat :| WorkerStep(p, s, s', t) {
      forall u | 0 <= u < |s'.workers|
        ensures WorkerOk(p, s', u) && CellsOk(p, s', u)
      {
        if u == t {
          MoverKeeps(p, s, s', t);
        } else {
          OthersKeep(p, s, s', t, u);
        }
      }
    } else {
      forall u | 0 <= u < |s'.workers|
        ensures WorkerOk(p, s', u) && CellsOk(p, s', u)
      {
        assert WorkerOk(p, s, u) && CellsOk(p, s, u);
      }
    }
  }

  lemma {:induction false} RunKeepsInvariant(p: Plan, run: seq<State>, k: nat)
    requires Sound(p) && IsRun(p, run) && k < |run|
    ensures Invariant(p, run[k])
  {
    hide Next, Invariant, Init;
    if k == 0 {
      InitInvariant(p, run[0]);
    } else {
      RunKeepsInvariant(p, run, k - 1);
      StepKeepsInvariant(p, run[k - 1], run[k]);
    }
  }

  /** No cell is ever written twice. */
  lemma WrittenOnce(p: Plan, run: seq<State>, k: nat, i: nat)
    requires Sound(p) && IsRun(p, run) && k < |run| && i < p.chunks
    ensures |run[k].writes| == p.chunks && run[k].writes[i] <= 1
  {
    hide IsRun, Per, Count;
    RunKeepsInvariant(p, run, k);
    var t := RangeOfChunk(p, i);
    assert CellsOk(p, run[k], t);
  }

  /** All workers done and the flag never seen: every chunk has been processed, once. */
  lemma FinishedWithoutCancel(p: Plan, run: seq<State>, k: nat, i: nat)
    requires Sound(p) && IsRun(p, run) && k < |run| && i < p.chunks
    requires forall t :: 0 <= t < |run[k].workers| ==> run[k].workers[t].pc == Finished
    requires !run[k].observed
    ensures |run[k].writes| == p.chunks && run[k].writes[i] == 1
  {
    hide IsRun, Per, Count;
    RunKeepsInvariant(p, run, k);
    var t := RangeOfChunk(p, i);
    assert CellsOk(p, run[k], t) && WorkerOk(p, run[k], t);
  }

  // ----- after a cancel

  /** The first chunk that a worker will not store any more, if the flag is set. */
  function Limit(w: Worker): nat {
    w.next + if w.pc == AtWork then 1 else 0
  }

  lemma FlagStops(p: Plan, s: State, s': State, t: nat)
    requires Sound(p) && Next(p, s, s') && s.flag && t < |s.workers|
    ensures s'.flag && |s'.workers| == |s.workers| && Limit(s'.workers[t]) == Limit(s.workers[t])
            && s'.workers[t].next >= s.workers[t].next
  {
    hide Per;
    if u: nat :| WorkerStep(p, s, s', u) {
      assert u != t ==> s'.workers[t] == s.workers[t];
    }
  }

  lemma {:induction false} LimitKept(p: Plan, run: seq<State>, i: nat, j: nat, t: nat)
    requires Sound(p) && IsRun(p, run) && i <= j < |run| && run[i].flag && t < |run[i].workers|
    ensures run[j].flag && |run[j].workers| == |run[i].workers| && Limit(run[j].workers[t]) == Limit(run[i].workers[t])
            && run[j].workers[t].next >= run[i].workers[t].next
    decreases j
  {
    hide Next, Init, Limit;
    if i < j {
      LimitKept(p, run, i, j - 1, t);
      FlagStops(p, run[j - 1], run[j], t);
    }
  }

  /**
   Once the flag is set, it stays set, and a worker stores nothing more but the chunk it has begun; a
   worker that ends before the last chunk of its range reports the cancel.
   */
  lemma StoresAfterCancel(p: Plan, run: seq<State>, i: nat, j: nat, t: nat, chunk: nat)
    requires Sound(p) && IsRun(p, run) && i <= j < |run| && run[i].flag && t < |run[i].workers|
    requires StartOf(t, Per(p)) <= chunk < EndOf(t, Per(p), p.chunks)
    ensures |run[i].writes| == |run[j].writes| == p.chunks && |run[j].workers| == |run[i].workers| && run[j].flag
    ensures run[j].writes[chunk] != run[i].writes[chunk] ==>
              run[i].workers[t] == Worker(chunk, AtWork) && run[j].writes[chunk] == 1
    ensures run[j].workers[t].pc == Finished && Limit(run[i].workers[t]) < EndOf(t, Per(p), p.chunks) ==>
              run[j].observed
  {
    hide IsRun, Per, Count, StartOf, EndOf;
    LimitKept(p, run, i, j, t);
    RunKeepsInvariant(p, run, i);
    RunKeepsInvariant(p, run, j);
    assert CellsOk(p, run[i], t) && CellsOk(p, run[j], t) && WorkerOk(p, run[j], t);
  }

  /** A cancel is seen or reported only if the caller has set the flag. */
  predicate OnlyRealCancel(s: State) {
    && (s.observed ==> s.flag)
    && forall t :: 0 <= t < |s.workers| ==> s.workers[t].pc == AtStore ==> s.flag
  }

  lemma {:induction false} CancelIsReal(p: Plan, run: seq<State>, k: nat)
    requires Sound(p) && IsRun(p, run) && k < |run|
    ensures OnlyRealCancel(run[k])
  {
    hide Per, Count;
    if k > 0 {
      CancelIsReal(p, run, k - 1);
      var (s, s') := (run[k - 1], run[k]);
      assert Next(p, s, s');
      if t: nat :| WorkerStep(p, s, s', t) {
        assert forall u :: 0 <= u < |s'.workers| && u != t ==> s'.workers[u] == s.workers[u];
      }
    }
  }

  /** Some worker can always move until all are done. */
  lemma NoDeadlock(p: Plan, run: seq<State>, k: nat, t: nat) returns (s': State)
    requires Sound(p) && IsRun(p, run) && k < |run| && t < |run[k].workers| && run[k].workers[t].pc != Finished
    ensures Next(p, run[k], s') && s'.workers[t] != run[k].workers[t]
  {
    hide IsRun, Count, Per;
    RunKeepsInvariant(p, run, k);
    var s := run[k];
    assert WorkerOk(p, s, t);
    var w := s.workers[t];
    var end := EndOf(t, Per(p), p.chunks);
    match w.pc {
      case AtCheck =>
        s' := s.(workers := s.workers[t := w.(pc := if w.next >= end then Finished
                                                    else if s.flag || s.observed then AtStore else AtWork)]);
      case AtWork =>
        s' := s.(writes := s.writes[w.next := s.writes[w.next] + 1],
                 workers := s.workers[t := Worker(w.next + 1, AtCheck)]);
      case AtStore =>
        s' := s.(observed := true, workers := s.workers[t := w.(pc := Finished)]);
    }
    assert WorkerStep(p, s, s', t);
  }
}
