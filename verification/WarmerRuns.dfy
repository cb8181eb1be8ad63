/**
 Every interleaving of the warmer's worker pool and of join (src/vfs/forensic_warmer.cpp):
 one atomic operation per step, sequentially consistent.
 */
module WarmerRuns {

  /** Where a worker stands. Reporting is three operations: exchange, load, log. */
  datatype Worker =
    | Claiming
    | Warming(index: nat)
    | Counting(index: nat)
    | Leaving
    | Exchanging
    | Checking
    | Logging
    | Done

  /** Where join stands: not called, waiting in thread join, then reporting like a worker. */
  datatype Join = NotJoining | JoinExchanging | JoinChecking | JoinLogging

  datatype State = State(
    next: nat,
    claims: seq<nat>,       // which worker got index 0, 1, 2, ...
    warmed: nat,
    remaining: int,
    reported: bool,
    log: seq<nat>,          // the file counts of the completion lines logged
    workers: seq<Worker>,
    join: Join)

  // ---------- counting workers ----------

  predicate Busy(w: Worker) { w.Warming? || w.Counting? }
  predicate Active(w: Worker) { w.Claiming? || Busy(w) || w.Leaving? }
  predicate PastClaims(w: Worker) { !w.Claiming? && !Busy(w) }
  predicate MayLog(w: Worker) { w.Checking? || w.Logging? }

  function CountBusy(ws: seq<Worker>): nat {
    if ws == [] then 0 else CountBusy(ws[1..]) + if Busy(ws[0]) then 1 else 0
  }

  function CountActive(ws: seq<Worker>): nat {
    if ws == [] then 0 else CountActive(ws[1..]) + if Active(ws[0]) then 1 else 0
  }

  function CountMayLog(ws: seq<Worker>): nat {
    if ws == [] then 0 else CountMayLog(ws[1..]) + if MayLog(ws[0]) then 1 else 0
  }

  function CountExchanging(ws: seq<Worker>): nat {
    if ws == [] then 0 else CountExchanging(ws[1..]) + if ws[0].Exchanging? then 1 else 0
  }

  lemma {:induction false} CountsUpdate(ws: seq<Worker>, i: nat, w: Worker)
    requires i < |ws|
    ensures CountBusy(ws[i := w]) == CountBusy(ws) - (if Busy(ws[i]) then 1 else 0) + if Busy(w) then 1 else 0
    ensures CountActive(ws[i := w]) == CountActive(ws) - (if Active(ws[i]) then 1 else 0) + if Active(w) then 1 else 0
    ensures CountMayLog(ws[i := w]) == CountMayLog(ws) - (if MayLog(ws[i]) then 1 else 0) + if MayLog(w) then 1 else 0
    ensures CountExchanging(ws[i := w])
         == CountExchanging(ws) - (if ws[i].Exchanging? then 1 else 0) + if w.Exchanging? then 1 else 0
  {
    if i == 0 {
      assert ws[i := w][1..] == ws[1..];
    } else {
      CountsUpdate(ws[1..], i - 1, w);
      assert ws[i := w][1..] == ws[1..][i - 1 := w];
    }
  }

  lemma {:induction false} CountsZero(ws: seq<Worker>)
    ensures CountActive(ws) == 0 <==> forall w | w in ws :: !Active(w)
    ensures CountBusy(ws) <= CountActive(ws)
    ensures CountMayLog(ws) == 0 <==> forall w | w in ws :: !MayLog(w)
    ensures CountExchanging(ws) == 0 <==> forall w | w in ws :: !w.Exchanging?
  {
    if ws != [] {
      CountsZero(ws[1..]);
      assert forall w :: w in ws <==> w == ws[0] || w in ws[1..];
    }
  }

  lemma {:induction false} FreshCounts(n: nat)
    ensures var ws := seq(n, i => Claiming);
      CountBusy(ws) == 0 && CountActive(ws) == n && CountMayLog(ws) == 0 && CountExchanging(ws) == 0
  {
    if n > 0 {
      FreshCounts(n - 1);
      assert seq(n, i => Claiming)[1..] == seq(n - 1, i => Claiming);
    }
  }

  // ---------- steps ----------

  /** launch: n workers, all about to claim. */
  ghost predicate Init(s: State, n: nat) {
    s == State(0, [], 0, n, false, [], seq(n, i => Claiming), NotJoining)
  }

  function Moved(s: State, t: nat, w: Worker): State
    requires t < |s.workers|
  {
    s.(workers := s.workers[t := w])
  }

  /** One operation of worker t, for a pool over n targets. */
  function WorkerStep(s: State, t: nat, n: nat): State
    requires t < |s.workers| && !s.workers[t].Done?
  {
    match s.workers[t]
    case Claiming =>
      var s' := s.(next := s.next + 1);
      if s.next < n then Moved(s'.(claims := s.claims + [t]), t, Warming(s.next))
      else Moved(s', t, Leaving)
    case Warming(i) => Moved(s, t, Counting(i))          // the node's producer runs, or throws and is caught
    case Counting(i) => Moved(s.(warmed := s.warmed + 1), t, Claiming)
    case Leaving =>
      Moved(s.(remaining := s.remaining - 1), t, if s.remaining == 1 then Exchanging else Done)
    case Exchanging => Moved(s.(reported := true), t, if s.reported then Done else Checking)
    case Checking => Moved(s, t, if s.warmed == 0 then Done else Logging)
    case Logging => Moved(s.(log := s.log + [s.warmed]), t, Done)
  }

  /** One operation of join, which may be called any number of times: it waits for every worker to return. */
  ghost predicate JoinStep(s: State, s': State) {
    match s.join
    case NotJoining => (forall w | w in s.workers :: w.Done?) && s' == s.(join := JoinExchanging)
    case JoinExchanging => s' == s.(reported := true, join := if s.reported then NotJoining else JoinChecking)
    case JoinChecking => s' == s.(join := if s.warmed == 0 then NotJoining else JoinLogging)
    case JoinLogging => s' == s.(log := s.log + [s.warmed], join := NotJoining)
  }

  ghost predicate Next(s: State, s': State, n: nat) {
    || (exists t :: 0 <= t < |s.workers| && !s.workers[t].Done? && s' == WorkerStep(s, t, n))
    || JoinStep(s, s')
  }

  // ---------- the invariant ----------

  function JoinMayLog(j: Join): nat {
    if j.JoinChecking? || j.JoinLogging? then 1 else 0
  }

  /** Worker t's own position is consistent with the shared counters. */
  ghost predicate WorkerOk(s: State, t: nat, n: nat)
    requires t < |s.workers|
  {
    var w := s.workers[t];
    && (w.Warming? ==> w.index < |s.claims| && s.claims[w.index] == t)
    && (w.Counting? ==> w.index < |s.claims| && s.claims[w.index] == t)
    && (PastClaims(w) ==> |s.claims| == n)
    && (w.Exchanging? || MayLog(w) ==> s.remaining == 0)
  }

  /** Every index handed out has exactly one worker; it is counted as warmed or still in that worker's hands. */
  ghost predicate CountersOk(s: State, n: nat) {
    && |s.claims| == (if s.next <= n then s.next else n)
    && s.warmed + CountBusy(s.workers) == |s.claims|
    && s.remaining == CountActive(s.workers)
  }

  /** One completion line in all: not yet due, about to be claimed by the last worker, or written or on its way. */
  ghost predicate LogOk(s: State, n: nat) {
    && (forall c | c in s.log :: c == n)
    && |s.log| + CountMayLog(s.workers) + JoinMayLog(s.join) == (if s.reported then 1 else 0)
    && CountExchanging(s.workers) == (if s.remaining == 0 && !s.reported then 1 else 0)
    && (s.reported ==> s.remaining == 0)
  }

  ghost predicate Inv(s: State, n: nat) {
    && CountersOk(s, n) && LogOk(s, n)
    && (forall t | 0 <= t < |s.workers| :: WorkerOk(s, t, n))
    && (!s.join.NotJoining? ==> s.reported && |s.claims| == n)
  }

  lemma InitInv(s: State, n: nat, workers: nat)
    requires Init(s, workers) && workers > 0
    ensures Inv(s, n) && |s.workers| == workers
  {
    FreshCounts(workers);
  }

  lemma WorkerKeepsCounters(s: State, t: nat, n: nat)
    requires CountersOk(s, n) && t < |s.workers| && !s.workers[t].Done?
    ensures CountersOk(WorkerStep(s, t, n), n)
  {
    hide CountBusy, CountActive;
    CountsUpdate(s.workers, t, WorkerStep(s, t, n).workers[t]);
  }

  lemma ZeroRemaining(s: State, n: nat, t: nat)
    requires CountersOk(s, n) && t < |s.workers| && WorkerOk(s, t, n) && s.remaining == 0
    ensures s.workers[t].Exchanging? || MayLog(s.workers[t]) ==> s.warmed == n == |s.claims|
  {
    CountsZero(s.workers);
  }

  lemma WorkerKeepsLog(s: State, t: nat, n: nat)
    requires Inv(s, n) && n > 0 && t < |s.workers| && !s.workers[t].Done?
    ensures LogOk(WorkerStep(s, t, n), n)
  {
    hide CountBusy, CountActive, CountMayLog, CountExchanging;
    var s' := WorkerStep(s, t, n);
    CountsUpdate(s.workers, t, s'.workers[t]);
    CountsZero(s.workers);
    assert WorkerOk(s, t, n) && s.workers[t] in s.workers;
    if s.remaining == 0 {
      ZeroRemaining(s, n, t);
    }
  }

  lemma WorkerKeepsPositions(s: State, t: nat, n: nat, u: nat)
    requires Inv(s, n) && t < |s.workers| && !s.workers[t].Done? && u < |s.workers|
    ensures WorkerOk(WorkerStep(s, t, n), u, n)
  {
    hide CountBusy, CountActive, CountMayLog, CountExchanging;
    CountsUpdate(s.workers, t, WorkerStep(s, t, n).workers[t]);
    CountsZero(s.workers);
    assert WorkerOk(s, t, n) && WorkerOk(s, u, n) && s.workers[t] in s.workers;
  }

  lemma WorkerKeepsInv(s: State, t: nat, n: nat)
    requires Inv(s, n) && n > 0 && t < |s.workers| && !s.workers[t].Done?
    ensures Inv(WorkerStep(s, t, n), n)
  {
    hide CountBusy, CountActive, CountMayLog, CountExchanging, LogOk, CountersOk, WorkerOk;
    WorkerKeepsCounters(s, t, n);
    WorkerKeepsLog(s, t, n);
    forall u | 0 <= u < |s.workers| ensures WorkerOk(WorkerStep(s, t, n), u, n) {
      WorkerKeepsPositions(s, t, n, u);
    }
    if !s.join.NotJoining? {
      JoiningStays(s, t, n);
    }
  }

  lemma JoiningStays(s: State, t: nat, n: nat)
    requires Inv(s, n) && t < |s.workers| && !s.workers[t].Done? && !s.join.NotJoining?
    ensures WorkerStep(s, t, n).reported && |WorkerStep(s, t, n).claims| == n
  {
  }

  lemma JoinKeepsInv(s: State, s': State, n: nat)
    requires Inv(s, n) && n > 0 && JoinStep(s, s') && |s.workers| > 0
    ensures Inv(s', n) && |s'.workers| == |s.workers|
  {
    hide CountBusy, CountActive, CountMayLog, CountExchanging;
    CountsZero(s.workers);
    assert WorkerOk(s, 0, n);
    assert s.workers[0] in s.workers;
    forall u | 0 <= u < |s'.workers| ensures WorkerOk(s', u, n) {
      assert WorkerOk(s, u, n);
    }
  }

  lemma NextKeepsInv(s: State, s': State, n: nat)
    requires Inv(s, n) && n > 0 && |s.workers| > 0 && Next(s, s', n)
    ensures Inv(s', n) && |s'.workers| == |s.workers|
  {
    hide Inv, JoinStep;
    if t :| 0 <= t < |s.workers| && !s.workers[t].Done? && s' == WorkerStep(s, t, n) {
      WorkerKeepsInv(s, t, n);
    } else {
      JoinKeepsInv(s, s', n);
    }
  }

  ghost predicate Run(run: seq<State>, n: nat, workers: nat) {
    run != [] && Init(run[0], workers) && forall i | 0 < i < |run| :: Next(run[i - 1], run[i], n)
  }

  lemma {:induction false} RunsKeepInv(run: seq<State>, n: nat, workers: nat, i: nat)
    requires Run(run, n, workers) && workers > 0 && n > 0 && i < |run|
    ensures Inv(run[i], n) && |run[i].workers| == workers
  {
    hide Init, Next, Inv;
    if i == 0 {
      InitInv(run[0], n, workers);
    } else {
      RunsKeepInv(run, n, workers, i - 1);
      NextKeepsInv(run[i - 1], run[i], n);
    }
  }

  // ---------- what the invariant gives ----------

  /** No two workers ever hold the same target. */
  lemma ClaimsAreExclusive(s: State, n: nat, t: nat, u: nat)
    requires Inv(s, n) && t < |s.workers| && u < |s.workers| && Busy(s.workers[t]) && Busy(s.workers[u])
    requires s.workers[t].index == s.workers[u].index
    ensures t == u
  {
    assert WorkerOk(s, t, n) && WorkerOk(s, u, n);
  }

  /** The worker that takes the count of workers from one to zero finds every target warmed and counted. */
  lemma LastWorkerSeesAll(s: State, n: nat, t: nat)
    requires Inv(s, n) && t < |s.workers| && s.workers[t].Leaving? && s.remaining == 1
    ensures s.warmed == n == |s.claims|
    ensures forall u | 0 <= u < |s.workers| && u != t :: !Active(s.workers[u])
  {
    CountsUpdate(s.workers, t, Done);
    CountsZero(s.workers[t := Done]);
    CountsUpdate(s.workers[t := Done], t, s.workers[t]);
    assert s.workers[t := Done][t := s.workers[t]] == s.workers;
    assert WorkerOk(s, t, n);
    forall u | 0 <= u < |s.workers| && u != t ensures !Active(s.workers[u]) {
      assert s.workers[t := Done][u] in s.workers[t := Done];
    }
  }

  /** In every reachable state at most one completion line has been logged, and it names all targets. */
  lemma LoggedAtMostOnce(run: seq<State>, n: nat, workers: nat, i: nat)
    requires Run(run, n, workers) && workers > 0 && n > 0 && i < |run|
    ensures run[i].log == [] || run[i].log == [n]
  {
    RunsKeepInv(run, n, workers, i);
    if run[i].log != [] {
      assert run[i].log[0] in run[i].log;
    }
  }

  // ---------- termination ----------

  function Weight(w: Worker): nat {
    match w
    case Warming(_) => 7
    case Counting(_) => 6
    case Claiming => 5
    case Leaving => 4
    case Exchanging => 3
    case Checking => 2
    case Logging => 1
    case Done => 0
  }

  function TotalWeight(ws: seq<Worker>): nat {
    if ws == [] then 0 else TotalWeight(ws[1..]) + Weight(ws[0])
  }

  lemma {:induction false} WeightUpdate(ws: seq<Worker>, i: nat, w: Worker)
    requires i < |ws|
    ensures TotalWeight(ws[i := w]) == TotalWeight(ws) - Weight(ws[i]) + Weight(w)
  {
    if i == 0 {
      assert ws[i := w][1..] == ws[1..];
    } else {
      WeightUpdate(ws[1..], i - 1, w);
      assert ws[i := w][1..] == ws[1..][i - 1 := w];
    }
  }

  function Measure(s: State, n: nat): nat
    requires |s.claims| <= n
  {
    3 * (n - |s.claims|) + TotalWeight(s.workers)
  }

  /** Every worker operation brings the pool closer to its end, so every run of the workers ends. */
  lemma WorkerStepsEnd(s: State, t: nat, n: nat)
    requires Inv(s, n) && t < |s.workers| && !s.workers[t].Done?
    ensures |WorkerStep(s, t, n).claims| <= n
    ensures Measure(WorkerStep(s, t, n), n) < Measure(s, n)
  {
    WeightUpdate(s.workers, t, WorkerStep(s, t, n).workers[t]);
  }

  /**
   When no worker can move any more, every target has been claimed, warmed and
   counted, and exactly one completion line is out, naming all of them.
   */
  lemma FinishedMeansAll(s: State, n: nat)
    requires Inv(s, n) && |s.workers| > 0 && s.join.NotJoining? && forall w | w in s.workers :: w.Done?
    ensures s.remaining == 0 && s.warmed == n == |s.claims| && s.log == [n]
  {
    hide CountBusy, CountActive, CountMayLog, CountExchanging;
    CountsZero(s.workers);
    assert s.workers[0] in s.workers;
    assert WorkerOk(s, 0, n);
    assert s.log[0] in s.log;
  }
}
