/**
 * The worker pool of test.py: the main thread queues the jobs, then one break job for each worker, collects as
 * many results as it queued jobs, and joins the workers. Workers, main thread and the interrupt handler
 * interleave freely.
 */
module WorkerPool {
  /** id names the Job object; workers change its other fields. */
  datatype Job = Job(id: nat, isBreak: bool, isSkip: bool, returncode: int)

  /** Where a worker is in its loop. */
  datatype Worker = Waiting | Holding(job: Job) | Running(job: Job) | Reporting(job: Job) | Exited

  datatype Pool = Pool(jobs: seq<Job>, processors: nat,
                       input: seq<Job>, output: seq<Job>, workers: seq<Worker>, threadExit: bool,
                       queued: nat, poisoned: nat, results: seq<Job>, joined: nat)

  datatype Step = Main | Get(w: nat) | Decide(w: nat) | Finish(w: nat, returncode: int) | Put(w: nat) | Interrupt

  const BREAK: Job := Job(0, true, false, 0)

  // ----- the transition system -----

  function Start(jobs: seq<Job>, processors: nat): Pool {
    Pool(jobs, processors, [], [], seq(processors, _ => Waiting), false, 0, 0, [], 0)
  }

  predicate Finished(s: Pool) {
    s.queued == |s.jobs| && s.poisoned == s.processors && |s.results| == |s.jobs| && s.joined == s.processors
  }

  predicate MainEnabled(s: Pool) {
    if s.queued < |s.jobs| || s.poisoned < s.processors then true
    else if |s.results| < |s.jobs| then s.output != []
    else s.joined < s.processors && s.joined < |s.workers| && s.workers[s.joined].Exited?
  }

  /** The next thing the main thread does: queue a job, queue a break, collect a result, join a worker. */
  function MainStep(s: Pool): Pool
    requires MainEnabled(s)
  {
    if s.queued < |s.jobs| then s.(input := s.input + [s.jobs[s.queued]], queued := s.queued + 1)
    else if s.poisoned < s.processors then s.(input := s.input + [BREAK], poisoned := s.poisoned + 1)
    else if |s.results| < |s.jobs| then s.(output := s.output[1..], results := s.results + [s.output[0]])
    else s.(joined := s.joined + 1)
  }

  predicate Enabled(s: Pool, step: Step) {
    match step
    case Main => MainEnabled(s)
    case Get(w) => w < |s.workers| && s.workers[w].Waiting? && s.input != []
    case Decide(w) => w < |s.workers| && s.workers[w].Holding?
    case Finish(w, _) => w < |s.workers| && s.workers[w].Running?
    case Put(w) => w < |s.workers| && s.workers[w].Reporting?
    case Interrupt => true
  }

  function DecideOn(job: Job, threadExit: bool): Worker {
    if job.isBreak then Exited
    else if threadExit then Reporting(job.(isBreak := true))
    else if job.isSkip then Reporting(job)
    else Running(job)
  }

  function Apply(s: Pool, step: Step): Pool
    requires Enabled(s, step)
  {
    match step
    case Main => MainStep(s)
    case Get(w) => s.(input := s.input[1..], workers := s.workers[w := Holding(s.input[0])])
    case Decide(w) => s.(workers := s.workers[w := DecideOn(s.workers[w].job, s.threadExit)])
    case Finish(w, rc) => s.(workers := s.workers[w := Reporting(s.workers[w].job.(returncode := rc))])
    case Put(w) => s.(output := s.output + [s.workers[w].job], workers := s.workers[w := Waiting])
    case Interrupt => s.(threadExit := true)
  }

  ghost predicate Legal(s: Pool, steps: seq<Step>)
    decreases |steps|
  {
    steps == [] || (Enabled(s, steps[0]) && Legal(Apply(s, steps[0]), steps[1..]))
  }

  ghost function Run(s: Pool, steps: seq<Step>): Pool
    requires Legal(s, steps)
    decreases |steps|
  {
    if steps == [] then s else Run(Apply(s, steps[0]), steps[1..])
  }

  // ----- what is where -----

  function Ids(s: seq<Job>): multiset<nat> {
    if s == [] then multiset{} else Ids(s[..|s| - 1]) + multiset{s[|s| - 1].id}
  }

  /** The real job a worker has in hand. */
  function InHand(w: Worker): multiset<nat> {
    match w
    case Waiting => multiset{}
    case Exited => multiset{}
    case Holding(job) => if job.isBreak then multiset{} else multiset{job.id}
    case Running(job) => multiset{job.id}
    case Reporting(job) => multiset{job.id}
  }

  function AllInHand(ws: seq<Worker>): multiset<nat> {
    if ws == [] then multiset{} else AllInHand(ws[..|ws| - 1]) + InHand(ws[|ws| - 1])
  }

  /** A worker that has taken its break job. */
  predicate Broken(w: Worker) { w.Exited? || (w.Holding? && w.job.isBreak) }

  function BreaksTaken(ws: seq<Worker>): nat {
    if ws == [] then 0 else BreaksTaken(ws[..|ws| - 1]) + if Broken(ws[|ws| - 1]) then 1 else 0
  }

  function Breaks(n: nat): seq<Job> { seq(n, _ => BREAK) }

  /** Everything ever queued: the jobs, then the breaks. */
  function Queued(s: Pool): seq<Job>
    requires s.queued <= |s.jobs|
  {
    s.jobs[..s.queued] + Breaks(s.poisoned)
  }

  /** The number of jobs, breaks included, that workers have taken. */
  function Taken(s: Pool): int
    requires s.queued <= |s.jobs|
  {
    |Queued(s)| - |s.input|
  }

  // ----- the invariant -----

  ghost predicate WellFormed(s: Pool) {
    && s.processors >= 1 && |s.workers| == s.processors
    && (forall i :: 0 <= i < |s.jobs| ==> s.jobs[i].id == i && !s.jobs[i].isBreak)
    && s.queued <= |s.jobs| && s.poisoned <= s.processors && |s.results| <= |s.jobs| && s.joined <= s.processors
    && (s.poisoned > 0 ==> s.queued == |s.jobs|)
    && (|s.results| > 0 ==> s.poisoned == s.processors)
    && (s.joined > 0 ==> s.poisoned == s.processors && |s.results| == |s.jobs|)
    && forall i :: 0 <= i < s.joined ==> s.workers[i].Exited?
  }

  /** First in, first out: what is queued is the tail of everything ever queued. */
  ghost predicate Fifo(s: Pool)
    requires s.queued <= |s.jobs|
  {
    0 <= Taken(s) <= |Queued(s)| && s.input == Queued(s)[Taken(s)..]
  }

  /** Every taken break has stopped one worker; every taken job is in some hand, reported or collected, once. */
  ghost predicate Accounted(s: Pool)
    requires s.queued <= |s.jobs|
  {
    && BreaksTaken(s.workers) == (if Taken(s) <= |s.jobs| then 0 else Taken(s) - |s.jobs|)
    && 0 <= Taken(s)
    && AllInHand(s.workers) + Ids(s.output) + Ids(s.results)
       == Ids(s.jobs[..if Taken(s) <= s.queued then Taken(s) else s.queued])
  }

  ghost predicate Inv(s: Pool) {
    WellFormed(s) && Fifo(s) && Accounted(s)
  }

  // ----- lemmas about the counts -----

  lemma Regroup(a: multiset<nat>, h: multiset<nat>, b: multiset<nat>, x: multiset<nat>, c: multiset<nat>)
    requires a + h == b + x
    ensures (a + c) + h == (b + c) + x
  {
    assert (a + c) + h == (a + h) + c && (b + c) + x == (b + x) + c;
  }

  lemma {:induction false} InHandUpdate(ws: seq<Worker>, w: nat, x: Worker)
    requires w < |ws|
    ensures AllInHand(ws[w := x]) + InHand(ws[w]) == AllInHand(ws) + InHand(x)
  {
    hide InHand;
    var m, ws' := |ws| - 1, ws[w := x];
    if w < m {
      InHandUpdate(ws[..m], w, x);
      assert ws'[..m] == ws[..m][w := x] && ws'[m] == ws[m] && ws[..m][w] == ws[w];
      Regroup(AllInHand(ws'[..m]), InHand(ws[w]), AllInHand(ws[..m]), InHand(x), InHand(ws[m]));
    } else {
      assert ws'[..m] == ws[..m] && ws'[m] == x;
    }
  }

  lemma {:induction false} BreaksTakenUpdate(ws: seq<Worker>, w: nat, x: Worker)
    requires w < |ws|
    ensures BreaksTaken(ws[w := x]) + (if Broken(ws[w]) then 1 else 0) == BreaksTaken(ws) + if Broken(x) then 1 else 0
  {
    hide Broken;
    var m, ws' := |ws| - 1, ws[w := x];
    if w < m {
      BreaksTakenUpdate(ws[..m], w, x);
      assert ws'[..m] == ws[..m][w := x] && ws'[m] == ws[m];
    } else {
      assert ws'[..m] == ws[..m] && ws'[m] == x;
    }
  }

  lemma IdsSnoc(s: seq<Job>, j: Job)
    ensures Ids(s + [j]) == Ids(s) + multiset{j.id}
  {
    assert (s + [j])[..|s|] == s;
  }

  lemma Adds(a: multiset<nat>, b: multiset<nat>, c: multiset<nat>)
    ensures a + b + c == a + (b + c)
  {
  }

  lemma {:induction false} IdsCons(j: Job, s: seq<Job>)
    ensures Ids([j] + s) == multiset{j.id} + Ids(s)
  {
    if s == [] {
      assert [j] + s == [] + [j];
      IdsSnoc([], j);
    } else {
      hide Ids;
      var m := |s| - 1;
      IdsCons(j, s[..m]);
      IdsSnoc([j] + s[..m], s[m]);
      IdsSnoc(s[..m], s[m]);
      Adds(multiset{j.id}, Ids(s[..m]), multiset{s[m].id});
      assert [j] + s == ([j] + s[..m]) + [s[m]];
      assert s == s[..m] + [s[m]];
    }
  }

  lemma {:induction false} IdsSize(s: seq<Job>)
    ensures |Ids(s)| == |s|
  {
    if s != [] {
      IdsSize(s[..|s| - 1]);
    }
  }

  /** The head of the input queue: a job as long as any is left, and only then a break. */
  lemma HeadOfInput(s: Pool)
    requires Inv(s) && s.input != []
    ensures Taken(s) < s.queued ==> s.input[0] == s.jobs[Taken(s)]
    ensures Taken(s) >= s.queued ==> s.input[0] == BREAK && forall i :: 0 <= i < |s.input| ==> s.input[i].isBreak
    ensures Taken(s) >= s.queued ==> s.queued == |s.jobs|
  {
  }

  // ----- every step keeps the invariant -----

  lemma Cancel(a: multiset<nat>, b: multiset<nat>, h: multiset<nat>)
    requires a + h == b + h
    ensures a == b
  {
    assert a == (a + h) - h && b == (b + h) - h;
  }

  /** A step of one worker on the job it holds. */
  lemma WorkerKeeps(s: Pool, w: nat, x: Worker, s': Pool)
    requires Inv(s) && w < |s.workers| && s' == s.(workers := s.workers[w := x])
    requires InHand(x) == InHand(s.workers[w]) && (Broken(x) <==> Broken(s.workers[w])) && !s.workers[w].Exited?
    ensures Inv(s')
  {
    hide AllInHand, BreaksTaken, Ids, InHand, Broken;
    InHandUpdate(s.workers, w, x);
    BreaksTakenUpdate(s.workers, w, x);
    Cancel(AllInHand(s'.workers), AllInHand(s.workers), InHand(x));
    assert Queued(s') == Queued(s);
  }

  lemma PutKeeps(s: Pool, w: nat)
    requires Inv(s) && Enabled(s, Put(w))
    ensures Inv(Apply(s, Put(w)))
  {
    hide AllInHand, BreaksTaken, Ids;
    var s', job := Apply(s, Put(w)), s.workers[w].job;
    InHandUpdate(s.workers, w, Waiting);
    BreaksTakenUpdate(s.workers, w, Waiting);
    IdsSnoc(s.output, job);
    assert AllInHand(s'.workers) + multiset{job.id} == AllInHand(s.workers);
    assert Ids(s'.output) == Ids(s.output) + multiset{job.id};
  }

  lemma GetKeeps(s: Pool, w: nat)
    requires Inv(s) && Enabled(s, Get(w))
    ensures Inv(Apply(s, Get(w)))
  {
    hide AllInHand, BreaksTaken, Ids;
    var s', job, t := Apply(s, Get(w)), s.input[0], Taken(s);
    HeadOfInput(s);
    InHandUpdate(s.workers, w, Holding(job));
    BreaksTakenUpdate(s.workers, w, Holding(job));
    assert Queued(s') == Queued(s) && Taken(s') == t + 1;
    assert s'.input == Queued(s')[t + 1..];
    Cancel(AllInHand(s'.workers), AllInHand(s.workers) + InHand(Holding(job)), multiset{});
    if t < s.queued {
      assert AllInHand(s'.workers) == AllInHand(s.workers) + multiset{job.id};
      assert s.jobs[..t + 1] == s.jobs[..t] + [s.jobs[t]];
      IdsSnoc(s.jobs[..t], s.jobs[t]);
    }
  }

  lemma QueueKeeps(s: Pool)
    requires Inv(s) && (s.queued < |s.jobs| || s.poisoned < s.processors)
    ensures Inv(MainStep(s))
  {
    hide AllInHand, BreaksTaken, Ids;
    var s' := MainStep(s);
    if s.queued < |s.jobs| {
      assert Breaks(s.poisoned) == [];
      assert s.jobs[..s.queued + 1] == s.jobs[..s.queued] + [s.jobs[s.queued]];
      assert Queued(s') == Queued(s) + [s.jobs[s.queued]];
    } else {
      assert Breaks(s.poisoned + 1) == Breaks(s.poisoned) + [BREAK];
      assert Queued(s') == Queued(s) + [BREAK];
    }
    assert Taken(s') == Taken(s);
  }

  lemma CollectKeeps(s: Pool)
    requires Inv(s) && MainEnabled(s) && s.queued >= |s.jobs| && s.poisoned >= s.processors
    ensures Inv(MainStep(s))
  {
    hide AllInHand, BreaksTaken, Ids;
    var s' := MainStep(s);
    assert Queued(s') == Queued(s);
    if |s.results| < |s.jobs| {
      assert s.output == [s.output[0]] + s.output[1..];
      IdsCons(s.output[0], s.output[1..]);
      IdsSnoc(s.results, s.output[0]);
    }
  }

  lemma InterruptKeeps(s: Pool)
    requires Inv(s)
    ensures Inv(Apply(s, Interrupt))
  {
    hide AllInHand, BreaksTaken, Ids;
    assert Queued(Apply(s, Interrupt)) == Queued(s);
  }

  lemma DecideKeeps(s: Pool, w: nat)
    requires Inv(s) && Enabled(s, Decide(w))
    ensures Inv(Apply(s, Decide(w)))
  {
    hide AllInHand, BreaksTaken, Ids;
    WorkerKeeps(s, w, DecideOn(s.workers[w].job, s.threadExit), Apply(s, Decide(w)));
  }

  lemma FinishKeeps(s: Pool, w: nat, rc: int)
    requires Inv(s) && Enabled(s, Finish(w, rc))
    ensures Inv(Apply(s, Finish(w, rc)))
  {
    hide AllInHand, BreaksTaken, Ids;
    WorkerKeeps(s, w, Reporting(s.workers[w].job.(returncode := rc)), Apply(s, Finish(w, rc)));
  }

  lemma StepKeeps(s: Pool, step: Step)
    requires Inv(s) && Enabled(s, step)
    ensures Inv(Apply(s, step))
  {
    hide Inv;
    match step
    case Main =>
      if s.queued < |s.jobs| || s.poisoned < s.processors {
        QueueKeeps(s);
      } else {
        CollectKeeps(s);
      }
    case Get(w) => GetKeeps(s, w);
    case Decide(w) => DecideKeeps(s, w);
    case Finish(w, rc) => FinishKeeps(s, w, rc);
    case Put(w) => PutKeeps(s, w);
    case Interrupt => InterruptKeeps(s);
  }

  lemma StartHolds(jobs: seq<Job>, processors: nat)
    requires processors >= 1 && forall i :: 0 <= i < |jobs| ==> jobs[i].id == i && !jobs[i].isBreak
    ensures Inv(Start(jobs, processors))
  {
    AllWaiting(processors);
    assert jobs[..0] == [];
  }

  lemma {:induction false} AllWaiting(n: nat)
    ensures AllInHand(seq(n, _ => Waiting)) == multiset{} && BreaksTaken(seq(n, _ => Waiting)) == 0
  {
    if n > 0 {
      AllWaiting(n - 1);
      assert seq(n, _ => Waiting)[..n - 1] == seq(n - 1, _ => Waiting);
    }
  }

  lemma {:induction false} RunKeeps(s: Pool, steps: seq<Step>)
    requires Inv(s) && Legal(s, steps)
    ensures Inv(Run(s, steps))
    decreases |steps|
  {
    hide Inv;
    if steps != [] {
      StepKeeps(s, steps[0]);
      RunKeeps(Apply(s, steps[0]), steps[1..]);
    }
  }

  // ----- every run ends -----

  function JobWeight(j: Job): nat { if j.isBreak then 2 else 5 }

  function InputWeight(s: seq<Job>): nat {
    if s == [] then 0 else JobWeight(s[0]) + InputWeight(s[1..])
  }

  function WorkerWeight(w: Worker): nat {
    match w
    case Waiting => 0
    case Exited => 0
    case Holding(job) => JobWeight(job) - 1
    case Running(_) => 3
    case Reporting(_) => 2
  }

  function WorkersWeight(ws: seq<Worker>): nat {
    if ws == [] then 0 else WorkersWeight(ws[..|ws| - 1]) + WorkerWeight(ws[|ws| - 1])
  }

  /** How much is left to do. */
  function Rank(s: Pool): nat
    requires s.queued <= |s.jobs| && s.poisoned <= s.processors && s.joined <= s.processors
  {
    6 * (|s.jobs| - s.queued) + 3 * (s.processors - s.poisoned) + InputWeight(s.input)
    + WorkersWeight(s.workers) + |s.output| + (s.processors - s.joined)
  }

  lemma {:induction false} InputWeightSnoc(s: seq<Job>, j: Job)
    ensures InputWeight(s + [j]) == InputWeight(s) + JobWeight(j)
  {
    if s != [] {
      InputWeightSnoc(s[1..], j);
      assert (s + [j])[1..] == s[1..] + [j];
    }
  }

  lemma {:induction false} WorkersWeightUpdate(ws: seq<Worker>, w: nat, x: Worker)
    requires w < |ws|
    ensures WorkersWeight(ws[w := x]) + WorkerWeight(ws[w]) == WorkersWeight(ws) + WorkerWeight(x)
  {
    hide WorkerWeight;
    var m, ws' := |ws| - 1, ws[w := x];
    if w < m {
      WorkersWeightUpdate(ws[..m], w, x);
      assert ws'[..m] == ws[..m][w := x] && ws'[m] == ws[m];
    } else {
      assert ws'[..m] == ws[..m] && ws'[m] == x;
    }
  }

  /** Every step but the interrupt uses up some of the work that is left; the interrupt adds none. */
  lemma StepLowersRank(s: Pool, step: Step)
    requires Inv(s) && Enabled(s, step) && WellFormed(Apply(s, step))
    ensures if step.Interrupt? then Rank(Apply(s, step)) == Rank(s) else Rank(Apply(s, step)) < Rank(s)
  {
    hide WorkersWeight, InputWeight, AllInHand, BreaksTaken, Ids;
    match step
    case Main =>
      if s.queued < |s.jobs| {
        InputWeightSnoc(s.input, s.jobs[s.queued]);
      } else if s.poisoned < s.processors {
        InputWeightSnoc(s.input, BREAK);
      }
    case Get(w) =>
      InputWeightUncons(s.input);
      WorkersWeightUpdate(s.workers, w, Holding(s.input[0]));
    case Decide(w) => WorkersWeightUpdate(s.workers, w, DecideOn(s.workers[w].job, s.threadExit));
    case Finish(w, rc) => WorkersWeightUpdate(s.workers, w, Reporting(s.workers[w].job.(returncode := rc)));
    case Put(w) => WorkersWeightUpdate(s.workers, w, Waiting);
    case Interrupt =>
  }

  lemma InputWeightUncons(s: seq<Job>)
    requires s != []
    ensures InputWeight(s) == JobWeight(s[0]) + InputWeight(s[1..])
  {
  }

  /** The number of steps that are not interrupts. */
  function Work(steps: seq<Step>): nat {
    if steps == [] then 0 else (if steps[0].Interrupt? then 0 else 1) + Work(steps[1..])
  }

  lemma {:induction false} RunIsBounded(s: Pool, steps: seq<Step>)
    requires Inv(s) && Legal(s, steps)
    ensures Inv(Run(s, steps)) && Work(steps) + Rank(Run(s, steps)) <= Rank(s)
    decreases |steps|
  {
    hide Rank, Fifo, Accounted;
    if steps != [] {
      StepKeeps(s, steps[0]);
      StepLowersRank(s, steps[0]);
      RunIsBounded(Apply(s, steps[0]), steps[1..]);
    }
  }

  // ----- nothing gets stuck -----

  lemma {:induction false} Idle(ws: seq<Worker>)
    requires forall i :: 0 <= i < |ws| ==> ws[i].Waiting? || ws[i].Exited?
    ensures AllInHand(ws) == multiset{} && BreaksTaken(ws) <= |ws|
    ensures BreaksTaken(ws) == |ws| <==> forall i :: 0 <= i < |ws| ==> ws[i].Exited?
  {
    if ws != [] {
      Idle(ws[..|ws| - 1]);
    }
  }

  /** Once all workers have stopped, everything they were given is waiting to be collected or joined. */
  lemma AllExited(s: Pool)
    requires Inv(s) && !Finished(s)
    ensures (forall i :: 0 <= i < |s.workers| ==> s.workers[i].Exited?) ==> MainEnabled(s)
  {
    hide AllInHand, BreaksTaken, Ids;
    if (forall i :: 0 <= i < |s.workers| ==> s.workers[i].Exited?) && s.poisoned == s.processors {
      Idle(s.workers);
      assert Taken(s) == |s.jobs| + s.processors && s.jobs[..s.queued] == s.jobs;
      IdsSize(s.jobs);
      IdsSize(s.results);
      IdsSize(s.output);
      assert Ids(s.output) + Ids(s.results) == Ids(s.jobs);
      assert |Ids(s.output)| + |Ids(s.results)| == |Ids(s.jobs)|;
    }
  }

  /** Until everything is collected and joined, somebody can take a step. */
  lemma NotStuck(s: Pool) returns (step: Step)
    requires Inv(s) && !Finished(s)
    ensures Enabled(s, step) && !step.Interrupt?
  {
    hide AllInHand, BreaksTaken, Ids;
    if w: nat :| w < |s.workers| && s.workers[w].Holding? {
      step := Decide(w);
    } else if w: nat :| w < |s.workers| && s.workers[w].Running? {
      step := Finish(w, 0);
    } else if w: nat :| w < |s.workers| && s.workers[w].Reporting? {
      step := Put(w);
    } else if MainEnabled(s) {
      step := Main;
    } else {
      AllExited(s);
      Idle(s.workers);
      var w: nat :| w < |s.workers| && s.workers[w].Waiting?;
      assert Queued(s) == s.jobs + Breaks(s.poisoned);
      assert Taken(s) < |Queued(s)|;
      step := Get(w);
    }
  }

  /** At the end: every job came back exactly once, every worker has stopped, and both queues are empty. */
  lemma FinishedMeans(s: Pool)
    requires Inv(s) && Finished(s)
    ensures Ids(s.results) == Ids(s.jobs) && |s.results| == |s.jobs|
    ensures s.input == [] && s.output == []
    ensures forall i :: 0 <= i < |s.workers| ==> s.workers[i].Exited?
    ensures BreaksTaken(s.workers) == s.processors
  {
    hide AllInHand, BreaksTaken, Ids;
    Idle(s.workers);
    assert s.jobs[..s.queued] == s.jobs;
    IdsSize(s.jobs);
    IdsSize(s.results);
    IdsSize(s.output);
    assert Ids(s.output) + Ids(s.results) == Ids(s.jobs);
    assert |Ids(s.output)| + |Ids(s.results)| == |Ids(s.jobs)|;
    assert Ids(s.output) == multiset{};
  }

  // ----- the results and the exit code -----

  predicate Real(jobs: seq<Job>, j: Job) {
    j.id < |jobs| && j.isSkip == jobs[j.id].isSkip
  }

  /** A result: a real job, marked as a break only after an interrupt. */
  predicate Result(jobs: seq<Job>, threadExit: bool, j: Job) {
    Real(jobs, j) && (j.isBreak ==> threadExit)
  }

  predicate GenuineWorker(jobs: seq<Job>, threadExit: bool, w: Worker) {
    match w
    case Waiting => true
    case Exited => true
    case Holding(j) => j == BREAK || (Real(jobs, j) && !j.isBreak)
    case Running(j) => Real(jobs, j) && !j.isBreak && !j.isSkip
    case Reporting(j) => Result(jobs, threadExit, j)
  }

  ghost predicate Genuine(s: Pool) {
    && (forall i :: 0 <= i < |s.workers| ==> GenuineWorker(s.jobs, s.threadExit, s.workers[i]))
    && (forall i :: 0 <= i < |s.output| ==> Result(s.jobs, s.threadExit, s.output[i]))
    && (forall i :: 0 <= i < |s.results| ==> Result(s.jobs, s.threadExit, s.results[i]))
  }

  lemma WorkerStepKeepsGenuine(s: Pool, w: nat, x: Worker)
    requires Genuine(s) && w < |s.workers| && GenuineWorker(s.jobs, s.threadExit, x)
    ensures Genuine(s.(workers := s.workers[w := x]))
  {
  }

  lemma StepKeepsGenuine(s: Pool, step: Step)
    requires Inv(s) && Genuine(s) && Enabled(s, step)
    ensures Genuine(Apply(s, step))
  {
    hide AllInHand, BreaksTaken, Ids;
    match step
    case Main =>
    case Get(w) =>
      HeadOfInput(s);
      WorkerStepKeepsGenuine(s, w, Holding(s.input[0]));
    case Decide(w) =>
      assert GenuineWorker(s.jobs, s.threadExit, s.workers[w]);
      WorkerStepKeepsGenuine(s, w, DecideOn(s.workers[w].job, s.threadExit));
    case Finish(w, rc) =>
      assert GenuineWorker(s.jobs, s.threadExit, s.workers[w]);
      WorkerStepKeepsGenuine(s, w, Reporting(s.workers[w].job.(returncode := rc)));
    case Put(w) =>
      assert GenuineWorker(s.jobs, s.threadExit, s.workers[w]);
      WorkerStepKeepsGenuine(s, w, Waiting);
    case Interrupt =>
  }

  lemma {:induction false} RunKeepsGenuine(s: Pool, steps: seq<Step>)
    requires Inv(s) && Genuine(s) && Legal(s, steps)
    ensures Inv(Run(s, steps)) && Genuine(Run(s, steps)) && Run(s, steps).jobs == s.jobs
    ensures !s.threadExit && (forall i :: 0 <= i < |steps| ==> !steps[i].Interrupt?) ==> !Run(s, steps).threadExit
    decreases |steps|
  {
    hide Inv, Genuine;
    if steps != [] {
      StepKeeps(s, steps[0]);
      StepKeepsGenuine(s, steps[0]);
      RunKeepsGenuine(Apply(s, steps[0]), steps[1..]);
    }
  }

  // ----- what became of each job -----

  /** How a job ended: thrown away after an interrupt, skipped, or run to a return code. */
  datatype Outcome = Aborted(id: nat) | Skipped(id: nat) | Returned(id: nat, code: int)

  function OutcomeOf(j: Job): Outcome {
    if j.isBreak then Aborted(j.id) else if j.isSkip then Skipped(j.id) else Returned(j.id, j.returncode)
  }

  function Outcomes(s: seq<Job>): multiset<Outcome> {
    if s == [] then multiset{} else Outcomes(s[..|s| - 1]) + multiset{OutcomeOf(s[|s| - 1])}
  }

  function OneReported(w: Worker): multiset<Outcome> {
    match w
    case Reporting(j) => multiset{OutcomeOf(j)}
    case _ => multiset{}
  }

  function Reported(ws: seq<Worker>): multiset<Outcome> {
    if ws == [] then multiset{} else Reported(ws[..|ws| - 1]) + OneReported(ws[|ws| - 1])
  }

  /** What one step decides about a job, from the job it was queued as and the code its process returned. */
  function Decided(s: Pool, step: Step, interrupted: bool): multiset<Outcome>
    requires Enabled(s, step)
  {
    match step
    case Decide(w) =>
      var j := s.workers[w].job;
      if j.isBreak || j.id >= |s.jobs| then multiset{}
      else if interrupted then multiset{Aborted(j.id)}
      else if s.jobs[j.id].isSkip then multiset{Skipped(j.id)}
      else multiset{}
    case Finish(w, code) => multiset{Returned(s.workers[w].job.id, code)}
    case _ => multiset{}
  }

  /** What a run decides; interrupted says whether there has been an interrupt before it. */
  ghost function AllDecided(s: Pool, steps: seq<Step>, interrupted: bool): multiset<Outcome>
    requires Legal(s, steps)
    decreases |steps|
  {
    if steps == [] then multiset{}
    else
      Decided(s, steps[0], interrupted)
      + AllDecided(Apply(s, steps[0]), steps[1..], interrupted || steps[0].Interrupt?)
  }

  function InPool(s: Pool): multiset<Outcome> {
    Reported(s.workers) + Outcomes(s.output) + Outcomes(s.results)
  }

  lemma RegroupOutcomes(a: multiset<Outcome>, h: multiset<Outcome>, b: multiset<Outcome>, x: multiset<Outcome>,
                        c: multiset<Outcome>)
    requires a + h == b + x
    ensures (a + c) + h == (b + c) + x
  {
    assert (a + c) + h == (a + h) + c && (b + c) + x == (b + x) + c;
  }

  lemma {:induction false} ReportedUpdate(ws: seq<Worker>, w: nat, x: Worker)
    requires w < |ws|
    ensures Reported(ws[w := x]) + OneReported(ws[w]) == Reported(ws) + OneReported(x)
  {
    hide OneReported;
    var m, ws' := |ws| - 1, ws[w := x];
    if w < m {
      ReportedUpdate(ws[..m], w, x);
      assert ws'[..m] == ws[..m][w := x] && ws'[m] == ws[m] && ws[..m][w] == ws[w];
      RegroupOutcomes(Reported(ws'[..m]), OneReported(ws[w]), Reported(ws[..m]), OneReported(x), OneReported(ws[m]));
    } else {
      assert ws'[..m] == ws[..m] && ws'[m] == x;
    }
  }

  lemma OutcomesSnoc(s: seq<Job>, j: Job)
    ensures Outcomes(s + [j]) == Outcomes(s) + multiset{OutcomeOf(j)}
  {
    assert (s + [j])[..|s|] == s;
  }

  lemma {:induction false} OutcomesCons(j: Job, s: seq<Job>)
    ensures Outcomes([j] + s) == multiset{OutcomeOf(j)} + Outcomes(s)
  {
    hide OutcomeOf;
    if s == [] {
      assert [j] + s == [] + [j];
      OutcomesSnoc([], j);
    } else {
      var m := |s| - 1;
      OutcomesCons(j, s[..m]);
      OutcomesSnoc([j] + s[..m], s[m]);
      OutcomesSnoc(s[..m], s[m]);
      hide Outcomes;
      assert [j] + s == ([j] + s[..m]) + [s[m]] && s == s[..m] + [s[m]];
    }
  }

  lemma {:induction false} OutcomesMembers(s: seq<Job>, o: Outcome)
    ensures o in Outcomes(s) <==> exists i :: 0 <= i < |s| && OutcomeOf(s[i]) == o
  {
    hide OutcomeOf;
    if s != [] {
      var m := |s| - 1;
      OutcomesMembers(s[..m], o);
      if o in Outcomes(s[..m]) {
        var i :| 0 <= i < m && OutcomeOf(s[..m][i]) == o;
        assert OutcomeOf(s[i]) == o;
      }
      if i :| 0 <= i < m && OutcomeOf(s[i]) == o {
        assert OutcomeOf(s[..m][i]) == o;
      }
    }
  }

  /** A worker's step adds what it decides. */
  lemma WorkerDecides(s: Pool, w: nat, x: Worker, decided: multiset<Outcome>)
    requires w < |s.workers| && OneReported(x) == OneReported(s.workers[w]) + decided
    ensures InPool(s.(workers := s.workers[w := x])) == InPool(s) + decided
  {
    hide Reported, OneReported, Outcomes;
    ReportedUpdate(s.workers, w, x);
    var before, now := OneReported(s.workers[w]), Reported(s.workers[w := x]);
    assert now + before == (Reported(s.workers) + decided) + before;
    assert now == (now + before) - before;
    assert (Reported(s.workers) + decided + before) - before == Reported(s.workers) + decided;
  }

  lemma PutDecides(s: Pool, w: nat)
    requires Enabled(s, Put(w))
    ensures InPool(Apply(s, Put(w))) == InPool(s)
  {
    hide Reported, Outcomes, OutcomeOf;
    var job := s.workers[w].job;
    ReportedUpdate(s.workers, w, Waiting);
    OutcomesSnoc(s.output, job);
    assert Reported(s.workers[w := Waiting]) + multiset{OutcomeOf(job)} == Reported(s.workers);
  }

  lemma MainDecides(s: Pool)
    requires MainEnabled(s)
    ensures InPool(MainStep(s)) == InPool(s)
  {
    hide Reported, Outcomes, OutcomeOf;
    if !(s.queued < |s.jobs| || s.poisoned < s.processors) && |s.results| < |s.jobs| {
      assert s.output == [s.output[0]] + s.output[1..];
      OutcomesCons(s.output[0], s.output[1..]);
      OutcomesSnoc(s.results, s.output[0]);
    }
  }

  lemma GetDecides(s: Pool, w: nat)
    requires Enabled(s, Get(w))
    ensures InPool(Apply(s, Get(w))) == InPool(s)
  {
    hide Reported, Outcomes;
    WorkerDecides(s, w, Holding(s.input[0]), multiset{});
  }

  lemma DecideDecides(s: Pool, w: nat)
    requires Genuine(s) && Enabled(s, Decide(w))
    ensures InPool(Apply(s, Decide(w))) == InPool(s) + Decided(s, Decide(w), s.threadExit)
  {
    hide Reported, Outcomes;
    assert GenuineWorker(s.jobs, s.threadExit, s.workers[w]);
    hide Genuine, InPool;
    WorkerDecides(s, w, Apply(s, Decide(w)).workers[w], Decided(s, Decide(w), s.threadExit));
  }

  lemma FinishDecides(s: Pool, w: nat, code: int)
    requires Genuine(s) && Enabled(s, Finish(w, code))
    ensures InPool(Apply(s, Finish(w, code))) == InPool(s) + Decided(s, Finish(w, code), s.threadExit)
  {
    hide Reported, Outcomes;
    assert GenuineWorker(s.jobs, s.threadExit, s.workers[w]);
    hide Genuine, InPool;
    WorkerDecides(s, w, Apply(s, Finish(w, code)).workers[w], Decided(s, Finish(w, code), s.threadExit));
  }

  lemma InterruptDecides(s: Pool)
    ensures InPool(Apply(s, Interrupt)) == InPool(s)
  {
  }

  lemma StepDecides(s: Pool, step: Step)
    requires Genuine(s) && Enabled(s, step)
    ensures InPool(Apply(s, step)) == InPool(s) + Decided(s, step, s.threadExit)
    ensures Apply(s, step).threadExit <==> s.threadExit || step.Interrupt?
  {
    hide Reported, Outcomes, InPool, OutcomeOf, OneReported, Genuine;
    match step
    case Main => MainDecides(s);
    case Get(w) => GetDecides(s, w);
    case Decide(w) => DecideDecides(s, w);
    case Finish(w, code) => FinishDecides(s, w, code);
    case Put(w) => PutDecides(s, w);
    case Interrupt => InterruptDecides(s);
  }

  lemma {:induction false} RunDecides(s: Pool, steps: seq<Step>)
    requires Inv(s) && Genuine(s) && Legal(s, steps)
    ensures InPool(Run(s, steps)) == InPool(s) + AllDecided(s, steps, s.threadExit)
    decreases |steps|
  {
    hide Inv, Genuine, InPool, Apply, Enabled, Decided;
    if steps != [] {
      StepKeeps(s, steps[0]);
      StepKeepsGenuine(s, steps[0]);
      StepDecides(s, steps[0]);
      RunDecides(Apply(s, steps[0]), steps[1..]);
    }
  }

  lemma {:induction false} NothingReported(ws: seq<Worker>)
    requires forall i :: 0 <= i < |ws| ==> ws[i].Waiting? || ws[i].Exited?
    ensures Reported(ws) == multiset{}
  {
    if ws != [] {
      NothingReported(ws[..|ws| - 1]);
    }
  }

  /**
   * The results of a finished run are what its steps decided, no more and no less: each job that was skipped or
   * thrown away, and each process with the code it returned.
   */
  lemma ResultsAreDecided(jobs: seq<Job>, processors: nat, steps: seq<Step>)
    requires processors >= 1 && forall i :: 0 <= i < |jobs| ==> jobs[i].id == i && !jobs[i].isBreak
    requires Legal(Start(jobs, processors), steps) && Finished(Run(Start(jobs, processors), steps))
    ensures Outcomes(Run(Start(jobs, processors), steps).results)
         == AllDecided(Start(jobs, processors), steps, false)
  {
    var s0 := Start(jobs, processors);
    StartHolds(jobs, processors);
    GenuineStart(jobs, processors);
    hide Inv, Genuine, Legal, Run, AllDecided, Finished, InPool, Outcomes, Ids, BreaksTaken, Start;
    RunKeepsGenuine(s0, steps);
    RunDecides(s0, steps);
    AllCollected(Run(s0, steps));
    assert InPool(s0) + AllDecided(s0, steps, false) == AllDecided(s0, steps, false);
  }

  /** At the end everything is among the results. */
  lemma AllCollected(s: Pool)
    requires Inv(s) && Finished(s)
    ensures InPool(s) == Outcomes(s.results)
  {
    FinishedMeans(s);
    hide Inv, Finished;
    NothingReported(s.workers);
  }

  lemma GenuineStart(jobs: seq<Job>, processors: nat)
    ensures Genuine(Start(jobs, processors)) && !Start(jobs, processors).threadExit
    ensures InPool(Start(jobs, processors)) == multiset{}
  {
    NothingReported(Start(jobs, processors).workers);
  }

  /** The jobs that the workers of a run report, in the order in which they do. */
  ghost function AllPut(s: Pool, steps: seq<Step>): seq<Job>
    requires Legal(s, steps)
    decreases |steps|
  {
    if steps == [] then []
    else (if steps[0].Put? then [s.workers[steps[0].w].job] else []) + AllPut(Apply(s, steps[0]), steps[1..])
  }

  lemma OnePut(s: Pool, step: Step)
    requires Enabled(s, step)
    ensures var s' := Apply(s, step);
      s'.results + s'.output == s.results + s.output + if step.Put? then [s.workers[step.w].job] else []
  {
    if step.Main? && s.queued >= |s.jobs| && s.poisoned >= s.processors && |s.results| < |s.jobs| {
      assert s.output == [s.output[0]] + s.output[1..];
    }
  }

  /** The main thread collects the results in the order in which they are reported. */
  lemma {:induction false} CollectedInOrder(s: Pool, steps: seq<Step>)
    requires Legal(s, steps)
    ensures Run(s, steps).results + Run(s, steps).output == s.results + s.output + AllPut(s, steps)
    decreases |steps|
  {
    if steps == [] {
      assert s.results + s.output + [] == s.results + s.output;
    } else {
      OnePut(s, steps[0]);
      CollectedInOrder(Apply(s, steps[0]), steps[1..]);
      hide Apply;
      var mid, put := Apply(s, steps[0]), if steps[0].Put? then [s.workers[steps[0].w].job] else [];
      var rest := AllPut(mid, steps[1..]);
      assert (s.results + s.output + put) + rest == s.results + s.output + (put + rest);
    }
  }

  /** The return codes decided are those of the Finish steps. */
  lemma {:induction false} CodesDecided(s: Pool, steps: seq<Step>, interrupted: bool, code: int)
    requires Legal(s, steps)
    ensures (exists id :: Returned(id, code) in AllDecided(s, steps, interrupted)) <==>
      exists i :: 0 <= i < |steps| && steps[i].Finish? && steps[i].returncode == code
    decreases |steps|
  {
    if steps != [] {
      var rest := steps[1..];
      CodesDecided(Apply(s, steps[0]), rest, interrupted || steps[0].Interrupt?, code);
      hide Apply;
      var all := AllDecided(s, steps, interrupted);
      if i :| 0 <= i < |steps| && steps[i].Finish? && steps[i].returncode == code {
        if i == 0 {
          assert Returned(s.workers[steps[0].w].job.id, code) in all;
        } else {
          assert rest[i - 1] == steps[i];
          var id :| Returned(id, code) in AllDecided(Apply(s, steps[0]), rest, interrupted || steps[0].Interrupt?);
          assert Returned(id, code) in all;
        }
      }
      if id :| Returned(id, code) in all {
        if Returned(id, code) !in Decided(s, steps[0], interrupted) {
          var i :| 0 <= i < |rest| && rest[i].Finish? && rest[i].returncode == code;
          assert steps[i + 1] == rest[i];
        }
      }
    }
  }

  // ----- the exit code -----

  datatype Status = PASS | FAIL | VALGR | CRASH | SKIP | ABORTED

  function StatusOf(j: Job): Status {
    if j.isBreak then ABORTED
    else if j.isSkip then SKIP
    else if j.returncode == 0 then PASS
    else if j.returncode == 1 then FAIL
    else if j.returncode == 2 then VALGR
    else CRASH
  }

  function CountOf(results: seq<Job>, status: Status): nat {
    if results == [] then 0
    else CountOf(results[..|results| - 1], status) + if StatusOf(results[|results| - 1]) == status then 1 else 0
  }

  ghost function IndicesOf(results: seq<Job>, status: Status): set<nat> {
    set i | 0 <= i < |results| && StatusOf(results[i]) == status
  }

  lemma {:induction false} CountIsSize(results: seq<Job>, status: Status)
    ensures CountOf(results, status) == |IndicesOf(results, status)|
  {
    hide StatusOf;
    if results != [] {
      var m := |results| - 1;
      CountIsSize(results[..m], status);
      hide IndicesOf;
      assert results == results[..m] + [results[m]];
      IndicesSnoc(results[..m], results[m], status);
    }
  }

  lemma IndicesSnoc(results: seq<Job>, j: Job, status: Status)
    ensures |IndicesOf(results + [j], status)|
         == |IndicesOf(results, status)| + if StatusOf(j) == status then 1 else 0
  {
    hide StatusOf;
    var before, now := IndicesOf(results, status), IndicesOf(results + [j], status);
    assert now == if StatusOf(j) == status then before + {|results|} else before;
  }

  /** A job that was neither thrown away nor skipped, and returned code. */
  predicate Returns(j: Job, code: int) { !j.isBreak && !j.isSkip && j.returncode == code }

  predicate Crashes(j: Job) { !j.isBreak && !j.isSkip && j.returncode !in {0, 1, 2} }

  /** What is counted under which heading. */
  lemma CountsMean(results: seq<Job>)
    ensures CountOf(results, PASS) == |set i | 0 <= i < |results| && Returns(results[i], 0)|
    ensures CountOf(results, FAIL) == |set i | 0 <= i < |results| && Returns(results[i], 1)|
    ensures CountOf(results, VALGR) == |set i | 0 <= i < |results| && Returns(results[i], 2)|
    ensures CountOf(results, CRASH) == |set i | 0 <= i < |results| && Crashes(results[i])|
    ensures CountOf(results, SKIP) == |set i | 0 <= i < |results| && results[i].isSkip && !results[i].isBreak|
  {
    CountIsSize(results, PASS);
    CountIsSize(results, FAIL);
    CountIsSize(results, VALGR);
    CountIsSize(results, CRASH);
    CountIsSize(results, SKIP);
    assert IndicesOf(results, PASS) == set i | 0 <= i < |results| && Returns(results[i], 0);
    assert IndicesOf(results, FAIL) == set i | 0 <= i < |results| && Returns(results[i], 1);
    assert IndicesOf(results, VALGR) == set i | 0 <= i < |results| && Returns(results[i], 2);
    assert IndicesOf(results, CRASH) == set i | 0 <= i < |results| && Crashes(results[i]);
    assert IndicesOf(results, SKIP) == set i | 0 <= i < |results| && results[i].isSkip && !results[i].isBreak;
  }

  /** The counting part of the collect loop, and the return value of run_tests. */
  method Summarize(results: seq<Job>, totalTests: nat)
      returns (passed: nat, failed: nat, crashed: nat, valgrind: nat, skipped: nat, exitCode: int)
    ensures passed == CountOf(results, PASS) && failed == CountOf(results, FAIL) && skipped == CountOf(results, SKIP)
    ensures crashed == CountOf(results, CRASH) && valgrind == CountOf(results, VALGR)
    ensures exitCode == if passed + skipped == totalTests then 0 else 1
  {
    passed, failed, crashed, valgrind, skipped := 0, 0, 0, 0, 0;
    for i := 0 to |results|
      invariant passed == CountOf(results[..i], PASS) && failed == CountOf(results[..i], FAIL)
      invariant skipped == CountOf(results[..i], SKIP) && crashed == CountOf(results[..i], CRASH)
      invariant valgrind == CountOf(results[..i], VALGR)
    {
      var job := results[i];
      assert results[..i + 1][..i] == results[..i];
      if job.isBreak {
        continue;
      }
      if job.isSkip {
        skipped := skipped + 1;
      } else {
        if job.returncode == 0 {
          passed := passed + 1;
        } else if job.returncode == 1 {
          failed := failed + 1;
        } else if job.returncode == 2 {
          valgrind := valgrind + 1;
        } else {
          crashed := crashed + 1;
        }
      }
    }
    assert results[..|results|] == results;
    exitCode := if passed + skipped == totalTests then 0 else 1;
  }

  lemma {:induction false} AllGood(results: seq<Job>)
    ensures CountOf(results, PASS) + CountOf(results, SKIP) <= |results|
    ensures CountOf(results, PASS) + CountOf(results, SKIP) == |results| <==>
      forall i :: 0 <= i < |results| ==> !results[i].isBreak && (results[i].isSkip || results[i].returncode == 0)
  {
    if results != [] {
      AllGood(results[..|results| - 1]);
    }
  }

  lemma {:induction false} SomeBroken(ws: seq<Worker>, w: nat)
    requires w < |ws| && Broken(ws[w])
    ensures BreaksTaken(ws) >= 1
  {
    if w < |ws| - 1 {
      SomeBroken(ws[..|ws| - 1], w);
    }
  }

  /**
   * At any time in any run, a worker that has taken a break job, and so stops or has stopped, has left no real
   * job behind: all of them have been queued and taken by workers before.
   */
  lemma BreaksComeLast(jobs: seq<Job>, processors: nat, steps: seq<Step>, w: nat)
    requires processors >= 1 && forall i :: 0 <= i < |jobs| ==> jobs[i].id == i && !jobs[i].isBreak
    requires Legal(Start(jobs, processors), steps)
    requires w < |Run(Start(jobs, processors), steps).workers| && Broken(Run(Start(jobs, processors), steps).workers[w])
    ensures var s := Run(Start(jobs, processors), steps);
      s.queued == |jobs| && forall i :: 0 <= i < |s.input| ==> s.input[i].isBreak
  {
    var s0 := Start(jobs, processors);
    StartHolds(jobs, processors);
    RunKeeps(s0, steps);
    SameJobs(s0, steps);
    var s := Run(s0, steps);
    SomeBroken(s.workers, w);
    hide BreaksTaken, AllInHand, Ids;
    assert Taken(s) > |s.jobs|;
    if s.input != [] {
      HeadOfInput(s);
    }
  }

  /** Every run is finite, cannot stop early, and ends with every job reported once. */
  lemma PoolTheorem(jobs: seq<Job>, processors: nat, steps: seq<Step>)
    requires processors >= 1 && forall i :: 0 <= i < |jobs| ==> jobs[i].id == i && !jobs[i].isBreak
    requires Legal(Start(jobs, processors), steps)
    ensures var s := Run(Start(jobs, processors), steps);
      && Work(steps) <= 6 * |jobs| + 4 * processors
      && (Finished(s) || exists step :: Enabled(s, step) && !step.Interrupt?)
      && (Finished(s) ==> Ids(s.results) == Ids(jobs))
      && (s.input != [] && s.input[0].isBreak ==> forall i :: 0 <= i < |s.input| ==> s.input[i].isBreak)
  {
    hide AllInHand, BreaksTaken, Ids, WorkersWeight;
    var s0 := Start(jobs, processors);
    StartHolds(jobs, processors);
    NoWeight(processors);
    RunIsBounded(s0, steps);
    var s := Run(s0, steps);
    SameJobs(s0, steps);
    if Finished(s) {
      FinishedMeans(s);
    } else {
      var step := NotStuck(s);
    }
    if s.input != [] {
      HeadOfInput(s);
    }
  }

  lemma {:induction false} NoWeight(n: nat)
    ensures WorkersWeight(seq(n, _ => Waiting)) == 0
  {
    if n > 0 {
      NoWeight(n - 1);
      assert seq(n, _ => Waiting)[..n - 1] == seq(n - 1, _ => Waiting);
    }
  }

  lemma {:induction false} SameJobs(s: Pool, steps: seq<Step>)
    requires Legal(s, steps)
    ensures Run(s, steps).jobs == s.jobs && Run(s, steps).processors == s.processors
    decreases |steps|
  {
    if steps != [] {
      SameJobs(Apply(s, steps[0]), steps[1..]);
    }
  }

  /**
   * run_tests succeeds exactly when no job was thrown away and every process that was run returned 0; the results
   * belong to the jobs; and without an interrupt none is thrown away.
   */
  lemma ExitCodeTheorem(jobs: seq<Job>, processors: nat, steps: seq<Step>)
    requires processors >= 1 && forall i :: 0 <= i < |jobs| ==> jobs[i].id == i && !jobs[i].isBreak
    requires Legal(Start(jobs, processors), steps) && Finished(Run(Start(jobs, processors), steps))
    ensures var r := Run(Start(jobs, processors), steps).results;
      var decided := AllDecided(Start(jobs, processors), steps, false);
      && (CountOf(r, PASS) + CountOf(r, SKIP) == |jobs| <==>
            && (forall id :: Aborted(id) !in decided)
            && forall i :: 0 <= i < |steps| && steps[i].Finish? ==> steps[i].returncode == 0)
      && (CountOf(r, PASS) + CountOf(r, SKIP) == |jobs| <==>
            forall i :: 0 <= i < |r| ==> !r[i].isBreak && (r[i].isSkip || r[i].returncode == 0))
      && (forall i :: 0 <= i < |r| ==> Real(jobs, r[i]))
      && ((forall i :: 0 <= i < |steps| ==> !steps[i].Interrupt?) ==> forall i :: 0 <= i < |r| ==> !r[i].isBreak)
  {
    var s0 := Start(jobs, processors);
    StartHolds(jobs, processors);
    RunKeepsGenuine(s0, steps);
    var r := Run(s0, steps).results;
    AllGood(r);
    ResultsAreDecided(jobs, processors, steps);
    ResultsGenuine(Run(s0, steps));
    hide Legal, Run, AllDecided, Inv, Genuine, Outcomes, CountOf, Finished, Result;
    GoodIffDecided(r, s0, steps);
  }

  lemma ResultsGenuine(s: Pool)
    requires Genuine(s)
    ensures forall i :: 0 <= i < |s.results| ==> Real(s.jobs, s.results[i]) && (s.results[i].isBreak ==> s.threadExit)
  {
    assert forall i :: 0 <= i < |s.results| ==> Result(s.jobs, s.threadExit, s.results[i]);
  }

  lemma GoodIffDecided(r: seq<Job>, s: Pool, steps: seq<Step>)
    requires Legal(s, steps) && Outcomes(r) == AllDecided(s, steps, false)
    ensures (forall i :: 0 <= i < |r| ==> !r[i].isBreak && (r[i].isSkip || r[i].returncode == 0)) <==>
      && (forall id :: Aborted(id) !in AllDecided(s, steps, false))
      && forall i :: 0 <= i < |steps| && steps[i].Finish? ==> steps[i].returncode == 0
  {
    hide Outcomes, AllDecided, Legal;
    var good := forall i :: 0 <= i < |r| ==> !r[i].isBreak && (r[i].isSkip || r[i].returncode == 0);
    if good {
      forall id ensures Aborted(id) !in Outcomes(r) {
        OutcomesMembers(r, Aborted(id));
      }
      forall i | 0 <= i < |steps| && steps[i].Finish? ensures steps[i].returncode == 0 {
        CodesDecided(s, steps, false, steps[i].returncode);
        var id :| Returned(id, steps[i].returncode) in Outcomes(r);
        OutcomesMembers(r, Returned(id, steps[i].returncode));
      }
    } else {
      var i :| 0 <= i < |r| && !(!r[i].isBreak && (r[i].isSkip || r[i].returncode == 0));
      OutcomesMembers(r, OutcomeOf(r[i]));
      if r[i].isBreak {
        assert Aborted(r[i].id) in AllDecided(s, steps, false);
      } else {
        assert Returned(r[i].id, r[i].returncode) in AllDecided(s, steps, false);
        CodesDecided(s, steps, false, r[i].returncode);
      }
    }
  }
}
