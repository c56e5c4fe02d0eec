/** The worker pool of run_on_all_functions (plugin.cpp), as a state machine over its atomic steps. */
module WorkerPool {
  import opened Basics

  /** A found string; two are equal when their texts are (string_result.hpp). */
  datatype Found = Found(rip: nat, ptr: nat, text: string)

  /** A set of found strings keyed by text: inserting keeps the entry already there. */
  type Results = map<string, Found>

  function InsertAll(into: Results, found: Results): Results {
    found + into
  }

  /** Where one worker stands between two atomic operations. */
  datatype Pc =
    | Starting                            // the emulator is not yet constructed
    | Checking                            // about to load stop_requested
    | Claiming                            // about to fetch_add next_index
    | Running(index: nat)                 // emu.run(starts[index]) in progress
    | Inserting(index: nat, found: Results) // about to insert the strings found
    | Counting                            // about to fetch_add completed
    | Exited

  datatype Worker = Worker(pc: Pc, local: Results)

  /**
   * The shared atomics and the workers. `claimed` and `ran` record, for the proofs, the indices in the order they
   * were claimed and what each finished run found.
   */
  datatype Pool = Pool(total: nat, next: nat, completed: nat, stop: bool, workers: seq<Worker>,
                       claimed: seq<nat>, ran: map<nat, Results>)

  /** std::max(1, std::min(preferred, total)), preferred being 4 when the hardware does not say. */
  function ThreadCount(hardware: nat, total: nat): (n: nat)
    ensures 1 <= n && (n <= total || total == 0)
    ensures total > 0 && hardware > 0 ==> n <= hardware
    ensures n == total || n == 1 || n == if hardware == 0 then 4 else hardware
    ensures n < total ==> n == if hardware == 0 then 4 else hardware
  {
    var preferred := if hardware == 0 then 4 else hardware;
    var wanted := if preferred < total then preferred else total;
    if wanted < 1 then 1 else wanted
  }

  function Initial(total: nat, threads: nat): Pool {
    Pool(total, 0, 0, false, seq(threads, _ => Worker(Starting, map[])), [], map[])
  }

  function SetWorker(p: Pool, w: nat, worker: Worker): Pool
    requires w < |p.workers|
  {
    p.(workers := p.workers[w := worker])
  }

  /** What the environment decides: whether an emulator comes up, what a run finds, whether the user cancels. */
  datatype Choice = Choice(ready: bool, found: Results)

  /** One atomic step of worker w. */
  function WorkerStep(p: Pool, w: nat, c: Choice): Pool
    requires w < |p.workers|
  {
    var me := p.workers[w];
    match me.pc
    case Starting =>
      if c.ready then SetWorker(p, w, me.(pc := Checking)) else SetWorker(p, w, me.(pc := Exited)).(stop := true)
    case Checking =>
      SetWorker(p, w, me.(pc := if p.stop then Exited else Claiming))
    case Claiming =>
      var q := p.(next := p.next + 1);
      if p.next >= p.total then SetWorker(q, w, me.(pc := Exited))
      else SetWorker(q, w, me.(pc := Running(p.next))).(claimed := p.claimed + [p.next])
    case Running(index) =>
      SetWorker(p, w, me.(pc := Inserting(index, c.found)))
    case Inserting(index, found) =>
      SetWorker(p, w, Worker(Counting, InsertAll(me.local, found))).(ran := p.ran[index := found])
    case Counting =>
      SetWorker(p, w, me.(pc := Checking)).(completed := p.completed + 1)
    case Exited => p
  }

  /** A step of the pool: one worker moves, or the main thread sees the user cancel. */
  datatype Action = Move(w: nat, c: Choice) | Cancel

  function Step(p: Pool, a: Action): Pool {
    match a
    case Move(w, c) => if w < |p.workers| then WorkerStep(p, w, c) else p
    case Cancel => p.(stop := true)
  }

  function Execute(p: Pool, actions: seq<Action>): Pool {
    if actions == [] then p else Step(Execute(p, actions[..|actions| - 1]), actions[|actions| - 1])
  }

  // ----- What every interleaving keeps

  /** The index a worker is busy with. */
  function Held(pc: Pc): set<nat> {
    match pc
    case Running(index) => {index}
    case Inserting(index, _) => {index}
    case _ => {}
  }

  function NotYetCounted(pc: Pc): nat {
    if pc.Counting? then 1 else 0
  }

  function CountPending(workers: seq<Worker>): nat {
    if workers == [] then 0 else CountPending(workers[..|workers| - 1]) + NotYetCounted(workers[|workers| - 1].pc)
  }

  /** The texts in the local results of all workers. */
  function Texts(workers: seq<Worker>): set<string> {
    set w, t | w in workers && t in w.local :: t
  }

  function RanTexts(ran: map<nat, Results>): set<string> {
    set i, t | i in ran && t in ran[i] :: t
  }

  /** The claims are 0, 1, 2, ... without a gap or a repetition. */
  ghost predicate ClaimsInOrder(p: Pool) {
    |p.claimed| == (if p.next < p.total then p.next else p.total)
    && forall k :: 0 <= k < |p.claimed| ==> p.claimed[k] == k
  }

  /** Worker w is busy with index i. */
  predicate Holds(workers: seq<Worker>, w: nat, i: nat) {
    w < |workers| && i in Held(workers[w].pc)
  }

  ghost predicate HeldBySome(workers: seq<Worker>, i: nat) {
    exists w: nat :: Holds(workers, w, i)
  }

  /** Each of the first n indices is held by exactly one worker or done, never both. */
  ghost predicate Owned(workers: seq<Worker>, n: nat, done: set<nat>) {
    && (forall i: nat :: i in done ==> i < n)
    && (forall w: nat, i: nat :: Holds(workers, w, i) ==> i < n && i !in done)
    && (forall v: nat, w: nat, i: nat :: Holds(workers, v, i) && Holds(workers, w, i) ==> v == w)
    && (forall i: nat :: i < n && i !in done ==> HeldBySome(workers, i))
  }

  ghost predicate ClaimsOwned(p: Pool) {
    Owned(p.workers, |p.claimed|, p.ran.Keys)
  }

  /** Finished runs are counted once. */
  ghost predicate CountsAgree(p: Pool) {
    p.completed + CountPending(p.workers) == |p.ran|
  }

  /** No worker leaves before the indices are used up unless a stop was requested. */
  ghost predicate NoEarlyExit(p: Pool) {
    !p.stop ==> forall w :: 0 <= w < |p.workers| && p.workers[w].pc.Exited? ==> p.next >= p.total
  }

  /** The local results hold the texts of the finished runs and nothing else. */
  ghost predicate TextsAgree(p: Pool) {
    Texts(p.workers) == RanTexts(p.ran)
  }

  ghost predicate Invariant(p: Pool) {
    ClaimsInOrder(p) && ClaimsOwned(p) && CountsAgree(p) && NoEarlyExit(p) && TextsAgree(p)
  }

  lemma {:induction false} NoTexts(workers: seq<Worker>)
    requires forall w :: w in workers ==> w.pc == Starting && w.local == map[]
    ensures Texts(workers) == {} && CountPending(workers) == 0
    decreases |workers|
  {
    if workers != [] {
      NoTexts(workers[..|workers| - 1]);
    }
  }

  lemma InitiallyInvariant(total: nat, threads: nat)
    ensures Invariant(Initial(total, threads))
  {
    NoTexts(Initial(total, threads).workers);
  }

  lemma StepKeepsClaims(p: Pool, a: Action)
    requires ClaimsInOrder(p)
    ensures ClaimsInOrder(Step(p, a)) && p.claimed <= Step(p, a).claimed
  {
  }

  lemma HoldsAfterUpdate(workers: seq<Worker>, w: nat, x: Worker, after: seq<Worker>)
    requires w < |workers| && after == workers[w := x]
    ensures forall v: nat, i: nat {:trigger Holds(after, v, i)} ::
              Holds(after, v, i) <==> if v == w then i in Held(x.pc) else Holds(workers, v, i)
  {
  }

  lemma StillHeld(workers: seq<Worker>, w: nat, x: Worker, after: seq<Worker>, i: nat)
    requires w < |workers| && after == workers[w := x]
    requires i in Held(x.pc) || (HeldBySome(workers, i) && i !in Held(workers[w].pc))
    ensures HeldBySome(after, i)
  {
    HoldsAfterUpdate(workers, w, x, after);
    if i in Held(x.pc) {
      assert Holds(after, w, i);
    } else {
      var v: nat :| Holds(workers, v, i);
      assert Holds(after, v, i);
    }
  }

  lemma OwnedSame(workers: seq<Worker>, w: nat, x: Worker, n: nat, done: set<nat>)
    requires Owned(workers, n, done) && w < |workers| && Held(x.pc) == Held(workers[w].pc)
    ensures Owned(workers[w := x], n, done)
  {
    var after := workers[w := x];
    HoldsAfterUpdate(workers, w, x, after);
    assert forall i: nat :: i in Held(workers[w].pc) <==> Holds(workers, w, i);
    forall i: nat | i < n && i !in done
      ensures HeldBySome(after, i)
    {
      StillHeld(workers, w, x, after, i);
    }
  }

  lemma OwnedClaim(workers: seq<Worker>, w: nat, x: Worker, n: nat, done: set<nat>)
    requires Owned(workers, n, done) && w < |workers| && Held(workers[w].pc) == {} && Held(x.pc) == {n}
    ensures Owned(workers[w := x], n + 1, done)
  {
    var after := workers[w := x];
    HoldsAfterUpdate(workers, w, x, after);
    assert forall i: nat :: i in Held(workers[w].pc) <==> Holds(workers, w, i);
    forall i: nat | i < n + 1 && i !in done
      ensures HeldBySome(after, i)
    {
      StillHeld(workers, w, x, after, i);
    }
  }

  lemma OwnedFinish(workers: seq<Worker>, w: nat, x: Worker, n: nat, done: set<nat>, j: nat)
    requires Owned(workers, n, done) && w < |workers| && Held(workers[w].pc) == {j} && Held(x.pc) == {}
    ensures Owned(workers[w := x], n, done + {j}) && j !in done
  {
    var after := workers[w := x];
    HoldsAfterUpdate(workers, w, x, after);
    assert forall i: nat :: i in Held(workers[w].pc) <==> Holds(workers, w, i);
    forall i: nat | i < n && i !in done + {j}
      ensures HeldBySome(after, i)
    {
      StillHeld(workers, w, x, after, i);
    }
  }

  lemma StepKeepsOwned(p: Pool, a: Action)
    requires ClaimsInOrder(p) && ClaimsOwned(p)
    ensures ClaimsOwned(Step(p, a))
  {
    hide Owned;
    if a.Move? && a.w < |p.workers| {
      var q, w := Step(p, a), a.w;
      var me, n, done := p.workers[w].pc, |p.claimed|, p.ran.Keys;
      if me.Claiming? && p.next < p.total {
        OwnedClaim(p.workers, w, q.workers[w], n, done);
      } else if me.Inserting? {
        OwnedFinish(p.workers, w, q.workers[w], n, done, me.index);
        assert q.ran.Keys == done + {me.index};
      } else {
        assert p.workers[w := q.workers[w]] == q.workers;
        OwnedSame(p.workers, w, q.workers[w], n, done);
      }
    }
  }

  lemma {:induction false} CountPendingUpdate(workers: seq<Worker>, w: nat, x: Worker)
    requires w < |workers|
    ensures CountPending(workers[w := x]) == CountPending(workers) - NotYetCounted(workers[w].pc) + NotYetCounted(x.pc)
    decreases |workers|
  {
    var n := |workers| - 1;
    if w < n {
      CountPendingUpdate(workers[..n], w, x);
      assert workers[w := x][..n] == workers[..n][w := x];
    } else {
      assert workers[w := x][..n] == workers[..n];
    }
  }

  lemma AddedOne(ran: map<nat, Results>, i: nat, found: Results)
    requires i !in ran
    ensures |ran[i := found]| == |ran| + 1
  {
    assert ran[i := found].Keys == ran.Keys + {i};
  }

  lemma MoveShape(p: Pool, w: nat, c: Choice)
    requires w < |p.workers|
    ensures var q := WorkerStep(p, w, c);
            |q.workers| == |p.workers| && q.workers == p.workers[w := q.workers[w]]
  {
  }

  lemma MoveCounts(p: Pool, w: nat, c: Choice)
    requires w < |p.workers|
    ensures var q, me := WorkerStep(p, w, c), p.workers[w].pc;
            |q.workers| == |p.workers|
            && q.completed + NotYetCounted(q.workers[w].pc)
               == p.completed + NotYetCounted(me) + (if me.Inserting? then 1 else 0)
            && q.ran == (if me.Inserting? then p.ran[me.index := me.found] else p.ran)
  {
  }

  lemma StepKeepsCounts(p: Pool, a: Action)
    requires ClaimsOwned(p) && CountsAgree(p)
    ensures CountsAgree(Step(p, a))
  {
    if a.Move? && a.w < |p.workers| {
      var w, me := a.w, p.workers[a.w].pc;
      MoveShape(p, w, a.c);
      MoveCounts(p, w, a.c);
      hide Owned, CountPending, WorkerStep;
      var q := WorkerStep(p, w, a.c);
      CountPendingUpdate(p.workers, w, q.workers[w]);
      if me.Inserting? {
        HeldIsNotRun(p, w);
        AddedOne(p.ran, me.index, me.found);
      }
    }
  }

  lemma HeldIsNotRun(p: Pool, w: nat)
    requires ClaimsOwned(p) && w < |p.workers| && p.workers[w].pc.Inserting?
    ensures p.workers[w].pc.index !in p.ran
  {
    assert Holds(p.workers, w, p.workers[w].pc.index);
  }

  lemma StepKeepsExits(p: Pool, a: Action)
    requires NoEarlyExit(p)
    ensures NoEarlyExit(Step(p, a))
  {
  }

  lemma TextsUpdate(workers: seq<Worker>, w: nat, x: Worker, found: Results)
    requires w < |workers| && x.local == InsertAll(workers[w].local, found)
    ensures Texts(workers[w := x]) == Texts(workers) + found.Keys
  {
    var after := workers[w := x];
    forall t
      ensures t in Texts(after) <==> t in Texts(workers) || t in found
    {
      if t in Texts(after) {
        var v :| v in after && t in v.local;
        var k :| 0 <= k < |after| && after[k] == v;
        if k != w {
          assert workers[k] in workers;
        } else {
          assert workers[w] in workers;
        }
      }
      if t in Texts(workers) {
        var v :| v in workers && t in v.local;
        var k :| 0 <= k < |workers| && workers[k] == v;
        assert after[k] in after;
      }
      if t in found {
        assert after[w] in after;
      }
    }
  }

  lemma RanTextsUpdate(ran: map<nat, Results>, i: nat, found: Results)
    requires i !in ran
    ensures RanTexts(ran[i := found]) == RanTexts(ran) + found.Keys
  {
    var after := ran[i := found];
    forall t
      ensures t in RanTexts(after) <==> t in RanTexts(ran) || t in found
    {
      if t in RanTexts(ran) {
        var j :| j in ran && t in ran[j];
        assert j in after && t in after[j];
      }
      if t in found {
        assert i in after && t in after[i];
      }
    }
  }

  lemma MoveTexts(p: Pool, w: nat, c: Choice)
    requires w < |p.workers|
    ensures var q, me := WorkerStep(p, w, c), p.workers[w];
            |q.workers| == |p.workers|
            && q.workers[w].local == InsertAll(me.local, if me.pc.Inserting? then me.pc.found else map[])
            && q.ran == (if me.pc.Inserting? then p.ran[me.pc.index := me.pc.found] else p.ran)
  {
    assert map[] + p.workers[w].local == p.workers[w].local;
  }

  lemma StepKeepsTexts(p: Pool, a: Action)
    requires ClaimsOwned(p) && TextsAgree(p)
    ensures TextsAgree(Step(p, a))
  {
    if a.Move? && a.w < |p.workers| {
      var w, me := a.w, p.workers[a.w];
      MoveShape(p, w, a.c);
      MoveTexts(p, w, a.c);
      hide Owned, Texts, RanTexts, WorkerStep;
      var q := WorkerStep(p, w, a.c);
      TextsUpdate(p.workers, w, q.workers[w], if me.pc.Inserting? then me.pc.found else map[]);
      if me.pc.Inserting? {
        HeldIsNotRun(p, w);
        RanTextsUpdate(p.ran, me.pc.index, me.pc.found);
      }
    }
  }

  lemma StepKeepsInvariant(p: Pool, a: Action)
    requires Invariant(p)
    ensures Invariant(Step(p, a))
  {
    hide ClaimsInOrder, ClaimsOwned, CountsAgree, NoEarlyExit, TextsAgree, Step;
    StepKeepsClaims(p, a);
    StepKeepsOwned(p, a);
    StepKeepsCounts(p, a);
    StepKeepsExits(p, a);
    StepKeepsTexts(p, a);
  }

  lemma StepFrame(p: Pool, a: Action)
    ensures Step(p, a).total == p.total && |Step(p, a).workers| == |p.workers|
  {
  }

  lemma {:induction false} EveryRunKeepsInvariant(total: nat, threads: nat, actions: seq<Action>)
    ensures Invariant(Execute(Initial(total, threads), actions))
    ensures Execute(Initial(total, threads), actions).total == total
    ensures |Execute(Initial(total, threads), actions).workers| == threads
    decreases |actions|
  {
    hide Invariant, Step;
    if actions == [] {
      InitiallyInvariant(total, threads);
    } else {
      var init := actions[..|actions| - 1];
      EveryRunKeepsInvariant(total, threads, init);
      StepFrame(Execute(Initial(total, threads), init), actions[|actions| - 1]);
      StepKeepsInvariant(Execute(Initial(total, threads), init), actions[|actions| - 1]);
    }
  }

  // ----- Theorems about every interleaving

  /** Every index is claimed by exactly one worker, and completed never exceeds total. */
  lemma ClaimsAreExclusive(total: nat, threads: nat, actions: seq<Action>)
    ensures var p := Execute(Initial(total, threads), actions);
            && (forall j, k :: 0 <= j < k < |p.claimed| ==> p.claimed[j] != p.claimed[k])
            && (forall i :: i in p.claimed ==> i < total)
            && p.completed <= |p.ran| <= total
  {
    EveryRunKeepsInvariant(total, threads, actions);
    hide Execute;
    var p := Execute(Initial(total, threads), actions);
    Indices(|p.claimed|);
    SubsetSize(p.ran.Keys, FirstIndices(|p.claimed|));
  }

  function FirstIndices(n: nat): set<nat> {
    if n == 0 then {} else FirstIndices(n - 1) + {n - 1}
  }

  lemma {:induction false} Indices(n: nat)
    ensures |FirstIndices(n)| == n && forall i: nat :: i in FirstIndices(n) <==> i < n
    decreases n
  {
    if n > 0 {
      Indices(n - 1);
    }
  }

  lemma {:induction false} NothingPendingAtExit(workers: seq<Worker>)
    requires forall w :: w in workers ==> w.pc.Exited?
    ensures CountPending(workers) == 0
    decreases |workers|
  {
    if workers != [] {
      NothingPendingAtExit(workers[..|workers| - 1]);
    }
  }

  ghost predicate AllExited(p: Pool) {
    forall w :: w in p.workers ==> w.pc.Exited?
  }

  /**
   * When all workers have exited without a stop, every index has been run, all are counted, and the local results
   * together hold exactly the texts that the runs found.
   */
  lemma JoinedPoolIsComplete(total: nat, threads: nat, actions: seq<Action>)
    requires threads > 0
    requires var p := Execute(Initial(total, threads), actions); AllExited(p) && !p.stop
    ensures var p := Execute(Initial(total, threads), actions);
            p.ran.Keys == FirstIndices(total) && p.completed == total && Texts(p.workers) == RanTexts(p.ran)
  {
    EveryRunKeepsInvariant(total, threads, actions);
    hide Execute;
    var p := Execute(Initial(total, threads), actions);
    assert p.workers[0] in p.workers;
    forall w: nat, i: nat
      ensures !Holds(p.workers, w, i)
    {
      assert w < |p.workers| ==> p.workers[w] in p.workers;
    }
    Indices(total);
    assert p.ran.Keys == FirstIndices(total);
    NothingPendingAtExit(p.workers);
  }

  /** The waiting loop of the main thread cannot outlive the workers. */
  lemma MainThreadDoesNotHang(total: nat, threads: nat, actions: seq<Action>)
    requires threads > 0
    requires AllExited(Execute(Initial(total, threads), actions))
    ensures var p := Execute(Initial(total, threads), actions); p.completed >= total || p.stop
  {
    if !Execute(Initial(total, threads), actions).stop {
      JoinedPoolIsComplete(total, threads, actions);
    }
  }

  // ----- After a stop

  /** How often worker w claims an index during the actions. */
  function ClaimsOf(p: Pool, actions: seq<Action>, w: nat): nat {
    if actions == [] then 0
    else
      var init, a := actions[..|actions| - 1], actions[|actions| - 1];
      var q := Execute(p, init);
      ClaimsOf(p, init, w) + if a.Move? && a.w == w && |Step(q, a).claimed| > |q.claimed| then 1 else 0
  }

  function AboutToClaim(p: Pool, w: nat): nat {
    if w < |p.workers| && p.workers[w].pc.Claiming? then 1 else 0
  }

  lemma StopStep(p: Pool, a: Action, w: nat)
    requires p.stop
    ensures Step(p, a).stop
    ensures (if a.Move? && a.w == w && |Step(p, a).claimed| > |p.claimed| then 1 else 0) + AboutToClaim(Step(p, a), w)
            <= AboutToClaim(p, w)
    ensures (if a.Move? && a.w == w && |Step(p, a).claimed| > |p.claimed| then 1 else 0) <= AboutToClaim(p, w)
  {
  }

  /**
   * Once a stop is requested - by the user, or by a worker whose emulator did not come up - it stays, and a worker
   * claims at most one more index, and only if it had already looked at the flag.
   */
  lemma {:induction false} StopIsObeyed(p: Pool, actions: seq<Action>, w: nat)
    requires p.stop
    ensures Execute(p, actions).stop
    ensures ClaimsOf(p, actions, w) + AboutToClaim(Execute(p, actions), w) <= AboutToClaim(p, w) <= 1
    decreases |actions|
  {
    hide Step, AboutToClaim;
    if actions != [] {
      StopIsObeyed(p, actions[..|actions| - 1], w);
      StopStep(Execute(p, actions[..|actions| - 1]), actions[|actions| - 1], w);
    }
    AboutToClaimIsOne(p, w);
  }

  lemma AboutToClaimIsOne(p: Pool, w: nat)
    ensures AboutToClaim(p, w) <= 1
  {
  }

  lemma StopIsRequested(p: Pool, w: nat, c: Choice)
    ensures Step(p, Cancel).stop
    ensures w < |p.workers| && p.workers[w].pc.Starting? && !c.ready ==> Step(p, Move(w, c)).stop
  {
  }

  // ----- What the runs found

  /** Some action is the end of the run of index i, with these strings. */
  ghost predicate RunEnded(total: nat, threads: nat, actions: seq<Action>, i: nat, found: Results) {
    exists k :: 0 <= k < |actions| && EndsAt(total, threads, actions, k, i, found)
  }

  ghost predicate EndsAt(total: nat, threads: nat, actions: seq<Action>, k: int, i: nat, found: Results)
    requires 0 <= k < |actions|
  {
    var q := Execute(Initial(total, threads), actions[..k]);
    actions[k].Move? && actions[k].c.found == found && actions[k].w < |q.workers| && q.workers[actions[k].w].pc == Running(i)
  }

  lemma RunEndedEarlier(total: nat, threads: nat, actions: seq<Action>, i: nat, found: Results)
    requires actions != [] && RunEnded(total, threads, actions[..|actions| - 1], i, found)
    ensures RunEnded(total, threads, actions, i, found)
  {
    hide Execute;
    var init := actions[..|actions| - 1];
    var k :| 0 <= k < |init| && EndsAt(total, threads, init, k, i, found);
    assert init[..k] == actions[..k];
    assert EndsAt(total, threads, actions, k, i, found);
  }

  /** The strings recorded for an index, or about to be inserted, are those that its run ended with. */
  ghost predicate Recorded(total: nat, threads: nat, actions: seq<Action>, p: Pool) {
    && (forall i: nat :: i in p.ran ==> RunEnded(total, threads, actions, i, p.ran[i]))
    && forall w :: 0 <= w < |p.workers| && p.workers[w].pc.Inserting? ==>
         RunEnded(total, threads, actions, p.workers[w].pc.index, p.workers[w].pc.found)
  }

  lemma {:induction false} RunsFindWhatIsRecorded(total: nat, threads: nat, actions: seq<Action>)
    ensures Recorded(total, threads, actions, Execute(Initial(total, threads), actions))
    decreases |actions|
  {
    hide Recorded, Step;
    if actions == [] {
      NothingRecorded(total, threads);
    } else {
      var init, a := actions[..|actions| - 1], actions[|actions| - 1];
      var p := Execute(Initial(total, threads), init);
      RunsFindWhatIsRecorded(total, threads, init);
      RecordedEarlier(total, threads, actions, p);
      if a.Move? && a.w < |p.workers| {
        RecordedByMove(total, threads, actions, p);
      } else {
        RecordedByOther(total, threads, actions, p, a);
      }
    }
  }

  lemma NothingRecorded(total: nat, threads: nat)
    ensures Recorded(total, threads, [], Initial(total, threads))
  {
  }

  lemma RecordedEarlier(total: nat, threads: nat, actions: seq<Action>, p: Pool)
    requires actions != [] && Recorded(total, threads, actions[..|actions| - 1], p)
    ensures Recorded(total, threads, actions, p)
  {
    hide RunEnded;
    forall i: nat, found | RunEnded(total, threads, actions[..|actions| - 1], i, found)
      ensures RunEnded(total, threads, actions, i, found)
    {
      RunEndedEarlier(total, threads, actions, i, found);
    }
  }

  lemma RecordedByOther(total: nat, threads: nat, actions: seq<Action>, p: Pool, a: Action)
    requires Recorded(total, threads, actions, p) && !(a.Move? && a.w < |p.workers|)
    ensures Recorded(total, threads, actions, Step(p, a))
  {
    hide RunEnded;
  }

  lemma MoveInserts(p: Pool, w: nat, c: Choice)
    requires w < |p.workers|
    ensures var q, me := WorkerStep(p, w, c), p.workers[w].pc;
            |q.workers| == |p.workers|
            && (q.workers[w].pc.Inserting? ==> me.Running? && q.workers[w].pc == Inserting(me.index, c.found))
  {
  }

  lemma RecordedByMove(total: nat, threads: nat, actions: seq<Action>, p: Pool)
    requires actions != [] && p == Execute(Initial(total, threads), actions[..|actions| - 1])
    requires Recorded(total, threads, actions, p)
    requires var a := actions[|actions| - 1]; a.Move? && a.w < |p.workers|
    ensures Recorded(total, threads, actions, Step(p, actions[|actions| - 1]))
  {
    var a := actions[|actions| - 1];
    MoveShape(p, a.w, a.c);
    MoveCounts(p, a.w, a.c);
    MoveInserts(p, a.w, a.c);
    hide RunEnded, WorkerStep, Execute;
    if p.workers[a.w].pc.Running? {
      LastRunEnds(total, threads, actions);
    }
  }

  lemma LastRunEnds(total: nat, threads: nat, actions: seq<Action>)
    requires actions != [] && actions[|actions| - 1].Move?
    requires var a, p := actions[|actions| - 1], Execute(Initial(total, threads), actions[..|actions| - 1]);
             a.w < |p.workers| && p.workers[a.w].pc.Running?
    ensures var a, p := actions[|actions| - 1], Execute(Initial(total, threads), actions[..|actions| - 1]);
            RunEnded(total, threads, actions, p.workers[a.w].pc.index, a.c.found)
  {
    hide Execute;
    var p := Execute(Initial(total, threads), actions[..|actions| - 1]);
    var a := actions[|actions| - 1];
    assert EndsAt(total, threads, actions, |actions| - 1, p.workers[a.w].pc.index, a.c.found);
  }

  // ----- Progress

  function Rank(pc: Pc): nat {
    match pc
    case Starting => 3
    case Checking => 2
    case Claiming => 1
    case Running(_) => 5
    case Inserting(_, _) => 4
    case Counting => 3
    case Exited => 0
  }

  function SumOfRanks(workers: seq<Worker>): nat {
    if workers == [] then 0 else SumOfRanks(workers[..|workers| - 1]) + Rank(workers[|workers| - 1].pc)
  }

  /** Six for every index not claimed, plus what each worker still has to do before it looks for the next. */
  function Potential(p: Pool): nat {
    6 * Room(p) + SumOfRanks(p.workers)
  }

  lemma {:induction false} SumOfRanksUpdate(workers: seq<Worker>, w: nat, x: Worker)
    requires w < |workers|
    ensures SumOfRanks(workers[w := x]) == SumOfRanks(workers) - Rank(workers[w].pc) + Rank(x.pc)
    decreases |workers|
  {
    var n := |workers| - 1;
    if w < n {
      SumOfRanksUpdate(workers[..n], w, x);
      assert workers[w := x][..n] == workers[..n][w := x];
    } else {
      assert workers[w := x][..n] == workers[..n];
    }
  }

  function Room(p: Pool): nat {
    if p.next < p.total then p.total - p.next else 0
  }

  lemma MoveRanks(p: Pool, w: nat, c: Choice)
    requires w < |p.workers|
    ensures var q := WorkerStep(p, w, c);
            |q.workers| == |p.workers|
            && 6 * Room(q) + Rank(q.workers[w].pc) <= 6 * Room(p) + Rank(p.workers[w].pc)
            && (!p.workers[w].pc.Exited? ==> 6 * Room(q) + Rank(q.workers[w].pc) < 6 * Room(p) + Rank(p.workers[w].pc))
  {
  }

  /** Every step of a worker that has not exited brings the end nearer, whoever else moves in between. */
  lemma StepsMakeProgress(p: Pool, a: Action)
    ensures Potential(Step(p, a)) <= Potential(p)
    ensures a.Move? && a.w < |p.workers| && !p.workers[a.w].pc.Exited? ==> Potential(Step(p, a)) < Potential(p)
  {
    if a.Move? && a.w < |p.workers| {
      MoveShape(p, a.w, a.c);
      MoveRanks(p, a.w, a.c);
      hide WorkerStep, SumOfRanks, Rank;
      SumOfRanksUpdate(p.workers, a.w, WorkerStep(p, a.w, a.c).workers[a.w]);
    }
  }

  /** The moves of workers that had not exited. */
  function EffectiveMoves(p: Pool, actions: seq<Action>): nat {
    if actions == [] then 0
    else
      var init, a := actions[..|actions| - 1], actions[|actions| - 1];
      var q := Execute(p, init);
      EffectiveMoves(p, init) + if a.Move? && a.w < |q.workers| && !q.workers[a.w].pc.Exited? then 1 else 0
  }

  lemma {:induction false} PotentialBoundsMoves(p: Pool, actions: seq<Action>)
    ensures EffectiveMoves(p, actions) + Potential(Execute(p, actions)) <= Potential(p)
    decreases |actions|
  {
    hide Potential, Step;
    if actions != [] {
      var init := actions[..|actions| - 1];
      PotentialBoundsMoves(p, init);
      StepsMakeProgress(Execute(p, init), actions[|actions| - 1]);
    }
  }

  lemma {:induction false} StartingRanks(workers: seq<Worker>)
    requires forall w :: w in workers ==> w.pc.Starting?
    ensures SumOfRanks(workers) == 3 * |workers|
    decreases |workers|
  {
    if workers != [] {
      StartingRanks(workers[..|workers| - 1]);
    }
  }

  /** Under every schedule the workers exit after at most 6 * total + 3 * threads atomic steps in all. */
  lemma EveryScheduleIsBounded(total: nat, threads: nat, actions: seq<Action>)
    ensures EffectiveMoves(Initial(total, threads), actions) <= 6 * total + 3 * threads
  {
    hide EffectiveMoves, Execute;
    PotentialBoundsMoves(Initial(total, threads), actions);
    StartingRanks(Initial(total, threads).workers);
  }

  // ----- Merging after the joins

  function KeysOf(partials: seq<Results>): set<string> {
    set r, t | r in partials && t in r :: t
  }

  /** The merge loop: one entry per text, taken from the first partial result that has it. */
  method Aggregate(partials: seq<Results>) returns (aggregated: Results)
    ensures aggregated.Keys == KeysOf(partials)
    ensures forall t :: t in aggregated ==> FromFirst(partials, |partials|, t, aggregated[t])
  {
    aggregated := map[];
    for n := 0 to |partials|
      invariant IsMerged(partials, n, aggregated)
    {
      MergeOne(partials, n, aggregated);
      aggregated := InsertAll(aggregated, partials[n]);
    }
    assert partials[..|partials|] == partials;
  }

  ghost predicate IsMerged(partials: seq<Results>, n: nat, merged: Results)
    requires n <= |partials|
  {
    merged.Keys == KeysOf(partials[..n]) && forall t :: t in merged ==> FromFirst(partials, n, t, merged[t])
  }

  lemma MergeOne(partials: seq<Results>, n: nat, merged: Results)
    requires n < |partials| && IsMerged(partials, n, merged)
    ensures IsMerged(partials, n + 1, InsertAll(merged, partials[n]))
  {
    hide FromFirst, KeysOf;
    KeysGrow(partials[..n], partials[n]);
    assert partials[..n + 1] == partials[..n] + [partials[n]];
    forall t | t in partials[n] && t !in merged
      ensures FromFirst(partials, n + 1, t, partials[n][t])
    {
      FirstToHave(partials, n, t);
    }
    forall t | t in merged
      ensures FromFirst(partials, n + 1, t, merged[t])
    {
      FirstPersists(partials, n, t, merged[t]);
    }
  }

  /** f is the entry of the first of the n partial results that has the text. */
  ghost predicate FromFirst(partials: seq<Results>, n: nat, t: string, f: Found)
    requires n <= |partials|
  {
    exists k :: 0 <= k < n && t in partials[k] && f == partials[k][t] && forall j :: 0 <= j < k ==> t !in partials[j]
  }

  lemma FirstToHave(partials: seq<Results>, n: nat, t: string)
    requires n < |partials| && t in partials[n] && t !in KeysOf(partials[..n])
    ensures FromFirst(partials, n + 1, t, partials[n][t])
  {
    forall j | 0 <= j < n
      ensures t !in partials[j]
    {
      assert partials[j] in partials[..n];
    }
  }

  lemma FirstPersists(partials: seq<Results>, n: nat, t: string, f: Found)
    requires n < |partials| && FromFirst(partials, n, t, f)
    ensures FromFirst(partials, n + 1, t, f)
  {
  }

  lemma KeysGrow(partials: seq<Results>, r: Results)
    ensures KeysOf(partials + [r]) == KeysOf(partials) + r.Keys
  {
    forall t
      ensures t in KeysOf(partials + [r]) <==> t in KeysOf(partials) || t in r
    {
      if t in KeysOf(partials) {
        var q :| q in partials && t in q;
        assert q in partials + [r];
      }
      if t in r {
        assert r in partials + [r];
      }
    }
  }

  /** Merging the local results of a complete pool gives the texts of all runs. */
  lemma MergedTextsAreAllTexts(workers: seq<Worker>)
    ensures KeysOf(Locals(workers)) == Texts(workers)
  {
    var partials := Locals(workers);
    forall t
      ensures t in KeysOf(partials) <==> t in Texts(workers)
    {
      if t in KeysOf(partials) {
        var r :| r in partials && t in r;
        var k :| 0 <= k < |partials| && partials[k] == r;
        assert workers[k] in workers;
      }
      if t in Texts(workers) {
        var v :| v in workers && t in v.local;
        var k :| 0 <= k < |workers| && workers[k] == v;
        assert partials[k] in partials;
      }
    }
  }

  /** What is merged after the joins: the partial result of every worker. */
  function Locals(workers: seq<Worker>): seq<Results> {
    seq(|workers|, w requires 0 <= w < |workers| => workers[w].local)
  }

  /**
   * The whole pool: after any interleaving that ends with all workers gone and no stop, every function was run and
   * the aggregate has exactly the texts that the runs found, one entry for each.
   */
  method AggregateAfterJoin(p: Pool, ghost threads: nat, ghost actions: seq<Action>) returns (aggregated: Results)
    requires threads > 0 && p == Execute(Initial(p.total, threads), actions) && AllExited(p) && !p.stop
    ensures forall i: nat :: i in p.ran <==> i < p.total
    ensures forall t :: t in aggregated <==> exists i :: 0 <= i < p.total && i in p.ran && t in p.ran[i]
  {
    hide *;
    aggregated := Aggregate(Locals(p.workers));
    LocalsHoldAllTexts(p, threads, actions);
  }

  lemma LocalsHoldAllTexts(p: Pool, threads: nat, actions: seq<Action>)
    requires threads > 0 && p == Execute(Initial(p.total, threads), actions) && AllExited(p) && !p.stop
    ensures forall i: nat :: i in p.ran <==> i < p.total
    ensures forall t :: t in KeysOf(Locals(p.workers)) <==> exists i :: 0 <= i < p.total && i in p.ran && t in p.ran[i]
  {
    hide Execute, KeysOf, Texts, AllExited;
    JoinedPoolIsComplete(p.total, threads, actions);
    MergedTextsAreAllTexts(p.workers);
    Indices(p.total);
    assert forall i: nat :: i in p.ran <==> i in p.ran.Keys;
    forall t
      ensures t in RanTexts(p.ran) <==> exists i :: 0 <= i < p.total && i in p.ran && t in p.ran[i]
    {
      if t in RanTexts(p.ran) {
        var i :| i in p.ran && t in p.ran[i];
        assert 0 <= i < p.total;
      }
    }
  }
}
