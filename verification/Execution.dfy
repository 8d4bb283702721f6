/**
 * Execution permits under every interleaving of runs (app/core/execution.py). A step is what one
 * run does between two suspension points of the event loop.
 */
module Execution {
  import opened Wrappers
  import opened Sequences

  // ---------------------------------------------------------------- asyncio.Semaphore

  datatype Pool = Pool(capacity: nat, value: nat, waiters: seq<nat>)

  predicate IsLocked(p: Pool) {
    p.value == 0 || p.waiters != []
  }

  /** `acquire()`: takes a permit without suspending, or waits in line. */
  function Acquired(p: Pool, id: nat): Pool {
    if !IsLocked(p) then p.(value := p.value - 1) else p.(waiters := p.waiters + [id])
  }

  /** `release()`: the permit goes to the first in line, or back to the pool. */
  function Released(p: Pool): Pool {
    if p.waiters != [] then p.(waiters := p.waiters[1..]) else p.(value := p.value + 1)
  }

  // ---------------------------------------------------------------- the engine

  datatype Result = Rejected | Busy | SpawnError | Finished | TimedOut | Cancelled

  datatype Phase = Waiting | Spawning | Communicating | Terminating | Done(result: Result)

  datatype Run = Run(discovery: bool, phase: Phase)

  /** One permit taken from, or given back to, the pool for discovery or the general one. */
  datatype Entry = Took(id: nat, discovery: bool) | Gave(id: nat, discovery: bool)

  datatype Engine = Engine(general: Pool, scans: Pool, runs: map<nat, Run>, ledger: seq<Entry>)

  function PoolOf(e: Engine, discovery: bool): Pool {
    if discovery then e.scans else e.general
  }

  function WithPool(e: Engine, discovery: bool, p: Pool): Engine {
    if discovery then e.(scans := p) else e.(general := p)
  }

  function WithPhase(e: Engine, id: nat, phase: Phase): Engine
    requires id in e.runs
  {
    e.(runs := e.runs[id := e.runs[id].(phase := phase)])
  }

  /** `run` up to its first suspension; `valid` says that program, arguments and timeout passed. */
  function Begin(e: Engine, id: nat, discovery: bool, valid: bool): Engine {
    var pool := PoolOf(e, discovery);
    if !valid then e.(runs := e.runs[id := Run(discovery, Done(Rejected))])
    else if IsLocked(pool) then e.(runs := e.runs[id := Run(discovery, Done(Busy))])
    else
      var next := WithPool(e, discovery, Acquired(pool, id));
      if id in Acquired(pool, id).waiters then next.(runs := e.runs[id := Run(discovery, Waiting)])
      else next.(runs := e.runs[id := Run(discovery, Spawning)], ledger := e.ledger + [Took(id, discovery)])
  }

  /** The `finally` clause: the permit goes back, and on to the first in line if there is one. */
  function End(e: Engine, id: nat, result: Result): Engine
    requires id in e.runs
  {
    var discovery := e.runs[id].discovery;
    var pool := PoolOf(e, discovery);
    var next := WithPhase(WithPool(e, discovery, Released(pool)), id, Done(result)).(ledger := e.ledger + [Gave(id, discovery)]);
    if pool.waiters != [] && pool.waiters[0] in next.runs then
      WithPhase(next, pool.waiters[0], Spawning).(ledger := next.ledger + [Took(pool.waiters[0], discovery)])
    else next
  }

  predicate Holding(phase: Phase) {
    phase.Spawning? || phase.Communicating? || phase.Terminating?
  }

  datatype Step =
    | Call(id: nat, discovery: bool, valid: bool)
    | Spawned(id: nat)
    | SpawnFails(id: nat)
    | Exits(id: nat)
    | TimesOut(id: nat)
    | Killed(id: nat)
    | Cancel(id: nat)

  predicate InPhase(e: Engine, id: nat, phase: Phase) {
    id in e.runs && e.runs[id].phase == phase
  }

  /** A step that a run is not ready for is not taken. */
  function Apply(e: Engine, s: Step): Engine {
    match s
    case Call(id, discovery, valid) => if id in e.runs then e else Begin(e, id, discovery, valid)
    case Spawned(id) => if InPhase(e, id, Spawning) then WithPhase(e, id, Communicating) else e
    case SpawnFails(id) => if InPhase(e, id, Spawning) then End(e, id, SpawnError) else e
    case Exits(id) => if InPhase(e, id, Communicating) then End(e, id, Finished) else e
    case TimesOut(id) => if InPhase(e, id, Communicating) then WithPhase(e, id, Terminating) else e
    case Killed(id) => if InPhase(e, id, Terminating) then End(e, id, TimedOut) else e
    case Cancel(id) =>
      if id in e.runs && Holding(e.runs[id].phase) then End(e, id, Cancelled)
      else if InPhase(e, id, Waiting) then
        var pool := PoolOf(e, e.runs[id].discovery);
        WithPhase(WithPool(e, e.runs[id].discovery, pool.(waiters := Filter(pool.waiters, (w: nat) => w != id))), id, Done(Cancelled))
      else e
  }

  function Initial(general: nat, scans: nat): Engine {
    Engine(Pool(general, general, []), Pool(scans, scans, []), map[], [])
  }

  function After(general: nat, scans: nat, steps: seq<Step>): Engine {
    if steps == [] then Initial(general, scans) else Apply(After(general, scans, steps[..|steps| - 1]), steps[|steps| - 1])
  }

  // ---------------------------------------------------------------- the objects

  class Semaphore {
    const capacity: nat
    var value: nat
    var waiters: seq<nat>

    constructor (capacity: nat)
      ensures Stored() == Pool(capacity, capacity, [])
    {
      this.capacity, value, waiters := capacity, capacity, [];
    }

    function Stored(): Pool
      reads this
    {
      Pool(capacity, value, waiters)
    }

    predicate Locked()
      reads this
    {
      IsLocked(Stored())
    }

    method Acquire(id: nat)
      modifies this
      ensures Stored() == Acquired(old(Stored()), id)
    {
      if Locked() {
        waiters := waiters + [id];
      } else {
        value := value - 1;
      }
    }

    /** Returns who gets the permit, if anyone was in line. */
    method Release() returns (next: Option<nat>)
      modifies this
      ensures Stored() == Released(old(Stored()))
      ensures next == if old(waiters) == [] then None else Some(old(waiters)[0])
    {
      if waiters != [] {
        next := Some(waiters[0]);
        waiters := waiters[1..];
      } else {
        next := None;
        value := value + 1;
      }
    }
  }

  /** `ExecutionEngine`, with each call of `run` cut where it suspends. */
  class ExecutionEngine {
    const general: Semaphore
    const scans: Semaphore
    ghost var runs: map<nat, Run>
    ghost var ledger: seq<Entry>

    constructor (maxConcurrent: nat, maxDiscoveryConcurrent: nat)
      ensures general != scans && fresh(general) && fresh(scans)
      ensures Stored() == Initial(maxConcurrent, maxDiscoveryConcurrent)
    {
      general := new Semaphore(maxConcurrent);
      scans := new Semaphore(maxDiscoveryConcurrent);
      runs, ledger := map[], [];
    }

    ghost function Stored(): Engine
      reads this, general, scans
    {
      Engine(general.Stored(), scans.Stored(), runs, ledger)
    }

    /** Up to `_spawn`. */
    method Enter(id: nat, discovery: bool, valid: bool) returns (refused: Option<Result>)
      requires general != scans && id !in runs
      modifies this, general, scans
      ensures Stored() == Apply(old(Stored()), Step.Call(id, discovery, valid))
      ensures refused.Some? ==> InPhase(Stored(), id, Done(refused.value))
      ensures refused.None? ==> id in runs && !runs[id].phase.Done?
    {
      if !valid {
        runs := runs[id := Run(discovery, Done(Rejected))];
        return Some(Rejected);
      }
      var semaphore := if discovery then scans else general;
      if semaphore.Locked() {
        runs := runs[id := Run(discovery, Done(Busy))];
        return Some(Busy);
      }
      semaphore.Acquire(id);
      var waits := id in semaphore.waiters;
      runs := runs[id := Run(discovery, if waits then Waiting else Spawning)];
      ledger := if waits then ledger else ledger + [Took(id, discovery)];
      return None;
    }

    /** The `finally` clause, on the way out with any result. */
    method Leave(id: nat, discovery: bool, result: Result)
      requires general != scans && id in runs && runs[id].discovery == discovery
      modifies this, general, scans
      ensures Stored() == End(old(Stored()), id, result)
    {
      var semaphore := if discovery then scans else general;
      var next := semaphore.Release();
      runs := runs[id := runs[id].(phase := Done(result))];
      ledger := ledger + [Gave(id, discovery)];
      if next.Some? {
        if next.value in runs {
          runs := runs[next.value := runs[next.value].(phase := Spawning)];
          ledger := ledger + [Took(next.value, discovery)];
        }
      }
    }
  }

  // ---------------------------------------------------------------- what every step keeps

  function Holders(e: Engine, discovery: bool): set<nat> {
    set id | id in e.runs && e.runs[id].discovery == discovery && Holding(e.runs[id].phase)
  }

  function Count(ledger: seq<Entry>, entry: Entry): nat {
    if ledger == [] then 0 else Count(ledger[..|ledger| - 1], entry) + if ledger[|ledger| - 1] == entry then 1 else 0
  }

  /** A run that got past the busy check. */
  predicate WasAdmitted(phase: Phase) {
    Holding(phase) || (phase.Done? && phase.result != Rejected && phase.result != Busy)
  }

  predicate PoolBalances(e: Engine, discovery: bool) {
    PoolOf(e, discovery).waiters == [] && PoolOf(e, discovery).value + |Holders(e, discovery)| == PoolOf(e, discovery).capacity
  }

  /** What the ledger must say of run `id` and a pool. */
  predicate Accounted(e: Engine, id: nat, discovery: bool) {
    var mine := id in e.runs && e.runs[id].discovery == discovery && WasAdmitted(e.runs[id].phase);
    && Count(e.ledger, Took(id, discovery)) == (if mine then 1 else 0)
    && Count(e.ledger, Gave(id, discovery)) == (if mine && e.runs[id].phase.Done? then 1 else 0)
  }

  ghost predicate Invariant(e: Engine) {
    && PoolBalances(e, true) && PoolBalances(e, false)
    && (forall id :: id in e.runs ==> !e.runs[id].phase.Waiting?)
    && (forall id, d :: Accounted(e, id, d))
  }

  lemma CountOneMore(ledger: seq<Entry>, e: Entry, entry: Entry)
    ensures Count(ledger + [e], entry) == Count(ledger, entry) + if e == entry then 1 else 0
  {
    assert (ledger + [e])[..|ledger|] == ledger;
  }

  /** An entry of run `id` leaves every other account as it was. */
  lemma OthersAccounted(e: Engine, next: Engine, id: nat, entry: Entry)
    requires forall x, d :: Accounted(e, x, d)
    requires next.ledger == e.ledger + [entry] && entry.id == id
    requires id in next.runs && forall x :: x != id ==> (x in next.runs <==> x in e.runs) && (x in e.runs ==> next.runs[x] == e.runs[x])
    ensures forall x, d :: x != id ==> Accounted(next, x, d)
  {
    forall x, d | x != id ensures Accounted(next, x, d) {
      assert Accounted(e, x, d);
      CountOneMore(e.ledger, entry, Took(x, d));
      CountOneMore(e.ledger, entry, Gave(x, d));
    }
  }

  lemma SameLedgerAccounted(e: Engine, next: Engine, id: nat)
    requires forall x, d :: Accounted(e, x, d)
    requires next.ledger == e.ledger && id in next.runs
    requires forall x :: x != id ==> (x in next.runs <==> x in e.runs) && (x in e.runs ==> next.runs[x] == e.runs[x])
    requires forall d :: Accounted(next, id, d)
    ensures forall x, d :: Accounted(next, x, d)
  {
    forall x, d ensures Accounted(next, x, d) {
      assert Accounted(e, x, d);
    }
  }

  /** One run's change moves it into or out of the holders of its pool. */
  lemma HoldersAfter(e: Engine, next: Engine, id: nat, run: Run, d: bool)
    requires next.runs == e.runs[id := run]
    ensures Holders(next, d) == (Holders(e, d) - {id}) + if run.discovery == d && Holding(run.phase) then {id} else {}
  {
  }

  lemma RefuseKeeps(e: Engine, id: nat, discovery: bool, result: Result)
    requires Invariant(e) && id !in e.runs && (result.Rejected? || result.Busy?)
    ensures Invariant(e.(runs := e.runs[id := Run(discovery, Done(result))]))
  {
    var next := e.(runs := e.runs[id := Run(discovery, Done(result))]);
    forall d ensures Accounted(next, id, d) && PoolBalances(next, d) {
      assert Accounted(e, id, d) && PoolBalances(e, d);
      HoldersAfter(e, next, id, Run(discovery, Done(result)), d);
      assert id !in Holders(e, d);
    }
    SameLedgerAccounted(e, next, id);
  }

  lemma Admits(e: Engine, id: nat, discovery: bool)
    requires PoolBalances(e, discovery) && !IsLocked(PoolOf(e, discovery))
    ensures var next, pool := Begin(e, id, discovery, true), PoolOf(e, discovery);
      && next.runs == e.runs[id := Run(discovery, Spawning)] && next.ledger == e.ledger + [Took(id, discovery)]
      && PoolOf(next, discovery) == pool.(value := pool.value - 1) && PoolOf(next, !discovery) == PoolOf(e, !discovery)
  {
  }

  lemma AdmitBalances(e: Engine, id: nat, discovery: bool, d: bool)
    requires PoolBalances(e, discovery) && PoolBalances(e, d) && id !in e.runs && !IsLocked(PoolOf(e, discovery))
    ensures PoolBalances(Begin(e, id, discovery, true), d)
  {
    Admits(e, id, discovery);
    HoldersAfter(e, Begin(e, id, discovery, true), id, Run(discovery, Spawning), d);
    assert id !in Holders(e, d);
  }

  lemma AdmitKeeps(e: Engine, id: nat, discovery: bool)
    requires Invariant(e) && id !in e.runs && !IsLocked(PoolOf(e, discovery))
    ensures Invariant(Begin(e, id, discovery, true))
  {
    var next := Begin(e, id, discovery, true);
    Admits(e, id, discovery);
    AdmitBalances(e, id, discovery, true);
    AdmitBalances(e, id, discovery, false);
    OthersAccounted(e, next, id, Took(id, discovery));
    forall d ensures Accounted(next, id, d) {
      assert Accounted(e, id, d);
      CountOneMore(e.ledger, Took(id, discovery), Took(id, d));
      CountOneMore(e.ledger, Took(id, discovery), Gave(id, d));
    }
  }

  lemma Returns(e: Engine, id: nat, result: Result)
    requires id in e.runs && PoolBalances(e, e.runs[id].discovery)
    ensures var next, discovery := End(e, id, result), e.runs[id].discovery;
      && next.runs == e.runs[id := Run(discovery, Done(result))] && next.ledger == e.ledger + [Gave(id, discovery)]
      && PoolOf(next, discovery) == PoolOf(e, discovery).(value := PoolOf(e, discovery).value + 1)
      && PoolOf(next, !discovery) == PoolOf(e, !discovery)
  {
  }

  lemma EndBalances(e: Engine, id: nat, result: Result, d: bool)
    requires id in e.runs && Holding(e.runs[id].phase) && PoolBalances(e, e.runs[id].discovery) && PoolBalances(e, d)
    ensures PoolBalances(End(e, id, result), d)
  {
    Returns(e, id, result);
    HoldersAfter(e, End(e, id, result), id, Run(e.runs[id].discovery, Done(result)), d);
    assert id in Holders(e, d) <==> e.runs[id].discovery == d;
  }

  lemma EndKeeps(e: Engine, id: nat, result: Result)
    requires Invariant(e) && id in e.runs && Holding(e.runs[id].phase) && result != Rejected && result != Busy
    ensures Invariant(End(e, id, result))
  {
    var next, discovery := End(e, id, result), e.runs[id].discovery;
    assert PoolBalances(e, discovery);
    Returns(e, id, result);
    EndBalances(e, id, result, true);
    EndBalances(e, id, result, false);
    OthersAccounted(e, next, id, Gave(id, discovery));
    forall d ensures Accounted(next, id, d) {
      assert Accounted(e, id, d);
      CountOneMore(e.ledger, Gave(id, discovery), Took(id, d));
      CountOneMore(e.ledger, Gave(id, discovery), Gave(id, d));
    }
  }

  lemma MoveBalances(e: Engine, id: nat, phase: Phase, d: bool)
    requires id in e.runs && Holding(e.runs[id].phase) && Holding(phase) && PoolBalances(e, d)
    ensures PoolBalances(WithPhase(e, id, phase), d)
  {
    HoldersAfter(e, WithPhase(e, id, phase), id, e.runs[id].(phase := phase), d);
    assert id in Holders(e, d) <==> e.runs[id].discovery == d;
    assert Holders(WithPhase(e, id, phase), d) == Holders(e, d);
  }

  lemma MoveKeeps(e: Engine, id: nat, phase: Phase)
    requires Invariant(e) && id in e.runs && Holding(e.runs[id].phase) && Holding(phase)
    ensures Invariant(WithPhase(e, id, phase))
  {
    var next := WithPhase(e, id, phase);
    MoveBalances(e, id, phase, true);
    MoveBalances(e, id, phase, false);
    forall d ensures Accounted(next, id, d) {
      assert Accounted(e, id, d);
    }
    SameLedgerAccounted(e, next, id);
  }

  lemma BeginKeeps(e: Engine, id: nat, discovery: bool, valid: bool)
    requires Invariant(e) && id !in e.runs
    ensures Invariant(Begin(e, id, discovery, valid))
  {
    if !valid {
      RefuseKeeps(e, id, discovery, Rejected);
    } else if IsLocked(PoolOf(e, discovery)) {
      RefuseKeeps(e, id, discovery, Busy);
    } else {
      AdmitKeeps(e, id, discovery);
    }
  }

  lemma ApplyKeeps(e: Engine, s: Step)
    requires Invariant(e)
    ensures Invariant(Apply(e, s))
  {
    match s {
      case Call(id, discovery, valid) => if id !in e.runs { BeginKeeps(e, id, discovery, valid); }
      case Spawned(id) => if InPhase(e, id, Spawning) { MoveKeeps(e, id, Communicating); }
      case SpawnFails(id) => if InPhase(e, id, Spawning) { EndKeeps(e, id, SpawnError); }
      case Exits(id) => if InPhase(e, id, Communicating) { EndKeeps(e, id, Finished); }
      case TimesOut(id) => if InPhase(e, id, Communicating) { MoveKeeps(e, id, Terminating); }
      case Killed(id) => if InPhase(e, id, Terminating) { EndKeeps(e, id, TimedOut); }
      case Cancel(id) => if id in e.runs && Holding(e.runs[id].phase) { EndKeeps(e, id, Cancelled); }
    }
  }

  /** Under every interleaving each pool's permits are free or held, and nobody waits in line. */
  lemma {:induction false} EveryInterleavingBalances(general: nat, scans: nat, steps: seq<Step>)
    ensures var e := After(general, scans, steps);
      Invariant(e) && e.general.capacity == general && e.scans.capacity == scans
  {
    if steps != [] {
      EveryInterleavingBalances(general, scans, steps[..|steps| - 1]);
      ApplyKeeps(After(general, scans, steps[..|steps| - 1]), steps[|steps| - 1]);
    }
  }

  /** No caller ever waits: a call is admitted at once, or refused at once as busy exactly when every permit is held. */
  lemma NobodyWaits(general: nat, scans: nat, steps: seq<Step>, id: nat, discovery: bool)
    requires id !in After(general, scans, steps).runs
    ensures var e := After(general, scans, steps);
      var next := Apply(e, Step.Call(id, discovery, true));
      && next.runs[id].phase == (if |Holders(e, discovery)| == PoolOf(e, discovery).capacity then Done(Busy) else Spawning)
      && e.general.waiters == [] && e.scans.waiters == []
  {
    var e := After(general, scans, steps);
    EveryInterleavingBalances(general, scans, steps);
    assert PoolBalances(e, discovery);
    if !IsLocked(PoolOf(e, discovery)) {
      Admits(e, id, discovery);
    }
  }

  /**
   * A run past the busy check took one permit; however it ends, the permit has gone back exactly
   * once, to the pool it came from. A refused run never had one. Discovery runs never touch the general pool, nor others theirs.
   */
  lemma PermitsComeBackOnce(general: nat, scans: nat, steps: seq<Step>, id: nat)
    requires id in After(general, scans, steps).runs
    ensures var e := After(general, scans, steps);
      var own := e.runs[id].discovery;
      && Count(e.ledger, Took(id, own)) == (if WasAdmitted(e.runs[id].phase) then 1 else 0)
      && Count(e.ledger, Gave(id, own)) == (if WasAdmitted(e.runs[id].phase) && e.runs[id].phase.Done? then 1 else 0)
      && Count(e.ledger, Took(id, !own)) == 0 && Count(e.ledger, Gave(id, !own)) == 0
  {
    var e := After(general, scans, steps);
    EveryInterleavingBalances(general, scans, steps);
    assert Accounted(e, id, e.runs[id].discovery) && Accounted(e, id, !e.runs[id].discovery);
  }

  /** When every run has ended, both pools are full again. */
  lemma NothingLeaks(general: nat, scans: nat, steps: seq<Step>)
    requires forall id :: id in After(general, scans, steps).runs ==> After(general, scans, steps).runs[id].phase.Done?
    ensures After(general, scans, steps).general == Pool(general, general, []) && After(general, scans, steps).scans == Pool(scans, scans, [])
  {
    var e := After(general, scans, steps);
    EveryInterleavingBalances(general, scans, steps);
    assert Holders(e, true) == {} && Holders(e, false) == {};
    assert PoolBalances(e, true) && PoolBalances(e, false);
  }

  // ---------------------------------------------------------------- the life of one run

  /** What a run's own step makes of it; a step it is not ready for does nothing. */
  function Next(phase: Phase, step: Step): Phase {
    match (step, phase)
    case (Spawned(_), Spawning) => Communicating
    case (SpawnFails(_), Spawning) => Done(SpawnError)
    case (Exits(_), Communicating) => Done(Finished)
    case (TimesOut(_), Communicating) => Terminating
    case (Killed(_), Terminating) => Done(TimedOut)
    case (Cancel(_), Spawning) => Done(Cancelled)
    case (Cancel(_), Communicating) => Done(Cancelled)
    case (Cancel(_), Terminating) => Done(Cancelled)
    case _ => phase
  }

  /** Where a run stands by its own steps alone, given whether a permit was free when it called. */
  function Life(steps: seq<Step>, id: nat, admitted: bool): Option<Phase> {
    if steps == [] then None
    else
      var before, step := Life(steps[..|steps| - 1], id, admitted), steps[|steps| - 1];
      if step.id != id then before
      else if before.Some? then Some(Next(before.value, step))
      else if step.Call? then Some(if !step.valid then Done(Rejected) else if admitted then Spawning else Done(Busy))
      else None
  }

  function PhaseOf(e: Engine, id: nat): Option<Phase> {
    if id in e.runs then Some(e.runs[id].phase) else None
  }

  lemma StepMoves(e: Engine, s: Step, id: nat)
    requires Invariant(e) && id in e.runs
    ensures PhaseOf(Apply(e, s), id) == Some(if s.id == id then Next(e.runs[id].phase, s) else e.runs[id].phase)
  {
    if s.id in e.runs {
      assert PoolBalances(e, e.runs[s.id].discovery) && !e.runs[s.id].phase.Waiting?;
      assert forall result :: End(e, s.id, result).runs == e.runs[s.id := Run(e.runs[s.id].discovery, Done(result))] by {
        forall result ensures End(e, s.id, result).runs == e.runs[s.id := Run(e.runs[s.id].discovery, Done(result))] {
          Returns(e, s.id, result);
        }
      }
    } else if s.Call? && s.valid && !IsLocked(PoolOf(e, s.discovery)) {
      assert PoolBalances(e, s.discovery);
      Admits(e, s.id, s.discovery);
    }
  }

  lemma StepBegins(e: Engine, s: Step, id: nat)
    requires Invariant(e) && id !in e.runs
    ensures PhaseOf(Apply(e, s), id) == if s.id == id && s.Call? then
        Some(if !s.valid then Done(Rejected) else if |Holders(e, s.discovery)| < PoolOf(e, s.discovery).capacity then Spawning else Done(Busy))
      else None
  {
    if s.Call? {
      assert PoolBalances(e, s.discovery);
      if s.id !in e.runs && s.valid && !IsLocked(PoolOf(e, s.discovery)) {
        Admits(e, s.id, s.discovery);
      }
    } else if s.id in e.runs {
      assert PoolBalances(e, e.runs[s.id].discovery);
    }
  }

  lemma {:induction false} LifeBegins(steps: seq<Step>, id: nat)
    ensures Life(steps, id, true).Some? <==> Life(steps, id, false).Some?
  {
    if steps != [] {
      LifeBegins(steps[..|steps| - 1], id);
    }
  }

  /**
   * Under every interleaving, what becomes of a run is decided by its own steps and by whether a
   * permit was free when it called, and by nothing the other runs do after that.
   */
  lemma {:induction false} RunsGoTheirOwnWay(general: nat, scans: nat, steps: seq<Step>, id: nat) returns (admitted: bool)
    ensures PhaseOf(After(general, scans, steps), id) == Life(steps, id, admitted)
  {
    admitted := false;
    if steps != [] {
      var before, step := steps[..|steps| - 1], steps[|steps| - 1];
      var e := After(general, scans, before);
      EveryInterleavingBalances(general, scans, before);
      admitted := RunsGoTheirOwnWay(general, scans, before, id);
      if id in e.runs {
        StepMoves(e, step, id);
      } else {
        StepBegins(e, step, id);
        LifeBegins(before, id);
        if step.Call? {
          admitted := |Holders(e, step.discovery)| < PoolOf(e, step.discovery).capacity;
        }
      }
    }
  }
}
