/**
 `TreeEngine`: the start/stop switch and the per-tick state transition that
 turns the flows the tree declares into running, cancelled, started and
 restarted flow entries.
 */
module Scheduler {
  import opened Wrappers
  import opened TypeTable
  import opened Branches
  import opened Flows

  /**
   The engine: its root branch, whether it is started, last tick's flow
   types, the entry of each running flow type, the tokens cancelled so far,
   and how many ticks have run (new entries are stamped with it).
   */
  datatype Engine = Engine(
    root: TypeId,
    started: bool,
    previous: set<TypeId>,
    active: map<TypeId, FlowEntry>,
    cancelled: set<Token>,
    clock: nat)

  /**
   What the outside world decides during one tick: the tree as the branches
   see it, the flow types the scope can create an entry for, and the flows
   whose task finishes when resumed this tick.
   */
  datatype TickWorld = TickWorld(tree: Tree, creatable: set<TypeId>, finishing: set<TypeId>)

  /**
   The entries one call stopped, by type: those whose type left the tree,
   and those stopped to be restarted; and the types whose entry could not
   be created.
   */
  datatype TickLog = TickLog(cancelled: map<TypeId, FlowEntry>, restarted: map<TypeId, FlowEntry>, failed: set<TypeId>)

  /** A new engine, not started. */
  function Init(root: TypeId): Engine {
    Engine(root, false, {}, map[], {}, 0)
  }

  /**
   The engine's invariant: last tick's types are exactly the types with a
   running entry, and each entry belongs to its type, was created on an
   earlier tick, and has a live context with its own token.
   */
  ghost predicate Inv(e: Engine) {
    && e.previous == e.active.Keys
    && (!e.started ==> e.active == map[])
    && EntriesOk(e.active, e.clock)
  }

  /** Each entry belongs to its type, was created before tick `clock`, and has a live context with its own token. */
  ghost predicate EntriesOk(m: map<TypeId, FlowEntry>, clock: nat) {
    forall t | t in m ::
      && m[t].id.ty == t
      && m[t].id.born < clock
      && !m[t].context.disposed
      && !m[t].taskDisposed
      && m[t].context.token == Source(m[t].id)
  }

  lemma InitInv(root: TypeId)
    ensures Inv(Init(root))
  {
  }

  /** The tokens that stopping every entry of `m` cancels. */
  function StopTokens(m: map<TypeId, FlowEntry>): (r: set<Token>)
    ensures forall t | t in m :: CancelledBy(m[t]) <= r
    ensures forall x | x in r :: exists t | t in m :: x in CancelledBy(m[t])
  {
    set t | t in m && !IsFinished(m[t]) && !m[t].context.disposed :: m[t].context.token
  }

  /** `Start`: no effect when started; otherwise both collections start empty. */
  function StartEngine(e: Engine): (r: Engine)
    requires Inv(e)
    ensures Inv(r) && r.started
    ensures e.started ==> r == e
    ensures !e.started ==> r == e.(started := true, previous := {}, active := map[])
  {
    if e.started then e else e.(started := true, previous := {}, active := map[])
  }

  /**
   `Stop`: no effect when not started; otherwise every running entry is
   stopped, whatever the others do, and both collections are emptied.
   */
  function StopEngine(e: Engine): (r: (Engine, map<TypeId, FlowEntry>))
    requires Inv(e)
    ensures Inv(r.0) && !r.0.started
    ensures !e.started ==> r.0 == e && r.1 == map[]
    ensures e.started ==> r.1 == e.active && r.0.previous == {} && r.0.active == map[]
    ensures e.started ==> forall t | t in e.active :: Stop(e.active[t], e.cancelled).cancelled <= r.0.cancelled
  {
    if !e.started then (e, map[])
    else (e.(started := false, previous := {}, active := map[], cancelled := e.cancelled + StopTokens(e.active)), e.active)
  }

  /** The entry a tick creates for flow type `t`, resumed once. */
  function Fresh(e: Engine, w: TickWorld, t: TypeId): FlowEntry {
    Resume(NewEntry(EntryId(e.clock, t)), t in w.finishing)
  }

  /** Step 3 of `Tick`: the entries of cancelled types are stopped and dropped. */
  function CancelRemoved(active: map<TypeId, FlowEntry>, toCancel: set<TypeId>): (r: (map<TypeId, FlowEntry>, map<TypeId, FlowEntry>))
    ensures forall t :: t in r.0 <==> t in active && t !in toCancel
    ensures forall t | t in r.0 :: r.0[t] == active[t]
    ensures forall t :: t in r.1 <==> t in active && t in toCancel
    ensures forall t | t in r.1 :: r.1[t] == active[t]
    ensures forall c: nat :: EntriesOk(active, c) ==> EntriesOk(r.0, c)
    ensures r.0.Keys == active.Keys - toCancel
  {
    (map t | t in active && t !in toCancel :: active[t], map t | t in active && t in toCancel :: active[t])
  }

  /**
   Step 4 of `Tick`: each new flow type gets a fresh entry; the ones whose
   entry cannot be created are returned, to be dropped from the tick's types.
   */
  function StartNew(e: Engine, w: TickWorld, active: map<TypeId, FlowEntry>, toStart: set<TypeId>): (r: (map<TypeId, FlowEntry>, set<TypeId>))
    ensures forall t :: t in r.0 <==> t in active || (t in toStart && t in w.tree.flows && t in w.creatable)
    ensures forall t | t in r.0 ::
      r.0[t] == if t in toStart && t in w.tree.flows && t in w.creatable then Fresh(e, w, t) else active[t]
    ensures forall t :: t in r.1 <==> t in toStart && t in w.tree.flows && t !in w.creatable
    ensures EntriesOk(active, e.clock + 1) ==> EntriesOk(r.0, e.clock + 1)
    ensures r.0.Keys == active.Keys + toStart * w.tree.flows * w.creatable
    ensures r.1 == toStart * w.tree.flows - w.creatable
  {
    var created := toStart * w.tree.flows * w.creatable;
    var failed := toStart * w.tree.flows - w.creatable;
    (map t | t in active.Keys + created :: if t in created then Fresh(e, w, t) else active[t], failed)
  }

  /**
   Steps 5 and 6 of `Tick`: the continuing types whose entry had finished
   before any resume, and the entries after the still-running ones are resumed.
   */
  function ResumeContinuing(w: TickWorld, active: map<TypeId, FlowEntry>, toContinue: set<TypeId>): (r: (set<TypeId>, map<TypeId, FlowEntry>))
    ensures forall t :: t in r.0 <==> t in toContinue && t in active && IsFinished(active[t])
    ensures r.1.Keys == active.Keys
    ensures forall t | t in r.1 ::
      r.1[t] == if t in toContinue && !IsFinished(active[t]) then Resume(active[t], t in w.finishing) else active[t]
    ensures forall c: nat :: EntriesOk(active, c) ==> EntriesOk(r.1, c)
    ensures r.0 <= toContinue * active.Keys
  {
    var finishedBefore := set t | t in toContinue && t in active && IsFinished(active[t]);
    var resumed := map t | t in active ::
      if t in toContinue && !IsFinished(active[t]) then Resume(active[t], t in w.finishing) else active[t];
    (finishedBefore, resumed)
  }

  /**
   Step 7 of `Tick`: each type in `finishedBefore` has its old entry stopped
   and a fresh one created; the ones whose entry cannot be created are
   dropped and returned.
   */
  function Restart(e: Engine, w: TickWorld, active: map<TypeId, FlowEntry>, finishedBefore: set<TypeId>): (r: (map<TypeId, FlowEntry>, map<TypeId, FlowEntry>, set<TypeId>))
    requires finishedBefore <= active.Keys
    ensures forall t :: t in r.0 <==> t in active && (t in finishedBefore ==> t in w.creatable)
    ensures forall t | t in r.0 :: r.0[t] == if t in finishedBefore then Fresh(e, w, t) else active[t]
    ensures forall t :: t in r.1 <==> t in finishedBefore
    ensures forall t | t in r.1 :: r.1[t] == active[t]
    ensures forall t :: t in r.2 <==> t in finishedBefore && t !in w.creatable
    ensures EntriesOk(active, e.clock + 1) ==> EntriesOk(r.0, e.clock + 1)
    ensures r.0.Keys == active.Keys - r.2
    ensures r.2 == finishedBefore - w.creatable
  {
    var failed := finishedBefore - w.creatable;
    var prior := map t | t in finishedBefore :: active[t];
    var restarted := map t | t in active && t !in failed :: if t in finishedBefore then Fresh(e, w, t) else active[t];
    (restarted, prior, failed)
  }

  /** The intermediate results of one started tick, phase by phase. */
  datatype Phases = Phases(
    current: set<TypeId>,
    kept: map<TypeId, FlowEntry>,
    stopped: map<TypeId, FlowEntry>,
    started: map<TypeId, FlowEntry>,
    failedStart: set<TypeId>,
    finishedBefore: set<TypeId>,
    resumed: map<TypeId, FlowEntry>,
    restarted: map<TypeId, FlowEntry>,
    restartedOld: map<TypeId, FlowEntry>,
    failedRestart: set<TypeId>)

  /** Steps 1 to 7 of `Tick` on a started engine. */
  function RunPhases(e: Engine, w: TickWorld): (p: Phases)
    ensures p.current == Collect(w.tree, e.root)
  {
    var current := Collect(w.tree, e.root);
    var (kept, stopped) := CancelRemoved(e.active, e.previous - current);
    var (started, failedStart) := StartNew(e, w, kept, current - e.previous);
    var (finishedBefore, resumed) := ResumeContinuing(w, started, e.previous * current);
    var (restarted, restartedOld, failedRestart) := Restart(e, w, resumed, finishedBefore);
    Phases(current, kept, stopped, started, failedStart, finishedBefore, resumed, restarted, restartedOld, failedRestart)
  }

  /** The engine a started tick leaves behind. */
  function After(e: Engine, p: Phases): Engine {
    Engine(e.root, true, p.current - p.failedStart - p.failedRestart, p.restarted,
           e.cancelled + StopTokens(p.stopped) + StopTokens(p.restartedOld), e.clock + 1)
  }

  lemma PhasesKeepInv(e: Engine, w: TickWorld)
    requires Inv(e) && e.started
    ensures Inv(After(e, RunPhases(e, w)))
  {
    PhasesKeys(e, w);
    PhasesEntries(e, w);
  }

  lemma PhasesKeys(e: Engine, w: TickWorld)
    requires Inv(e) && e.started
    ensures var p := RunPhases(e, w);
      p.restarted.Keys == p.current - p.failedStart - p.failedRestart
  {
    var p := RunPhases(e, w);
    var cur, prev := p.current, e.previous;
    assert cur <= w.tree.flows;
    assert p.kept.Keys == prev - (prev - cur);
    assert p.started.Keys == p.kept.Keys + (cur - prev) * w.tree.flows * w.creatable;
    assert p.failedStart == (cur - prev) * w.tree.flows - w.creatable;
    SetAlgebra(prev, cur, w.tree.flows, w.creatable);
    assert p.resumed.Keys == p.started.Keys;
    assert p.restarted.Keys == p.resumed.Keys - p.failedRestart;
  }

  /** The keys after steps 3 and 4 are this tick's types less the failed starts. */
  lemma SetAlgebra(prev: set<TypeId>, cur: set<TypeId>, flows: set<TypeId>, creatable: set<TypeId>)
    requires cur <= flows
    ensures (prev - (prev - cur)) + (cur - prev) * flows * creatable == cur - ((cur - prev) * flows - creatable)
  {
  }

  lemma PhasesEntries(e: Engine, w: TickWorld)
    requires Inv(e) && e.started
    ensures EntriesOk(RunPhases(e, w).restarted, e.clock + 1)
  {
    var p := RunPhases(e, w);
    assert EntriesOk(e.active, e.clock + 1);
    assert EntriesOk(p.kept, e.clock + 1);
    assert EntriesOk(p.started, e.clock + 1);
    assert EntriesOk(p.resumed, e.clock + 1);
  }

  lemma PhasesLeft(e: Engine, w: TickWorld)
    requires Inv(e) && e.started
    ensures var p := RunPhases(e, w);
      forall t | t in e.previous && t !in p.current ::
        t !in p.restarted && t in p.stopped && p.stopped[t] == e.active[t]
  {
  }

  lemma PhasesNew(e: Engine, w: TickWorld)
    requires Inv(e) && e.started
    ensures var p := RunPhases(e, w);
      forall t | t in p.current && t !in e.previous ::
        && (t in w.creatable ==> t in p.restarted && p.restarted[t] == Fresh(e, w, t))
        && (t !in w.creatable ==> t !in p.restarted && t in p.failedStart)
  {
  }

  lemma PhasesContinuing(e: Engine, w: TickWorld)
    requires Inv(e) && e.started
    ensures var p := RunPhases(e, w);
      forall t | t in e.previous && t in p.current && !IsFinished(e.active[t]) ::
        t in p.restarted && p.restarted[t] == Resume(e.active[t], t in w.finishing)
    ensures var p := RunPhases(e, w);
      forall t | t in e.previous && t in p.current && IsFinished(e.active[t]) ::
        && t in p.restartedOld && p.restartedOld[t] == e.active[t]
        && (t in w.creatable ==> t in p.restarted && p.restarted[t] == Fresh(e, w, t))
        && (t !in w.creatable ==> t !in p.restarted && t in p.failedRestart)
  {
  }

  lemma PhasesStops(e: Engine, w: TickWorld)
    requires Inv(e) && e.started
    ensures var p := RunPhases(e, w);
      && p.stopped.Keys !! p.restartedOld.Keys
      && p.stopped.Keys + p.restartedOld.Keys <= e.active.Keys
      && (forall t | t in p.stopped :: p.stopped[t] == e.active[t])
      && (forall t | t in p.restartedOld :: p.restartedOld[t] == e.active[t])
  {
    StoppedKeys(e, w);
    var p := RunPhases(e, w);
    forall t | t in p.restartedOld
      ensures p.restartedOld[t] == e.active[t]
    {
      RestartedOldEntry(e, w, t);
    }
  }

  lemma StoppedKeys(e: Engine, w: TickWorld)
    requires Inv(e) && e.started
    ensures var p := RunPhases(e, w);
      && p.stopped.Keys <= e.previous - p.current
      && p.restartedOld.Keys <= e.previous * p.current
      && (forall t | t in p.stopped :: p.stopped[t] == e.active[t])
  {
  }

  lemma RestartedOldEntry(e: Engine, w: TickWorld, t: TypeId)
    requires Inv(e) && e.started && t in RunPhases(e, w).restartedOld
    ensures RunPhases(e, w).restartedOld[t] == e.active[t]
  {
    var p := RunPhases(e, w);
    assert t in p.finishedBefore;
    assert t in e.previous && t in p.current;
    assert p.kept[t] == e.active[t];
    assert p.started[t] == p.kept[t];
    assert p.resumed[t] == p.started[t];
  }

  /**
   `Tick`: nothing unless started. Otherwise the tree is walked; flows that
   left it are stopped and dropped; new flows get an entry, and a flow whose
   entry cannot be created is dropped from this tick's types so that it is
   started again next tick; continuing flows still running are resumed;
   continuing flows that had already finished before this tick's resumes are
   stopped and restarted, and dropped when the restart fails.
   */
  function Tick(e: Engine, w: TickWorld): (r: (Engine, TickLog))
    requires Inv(e)
    ensures Inv(r.0)
    ensures !e.started ==> r.0 == e && r.1 == TickLog(map[], map[], {})
    ensures e.started ==> r.0.started && r.0.root == e.root && r.0.clock == e.clock + 1
    ensures e.started ==> r.0.previous <= Collect(w.tree, e.root)
    ensures e.started ==> r.0.previous == r.0.active.Keys
    // flows that left the tree
    ensures e.started ==> forall t | t in e.previous && t !in Collect(w.tree, e.root) ::
      t !in r.0.active && t in r.1.cancelled && r.1.cancelled[t] == e.active[t]
    // new flows
    ensures e.started ==> forall t | t in Collect(w.tree, e.root) && t !in e.previous ::
      && (t in w.creatable ==> t in r.0.active && r.0.active[t] == Fresh(e, w, t))
      && (t !in w.creatable ==> t !in r.0.active && t !in r.0.previous && t in r.1.failed)
    // continuing flows still running before the resumes
    ensures e.started ==> forall t | t in e.previous && t in Collect(w.tree, e.root) && !IsFinished(e.active[t]) ::
      t in r.0.active && r.0.active[t] == Resume(e.active[t], t in w.finishing)
    // continuing flows already finished before the resumes
    ensures e.started ==> forall t | t in e.previous && t in Collect(w.tree, e.root) && IsFinished(e.active[t]) ::
      && t in r.1.restarted && r.1.restarted[t] == e.active[t]
      && (t in w.creatable ==> t in r.0.active && r.0.active[t] == Fresh(e, w, t))
      && (t !in w.creatable ==> t !in r.0.active && t !in r.0.previous && t in r.1.failed)
    // each entry is stopped at most once, and every stop takes effect
    ensures r.1.cancelled.Keys !! r.1.restarted.Keys
    ensures r.1.cancelled.Keys + r.1.restarted.Keys <= e.active.Keys
    ensures forall t | t in r.1.cancelled :: Stop(r.1.cancelled[t], e.cancelled).cancelled <= r.0.cancelled
    ensures forall t | t in r.1.restarted :: Stop(r.1.restarted[t], e.cancelled).cancelled <= r.0.cancelled
  {
    if !e.started then (e, TickLog(map[], map[], {}))
    else
      var p := RunPhases(e, w);
      PhasesKeepInv(e, w);
      PhasesLeft(e, w);
      PhasesNew(e, w);
      PhasesContinuing(e, w);
      PhasesStops(e, w);
      (After(e, p), TickLog(p.stopped, p.restartedOld, p.failedStart + p.failedRestart))
  }

  /** The three sets `Tick` compares are disjoint and together cover both ticks' types. */
  lemma DiffPartition(previous: set<TypeId>, current: set<TypeId>)
    ensures var toCancel, toStart, toContinue := previous - current, current - previous, previous * current;
      && toCancel + toStart + toContinue == previous + current
      && toCancel !! toStart && toCancel !! toContinue && toStart !! toContinue
  {
  }

  /**
   A flow whose entry could not be created is started afresh on the next
   tick that declares it: it is not among that tick's previous types.
   */
  lemma FailedStartRetried(e: Engine, w: TickWorld, w2: TickWorld, t: TypeId)
    requires Inv(e) && e.started
    requires t in Collect(w.tree, e.root) && t !in e.previous && t !in w.creatable
    requires t in Collect(w2.tree, e.root) && t in w2.creatable
    ensures var e1 := Tick(e, w).0;
      t in Tick(e1, w2).0.active && Tick(e1, w2).0.active[t] == Fresh(e1, w2, t)
  {
    var e1 := Tick(e, w).0;
    assert e1.started && e1.root == e.root && t !in e1.previous;
  }
}
