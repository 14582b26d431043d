/**
 Flow execution: the cancellation tokens of `FlowContext`, its `Cancel`,
 `Dispose`, `Do`, `Until` and `Delay`, and the lifecycle of one running
 flow (`FlowEntry`). The task library underneath is abstract: a task is
 running or finished, and each resume may finish it.
 */
module Flows {
  import opened Wrappers
  import opened TypeTable

  /** Which flow an entry runs, and the tick it was created on. */
  datatype EntryId = EntryId(born: nat, ty: TypeId)

  /**
   A cancellation token: the source an entry's context creates, or the
   `n`-th source linked to a parent token.
   */
  datatype Token = Source(entry: EntryId) | Linked(parent: Token, n: nat)

  /** Cancelled when its own source or any source it is linked to has been cancelled. */
  predicate IsCancelled(cancelled: set<Token>, t: Token) {
    t in cancelled || (t.Linked? && IsCancelled(cancelled, t.parent))
  }

  /** `a` is `t` itself or a token `t` is linked to, directly or through others. */
  predicate LinkedTo(t: Token, a: Token) {
    t == a || (t.Linked? && LinkedTo(t.parent, a))
  }

  function Depth(t: Token): nat {
    if t.Source? then 0 else Depth(t.parent) + 1
  }

  /** The token is fixed at construction; `children` counts the contexts `Do` has linked to it. */
  datatype FlowContext = FlowContext(token: Token, disposed: bool, children: nat)

  /** `new FlowContext(scope, parentToken)`: a fresh source for `token`. */
  function NewContext(token: Token): FlowContext {
    FlowContext(token, false, 0)
  }

  /** `Cancel`: signals the token, unless the context is already disposed. */
  function Cancel(ctx: FlowContext, cancelled: set<Token>): (r: set<Token>)
    ensures !ctx.disposed ==> IsCancelled(r, ctx.token)
    ensures cancelled <= r && r - cancelled <= {ctx.token}
    ensures ctx.disposed ==> r == cancelled
  {
    if ctx.disposed then cancelled else cancelled + {ctx.token}
  }

  /** `Dispose`: releases the source; the token stays readable. */
  function Dispose(ctx: FlowContext): (r: FlowContext)
    ensures r.disposed && r.token == ctx.token
  {
    if ctx.disposed then ctx else ctx.(disposed := true)
  }

  /** A second `Dispose` has no effect, and `Cancel` after `Dispose` cancels nothing. */
  lemma DisposeIdempotent(ctx: FlowContext, cancelled: set<Token>)
    ensures Dispose(Dispose(ctx)) == Dispose(ctx)
    ensures Cancel(Dispose(ctx), cancelled) == cancelled
  {
  }

  /**
   `Do<T>`: resolves the child flow (failing if the scope cannot), runs it
   under a new context linked to this token, and disposes that context
   afterwards. The result is the parent context and the child's context
   after the run.
   */
  function Do(ctx: FlowContext, resolves: bool): (r: (FlowContext, Option<FlowContext>))
    ensures r.0.token == ctx.token && r.0.disposed == ctx.disposed
    ensures r.1.Some? <==> resolves
    ensures r.1.Some? ==> r.1.value.disposed && r.1.value.token.Linked? && r.1.value.token.parent == ctx.token
  {
    if !resolves then (ctx, None)
    else
      var child := NewContext(Linked(ctx.token, ctx.children));
      (ctx.(children := ctx.children + 1), Some(Dispose(child)))
  }

  /** Cancelling a token cancels every token linked to it. */
  lemma {:induction false} CancelReachesLinked(cancelled: set<Token>, t: Token, a: Token)
    requires LinkedTo(t, a) && IsCancelled(cancelled, a)
    ensures IsCancelled(cancelled, t)
  {
    if t != a {
      CancelReachesLinked(cancelled, t.parent, a);
    }
  }

  lemma {:induction false} LinkedDepth(t: Token, a: Token)
    requires LinkedTo(t, a)
    ensures Depth(a) <= Depth(t)
  {
    if t != a {
      LinkedDepth(t.parent, a);
    }
  }

  /** Cancelling a token never cancels a token it is not linked from. */
  lemma {:induction false} CancelStaysBelow(cancelled: set<Token>, t: Token, c: Token)
    requires !LinkedTo(t, c)
    ensures IsCancelled(cancelled + {c}, t) <==> IsCancelled(cancelled, t)
  {
    if t.Linked? {
      CancelStaysBelow(cancelled, t.parent, c);
    }
  }

  /**
   While the child flow runs, the context `Do` made for it is cancelled
   whenever its parent is, and cancelling it leaves the parent as it was.
   After the run that context is disposed, which unlinks it in .NET; the
   statement is about the live context the child runs under.
   */
  lemma DoLinksCancellation(ctx: FlowContext, cancelled: set<Token>)
    ensures var live := NewContext(Linked(ctx.token, ctx.children));
      && Do(ctx, true).1 == Some(Dispose(live))
      && (IsCancelled(cancelled, ctx.token) ==> IsCancelled(cancelled, live.token))
      && (IsCancelled(cancelled + {live.token}, ctx.token) <==> IsCancelled(cancelled, ctx.token))
  {
    var live := NewContext(Linked(ctx.token, ctx.children));
    assert LinkedTo(live.token, ctx.token);
    if IsCancelled(cancelled, ctx.token) {
      CancelReachesLinked(cancelled, live.token, ctx.token);
    }
    if LinkedTo(ctx.token, live.token) {
      LinkedDepth(ctx.token, live.token);
      assert false;
    }
    CancelStaysBelow(cancelled, ctx.token, live.token);
  }

  /** The default timeout of `Until`: five minutes, in milliseconds. */
  const DefaultUntilTimeoutMs: int := 5 * 60 * 1000

  datatype UntilAction = ReturnNow | WaitUpTo(timeoutMs: int)

  /** `Until`: no wait when the condition already holds, else a wait bounded by the timeout. */
  function Until(conditionNow: bool, timeoutMs: Option<int>): (r: UntilAction)
    ensures conditionNow <==> r.ReturnNow?
    ensures r.WaitUpTo? && timeoutMs.None? ==> r.timeoutMs == 300000
    ensures r.WaitUpTo? && timeoutMs.Some? ==> r.timeoutMs == timeoutMs.value
  {
    if conditionNow then ReturnNow
    else WaitUpTo(match timeoutMs case Some(t) => t case None => DefaultUntilTimeoutMs)
  }

  /** The C# `(int)` conversion: rounds toward zero. */
  function Truncate(x: real): (r: int)
    ensures x >= 0.0 ==> r as real <= x < r as real + 1.0
    ensures x < 0.0 ==> r as real - 1.0 < x <= r as real
  {
    if x >= 0.0 then x.Floor else -((-x).Floor)
  }

  /** The spread `Delay` uses when none is given: a quarter either way. */
  const DefaultJitter: real := 0.25

  /**
   `Delay`: the duration spread by up to `jitter` either way, at the point
   `random` (from `[0, 1)`) picks, truncated, and at least one millisecond.
   */
  function Delay(durationMs: real, random: real, jitter: real := DefaultJitter): (r: int)
    requires 0.0 <= random < 1.0
    ensures r >= 1
    ensures durationMs * jitter >= 0.0 ==>
      r == 1 || (durationMs - durationMs * jitter - 1.0 < r as real <= durationMs + durationMs * jitter)
    ensures durationMs * jitter >= 0.0 && durationMs - durationMs * jitter >= 2.0 ==>
      && r > 1
      && durationMs - durationMs * jitter - 1.0 < r as real <= durationMs + durationMs * jitter
  {
    var jitterAmount := durationMs * jitter;
    var minMs := durationMs - jitterAmount;
    var maxMs := durationMs + jitterAmount;
    var v := minMs + random * (maxMs - minMs);
    SpreadBounds(minMs, maxMs, random);
    var ms := Truncate(v);
    assert ms > 1 ==> v >= 0.0 && v < ms as real + 1.0 && ms as real <= v;
    if ms > 1 then ms else 1
  }

  /**
   With the default spread, a duration of at least 4 ms sleeps between three
   quarters of it (less the truncated fraction) and five quarters of it.
   */
  lemma DefaultDelayWithinQuarter(durationMs: real, random: real)
    requires 0.0 <= random < 1.0 && durationMs >= 4.0
    ensures 1 < Delay(durationMs, random) && 0.75 * durationMs - 1.0 < Delay(durationMs, random) as real <= 1.25 * durationMs
  {
  }

  lemma SpreadBounds(lo: real, hi: real, random: real)
    requires 0.0 <= random < 1.0
    ensures lo <= hi ==> lo <= lo + random * (hi - lo) <= hi
  {
    if lo <= hi {
      var d := hi - lo;
      NonNegativeProduct(random, d);
      NonNegativeProduct(1.0 - random, d);
      assert (1.0 - random) * d == d - random * d;
      assert 0.0 <= random * d <= d;
    }
  }

  lemma NonNegativeProduct(a: real, b: real)
    requires 0.0 <= a && 0.0 <= b
    ensures 0.0 <= a * b
  {
  }

  datatype TaskStatus = Running | Finished

  /** The flow's type and identity, its task, its context, and whether the task is disposed. */
  datatype FlowEntry = FlowEntry(id: EntryId, task: TaskStatus, context: FlowContext, taskDisposed: bool)

  /** `TreeEngine.CreateEntry`: a new task on a new context with its own source. */
  function NewEntry(id: EntryId): FlowEntry {
    FlowEntry(id, Running, NewContext(Source(id)), false)
  }

  predicate IsFinished(e: FlowEntry) {
    e.task == Finished
  }

  /**
   `Resume`: a finished entry is left alone; otherwise the task runs a step,
   after which it is finished exactly when `finishes` says so (a step that
   throws is logged and counts as whatever the task reports).
   */
  function Resume(e: FlowEntry, finishes: bool): (r: FlowEntry)
    ensures IsFinished(e) ==> r == e
    ensures r.id == e.id && r.context == e.context && r.taskDisposed == e.taskDisposed
    ensures !IsFinished(e) ==> (IsFinished(r) <==> finishes)
  {
    if IsFinished(e) then e
    else e.(task := if finishes then Finished else Running)
  }

  /** The calls `Stop` makes, in order. */
  datatype Effect = CancelToken | NotifyCancel | DisposeTask | DisposeContext

  datatype Stopped = Stopped(entry: FlowEntry, cancelled: set<Token>, effects: seq<Effect>)

  /** What stopping `e` cancels: its own token, when its task is still running. */
  function CancelledBy(e: FlowEntry): set<Token> {
    if !IsFinished(e) && !e.context.disposed then {e.context.token} else {}
  }

  /**
   `Stop`: a running flow has its token cancelled and is then told so
   (`OnCancel`), failures of either being logged; on every path the task
   and then the context are disposed.
   */
  function Stop(e: FlowEntry, cancelled: set<Token>): (r: Stopped)
    ensures |r.effects| >= 2 && r.effects[|r.effects| - 2..] == [DisposeTask, DisposeContext]
    ensures CancelToken in r.effects <==> !IsFinished(e)
    ensures NotifyCancel in r.effects <==> !IsFinished(e)
    ensures !IsFinished(e) ==> r.effects[0] == CancelToken && r.effects[1] == NotifyCancel
    ensures r.entry.taskDisposed && r.entry.context.disposed
    ensures r.entry.id == e.id && r.entry.task == e.task && r.entry.context.token == e.context.token
    ensures r.cancelled == cancelled + CancelledBy(e)
  {
    var cancelledNow := if !IsFinished(e) then Cancel(e.context, cancelled) else cancelled;
    var effects := (if !IsFinished(e) then [CancelToken, NotifyCancel] else []) + [DisposeTask, DisposeContext];
    Stopped(e.(taskDisposed := true, context := Dispose(e.context)), cancelledNow, effects)
  }

  /**
   Stopping a running entry whose context is live cancels every token
   linked to its own, so every context its flow opened through `Do` sees
   the cancellation.
   */
  lemma StopCancelsLinked(e: FlowEntry, cancelled: set<Token>, t: Token)
    requires !IsFinished(e) && !e.context.disposed && LinkedTo(t, e.context.token)
    ensures IsCancelled(Stop(e, cancelled).cancelled, t)
  {
    CancelReachesLinked(Stop(e, cancelled).cancelled, t, e.context.token);
  }
}
