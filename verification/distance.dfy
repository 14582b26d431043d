/**
 The "type distance" used to pick the closest factory: steps up the base-class
 chain, or a penalty of 1000 plus the breadth-first depth in the interface
 graph.
 */
module Distance {
  import opened Wrappers
  import opened TypeTable

  const InterfacePenalty: int := 1000

  /** The type `n` steps up the base-class chain from `t`, if the chain is that long. */
  function BaseAt(tbl: Table, t: TypeId, n: nat): Option<TypeId>
    decreases n
  {
    if n == 0 then Some(t)
    else match Info(tbl, t).base
      case None => None
      case Some(b) => BaseAt(tbl, b, n - 1)
  }

  /** Walks `current = current.BaseType` from `t`, counting steps until `target`. */
  function ClassSteps(tbl: Table, t: TypeId, target: TypeId): (d: int)
    ensures d >= -1
    ensures d >= 0 ==> BaseAt(tbl, t, d) == Some(target)
    ensures d >= 0 ==> forall k: nat | k < d :: BaseAt(tbl, t, k) != Some(target)
    ensures d == -1 ==> forall k: nat :: BaseAt(tbl, t, k) != Some(target)
    decreases t
  {
    assert t in tbl ==> EntryWellFormed(tbl, t);
    if t == target then 0
    else match Info(tbl, t).base
      case None => -1
      case Some(b) =>
        var rest := ClassSteps(tbl, b, target);
        assert forall k: nat :: BaseAt(tbl, t, k + 1) == BaseAt(tbl, b, k);
        if rest >= 0 then
          assert forall k: nat | 0 < k < rest + 1 :: BaseAt(tbl, t, k) == BaseAt(tbl, b, k - 1);
          rest + 1
        else
          assert forall k: nat | 0 < k :: BaseAt(tbl, t, k) == BaseAt(tbl, b, k - 1);
          -1
  }

  /** `GetClassDistance`: -1 unless the target is a class on `t`'s base-class chain. */
  function ClassDistance(tbl: Table, t: TypeId, target: TypeId): (d: int)
    ensures d >= -1
    ensures !IsClass(tbl, target) ==> d == -1
    ensures IsClass(tbl, target) ==> d == ClassSteps(tbl, t, target)
  {
    if !IsClass(tbl, target) then -1 else ClassSteps(tbl, t, target)
  }

  /** Each step up the chain adds one to the class distance. */
  lemma ClassDistanceStep(tbl: Table, t: TypeId, target: TypeId)
    requires IsClass(tbl, target) && t != target && Info(tbl, t).base.Some?
    ensures ClassDistance(tbl, t, target) >= 0 ==>
      ClassDistance(tbl, t, target) == ClassDistance(tbl, Info(tbl, t).base.value, target) + 1
  {
  }

  // === Interface distance: breadth-first search ===

  /** A queued interface and the depth at which it was reached. */
  datatype Pending = Pending(iface: TypeId, depth: nat)

  function Layer(ifaces: seq<TypeId>, depth: nat): (q: seq<Pending>)
    ensures |q| == |ifaces|
    ensures forall k | 0 <= k < |q| :: q[k] == Pending(ifaces[k], depth)
  {
    if ifaces == [] then [] else [Pending(ifaces[0], depth)] + Layer(ifaces[1..], depth)
  }

  /** `target` is `i` or lies above it in the interface graph. */
  ghost predicate IfaceReach(tbl: Table, i: TypeId, target: TypeId)
    decreases i
  {
    assert i in tbl ==> EntryWellFormed(tbl, i);
    i == target || exists p | p in Info(tbl, i).interfaces :: IfaceReach(tbl, p, target)
  }

  /** `x` is reached from the start interfaces by exactly `d` interface-to-parent steps. */
  ghost predicate WithinSteps(tbl: Table, init: seq<TypeId>, x: TypeId, d: nat)
    decreases d
  {
    if d == 0 then x in init
    else exists p :: WithinSteps(tbl, init, p, d - 1) && x in Info(tbl, p).interfaces
  }

  ghost predicate QueueInTable(tbl: Table, queue: seq<Pending>) {
    forall k | 0 <= k < |queue| :: queue[k].iface in tbl
  }

  ghost predicate QueueSound(tbl: Table, init: seq<TypeId>, queue: seq<Pending>) {
    forall k | 0 <= k < |queue| :: WithinSteps(tbl, init, queue[k].iface, queue[k].depth)
  }

  /** Depths never decrease along the queue and span at most two adjacent layers. */
  ghost predicate Layered(queue: seq<Pending>) {
    && (forall i, j | 0 <= i < j < |queue| :: queue[i].depth <= queue[j].depth)
    && (|queue| > 0 ==> queue[|queue| - 1].depth <= queue[0].depth + 1)
  }

  /** Everything still to be found is either visited or queued. */
  ghost predicate Frontier(tbl: Table, init: seq<TypeId>, queue: seq<Pending>, visited: set<TypeId>) {
    && (forall i | i in init :: i in visited || exists k | 0 <= k < |queue| :: queue[k].iface == i)
    && (forall v, p | v in visited && p in Info(tbl, v).interfaces ::
          p in visited || exists k | 0 <= k < |queue| :: queue[k].iface == p)
  }

  /**
   Nothing reachable in at most the front's depth was missed: it is visited, or
   queued at a depth no greater than its step count.
   */
  ghost predicate Complete(tbl: Table, init: seq<TypeId>, queue: seq<Pending>, visited: set<TypeId>) {
    |queue| > 0 ==>
      forall x, k: nat | k <= queue[0].depth && WithinSteps(tbl, init, x, k) ::
        x in visited || exists j | 0 <= j < |queue| :: queue[j].iface == x && queue[j].depth <= k
  }

  lemma {:induction false} ClosedSetHoldsReach(tbl: Table, s: set<TypeId>, i: TypeId, target: TypeId)
    requires forall v, p | v in s && p in Info(tbl, v).interfaces :: p in s
    requires i in s && IfaceReach(tbl, i, target)
    ensures target in s
    decreases i
  {
    assert i in tbl ==> EntryWellFormed(tbl, i);
    if i != target {
      var p :| p in Info(tbl, i).interfaces && IfaceReach(tbl, p, target);
      ClosedSetHoldsReach(tbl, s, p, target);
    }
  }

  /**
   The breadth-first search of `GetInterfaceDistance`. Each interface is
   expanded at most once (the visited set grows with every expansion, which is
   also why the search ends); the depth returned is a real path length, zero
   exactly when the target is listed on the start type, and -1 only when no
   path exists.
   */
  function Bfs(tbl: Table, init: seq<TypeId>, target: TypeId, queue: seq<Pending>, visited: set<TypeId>): (d: int)
    requires QueueInTable(tbl, queue)
    requires QueueSound(tbl, init, queue)
    requires Layered(queue)
    requires target !in visited
    requires Frontier(tbl, init, queue, visited)
    requires Complete(tbl, init, queue, visited)
    ensures d >= -1
    ensures d >= 0 ==> WithinSteps(tbl, init, target, d)
    ensures d >= 0 ==> forall k: nat | k < d :: !WithinSteps(tbl, init, target, k)
    ensures d == -1 ==> forall i | i in init :: !IfaceReach(tbl, i, target)
    ensures Pending(target, 0) in queue ==> d == 0
    decreases |tbl.Keys - visited|, |queue|
  {
    if queue == [] then
      forall i | i in init
        ensures !IfaceReach(tbl, i, target)
      {
        if IfaceReach(tbl, i, target) {
          ClosedSetHoldsReach(tbl, visited, i, target);
        }
      }
      -1
    else
      var x := queue[0].iface;
      var depth := queue[0].depth;
      if x in visited then
        DropKeepsSearchInvariants(tbl, init, target, queue, visited);
        DropComplete(tbl, init, queue, visited);
        Bfs(tbl, init, target, queue[1..], visited)
      else if x == target then
        assert Pending(target, 0) in queue ==> depth <= 0;
        FoundIsShortest(tbl, init, queue, visited);
        depth
      else
        var next := Expand(tbl, queue);
        ExpandKeepsSearchInvariants(tbl, init, target, queue, visited);
        ExpandComplete(tbl, init, queue, visited);
        UnvisitedShrinks(tbl.Keys, visited, x);
        Bfs(tbl, init, target, next, visited + {x})
  }

  lemma DropKeepsSearchInvariants(tbl: Table, init: seq<TypeId>, target: TypeId, queue: seq<Pending>, visited: set<TypeId>)
    requires |queue| > 0 && queue[0].iface in visited
    requires QueueInTable(tbl, queue)
    requires QueueSound(tbl, init, queue)
    requires Layered(queue)
    requires target !in visited
    requires Frontier(tbl, init, queue, visited)
    ensures QueueInTable(tbl, queue[1..])
    ensures QueueSound(tbl, init, queue[1..])
    ensures Layered(queue[1..])
    ensures Frontier(tbl, init, queue[1..], visited)
    ensures Pending(target, 0) in queue ==> Pending(target, 0) in queue[1..]
  {
    DropKeepsQueue(tbl, init, queue);
    DropFrontier(tbl, init, queue, visited);
  }

  lemma DropKeepsQueue(tbl: Table, init: seq<TypeId>, queue: seq<Pending>)
    requires |queue| > 0
    requires QueueInTable(tbl, queue)
    requires QueueSound(tbl, init, queue)
    requires Layered(queue)
    ensures QueueInTable(tbl, queue[1..])
    ensures QueueSound(tbl, init, queue[1..])
    ensures Layered(queue[1..])
  {
    var rest := queue[1..];
    assert forall k | 0 <= k < |rest| :: rest[k] == queue[k + 1];
    if |rest| > 0 {
      assert queue[0].depth <= rest[0].depth;
    }
  }

  lemma DropFrontier(tbl: Table, init: seq<TypeId>, queue: seq<Pending>, visited: set<TypeId>)
    requires |queue| > 0 && queue[0].iface in visited
    requires Frontier(tbl, init, queue, visited)
    ensures Frontier(tbl, init, queue[1..], visited)
  {
    var rest := queue[1..];
    forall i | i in init
      ensures i in visited || exists k | 0 <= k < |rest| :: rest[k].iface == i
    {
      if i !in visited {
        var k :| 0 <= k < |queue| && queue[k].iface == i;
        assert rest[k - 1].iface == i;
      }
    }
    forall v, p | v in visited && p in Info(tbl, v).interfaces
      ensures p in visited || exists k | 0 <= k < |rest| :: rest[k].iface == p
    {
      if p !in visited {
        var k :| 0 <= k < |queue| && queue[k].iface == p;
        assert rest[k - 1].iface == p;
      }
    }
  }

  /** The front's interface is not visited, so no shorter walk reaches it. */
  lemma FoundIsShortest(tbl: Table, init: seq<TypeId>, queue: seq<Pending>, visited: set<TypeId>)
    requires |queue| > 0 && queue[0].iface !in visited
    requires Layered(queue) && Complete(tbl, init, queue, visited)
    ensures forall k: nat | k < queue[0].depth :: !WithinSteps(tbl, init, queue[0].iface, k)
  {
    forall k: nat | k < queue[0].depth
      ensures !WithinSteps(tbl, init, queue[0].iface, k)
    {
      if WithinSteps(tbl, init, queue[0].iface, k) {
        assert false;
      }
    }
  }

  /** What `Complete` gives below the front's depth, read in the queue without its front. */
  lemma CompleteBelow(tbl: Table, init: seq<TypeId>, queue: seq<Pending>, visited: set<TypeId>, x: TypeId, k: nat)
    requires |queue| > 0 && Complete(tbl, init, queue, visited)
    requires k <= queue[0].depth && WithinSteps(tbl, init, x, k)
    ensures x in visited || x == queue[0].iface ||
      exists j | 0 <= j < |queue| - 1 :: queue[1..][j].iface == x && queue[1..][j].depth <= k
  {
    if x !in visited && x != queue[0].iface {
      var j :| 0 <= j < |queue| && queue[j].iface == x && queue[j].depth <= k;
      assert queue[1..][j - 1] == queue[j];
    }
  }

  /** A parent of a visited interface is visited, the front, or queued behind it (at most one layer deeper). */
  lemma ParentOfVisited(tbl: Table, init: seq<TypeId>, queue: seq<Pending>, visited: set<TypeId>, p: TypeId, x: TypeId)
    requires |queue| > 0 && Layered(queue) && Frontier(tbl, init, queue, visited)
    requires p in visited && x in Info(tbl, p).interfaces
    ensures x in visited || x == queue[0].iface ||
      exists j | 0 <= j < |queue| - 1 :: queue[1..][j].iface == x && queue[1..][j].depth <= queue[0].depth + 1
  {
    if x !in visited && x != queue[0].iface {
      var j :| 0 <= j < |queue| && queue[j].iface == x;
      assert queue[j].depth <= queue[|queue| - 1].depth;
      assert queue[1..][j - 1] == queue[j];
    }
  }

  lemma DropComplete(tbl: Table, init: seq<TypeId>, queue: seq<Pending>, visited: set<TypeId>)
    requires |queue| > 0 && queue[0].iface in visited
    requires Layered(queue) && Frontier(tbl, init, queue, visited) && Complete(tbl, init, queue, visited)
    ensures Complete(tbl, init, queue[1..], visited)
  {
    var rest := queue[1..];
    if |rest| > 0 {
      var d := queue[0].depth;
      assert d <= rest[0].depth <= d + 1 by {
        assert rest[0] == queue[1];
        assert queue[1].depth <= queue[|queue| - 1].depth;
      }
      forall x, k: nat | k <= rest[0].depth && WithinSteps(tbl, init, x, k)
        ensures x in visited || exists j | 0 <= j < |rest| :: rest[j].iface == x && rest[j].depth <= k
      {
        if k <= d {
          CompleteBelow(tbl, init, queue, visited, x, k);
        } else {
          var p :| WithinSteps(tbl, init, p, k - 1) && x in Info(tbl, p).interfaces;
          CompleteBelow(tbl, init, queue, visited, p, k - 1);
          if p !in visited {
            assert false;
          }
          ParentOfVisited(tbl, init, queue, visited, p, x);
        }
      }
    }
  }

  lemma ExpandComplete(tbl: Table, init: seq<TypeId>, queue: seq<Pending>, visited: set<TypeId>)
    requires |queue| > 0 && queue[0].iface !in visited
    requires Layered(queue) && Frontier(tbl, init, queue, visited) && Complete(tbl, init, queue, visited)
    ensures Complete(tbl, init, Expand(tbl, queue), visited + {queue[0].iface})
  {
    var next := Expand(tbl, queue);
    ExpandLayered(tbl, queue);
    if |next| > 0 {
      forall x, k: nat | k <= next[0].depth && WithinSteps(tbl, init, x, k)
        ensures x in visited + {queue[0].iface} || exists j | 0 <= j < |next| :: next[j].iface == x && next[j].depth <= k
      {
        if k <= queue[0].depth {
          ExpandCompleteBelow(tbl, init, queue, visited, x, k);
        } else {
          var p := NextParent(tbl, init, queue, visited, x, k);
          ParentQueued(tbl, init, queue, visited, p, x);
        }
      }
    }
  }

  lemma ExpandCompleteBelow(tbl: Table, init: seq<TypeId>, queue: seq<Pending>, visited: set<TypeId>, x: TypeId, k: nat)
    requires |queue| > 0 && Complete(tbl, init, queue, visited)
    requires k <= queue[0].depth && WithinSteps(tbl, init, x, k)
    ensures x in visited + {queue[0].iface} ||
      exists j | 0 <= j < |Expand(tbl, queue)| :: Expand(tbl, queue)[j].iface == x && Expand(tbl, queue)[j].depth <= k
  {
    CompleteBelow(tbl, init, queue, visited, x, k);
    if x !in visited + {queue[0].iface} {
      var j :| 0 <= j < |queue| - 1 && queue[1..][j].iface == x && queue[1..][j].depth <= k;
      assert Expand(tbl, queue)[j] == queue[1..][j];
    }
  }

  /**
   A walk one layer beyond the front goes through a parent that is visited or
   is the front itself: a parent still queued would sit below the new front.
   */
  lemma NextParent(tbl: Table, init: seq<TypeId>, queue: seq<Pending>, visited: set<TypeId>, x: TypeId, k: nat)
    returns (p: TypeId)
    requires |queue| > 0 && Layered(queue) && Complete(tbl, init, queue, visited)
    requires |Expand(tbl, queue)| > 0 && Layered(Expand(tbl, queue))
    requires queue[0].depth < k <= Expand(tbl, queue)[0].depth && WithinSteps(tbl, init, x, k)
    ensures k == queue[0].depth + 1 && x in Info(tbl, p).interfaces
    ensures p in visited || p == queue[0].iface
  {
    NextDepth(tbl, queue);
    p := StepBack(tbl, init, x, k);
    CompleteBelow(tbl, init, queue, visited, p, k - 1);
    NotBelowFront(tbl, queue, p, k - 1);
  }

  /** The front after expansion is at most one layer deeper. */
  lemma NextDepth(tbl: Table, queue: seq<Pending>)
    requires |queue| > 0 && Layered(queue) && |Expand(tbl, queue)| > 0
    ensures Expand(tbl, queue)[0].depth <= queue[0].depth + 1
  {
    ExpandShape(tbl, queue);
    if |queue| > 1 {
      assert queue[1].depth <= queue[|queue| - 1].depth;
    }
  }

  /** The last step of a walk: some interface one step shorter has `x` as a parent. */
  lemma StepBack(tbl: Table, init: seq<TypeId>, x: TypeId, k: nat) returns (p: TypeId)
    requires k > 0 && WithinSteps(tbl, init, x, k)
    ensures WithinSteps(tbl, init, p, k - 1) && x in Info(tbl, p).interfaces
  {
    p :| WithinSteps(tbl, init, p, k - 1) && x in Info(tbl, p).interfaces;
  }

  /** Nothing behind the front is queued shallower than the front after expansion. */
  lemma NotBelowFront(tbl: Table, queue: seq<Pending>, p: TypeId, k: nat)
    requires |queue| > 0 && |Expand(tbl, queue)| > 0 && Layered(Expand(tbl, queue))
    requires k < Expand(tbl, queue)[0].depth
    ensures forall j | 0 <= j < |queue| - 1 :: !(queue[1..][j].iface == p && queue[1..][j].depth <= k)
  {
    ExpandShape(tbl, queue);
  }

  /** A parent of the front or of a visited interface is visited, the front, or queued after expansion at most one layer deeper. */
  lemma ParentQueued(tbl: Table, init: seq<TypeId>, queue: seq<Pending>, visited: set<TypeId>, p: TypeId, x: TypeId)
    requires |queue| > 0 && Layered(queue) && Frontier(tbl, init, queue, visited)
    requires x in Info(tbl, p).interfaces && (p in visited || p == queue[0].iface)
    ensures x in visited + {queue[0].iface} ||
      exists j | 0 <= j < |Expand(tbl, queue)| ::
        Expand(tbl, queue)[j].iface == x && Expand(tbl, queue)[j].depth <= queue[0].depth + 1
  {
    var x0 := queue[0].iface;
    var next := Expand(tbl, queue);
    ExpandShape(tbl, queue);
    if x !in visited + {x0} {
      if p == x0 {
        var m :| 0 <= m < |Info(tbl, x0).interfaces| && Info(tbl, x0).interfaces[m] == x;
        assert next[|queue| - 1 + m].iface == x;
      } else {
        ParentOfVisited(tbl, init, queue, visited, p, x);
        var j :| 0 <= j < |queue| - 1 && queue[1..][j].iface == x && queue[1..][j].depth <= queue[0].depth + 1;
        assert next[j] == queue[1..][j];
      }
    }
  }

  /** Where `Expand` puts things: the rest of the queue, then the front's parents one layer deeper. */
  lemma ExpandShape(tbl: Table, queue: seq<Pending>)
    requires |queue| > 0
    ensures var ps := Info(tbl, queue[0].iface).interfaces;
      && |Expand(tbl, queue)| == |queue| - 1 + |ps|
      && (forall j | 0 <= j < |queue| - 1 :: Expand(tbl, queue)[j] == queue[1..][j])
      && (forall m | 0 <= m < |ps| :: Expand(tbl, queue)[|queue| - 1 + m] == Pending(ps[m], queue[0].depth + 1))
  {
  }

  lemma UnvisitedShrinks<T>(all: set<T>, visited: set<T>, x: T)
    requires x in all && x !in visited
    ensures |all - (visited + {x})| < |all - visited|
  {
    var before := all - visited;
    assert all - (visited + {x}) == before - {x};
    assert x in before;
  }

  /** Dequeues the front interface and enqueues its parents one layer deeper. */
  function Expand(tbl: Table, queue: seq<Pending>): seq<Pending>
    requires |queue| > 0
  {
    queue[1..] + Layer(Info(tbl, queue[0].iface).interfaces, queue[0].depth + 1)
  }

  lemma ExpandKeepsSearchInvariants(tbl: Table, init: seq<TypeId>, target: TypeId, queue: seq<Pending>, visited: set<TypeId>)
    requires |queue| > 0 && queue[0].iface !in visited && queue[0].iface != target
    requires QueueInTable(tbl, queue)
    requires QueueSound(tbl, init, queue)
    requires Layered(queue)
    requires target !in visited
    requires Frontier(tbl, init, queue, visited)
    ensures QueueInTable(tbl, Expand(tbl, queue))
    ensures QueueSound(tbl, init, Expand(tbl, queue))
    ensures Layered(Expand(tbl, queue))
    ensures target !in visited + {queue[0].iface}
    ensures Frontier(tbl, init, Expand(tbl, queue), visited + {queue[0].iface})
    ensures Pending(target, 0) in queue ==> Pending(target, 0) in Expand(tbl, queue)
  {
    ExpandSound(tbl, init, queue);
    ExpandLayered(tbl, queue);
    ExpandFrontier(tbl, init, queue, visited);
    ExpandKeepsTarget(tbl, target, queue);
  }

  lemma ExpandKeepsTarget(tbl: Table, target: TypeId, queue: seq<Pending>)
    requires |queue| > 0 && queue[0].iface != target
    ensures Pending(target, 0) in queue ==> Pending(target, 0) in Expand(tbl, queue)
  {
    if Pending(target, 0) in queue {
      var k :| 0 <= k < |queue| && queue[k] == Pending(target, 0);
      assert Expand(tbl, queue)[k - 1] == Pending(target, 0);
    }
  }

  lemma ExpandSound(tbl: Table, init: seq<TypeId>, queue: seq<Pending>)
    requires |queue| > 0
    requires QueueInTable(tbl, queue)
    requires QueueSound(tbl, init, queue)
    ensures QueueInTable(tbl, Expand(tbl, queue))
    ensures QueueSound(tbl, init, Expand(tbl, queue))
  {
    var x := queue[0].iface;
    var depth := queue[0].depth;
    assert EntryWellFormed(tbl, x);
    var next := Expand(tbl, queue);
    forall k | 0 <= k < |next|
      ensures next[k].iface in tbl
      ensures WithinSteps(tbl, init, next[k].iface, next[k].depth)
    {
      if k >= |queue| - 1 {
        assert next[k].iface in Info(tbl, x).interfaces && next[k].depth == depth + 1;
        assert WithinSteps(tbl, init, x, depth);
      } else {
        assert next[k] == queue[k + 1];
      }
    }
  }

  lemma ExpandLayered(tbl: Table, queue: seq<Pending>)
    requires |queue| > 0 && Layered(queue)
    ensures Layered(Expand(tbl, queue))
  {
    var next := Expand(tbl, queue);
    var depth := queue[0].depth;
    assert forall k | 0 <= k < |next| :: depth <= next[k].depth <= depth + 1 by {
      forall k | 0 <= k < |next|
        ensures depth <= next[k].depth <= depth + 1
      {
        if k < |queue| - 1 {
          assert next[k] == queue[k + 1];
          assert queue[0].depth <= queue[k + 1].depth <= queue[|queue| - 1].depth;
        }
      }
    }
    forall i, j | 0 <= i < j < |next|
      ensures next[i].depth <= next[j].depth
    {
      if j < |queue| - 1 {
        assert next[i] == queue[i + 1] && next[j] == queue[j + 1];
      }
    }
  }

  lemma ExpandFrontier(tbl: Table, init: seq<TypeId>, queue: seq<Pending>, visited: set<TypeId>)
    requires |queue| > 0 && queue[0].iface !in visited
    requires Frontier(tbl, init, queue, visited)
    ensures Frontier(tbl, init, Expand(tbl, queue), visited + {queue[0].iface})
  {
    var x := queue[0].iface;
    var next := Expand(tbl, queue);
    forall i | i in init
      ensures i in visited + {x} || exists k | 0 <= k < |next| :: next[k].iface == i
    {
      if i !in visited + {x} {
        var k :| 0 <= k < |queue| && queue[k].iface == i;
        assert next[k - 1].iface == i;
      }
    }
    forall v, p | v in visited + {x} && p in Info(tbl, v).interfaces
      ensures p in visited + {x} || exists k | 0 <= k < |next| :: next[k].iface == p
    {
      if p !in visited + {x} {
        if v == x {
          var m :| 0 <= m < |Info(tbl, x).interfaces| && Info(tbl, x).interfaces[m] == p;
          assert next[|queue| - 1 + m].iface == p;
        } else {
          var k :| 0 <= k < |queue| && queue[k].iface == p;
          assert next[k - 1].iface == p;
        }
      }
    }
  }

  /** The first layer (the start type's own interfaces at depth 0) meets the search's requirements. */
  lemma StartLayer(tbl: Table, init: seq<TypeId>, target: TypeId)
    requires forall i | i in init :: i in tbl
    ensures QueueInTable(tbl, Layer(init, 0)) && QueueSound(tbl, init, Layer(init, 0))
    ensures Layered(Layer(init, 0)) && Frontier(tbl, init, Layer(init, 0), {})
    ensures target in init ==> Pending(target, 0) in Layer(init, 0)
    ensures Complete(tbl, init, Layer(init, 0), {})
  {
    StartLayerSound(tbl, init);
    StartLayerComplete(tbl, init);
    StartLayerCovers(init, target);
    assert Frontier(tbl, init, Layer(init, 0), {}) by {
      forall i | i in init
        ensures exists k | 0 <= k < |Layer(init, 0)| :: Layer(init, 0)[k].iface == i
      {
        StartLayerCovers(init, i);
      }
    }
  }

  lemma StartLayerSound(tbl: Table, init: seq<TypeId>)
    requires forall i | i in init :: i in tbl
    ensures QueueInTable(tbl, Layer(init, 0)) && QueueSound(tbl, init, Layer(init, 0))
    ensures Layered(Layer(init, 0))
  {
    var q := Layer(init, 0);
    assert forall k | 0 <= k < |q| :: WithinSteps(tbl, init, q[k].iface, 0);
  }

  lemma StartLayerComplete(tbl: Table, init: seq<TypeId>)
    ensures Complete(tbl, init, Layer(init, 0), {})
  {
    var q := Layer(init, 0);
    if |q| > 0 {
      forall x, k: nat | k <= q[0].depth && WithinSteps(tbl, init, x, k)
        ensures exists j | 0 <= j < |q| :: q[j].iface == x && q[j].depth <= k
      {
        StartLayerCovers(init, x);
        var j :| 0 <= j < |q| && q[j] == Pending(x, 0);
      }
    }
  }

  lemma StartLayerCovers(init: seq<TypeId>, i: TypeId)
    ensures i in init ==> Pending(i, 0) in Layer(init, 0)
    ensures i in init ==> exists k | 0 <= k < |Layer(init, 0)| :: Layer(init, 0)[k].iface == i
  {
    if i in init {
      var k :| 0 <= k < |init| && init[k] == i;
      assert Layer(init, 0)[k] == Pending(i, 0);
    }
  }

  /** `GetInterfaceDistance`: -1 unless the target is an interface reachable from `t`'s interfaces. */
  function InterfaceDistance(tbl: Table, t: TypeId, target: TypeId): (d: int)
    ensures d >= -1
    ensures !IsInterface(tbl, target) ==> d == -1
    ensures d >= 0 ==> WithinSteps(tbl, Info(tbl, t).interfaces, target, d)
    ensures d >= 0 ==> forall k: nat | k < d :: !WithinSteps(tbl, Info(tbl, t).interfaces, target, k)
    ensures IsInterface(tbl, target) && d == -1 ==>
      forall i | i in Info(tbl, t).interfaces :: !IfaceReach(tbl, i, target)
    ensures IsInterface(tbl, target) ==> (d == 0 <==> target in Info(tbl, t).interfaces)
  {
    if !IsInterface(tbl, target) then -1
    else
      var init := Info(tbl, t).interfaces;
      assert t in tbl ==> EntryWellFormed(tbl, t);
      var q := Layer(init, 0);
      StartLayer(tbl, init, target);
      Bfs(tbl, init, target, q, {})
  }

  /**
   `CalculateDistance`: -1 when the target is not assignable from the concrete
   type; the class distance when the target is on the base-class chain;
   otherwise 1000 plus the interface depth, or -1 when neither search finds it.
   */
  function CalculateDistance(tbl: Table, concrete: TypeId, target: TypeId): (d: int)
    ensures d >= -1
    ensures d >= 0 ==> Assignable(tbl, target, concrete)
    ensures d >= 0 ==>
      || (IsClass(tbl, target) && BaseAt(tbl, concrete, d) == Some(target))
      || (ClassDistance(tbl, concrete, target) == -1 && IsInterface(tbl, target) && d >= InterfacePenalty &&
          WithinSteps(tbl, Info(tbl, concrete).interfaces, target, d - InterfacePenalty) &&
          forall k: nat | k < d - InterfacePenalty :: !WithinSteps(tbl, Info(tbl, concrete).interfaces, target, k))
    ensures Assignable(tbl, target, concrete) && ClassDistance(tbl, concrete, target) >= 0 ==>
      d == ClassDistance(tbl, concrete, target)
    ensures Assignable(tbl, target, concrete) && d == -1 ==>
      ClassDistance(tbl, concrete, target) == -1 &&
      (IsInterface(tbl, target) ==> forall i | i in Info(tbl, concrete).interfaces :: !IfaceReach(tbl, i, target))
  {
    if !Assignable(tbl, target, concrete) then -1
    else
      var classDistance := ClassDistance(tbl, concrete, target);
      if classDistance >= 0 then classDistance
      else
        var interfaceDistance := InterfaceDistance(tbl, concrete, target);
        if interfaceDistance >= 0 then InterfacePenalty + interfaceDistance else -1
  }

  /** A class-chain distance never exceeds the id gap, so it stays below 1000 for tables of fewer than 1000 ids. */
  lemma {:induction false} ClassStepsBound(tbl: Table, t: TypeId, target: TypeId)
    ensures ClassSteps(tbl, t, target) >= 0 ==> target <= t
    ensures ClassSteps(tbl, t, target) >= 0 ==> ClassSteps(tbl, t, target) <= t - target
    decreases t
  {
    assert t in tbl ==> EntryWellFormed(tbl, t);
    if t != target && Info(tbl, t).base.Some? {
      ClassStepsBound(tbl, Info(tbl, t).base.value, target);
    }
  }
}
