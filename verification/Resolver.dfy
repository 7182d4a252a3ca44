/** The resolver: a worklist closure over fixed arrays, then Kahn's algorithm whose
    in-degrees count list entries. */
module Resolver {
  import opened Manifest

  datatype ResolveStatus = Resolved | Missing | Cycle

  method FindByName(s: Providers, name: string) returns (idx: int)
    ensures idx == if Find(s, name) < |s| then Find(s, name) else -1
  {
    for i := 0 to |s|
      invariant forall k :: 0 <= k < i ==> s[k].name != name
    {
      if s[i].name == name {
        FindIs(s, name, i);
        return i;
      }
    }
    FindIs(s, name, |s|);
    return -1;
  }

  // ------------------------------------------------------------------- the closure

  /** Everything marked is reachable, and everything marked but not on the stack has
      its dependencies marked too. */
  ghost predicate Working(s: Providers, requested: seq<string>, n: set<nat>, stack: seq<nat>) {
    && (forall i :: i in n ==> i < |s| && Reachable(s, requested, i))
    && Distinct(stack) && (forall i :: i in stack ==> i in n)
    && forall i, x :: i in n && i !in stack && Linked(s, i, x) ==> x in n
  }

  /** The same while `i`, just popped, has had the names `ds` handled. */
  ghost predicate WorkingOn(s: Providers, requested: seq<string>, n: set<nat>, stack: seq<nat>, i: nat, ds: seq<string>) {
    && (forall j :: j in n ==> j < |s| && Reachable(s, requested, j))
    && Distinct(stack) && (forall j :: j in stack ==> j in n)
    && i in n && (forall d :: d in ds ==> Find(s, d) in n)
    && forall j, x :: j in n && j !in stack && j != i && Linked(s, j, x) ==> x in n
  }

  ghost predicate Marks(needed: array<bool>, n: set<nat>)
    reads needed
  {
    needed.Length == MAX_MANIFESTS && forall i: nat :: i < MAX_MANIFESTS ==> (needed[i] <==> i in n)
  }

  lemma PushMarked(s: Providers, requested: seq<string>, n: set<nat>, stack: seq<nat>, j: nat)
    requires Working(s, requested, n, stack) && j !in n && j < |s| && Reachable(s, requested, j)
    ensures Working(s, requested, n + {j}, stack + [j]) && |stack| < |s|
  {
    hide Reachable, Linked;
    assert j !in stack;
    DistinctPush(stack, j);
    assert forall k :: 0 <= k < |stack + [j]| ==> (stack + [j])[k] in stack || (stack + [j])[k] == j;
    DistinctFits(stack + [j], |s|);
  }

  lemma DistinctPush(xs: seq<nat>, x: nat)
    requires Distinct(xs) && x !in xs
    ensures Distinct(xs + [x])
  {
  }

  lemma PushWhileWorking(s: Providers, requested: seq<string>, n: set<nat>, stack: seq<nat>, i: nat, ds: seq<string>, j: nat)
    requires WorkingOn(s, requested, n, stack, i, ds) && j !in n && j < |s| && Reachable(s, requested, j)
    ensures WorkingOn(s, requested, n + {j}, stack + [j], i, ds) && |stack| < |s|
  {
    hide Reachable, Linked, Find;
    assert j !in stack;
    DistinctPush(stack, j);
    assert forall k :: 0 <= k < |stack + [j]| ==> (stack + [j])[k] in stack || (stack + [j])[k] == j;
    DistinctFits(stack + [j], |s|);
  }

  lemma NameDone(s: Providers, requested: seq<string>, n: set<nat>, stack: seq<nat>, i: nat, ds: seq<string>, d: string)
    requires WorkingOn(s, requested, n, stack, i, ds) && Find(s, d) in n
    ensures WorkingOn(s, requested, n, stack, i, ds + [d])
  {
    hide Reachable, Linked, Find;
  }

  lemma AllNamesDone(s: Providers, requested: seq<string>, n: set<nat>, stack: seq<nat>, i: nat)
    requires i < |s| && WorkingOn(s, requested, n, stack, i, s[i].dependencies)
    ensures Working(s, requested, n, stack)
  {
    hide Reachable;
    forall x | Linked(s, i, x)
      ensures x in n
    {
      var d :| d in s[i].dependencies && Find(s, d) == x;
    }
  }

  lemma PopStack(s: Providers, requested: seq<string>, n: set<nat>, stack: seq<nat>)
    requires Working(s, requested, n, stack) && stack != []
    ensures WorkingOn(s, requested, n, stack[..|stack| - 1], stack[|stack| - 1], [])
  {
    hide Reachable, Linked;
    var m := |stack| - 1;
    assert stack == stack[..m] + [stack[m]];
  }

  lemma DependencyReachable(s: Providers, requested: seq<string>, i: nat, d: string)
    requires i < |s| && Reachable(s, requested, i) && d in s[i].dependencies
    ensures Find(s, d) < |s| ==> Reachable(s, requested, Find(s, d))
    ensures Find(s, d) == |s| ==> !AllExist(s, requested)
  {
    assert Find(s, d) in Image(s, s[i].dependencies);
    assert Linked(s, i, Find(s, d));
    hide Reachable;
    if Find(s, d) < |s| {
      StepReachable(s, requested, i, Find(s, d));
    }
  }

  lemma RootDone(s: Providers, requested: seq<string>, n: set<nat>)
    requires forall r :: r in requested ==> Find(s, r) in n
    ensures Roots(s, requested) <= n
  {
  }

  lemma CountMarked(s: Providers, n: set<nat>)
    requires forall i :: i in n ==> i < |s|
    ensures |n| <= |s|
  {
    SubsetSize(n, Below(|s|));
  }

  method Closure(s: Providers, requested: seq<string>)
    returns (ok: bool, needed: array<bool>, neededCount: nat, ghost n: set<nat>)
    ensures ok <==> AllExist(s, requested)
    ensures fresh(needed)
    ensures ok ==> IsClosure(s, requested, n) && Marks(needed, n) && neededCount == |n|
  {
    hide Reachable, AllExist, Linked, Find, IsClosure;
    needed := new bool[MAX_MANIFESTS](_ => false);
    var stack := new nat[MAX_MANIFESTS](_ => 0);
    var stackN := 0;
    neededCount := 0;
    n := {};
    for i := 0 to |requested|
      invariant stackN <= |s| && Marks(needed, n) && neededCount == |n|
      invariant Working(s, requested, n, stack[..stackN])
      invariant forall r :: r in requested[..i] ==> Find(s, r) in n
    {
      assert requested[..i + 1] == requested[..i] + [requested[i]];
      var idx := FindByName(s, requested[i]);
      if idx < 0 {
        MissingRoot(s, requested, requested[i]);
        return false, needed, neededCount, n;
      }
      RequestedReachable(s, requested, requested[i]);
      if !needed[idx] {
        PushMarked(s, requested, n, stack[..stackN], idx);
        needed[idx] := true;
        neededCount := neededCount + 1;
        stack[stackN] := idx;
        assert stack[..stackN + 1] == stack[..stackN] + [idx];
        stackN := stackN + 1;
        n := n + {idx as nat};
      }
    }
    assert requested[..|requested|] == requested;
    RootDone(s, requested, n);
    ok, neededCount, n := CloseUnder(s, requested, needed, stack, stackN, neededCount, n);
    if ok {
      ClosureIs(s, requested, n);
    }
  }

  lemma MissingRoot(s: Providers, requested: seq<string>, r: string)
    requires r in requested && Find(s, r) == |s|
    ensures !AllExist(s, requested)
  {
  }

  lemma RequestedReachable(s: Providers, requested: seq<string>, r: string)
    requires r in requested && Find(s, r) < |s|
    ensures Reachable(s, requested, Find(s, r))
  {
    assert Find(s, r) in Roots(s, requested);
    RootReachable(s, requested, Find(s, r));
  }

  /** The worklist loop. */
  method CloseUnder(s: Providers, requested: seq<string>, needed: array<bool>, stack: array<nat>, stackN0: nat,
                    count0: nat, ghost n0: set<nat>)
    returns (ok: bool, neededCount: nat, ghost n: set<nat>)
    requires stack.Length == MAX_MANIFESTS && stackN0 <= |s| <= MAX_MANIFESTS && Marks(needed, n0) && count0 == |n0|
    requires Working(s, requested, n0, stack[..stackN0])
    modifies needed, stack
    ensures n0 <= n && Marks(needed, n) && neededCount == |n|
    ensures !ok ==> !AllExist(s, requested)
    ensures ok ==> Working(s, requested, n, [])
  {
    hide Reachable, AllExist, Linked, Find;
    var stackN: nat := stackN0;
    neededCount, n := count0, n0;
    while stackN > 0
      invariant stackN <= |s| <= MAX_MANIFESTS && Marks(needed, n) && neededCount == |n| && n0 <= n
      invariant Working(s, requested, n, stack[..stackN])
      decreases |s| - |n|, stackN
    {
      ghost var (before, depth) := (n, stackN);
      CountMarked(s, n);
      ok, stackN, neededCount, n := ExpandTop(s, requested, needed, stack, stackN, neededCount, n);
      if !ok { return; }
      CountMarked(s, n);
      SubsetSize(before, n);
    }
    assert stack[..0] == [];
    ok := true;
  }

  /** One turn of the worklist: pops a provider and marks its dependencies. */
  method ExpandTop(s: Providers, requested: seq<string>, needed: array<bool>, stack: array<nat>, depth: nat,
                   count0: nat, ghost n0: set<nat>)
    returns (ok: bool, stackN: nat, neededCount: nat, ghost n: set<nat>)
    requires stack.Length == MAX_MANIFESTS && 0 < depth <= |s| <= MAX_MANIFESTS && Marks(needed, n0) && count0 == |n0|
    requires Working(s, requested, n0, stack[..depth])
    modifies needed, stack
    ensures n0 <= n && Marks(needed, n) && neededCount == |n| && stackN <= |s|
    ensures !ok ==> !AllExist(s, requested)
    ensures ok ==> Working(s, requested, n, stack[..stackN])
    ensures n == n0 ==> stackN < depth
  {
    hide Reachable, AllExist, Linked, Find, Working, WorkingOn;
    neededCount, n := count0, n0;
    PopStack(s, requested, n, stack[..depth]);
    stackN := depth - 1;
    var idx := stack[stackN];
    assert stack[..depth][..stackN] == stack[..stackN];
    OnStack(s, requested, n, stack[..stackN], idx, []);
    var ds := s[idx].dependencies;
    for d := 0 to |ds|
      invariant stackN <= |s| && Marks(needed, n) && neededCount == |n| && n0 <= n
      invariant n == n0 ==> stackN == depth - 1
      invariant WorkingOn(s, requested, n, stack[..stackN], idx, ds[..d])
    {
      DependencyReachable(s, requested, idx, ds[d]);
      var didx := FindByName(s, ds[d]);
      if didx < 0 { return false, stackN, neededCount, n; }
      if !needed[didx] {
        PushWhileWorking(s, requested, n, stack[..stackN], idx, ds[..d], didx);
        needed[didx] := true;
        neededCount := neededCount + 1;
        stack[stackN] := didx;
        assert stack[..stackN + 1] == stack[..stackN] + [didx];
        stackN := stackN + 1;
        n := n + {didx as nat};
      }
      NameDone(s, requested, n, stack[..stackN], idx, ds[..d], ds[d]);
      assert ds[..d + 1] == ds[..d] + [ds[d]];
    }
    assert ds[..|ds|] == ds;
    AllNamesDone(s, requested, n, stack[..stackN], idx);
    ok := true;
  }

  lemma OnStack(s: Providers, requested: seq<string>, n: set<nat>, stack: seq<nat>, i: nat, ds: seq<string>)
    requires WorkingOn(s, requested, n, stack, i, ds)
    ensures i < |s| && Reachable(s, requested, i)
  {
  }

  // ------------------------------------------------------------- Kahn's algorithm

  /** Listed dependencies of `j` not accounted for by the processed providers. */
  ghost function Waiting(s: Providers, j: nat, done: set<nat>): int
    requires j < |s|
  {
    |s[j].dependencies| - |DepSet(s, j) * done|
  }

  /** Each queued provider has all its dependencies before it in the queue. */
  ghost predicate DependenciesFirst(s: Providers, queue: seq<nat>) {
    forall k: nat, x :: k < |queue| && Linked(s, queue[k], x) ==> x in queue[..k]
  }

  /** The counts, with providers below `mid` already updated for `more`. */
  ghost predicate Counted(s: Providers, n: set<nat>, indegree: seq<nat>, done: set<nat>, more: set<nat>, mid: nat)
    requires |indegree| == MAX_MANIFESTS && forall j :: j in n ==> j < |s|
  {
    forall j: nat :: j in n ==> indegree[j] == Waiting(s, j, if j < mid then more else done)
  }

  /** The queue holds the needed providers whose count is zero, dependencies first. */
  ghost predicate Queued(s: Providers, n: set<nat>, indegree: seq<nat>, queue: seq<nat>)
    requires |indegree| == MAX_MANIFESTS && forall j :: j in n ==> j < |s|
  {
    && Distinct(queue) && (forall j :: j in queue ==> j in n) && DependenciesFirst(s, queue)
    && forall j: nat :: j in n ==> (indegree[j] == 0 <==> j in queue)
  }

  ghost predicate Sorting(s: Providers, n: set<nat>, indegree: seq<nat>, queue: seq<nat>,
                          done: set<nat>, more: set<nat>, mid: nat)
    requires |indegree| == MAX_MANIFESTS && forall j :: j in n ==> j < |s|
  {
    Counted(s, n, indegree, done, more, mid) && Queued(s, n, indegree, queue)
  }

  /** A needed provider is the first of its name. */
  lemma ReachableIsFirst(s: Providers, requested: seq<string>, i: nat)
    requires i < |s| && Reachable(s, requested, i)
    ensures Find(s, s[i].name) == i
  {
    var p :| Walk(s, p) && p[0] in Roots(s, requested) && p[|p| - 1] == i;
    if |p| == 1 {
      var r :| r in requested && Find(s, r) == i;
    } else {
      assert Linked(s, p[|p| - 2], p[|p| - 1]);
      var d :| d in s[p[|p| - 2]].dependencies && Find(s, d) == i;
    }
  }

  /** Dependency names lead to `i` exactly when one of them is its name. */
  lemma NamesMatch(s: Providers, i: nat, j: nat)
    requires i < |s| && j < |s| && Find(s, s[i].name) == i
    ensures i in DepSet(s, j) <==> s[i].name in s[j].dependencies
  {
    if i in DepSet(s, j) {
      var d :| d in s[j].dependencies && Find(s, d) == i;
    }
  }

  lemma WaitingStep(s: Providers, j: nat, done: set<nat>, i: nat)
    requires j < |s| && i !in done && forall d :: d in s[j].dependencies ==> Find(s, d) < |s|
    ensures Waiting(s, j, done + {i}) == Waiting(s, j, done) - if i in DepSet(s, j) then 1 else 0
    ensures Waiting(s, j, done + {i}) >= 0
    ensures Waiting(s, j, done + {i}) == 0 ==> DepSet(s, j) <= done + {i} && Distinct(s[j].dependencies)
  {
    OneMore(DepSet(s, j), done, i);
    SubsetSize(DepSet(s, j) * (done + {i}), DepSet(s, j));
    ImageSize(s, s[j].dependencies);
    hide Find, Image, Distinct;
    assert DepSet(s, j) * (done + {i}) == DepSet(s, j) ==> DepSet(s, j) <= done + {i};
  }

  lemma OneMore(a: set<nat>, done: set<nat>, i: nat)
    requires i !in done
    ensures |a * (done + {i})| == |a * done| + if i in a then 1 else 0
  {
    if i in a {
      assert a * (done + {i}) == a * done + {i};
    } else {
      assert a * (done + {i}) == a * done;
    }
  }

  lemma Enqueue(s: Providers, queue: seq<nat>, qi: nat, j: nat)
    requires Distinct(queue) && DependenciesFirst(s, queue) && qi <= |queue| && j !in queue
    requires DepSet(s, j) <= Elems(queue[..qi])
    ensures Distinct(queue + [j]) && DependenciesFirst(s, queue + [j])
  {
    DistinctPush(queue, j);
    var q := queue + [j];
    forall k: nat, x | k < |q| && Linked(s, q[k], x)
      ensures x in q[..k]
    {
      if k < |queue| {
        assert q[..k] == queue[..k];
      } else {
        assert q[..k] == queue && x in queue[..qi];
      }
    }
  }

  method Lists(ds: seq<string>, name: string) returns (found: bool)
    ensures found <==> name in ds
  {
    for d := 0 to |ds|
      invariant name !in ds[..d]
    {
      if ds[d] == name { return true; }
      assert ds[..d + 1] == ds[..d] + [ds[d]];
    }
    assert ds[..|ds|] == ds;
    return false;
  }

  /** The in-degrees before anything is processed: the dependency counts. */
  method InitialCounts(s: Providers, needed: array<bool>, ghost n: set<nat>)
    returns (indegree: array<nat>, queue: array<nat>, qn: nat)
    requires Marks(needed, n) && forall j :: j in n ==> j < |s|
    ensures fresh(indegree) && fresh(queue) && indegree != queue
    ensures indegree.Length == MAX_MANIFESTS && queue.Length == MAX_MANIFESTS && qn <= |s|
    ensures Sorting(s, n, indegree[..], queue[..qn], {}, {}, 0)
  {
    indegree := CountDependencies(s, needed, n);
    queue, qn := EnqueueReady(s, needed, n, indegree);
    StartsSorting(s, n, indegree[..], queue[..qn]);
  }

  method CountDependencies(s: Providers, needed: array<bool>, ghost n: set<nat>) returns (indegree: array<nat>)
    requires Marks(needed, n) && forall j :: j in n ==> j < |s|
    ensures fresh(indegree) && indegree.Length == MAX_MANIFESTS
    ensures forall j: nat :: j in n ==> indegree[j] == |s[j].dependencies|
  {
    indegree := new nat[MAX_MANIFESTS](_ => 0);
    for i := 0 to |s|
      invariant forall j: nat :: j < i && j in n ==> indegree[j] == |s[j].dependencies|
    {
      if needed[i] { indegree[i] := |s[i].dependencies|; }
    }
  }

  method EnqueueReady(s: Providers, needed: array<bool>, ghost n: set<nat>, indegree: array<nat>)
    returns (queue: array<nat>, qn: nat)
    requires Marks(needed, n) && indegree.Length == MAX_MANIFESTS && forall j :: j in n ==> j < |s|
    ensures fresh(queue) && queue.Length == MAX_MANIFESTS && qn <= |s|
    ensures Distinct(queue[..qn]) && forall j: nat :: j in queue[..qn] <==> j in n && indegree[j] == 0
  {
    hide Distinct;
    queue := new nat[MAX_MANIFESTS](_ => 0);
    qn := 0;
    NoneTwice();
    assert queue[..0] == [];
    for i := 0 to |s|
      invariant qn <= i && Distinct(queue[..qn])
      invariant forall j: nat :: j in queue[..qn] <==> j < i && j in n && indegree[j] == 0
    {
      if needed[i] && indegree[i] == 0 {
        DistinctPush(queue[..qn], i);
        queue[qn] := i;
        assert queue[..qn + 1] == queue[..qn] + [i];
        qn := qn + 1;
      }
    }
  }

  lemma NoneTwice()
    ensures Distinct<nat>([])
  {
  }

  /** With nothing processed, everything waits for all it lists. */
  lemma StartsSorting(s: Providers, n: set<nat>, indegree: seq<nat>, queue: seq<nat>)
    requires |indegree| == MAX_MANIFESTS && forall j :: j in n ==> j < |s|
    requires forall j: nat :: j in n ==> indegree[j] == |s[j].dependencies|
    requires Distinct(queue) && forall j: nat :: j in queue <==> j in n && indegree[j] == 0
    ensures Sorting(s, n, indegree, queue, {}, {}, 0)
  {
    hide Linked, Find;
    forall j: nat | j in n
      ensures Waiting(s, j, {}) == indegree[j]
    {
      assert DepSet(s, j) * {} == {};
    }
    forall k: nat | k < |queue|
      ensures forall x :: !Linked(s, queue[k], x)
    {
      assert queue[k] in queue;
      NoDependencies(s, queue[k]);
    }
  }

  lemma NoDependencies(s: Providers, j: nat)
    requires j < |s| && |s[j].dependencies| == 0
    ensures forall x :: !Linked(s, j, x)
  {
  }

  lemma NothingDone(queue: seq<nat>)
    requires |queue| == 0
    ensures Elems(queue) == {}
  {
  }

  lemma NextInQueue(s: Providers, n: set<nat>, indegree: seq<nat>, queue: seq<nat>, qi: nat)
    requires |indegree| == MAX_MANIFESTS && forall j :: j in n ==> j < |s|
    requires qi < |queue| && Sorting(s, n, indegree, queue, Elems(queue[..qi]), Elems(queue[..qi]), 0)
    ensures queue[qi] in n && queue[qi] !in Elems(queue[..qi])
    ensures Elems(queue[..qi + 1]) == Elems(queue[..qi]) + {queue[qi]}
    ensures Sorting(s, n, indegree, queue, Elems(queue[..qi]), Elems(queue[..qi + 1]), 0)
  {
    hide Waiting, DependenciesFirst;
    assert queue[qi] in queue;
    assert queue[..qi + 1] == queue[..qi] + [queue[qi]];
    assert forall k :: 0 <= k < qi ==> queue[..qi][k] == queue[k];
  }

  /** All needed providers now counted against the same processed set. */
  lemma SortingRound(s: Providers, n: set<nat>, indegree: seq<nat>, queue: seq<nat>, done: set<nat>, more: set<nat>)
    requires |indegree| == MAX_MANIFESTS && forall j :: j in n ==> j < |s|
    requires Sorting(s, n, indegree, queue, done, more, |s|)
    ensures Sorting(s, n, indegree, queue, more, more, 0)
  {
  }

  /** One provider's count after another has been processed. */
  lemma SortingStep(s: Providers, requested: seq<string>, n: set<nat>, indegree: seq<nat>, queue: seq<nat>,
                    qi: nat, done: set<nat>, i: nat, j: nat, indegree': seq<nat>, queue': seq<nat>)
    requires |indegree| == |indegree'| == MAX_MANIFESTS && IsClosure(s, requested, n) && AllExist(s, requested)
    requires j < |s| && i in n && i !in done && qi <= |queue| && done + {i} == Elems(queue[..qi])
    requires Sorting(s, n, indegree, queue, done, done + {i}, j)
    requires var hit := j in n && indegree[j] != 0 && s[i].name in s[j].dependencies;
             && (hit ==> indegree' == indegree[j := indegree[j] - 1])
             && (hit ==> queue' == if indegree[j] == 1 then queue + [j] else queue)
             && (!hit ==> indegree' == indegree && queue' == queue)
    ensures Sorting(s, n, indegree', queue', done, done + {i}, j + 1)
  {
    hide Find, Reachable, AllExist, DepSet, Waiting, DependenciesFirst, Linked, Elems, Distinct, Counted, Queued;
    if j in n {
      WaitingAfter(s, requested, n, done, i, j);
      CountNow(s, n, indegree, done, done + {i}, j);
      CountStep(s, n, indegree, done, done + {i}, j, indegree');
      if indegree' == indegree {
      } else if indegree[j] == 1 {
        NotQueued(s, n, indegree, queue, j);
        Enqueue(s, queue, qi, j);
        QueueStep(s, n, indegree, queue, j);
      } else {
        QueueKept(s, n, indegree, queue, j);
      }
    } else {
      CountSkip(s, n, indegree, done, done + {i}, j);
    }
  }

  lemma CountNow(s: Providers, n: set<nat>, indegree: seq<nat>, done: set<nat>, more: set<nat>, j: nat)
    requires |indegree| == MAX_MANIFESTS && (forall k :: k in n ==> k < |s|) && j in n
    requires Counted(s, n, indegree, done, more, j)
    ensures indegree[j] == Waiting(s, j, done)
  {
  }

  lemma CountSkip(s: Providers, n: set<nat>, indegree: seq<nat>, done: set<nat>, more: set<nat>, j: nat)
    requires |indegree| == MAX_MANIFESTS && (forall k :: k in n ==> k < |s|) && j !in n
    requires Counted(s, n, indegree, done, more, j)
    ensures Counted(s, n, indegree, done, more, j + 1)
  {
    hide Waiting;
  }

  lemma NotQueued(s: Providers, n: set<nat>, indegree: seq<nat>, queue: seq<nat>, j: nat)
    requires |indegree| == MAX_MANIFESTS && (forall k :: k in n ==> k < |s|) && j in n && indegree[j] != 0
    requires Queued(s, n, indegree, queue)
    ensures j !in queue && Distinct(queue) && DependenciesFirst(s, queue)
  {
    hide DependenciesFirst;
  }

  lemma QueueKept(s: Providers, n: set<nat>, indegree: seq<nat>, queue: seq<nat>, j: nat)
    requires |indegree| == MAX_MANIFESTS && (forall k :: k in n ==> k < |s|) && j in n && indegree[j] > 1
    requires Queued(s, n, indegree, queue)
    ensures Queued(s, n, indegree[j := indegree[j] - 1], queue)
  {
    hide DependenciesFirst, Distinct;
  }

  lemma WaitingAfter(s: Providers, requested: seq<string>, n: set<nat>, done: set<nat>, i: nat, j: nat)
    requires IsClosure(s, requested, n) && AllExist(s, requested) && i in n && i !in done && j in n
    ensures Waiting(s, j, done + {i}) == Waiting(s, j, done) - if s[i].name in s[j].dependencies then 1 else 0
    ensures Waiting(s, j, done + {i}) >= 0
    ensures Waiting(s, j, done + {i}) == 0 ==> DepSet(s, j) <= done + {i}
  {
    hide Reachable, Waiting, DepSet, Distinct, Linked;
    ReachableIsFirst(s, requested, i);
    NamesMatch(s, i, j);
    WaitingStep(s, j, done, i);
  }

  lemma CountStep(s: Providers, n: set<nat>, indegree: seq<nat>, done: set<nat>, more: set<nat>, j: nat, indegree': seq<nat>)
    requires |indegree| == |indegree'| == MAX_MANIFESTS && (forall k :: k in n ==> k < |s|) && j in n
    requires Counted(s, n, indegree, done, more, j)
    requires indegree' == indegree[j := indegree'[j]] && indegree'[j] == Waiting(s, j, more)
    ensures Counted(s, n, indegree', done, more, j + 1)
  {
    hide Waiting;
  }

  lemma QueueStep(s: Providers, n: set<nat>, indegree: seq<nat>, queue: seq<nat>, j: nat)
    requires |indegree| == MAX_MANIFESTS && (forall k :: k in n ==> k < |s|) && j in n && indegree[j] == 1
    requires Queued(s, n, indegree, queue) && Distinct(queue + [j]) && DependenciesFirst(s, queue + [j])
    ensures Queued(s, n, indegree[j := 0], queue + [j])
  {
    hide DependenciesFirst, Distinct;
  }

  method Kahn(s: Providers, requested: seq<string>, needed: array<bool>, neededCount: nat, ghost n: set<nat>)
    returns (ok: bool, order: seq<nat>)
    requires IsClosure(s, requested, n) && AllExist(s, requested) && Marks(needed, n) && neededCount == |n|
    ensures ok <==> Sortable(s, requested)
    ensures ok ==> LoadOrder(s, requested, order)
  {
    hide Find, Reachable, AllExist, Linked, Sortable, LoadOrder, Sorting, Elems;
    var indegree, queue, qn := InitialCounts(s, needed, n);
    var qi: nat := 0;
    order := [];
    NothingDone(queue[..0]);
    while qi < qn
      invariant qi <= qn <= |s| <= MAX_MANIFESTS && order == queue[..qi]
      invariant Sorting(s, n, indegree[..], queue[..qn], Elems(queue[..qi]), Elems(queue[..qi]), 0)
      decreases |s| - qi
    {
      ghost var (done, queued) := (Elems(queue[..qi]), queue[..qn]);
      var i := queue[qi];
      assert queued[..qi] == queue[..qi] && queued[..qi + 1] == queue[..qi + 1];
      NextInQueue(s, n, indegree[..], queued, qi);
      order := order + [i];
      qi := qi + 1;
      qn := ProcessOne(s, requested, needed, n, indegree, queue, qi, qn, done, i);
      assert queue[..qi] == queued[..qi];
      SortingRound(s, n, indegree[..], queue[..qn], done, done + {i});
    }
    ok := |order| == neededCount;
    Finish(s, requested, n, indegree[..], order);
  }

  /** Takes one processed provider off every count that lists it. */
  method ProcessOne(s: Providers, requested: seq<string>, needed: array<bool>, ghost n: set<nat>,
                    indegree: array<nat>, queue: array<nat>, qi: nat, qn0: nat, ghost done: set<nat>, i: nat)
    returns (qn: nat)
    requires indegree.Length == MAX_MANIFESTS && queue.Length == MAX_MANIFESTS && indegree != queue
    requires qi <= qn0 <= |s| <= MAX_MANIFESTS && Marks(needed, n)
    requires IsClosure(s, requested, n) && AllExist(s, requested)
    requires i in n && i !in done && done + {i} == Elems(queue[..qi])
    requires Sorting(s, n, indegree[..], queue[..qn0], done, done + {i}, 0)
    modifies indegree, queue
    ensures qn0 <= qn <= |s| && queue[..qn0] == old(queue[..qn0])
    ensures Sorting(s, n, indegree[..], queue[..qn], done, done + {i}, |s|)
  {
    hide Find, Reachable, AllExist, Linked, Sorting, Waiting;
    qn := qn0;
    for j := 0 to |s|
      invariant qn0 <= qn <= |s| && queue[..qn0] == old(queue[..qn0])
      invariant Sorting(s, n, indegree[..], queue[..qn], done, done + {i}, j)
    {
      ghost var (before, queued) := (indegree[..], queue[..qn]);
      assert queued[..qi] == queue[..qn0][..qi] == old(queue[..qi]);
      var listed := false;
      if needed[j] && indegree[j] != 0 {
        listed := Lists(s[j].dependencies, s[i].name);
        if listed {
          indegree[j] := indegree[j] - 1;
          if indegree[j] == 0 {
            RoomInQueue(s, n, before, queued, done, done + {i}, j);
            queue[qn] := j;
            assert queue[..qn + 1] == queued + [j];
            qn := qn + 1;
          }
        }
      }
      SortingStep(s, requested, n, before, queued, qi, done, i, j, indegree[..], queue[..qn]);
    }
  }

  /** A provider not yet queued always finds room in the queue. */
  lemma RoomInQueue(s: Providers, n: set<nat>, indegree: seq<nat>, queue: seq<nat>, done: set<nat>, more: set<nat>, j: nat)
    requires |indegree| == MAX_MANIFESTS && forall k :: k in n ==> k < |s|
    requires Sorting(s, n, indegree, queue, done, more, j) && j in n && indegree[j] != 0
    ensures |queue| < |s|
  {
    hide Waiting, DependenciesFirst;
    DistinctPush(queue, j);
    assert forall k :: 0 <= k < |queue| ==> queue[k] in queue;
    DistinctFits(queue + [j], |s|);
  }

  /** With the queue drained, the counts decide between a load order and a report of a cycle. */
  lemma Finish(s: Providers, requested: seq<string>, n: set<nat>, indegree: seq<nat>, order: seq<nat>)
    requires |indegree| == MAX_MANIFESTS && IsClosure(s, requested, n) && AllExist(s, requested)
    requires Sorting(s, n, indegree, order, Elems(order), Elems(order), 0)
    ensures |order| == |n| <==> Sortable(s, requested)
    ensures |order| == |n| ==> LoadOrder(s, requested, order)
  {
    hide Waiting, DependenciesFirst, Reachable, Linked, AllExist, Sortable, LoadOrder, OnCycle;
    var done := Elems(order);
    ElemsSize(order);
    SubsetSize(done, n);
    if |order| == |n| {
      FinishedOrder(s, requested, n, indegree, order);
    } else {
      forall j: nat | j in n - done
        ensures j < |s| && |DepSet(s, j) * done| < |s[j].dependencies|
      {
        assert j !in order;
        WaitingNatural(s, j, done, indegree);
      }
      assert |done| != |n| && done <= n;
      StrictSubset(done, n);
      LeftoverNotSortable(s, requested, n, done);
    }
  }

  lemma StrictSubset(a: set<nat>, b: set<nat>)
    requires a <= b && |a| != |b|
    ensures a < b
  {
    assert b <= a ==> a == b;
  }

  /** A queue that holds everything needed is a load order. */
  lemma FinishedOrder(s: Providers, requested: seq<string>, n: set<nat>, indegree: seq<nat>, order: seq<nat>)
    requires |indegree| == MAX_MANIFESTS && IsClosure(s, requested, n) && AllExist(s, requested)
    requires forall j :: j in n ==> j < |s|
    requires Sorting(s, n, indegree, order, Elems(order), Elems(order), 0) && Elems(order) == n
    ensures Sortable(s, requested) && LoadOrder(s, requested, order)
  {
    hide Waiting, DependenciesFirst, Linked, AllExist, LoadOrder, OnCycle, Reachable;
    Complete(s, requested, n, order);
    forall i: nat | i < |s| && Reachable(s, requested, i)
      ensures !OnCycle(s, i) && Distinct(s[i].dependencies)
    {
      OrderedIsAcyclic(s, requested, order, i);
      assert i in n && i in order;
      NothingRepeated(s, requested, i, n);
    }
  }

  lemma Complete(s: Providers, requested: seq<string>, n: set<nat>, order: seq<nat>)
    requires IsClosure(s, requested, n) && Elems(order) == n && Distinct(order) && DependenciesFirst(s, order)
    ensures LoadOrder(s, requested, order)
  {
    hide Reachable, Linked;
    assert forall i: nat :: i in order <==> i in Elems(order);
  }

  lemma NothingRepeated(s: Providers, requested: seq<string>, i: nat, done: set<nat>)
    requires i < |s| && Reachable(s, requested, i) && AllExist(s, requested) && Waiting(s, i, done) == 0
    ensures Distinct(s[i].dependencies)
  {
    ImageSize(s, s[i].dependencies);
    SubsetSize(DepSet(s, i) * done, DepSet(s, i));
  }

  lemma WaitingNatural(s: Providers, j: nat, done: set<nat>, indegree: seq<nat>)
    requires j < |indegree| && j < |s| && indegree[j] == Waiting(s, j, done) && indegree[j] != 0
    ensures |DepSet(s, j) * done| < |s[j].dependencies|
  {
  }

  // ---------------------------------------------------------------- the resolver

  /** Resolution succeeds exactly when everything named exists and can be sorted, and
      then yields a load order; otherwise a missing name is reported exactly when
      there is one, and a cycle in all remaining cases. */
  method Resolve(s: Providers, requested: seq<string>) returns (st: ResolveStatus, order: seq<nat>)
    ensures st == Missing <==> !AllExist(s, requested)
    ensures st == Cycle <==> AllExist(s, requested) && !Sortable(s, requested)
    ensures st == Resolved <==> AllExist(s, requested) && Sortable(s, requested)
    ensures st == Resolved ==> LoadOrder(s, requested, order)
  {
    hide AllExist, Sortable, LoadOrder;
    order := [];
    var closed, needed, count, n := Closure(s, requested);
    if !closed { return Missing, order; }
    var ok;
    ok, order := Kahn(s, requested, needed, count, n);
    st := if ok then Resolved else Cycle;
  }

  /** A provider that names one dependency twice is never resolved, although its graph has no cycle. */
  lemma RepeatedDependencyIsACycleReport(a: Provider, b: Provider)
    requires a.name != b.name && b.dependencies == [] && a.dependencies == [b.name, b.name]
    ensures var s: Providers := [a, b];
            && AllExist(s, [a.name]) && !Sortable(s, [a.name])
            && forall i: nat :: i < |s| ==> !OnCycle(s, i)
  {
    var s: Providers := [a, b];
    FindIs(s, a.name, 0);
    FindIs(s, b.name, 1);
    assert DepSet(s, 0) == {1} by { assert forall d :: d in a.dependencies <==> d == b.name; }
    assert DepSet(s, 1) == {};
    RootReachable(s, [a.name], 0) by { assert a.name in [a.name]; }
    assert a.dependencies[0] == a.dependencies[1];
    forall i: nat, d | i < |s| && Reachable(s, [a.name], i) && d in s[i].dependencies
      ensures Find(s, d) < |s|
    {
    }
    forall i: nat | i < |s|
      ensures !OnCycle(s, i)
    {
      forall p | Walk(s, p) && |p| > 1
        ensures p[0] == 0 && p[|p| - 1] == 1
      {
        assert Linked(s, p[|p| - 2], p[|p| - 1]);
        assert Linked(s, p[0], p[1]);
      }
    }
  }
}
