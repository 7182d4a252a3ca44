/** Dependency resolution over a set of provider manifests: what is to be resolved,
    stated on paths through the dependency graph. */
module Manifest {

  const MAX_MANIFESTS := 64
  const MAX_DEPENDENCIES := 8

  datatype Provider = Provider(name: string, slot: string, architecture: string, abiMajor: nat, abiMinor: nat,
                               score: real, dependencies: seq<string>)

  /** A loaded manifest set. */
  type Providers = s: seq<Provider> | |s| <= MAX_MANIFESTS && forall i :: 0 <= i < |s| ==> |s[i].dependencies| <= MAX_DEPENDENCIES

  /** The first provider of that name, or one past the end. */
  function Find(s: seq<Provider>, name: string): (k: nat)
    ensures k <= |s|
    ensures k < |s| ==> s[k].name == name
    ensures forall i :: 0 <= i < k ==> s[i].name != name
  {
    if s == [] then 0 else if s[0].name == name then 0 else 1 + Find(s[1..], name)
  }

  lemma FindIs(s: seq<Provider>, name: string, k: nat)
    requires k <= |s| && (k < |s| ==> s[k].name == name) && forall i :: 0 <= i < k ==> s[i].name != name
    ensures Find(s, name) == k
  {
  }

  /** The providers a provider's dependency names lead to. */
  ghost function DepSet(s: Providers, i: nat): set<nat> {
    if i < |s| then Image(s, s[i].dependencies) else {}
  }

  /** The image of a list of names under Find. */
  ghost function Image(s: Providers, names: seq<string>): set<nat> {
    set d | d in names :: Find(s, d)
  }

  ghost function Roots(s: Providers, requested: seq<string>): set<nat> {
    Image(s, requested)
  }

  ghost predicate Linked(s: Providers, i: nat, j: nat) {
    j in DepSet(s, i)
  }

  /** A nonempty walk along dependencies between existing providers. */
  ghost predicate Walk(s: Providers, p: seq<nat>) {
    && |p| > 0 && (forall k :: 0 <= k < |p| ==> p[k] < |s|)
    && forall k, m :: 0 <= k < |p| && m == k + 1 < |p| ==> Linked(s, p[k], p[m])
  }

  ghost predicate Reachable(s: Providers, requested: seq<string>, i: nat) {
    exists p :: Walk(s, p) && p[0] in Roots(s, requested) && p[|p| - 1] == i
  }

  /** Every name met from the request on has a provider. */
  ghost predicate AllExist(s: Providers, requested: seq<string>) {
    && (forall r :: r in requested ==> Find(s, r) < |s|)
    && forall i: nat, d :: i < |s| && Reachable(s, requested, i) && d in s[i].dependencies ==> Find(s, d) < |s|
  }

  ghost predicate OnCycle(s: Providers, i: nat) {
    exists p :: Walk(s, p) && |p| > 1 && p[0] == i && p[|p| - 1] == i
  }

  ghost predicate Distinct<T>(xs: seq<T>) {
    forall i, j :: 0 <= i < j < |xs| ==> xs[i] != xs[j]
  }

  ghost function Elems(xs: seq<nat>): set<nat> {
    set x | x in xs
  }

  /** What makes the code report success: no reachable provider lies on a cycle or
      names a dependency twice. */
  ghost predicate Sortable(s: Providers, requested: seq<string>) {
    forall i: nat :: i < |s| && Reachable(s, requested, i) ==> !OnCycle(s, i) && Distinct(s[i].dependencies)
  }

  /** A load order: the reachable providers, each once, dependencies first. */
  ghost predicate LoadOrder(s: Providers, requested: seq<string>, order: seq<nat>) {
    && Distinct(order)
    && (forall i: nat :: i in order <==> i < |s| && Reachable(s, requested, i))
    && forall k: nat, x :: k < |order| && Linked(s, order[k], x) ==> x in order[..k]
  }

  // -------------------------------------------------------------- counting lemmas

  lemma {:induction false} ElemsSize(xs: seq<nat>)
    requires Distinct(xs)
    ensures |Elems(xs)| == |xs|
  {
    if xs != [] {
      var (front, x) := (xs[..|xs| - 1], xs[|xs| - 1]);
      ElemsSize(front);
      assert Elems(xs) == Elems(front) + {x};
      assert x !in Elems(front);
    }
  }

  lemma SubsetSize(a: set<nat>, b: set<nat>)
    requires a <= b
    ensures |a| <= |b| && (|a| == |b| ==> a == b)
  {
    var rest := b - a;
    assert b == a + rest && |b| == |a| + |rest|;
  }

  ghost function Below(n: nat): (r: set<nat>)
    ensures |r| == n && forall x: nat :: x in r <==> x < n
  {
    if n == 0 then {} else Below(n - 1) + {n - 1}
  }

  /** Distinct indices below `n` are at most `n` many: why the fixed arrays suffice. */
  lemma DistinctFits(xs: seq<nat>, n: nat)
    requires Distinct(xs) && forall k :: 0 <= k < |xs| ==> xs[k] < n
    ensures |xs| <= n
  {
    ElemsSize(xs);
    SubsetSize(Elems(xs), Below(n));
  }

  /** A list of existing names has as many providers as names exactly when it repeats none. */
  lemma {:induction false} ImageSize(s: Providers, names: seq<string>)
    requires forall d :: d in names ==> Find(s, d) < |s|
    ensures |Image(s, names)| <= |names|
    ensures |Image(s, names)| == |names| <==> Distinct(names)
  {
    if names != [] {
      var (front, d) := (names[..|names| - 1], names[|names| - 1]);
      assert names == front + [d];
      ImageSize(s, front);
      ImageSnoc(s, front, d);
      DistinctSnoc(front, d);
      hide Find, Image, Distinct;
    }
  }

  lemma ImageSnoc(s: Providers, names: seq<string>, d: string)
    requires forall e :: e in names + [d] ==> Find(s, e) < |s|
    ensures Image(s, names + [d]) == Image(s, names) + {Find(s, d)}
    ensures Find(s, d) in Image(s, names) <==> d in names
  {
    assert d in names + [d];
    if Find(s, d) in Image(s, names) {
      var e :| e in names && Find(s, e) == Find(s, d);
      assert e in names + [d];
      assert e == s[Find(s, e)].name == d;
    }
  }

  lemma DistinctSnoc(names: seq<string>, d: string)
    ensures Distinct(names + [d]) <==> Distinct(names) && d !in names
  {
    var xs := names + [d];
    assert forall i :: 0 <= i < |names| ==> xs[i] == names[i];
    assert xs[|names|] == d;
    assert d in names ==> exists i :: 0 <= i < |names| && xs[i] == xs[|names|];
  }

  // -------------------------------------------------------------------- reachability

  lemma RootReachable(s: Providers, requested: seq<string>, i: nat)
    requires i < |s| && i in Roots(s, requested)
    ensures Reachable(s, requested, i)
  {
    assert Walk(s, [i]);
  }

  lemma StepReachable(s: Providers, requested: seq<string>, i: nat, j: nat)
    requires i < |s| && j < |s| && Reachable(s, requested, i) && Linked(s, i, j)
    ensures Reachable(s, requested, j)
  {
    var p :| Walk(s, p) && p[0] in Roots(s, requested) && p[|p| - 1] == i;
    var q := p + [j];
    assert Walk(s, q);
  }

  /** A set with the roots that is closed under dependencies holds everything reachable. */
  lemma {:induction false} ClosedContains(s: Providers, n: set<nat>, p: seq<nat>)
    requires Walk(s, p) && p[0] in n
    requires forall i: nat, x :: i in n && i < |s| && Linked(s, i, x) ==> x in n
    ensures p[|p| - 1] in n
  {
    if |p| > 1 {
      var m := |p| - 1;
      WalkSlice(s, p, 0, m);
      ClosedContains(s, n, p[..m]);
      assert Linked(s, p[m - 1], p[m]);
    }
  }

  /** The needed set: exactly the reachable providers, all of whose dependencies exist. */
  ghost predicate IsClosure(s: Providers, requested: seq<string>, n: set<nat>) {
    && (forall i: nat :: i in n <==> i < |s| && Reachable(s, requested, i))
    && (forall i: nat, x :: i in n && Linked(s, i, x) ==> x in n)
  }

  lemma ClosureIs(s: Providers, requested: seq<string>, n: set<nat>)
    requires forall i :: i in n ==> i < |s| && Reachable(s, requested, i)
    requires Roots(s, requested) <= n
    requires forall i: nat, x :: i in n && Linked(s, i, x) ==> x in n
    ensures IsClosure(s, requested, n) && AllExist(s, requested)
  {
    forall i: nat | i < |s| && Reachable(s, requested, i)
      ensures i in n
    {
      var p :| Walk(s, p) && p[0] in Roots(s, requested) && p[|p| - 1] == i;
      hide Linked, Roots, Walk;
      ClosedContains(s, n, p);
    }
    hide Reachable, IsClosure;
    forall r | r in requested
      ensures Find(s, r) < |s|
    {
      assert Find(s, r) in Roots(s, requested);
    }
    forall i: nat, d | i < |s| && Reachable(s, requested, i) && d in s[i].dependencies
      ensures Find(s, d) < |s|
    {
      assert Linked(s, i, Find(s, d));
    }
  }

  // ------------------------------------------------------------- orders and cycles

  /** Along a walk inside a load order positions strictly decrease. */
  lemma {:induction false} WalkGoesDown(s: Providers, order: seq<nat>, p: seq<nat>, a: nat)
    requires Walk(s, p) && a < |order| && order[a] == p[0]
    requires forall k: nat, x :: k < |order| && order[k] < |s| && Linked(s, order[k], x) ==> x in order[..k]
    ensures exists b: nat :: b < |order| && order[b] == p[|p| - 1] && (|p| > 1 ==> b < a)
  {
    if |p| > 1 {
      assert Linked(s, p[0], p[1]);
      var c :| 0 <= c < a && order[..a][c] == p[1];
      WalkSlice(s, p, 1, |p|);
      WalkGoesDown(s, order, p[1..], c);
    }
  }

  /** A load order excludes cycles. */
  lemma OrderedIsAcyclic(s: Providers, requested: seq<string>, order: seq<nat>, i: nat)
    requires LoadOrder(s, requested, order) && i in order
    ensures !OnCycle(s, i)
  {
    if OnCycle(s, i) {
      var p :| Walk(s, p) && |p| > 1 && p[0] == i && p[|p| - 1] == i;
      var a: nat :| a < |order| && order[a] == i;
      assert forall k: nat :: k < |order| ==> order[k] in order;
      WalkGoesDown(s, order, p, a);
      assert false;
    }
  }

  /** Every member of `r` is a provider that depends on a member of `r`. */
  ghost predicate NoExit(s: Providers, r: set<nat>) {
    forall j: nat :: j in r ==> j < |s| && HasNext(s, r, j)
  }

  ghost predicate HasNext(s: Providers, r: set<nat>, j: nat) {
    exists x :: Linked(s, j, x) && x in r
  }

  /** A walk of any length inside a set in which every member has a successor. */
  lemma {:induction false} LongWalk(s: Providers, r: set<nat>, i: nat, n: nat) returns (p: seq<nat>)
    requires i in r && NoExit(s, r)
    ensures Walk(s, p) && |p| == n + 1 && p[0] == i && forall k :: 0 <= k < |p| ==> p[k] in r
    decreases n
  {
    hide Linked;
    if n == 0 {
      p := [i];
    } else {
      assert HasNext(s, r, i);
      var x :| Linked(s, i, x) && x in r;
      var q := LongWalk(s, r, x, n - 1);
      p := [i] + q;
      WalkCons(s, i, q);
    }
  }

  lemma WalkCons(s: Providers, i: nat, q: seq<nat>)
    requires i < |s| && Walk(s, q) && Linked(s, i, q[0])
    ensures Walk(s, [i] + q)
  {
    hide Linked;
    var p := [i] + q;
    forall k, m | 0 <= k < |p| && m == k + 1 < |p|
      ensures Linked(s, p[k], p[m])
    {
      if k > 0 {
        assert Linked(s, q[k - 1], q[m - 1]);
      }
    }
  }

  lemma WalkSlice(s: Providers, p: seq<nat>, a: nat, b: nat)
    requires Walk(s, p) && a < b <= |p|
    ensures Walk(s, p[a..b])
  {
    hide Linked;
    var c := p[a..b];
    forall k, m | 0 <= k < |c| && m == k + 1 < |c|
      ensures Linked(s, c[k], c[m])
    {
      assert Linked(s, p[a + k], p[a + m]);
    }
  }

  /** More steps than members: some member is met twice. */
  lemma Pigeonhole(p: seq<nat>, r: set<nat>) returns (a: nat, b: nat)
    requires |p| > |r| && forall k :: 0 <= k < |p| ==> p[k] in r
    ensures a < b < |p| && p[a] == p[b]
  {
    if Distinct(p) {
      ElemsSize(p);
      SubsetSize(Elems(p), r);
      assert false;
    }
    a, b :| a < b < |p| && p[a] == p[b];
  }

  /** Without a way out, a finite set of providers holds a cycle. */
  lemma NoExitMeansCycle(s: Providers, r: set<nat>) returns (i: nat)
    requires r != {} && NoExit(s, r)
    ensures i in r && OnCycle(s, i)
  {
    hide Linked, Walk;
    var j :| j in r;
    var p := LongWalk(s, r, j, |r|);
    var a, b := Pigeonhole(p, r);
    i := p[a];
    SliceIsCycle(s, p, a, b);
  }

  lemma SliceIsCycle(s: Providers, p: seq<nat>, a: nat, b: nat)
    requires Walk(s, p) && a < b < |p| && p[a] == p[b]
    ensures OnCycle(s, p[a])
  {
    hide Walk;
    WalkSlice(s, p, a, b + 1);
    var c := p[a..b + 1];
    assert c[0] == p[a] && c[|c| - 1] == p[a];
  }

  /** Providers left over by the sort, each still waiting for a listed dependency,
      contain a repeated name or a cycle. */
  lemma LeftoverNotSortable(s: Providers, requested: seq<string>, n: set<nat>, done: set<nat>)
    requires IsClosure(s, requested, n) && done < n && AllExist(s, requested)
    requires forall j: nat :: j in n - done ==> j < |s| && |DepSet(s, j) * done| < |s[j].dependencies|
    ensures !Sortable(s, requested)
  {
    var r := n - done;
    hide Linked, DepSet, Reachable, AllExist, IsClosure, Sortable, HasNext, OnCycle;
    if Sortable(s, requested) {
      forall j: nat | j in r
        ensures j < |s| && HasNext(s, r, j)
      {
        SortableAt(s, requested, n, j);
        StillWaiting(s, requested, n, done, j);
      }
      var left :| left in n && left !in done;
      assert left in r;
      var i := NoExitMeansCycle(s, r);
      SortableAt(s, requested, n, i);
      assert false;
    }
  }

  lemma SortableAt(s: Providers, requested: seq<string>, n: set<nat>, i: nat)
    requires IsClosure(s, requested, n) && Sortable(s, requested) && i in n
    ensures i < |s| && !OnCycle(s, i) && Distinct(s[i].dependencies)
  {
    hide Linked, Reachable, OnCycle;
  }

  lemma StillWaiting(s: Providers, requested: seq<string>, n: set<nat>, done: set<nat>, j: nat)
    requires IsClosure(s, requested, n) && done < n && AllExist(s, requested)
    requires j in n - done && j < |s| && |DepSet(s, j) * done| < |s[j].dependencies| && Distinct(s[j].dependencies)
    ensures HasNext(s, n - done, j)
  {
    ImageSize(s, s[j].dependencies);
    SubsetSize(DepSet(s, j) * done, DepSet(s, j));
    hide Find, Image;
    assert DepSet(s, j) <= done ==> DepSet(s, j) * done == DepSet(s, j);
    var x :| x in DepSet(s, j) && x !in done;
    assert Linked(s, j, x) && x in n - done;
  }
}
