/** The minimax action selector with hysteresis. Losses are exact reals; a zero scale is
    the one source of a loss that is not finite. */
module Dgt {

  const SCHEMA_VERSION := 1
  const MAX_ACTIONS := 16
  const MAX_SCENARIOS := 16

  /** Four components: of a cost, of the weights, or of the normalisation scales. */
  datatype Costs = Costs(estimationError: real, delay: real, coverageLoss: real, resourceCost: real) {
    function Components(): (c: seq<real>)
      ensures |c| == 4
    {
      [estimationError, delay, coverageLoss, resourceCost]
    }

    predicate NoneNegative() { forall i :: 0 <= i < 4 ==> Components()[i] >= 0.0 }
    predicate AllPositive() { forall i :: 0 <= i < 4 ==> Components()[i] > 0.0 }
    predicate AnyPositive() { exists i :: 0 <= i < 4 && Components()[i] > 0.0 }
    predicate NoneZero() { forall i :: 0 <= i < 4 ==> Components()[i] != 0.0 }
  }

  datatype Table = Table(sizeMatches: bool, schemaVersion: nat, actionCount: nat, actionIds: seq<nat>,
                         scenarioCount: nat, weights: Costs, scales: Costs, cost: seq<seq<Costs>>) {
    /** The C arrays: the counts may say anything, the storage is fixed. */
    ghost predicate Shaped() {
      |actionIds| == MAX_ACTIONS && |cost| == MAX_ACTIONS && forall a :: 0 <= a < MAX_ACTIONS ==> |cost[a]| == MAX_SCENARIOS
    }

    ghost predicate Valid() {
      && Shaped() && sizeMatches && schemaVersion == SCHEMA_VERSION
      && 0 < actionCount <= MAX_ACTIONS && 0 < scenarioCount <= MAX_SCENARIOS
      && weights.NoneNegative() && weights.AnyPositive() && scales.AllPositive()
      && forall a: nat, s: nat :: a < actionCount && s < scenarioCount ==> cost[a][s].NoneNegative()
    }

    /** Losses of this table are finite and there is at least one per action. */
    predicate Scorable() { scenarioCount > 0 && scales.NoneZero() }
  }

  datatype TableStatus = TableOk | InvalidArgument | Unsupported | InvalidTableScore

  method NegativeAmong(c: Costs) returns (found: bool)
    ensures found <==> !c.NoneNegative()
  {
    for i := 0 to 4
      invariant forall k :: 0 <= k < i ==> c.Components()[k] >= 0.0
    {
      if c.Components()[i] < 0.0 { return true; }
    }
    return false;
  }

  /** Accepts exactly the valid tables, and says which group of checks failed first. */
  method ValidateTable(t: Table) returns (st: TableStatus)
    requires t.Shaped()
    ensures st == TableOk <==> t.Valid()
    ensures st == Unsupported <==> t.sizeMatches && t.schemaVersion != SCHEMA_VERSION
    ensures st == InvalidTableScore <==>
            && t.sizeMatches && t.schemaVersion == SCHEMA_VERSION
            && 0 < t.actionCount <= MAX_ACTIONS && 0 < t.scenarioCount <= MAX_SCENARIOS && !t.Valid()
  {
    if !t.sizeMatches { return InvalidArgument; }
    if t.schemaVersion != SCHEMA_VERSION { return Unsupported; }
    if t.actionCount == 0 || t.actionCount > MAX_ACTIONS { return InvalidArgument; }
    if t.scenarioCount == 0 || t.scenarioCount > MAX_SCENARIOS { return InvalidArgument; }
    var anyPositive := false;
    for i := 0 to 4
      invariant forall k :: 0 <= k < i ==> t.weights.Components()[k] >= 0.0
      invariant anyPositive <==> exists k :: 0 <= k < i && t.weights.Components()[k] > 0.0
    {
      if t.weights.Components()[i] < 0.0 { return InvalidTableScore; }
      if t.weights.Components()[i] > 0.0 { anyPositive := true; }
    }
    if !anyPositive { return InvalidTableScore; }
    for i := 0 to 4
      invariant forall k :: 0 <= k < i ==> t.scales.Components()[k] > 0.0
    {
      if t.scales.Components()[i] <= 0.0 { return InvalidTableScore; }
    }
    for a := 0 to t.actionCount
      invariant forall b: nat, s: nat :: b < a && s < t.scenarioCount ==> t.cost[b][s].NoneNegative()
    {
      for s := 0 to t.scenarioCount
        invariant forall r: nat :: r < s ==> t.cost[a][r].NoneNegative()
      {
        var bad := NegativeAmong(t.cost[a][s]);
        if bad { return InvalidTableScore; }
      }
    }
    return TableOk;
  }

  // ------------------------------------------------------------------------ losses

  /** The weighted, normalised loss of one action under one scenario. */
  function Loss(t: Table, a: nat, s: nat): real
    requires t.Shaped() && a < MAX_ACTIONS && s < MAX_SCENARIOS && t.scales.NoneZero()
  {
    assert t.scales.Components()[0] != 0.0 && t.scales.Components()[1] != 0.0;
    assert t.scales.Components()[2] != 0.0 && t.scales.Components()[3] != 0.0;
    var c := t.cost[a][s];
    t.weights.estimationError * (c.estimationError / t.scales.estimationError)
    + t.weights.delay * (c.delay / t.scales.delay)
    + t.weights.coverageLoss * (c.coverageLoss / t.scales.coverageLoss)
    + t.weights.resourceCost * (c.resourceCost / t.scales.resourceCost)
  }

  /** One component's share of a loss. */
  function Share(t: Table, c: Costs, k: nat): real
    requires t.scales.NoneZero() && k < 4
  {
    t.weights.Components()[k] * (c.Components()[k] / t.scales.Components()[k])
  }

  /** A loss is the sum of the shares of its four components, each with its own weight and scale. */
  lemma LossIsSumOfShares(t: Table, a: nat, s: nat)
    requires t.Shaped() && a < MAX_ACTIONS && s < MAX_SCENARIOS && t.scales.NoneZero()
    ensures Loss(t, a, s)
         == Share(t, t.cost[a][s], 0) + Share(t, t.cost[a][s], 1) + Share(t, t.cost[a][s], 2) + Share(t, t.cost[a][s], 3)
  {
  }

  /** The table with another cost for one action under one scenario. */
  function WithCost(t: Table, a: nat, s: nat, c: Costs): (u: Table)
    requires t.Shaped() && a < MAX_ACTIONS && s < MAX_SCENARIOS
    ensures u.Shaped()
  {
    t.(cost := t.cost[a := t.cost[a][s := c]])
  }

  /** Raising one component of one cost by `d` raises that loss by the component's own weight times `d`
      over its own scale, and no other loss. */
  lemma RaisedComponent(t: Table, a: nat, s: nat, c: Costs, k: nat, d: real)
    requires t.Shaped() && a < MAX_ACTIONS && s < MAX_SCENARIOS && t.scales.NoneZero() && k < 4
    requires c.Components() == t.cost[a][s].Components()[k := t.cost[a][s].Components()[k] + d]
    ensures Loss(WithCost(t, a, s, c), a, s) - Loss(t, a, s) == t.weights.Components()[k] * d / t.scales.Components()[k]
    ensures forall b: nat, r: nat :: b < MAX_ACTIONS && r < MAX_SCENARIOS && (b != a || r != s) ==>
              Loss(WithCost(t, a, s, c), b, r) == Loss(t, b, r)
  {
    var (u, b) := (WithCost(t, a, s, c), t.cost[a][s]);
    LossIsSumOfShares(t, a, s);
    LossIsSumOfShares(u, a, s);
    SharesUnchanged(t, u, c);
    ComponentShares(t, b, c, k, d);
    OthersUnchanged(t, a, s, c);
    assert u.cost[a][s] == c;
    hide Loss, Share;
    assert k == 0 || k == 1 || k == 2 || k == 3;
  }

  lemma SharesUnchanged(t: Table, u: Table, c: Costs)
    requires u.scales == t.scales && u.weights == t.weights && t.scales.NoneZero()
    ensures forall k: nat :: k < 4 ==> Share(u, c, k) == Share(t, c, k)
  {
  }

  lemma ComponentShares(t: Table, b: Costs, c: Costs, k: nat, d: real)
    requires t.scales.NoneZero() && k < 4 && c.Components() == b.Components()[k := b.Components()[k] + d]
    ensures t.scales.Components()[k] != 0.0
    ensures Share(t, c, k) - Share(t, b, k) == t.weights.Components()[k] * d / t.scales.Components()[k]
    ensures forall i: nat :: i < 4 && i != k ==> Share(t, c, i) == Share(t, b, i)
  {
    var (x, y, z, w) := (b.Components(), c.Components(), t.scales.Components(), t.weights.Components());
    assert z[k] != 0.0 && y[k] == x[k] + d;
    RaisedShare(w[k], x[k], y[k], z[k], d, Share(t, c, k), Share(t, b, k));
    forall i: nat | i < 4 && i != k
      ensures Share(t, c, i) == Share(t, b, i)
    {
      assert y[i] == x[i];
    }
  }

  lemma RaisedShare(w: real, x: real, y: real, z: real, d: real, after: real, before: real)
    requires z != 0.0 && y == x + d && after == w * (y / z) && before == w * (x / z)
    ensures after - before == w * d / z
  {
    var (p, q, r) := (y / z, x / z, w * d / z);
    assert p * z == y && q * z == x && r * z == w * d;
    assert (w * p - w * q - r) * z == w * (p * z) - w * (q * z) - r * z;
  }

  lemma OthersUnchanged(t: Table, a: nat, s: nat, c: Costs)
    requires t.Shaped() && a < MAX_ACTIONS && s < MAX_SCENARIOS && t.scales.NoneZero()
    ensures forall b: nat, r: nat :: b < MAX_ACTIONS && r < MAX_SCENARIOS && (b != a || r != s) ==>
              Loss(WithCost(t, a, s, c), b, r) == Loss(t, b, r)
  {
    var u := WithCost(t, a, s, c);
    forall b: nat, r: nat | b < MAX_ACTIONS && r < MAX_SCENARIOS && (b != a || r != s)
      ensures Loss(u, b, r) == Loss(t, b, r)
    {
      assert u.cost[b][r] == t.cost[b][r];
    }
  }

  /** What costs nothing loses nothing. */
  lemma NoCostNoLoss(t: Table, a: nat, s: nat)
    requires t.Shaped() && a < MAX_ACTIONS && s < MAX_SCENARIOS && t.scales.NoneZero()
    requires forall k :: 0 <= k < 4 ==> t.cost[a][s].Components()[k] == 0.0
    ensures Loss(t, a, s) == 0.0
  {
    LossIsSumOfShares(t, a, s);
    forall k | 0 <= k < 4
      ensures Share(t, t.cost[a][s], k) == 0.0
    {
      assert t.scales.Components()[k] != 0.0;
      NothingShared(t.weights.Components()[k], t.scales.Components()[k]);
    }
    hide Loss, Share;
  }

  lemma NothingShared(w: real, z: real)
    requires z != 0.0
    ensures w * (0.0 / z) == 0.0
  {
  }

  /** `x` is the greatest loss of `a` over the first `n` scenarios. */
  ghost predicate IsWorst(t: Table, a: nat, n: nat, x: real)
    requires t.Shaped() && a < MAX_ACTIONS && n <= MAX_SCENARIOS && t.scales.NoneZero()
  {
    && (exists s: nat :: s < n && Loss(t, a, s) == x)
    && forall s: nat :: s < n ==> Loss(t, a, s) <= x
  }

  ghost function Worst(t: Table, a: nat, n: nat): (x: real)
    requires t.Shaped() && a < MAX_ACTIONS && 0 < n <= MAX_SCENARIOS && t.scales.NoneZero()
    ensures IsWorst(t, a, n, x)
  {
    if n == 1 then
      WorstOfOne(t, a);
      Loss(t, a, 0)
    else
      var x := Worst(t, a, n - 1);
      WorstStep(t, a, n - 1, x);
      if Loss(t, a, n - 1) > x then Loss(t, a, n - 1) else x
  }

  lemma WorstOfOne(t: Table, a: nat)
    requires t.Shaped() && a < MAX_ACTIONS && t.scales.NoneZero()
    ensures IsWorst(t, a, 1, Loss(t, a, 0))
  {
    hide Loss;
  }

  lemma WorstStep(t: Table, a: nat, n: nat, x: real)
    requires t.Shaped() && a < MAX_ACTIONS && n < MAX_SCENARIOS && t.scales.NoneZero() && IsWorst(t, a, n, x)
    ensures IsWorst(t, a, n + 1, if Loss(t, a, n) > x then Loss(t, a, n) else x)
  {
    hide Loss;
  }

  /** The worst-case loss of an action of a scorable table. */
  ghost function WorstCase(t: Table, a: nat): real
    requires t.Shaped() && a < MAX_ACTIONS && t.Scorable() && t.scenarioCount <= MAX_SCENARIOS
  {
    Worst(t, a, t.scenarioCount)
  }

  /** With all weight on one component the worst case is the greatest of that component's weighted,
      normalised costs. */
  lemma OneComponentWorstCase(t: Table, a: nat, k: nat)
    requires t.Shaped() && a < MAX_ACTIONS && t.Scorable() && t.scenarioCount <= MAX_SCENARIOS && k < 4
    requires forall i :: 0 <= i < 4 && i != k ==> t.weights.Components()[i] == 0.0
    ensures exists s: nat :: s < t.scenarioCount && WorstCase(t, a) == Share(t, t.cost[a][s], k)
    ensures forall s: nat :: s < t.scenarioCount ==> Share(t, t.cost[a][s], k) <= WorstCase(t, a)
  {
    forall s: nat | s < t.scenarioCount
      ensures Loss(t, a, s) == Share(t, t.cost[a][s], k)
    {
      LossIsSumOfShares(t, a, s);
      forall i | 0 <= i < 4 && i != k
        ensures Share(t, t.cost[a][s], i) == 0.0
      {
        assert t.weights.Components()[i] == 0.0;
      }
      hide Loss, Share;
    }
    hide Loss, Share;
    assert IsWorst(t, a, t.scenarioCount, WorstCase(t, a));
  }

  datatype LossStatus = Scored | OutOfRange | InvalidScore

  /** The storage this computation touches exists: trivially so for a valid table. */
  ghost predicate InStorage(t: Table, a: nat) {
    t.Shaped() && (a < t.actionCount ==> a < MAX_ACTIONS) && t.scenarioCount <= MAX_SCENARIOS
  }

  method ActionWorstCaseLoss(t: Table, a: nat) returns (st: LossStatus, loss: real)
    requires InStorage(t, a)
    ensures st == OutOfRange <==> a >= t.actionCount
    ensures st == Scored <==> a < t.actionCount && t.Scorable()
    ensures st == Scored ==> loss == WorstCase(t, a)
  {
    hide Loss;
    loss := 0.0;
    if a >= t.actionCount { return OutOfRange, loss; }
    var haveOne := false;
    for s := 0 to t.scenarioCount
      invariant haveOne <==> s > 0
      invariant s > 0 ==> t.scales.NoneZero() && loss == Worst(t, a, s)
    {
      if !t.scales.NoneZero() { return InvalidScore, loss; }
      var now := Loss(t, a, s);
      if !haveOne || now > loss { loss, haveOne := now, true; }
    }
    if !haveOne { return InvalidScore, loss; }
    return Scored, loss;
  }

  // --------------------------------------------------------------------- selection

  type Eligibility = e: seq<bool> | |e| == MAX_ACTIONS witness seq(MAX_ACTIONS, _ => false)

  datatype Previous = NoPrevious | Previous(index: nat)
  datatype Decision = Decision(index: nat, id: nat, worstLoss: real, eligibleCount: nat, fallback: bool, hold: bool)
  datatype Selection = Selected(decision: Decision) | NoEligibleAction

  /** The action `a` is preferred to `b`: less to lose, or as much and the lesser id, or the earlier place. */
  ghost predicate Preferred(t: Table, a: nat, b: nat)
    requires t.Valid() && a < MAX_ACTIONS && b < MAX_ACTIONS
  {
    ScorableIfValid(t);
    || WorstCase(t, a) < WorstCase(t, b)
    || (WorstCase(t, a) == WorstCase(t, b)
        && (t.actionIds[a] < t.actionIds[b] || (t.actionIds[a] == t.actionIds[b] && a <= b)))
  }

  lemma ScorableIfValid(t: Table)
    requires t.Valid()
    ensures t.Scorable()
  {
    assert forall i :: 0 <= i < 4 ==> t.scales.Components()[i] > 0.0;
  }

  ghost predicate IsBest(t: Table, e: Eligibility, n: nat, b: nat)
    requires t.Valid() && n <= t.actionCount
  {
    b < n && e[b] && forall a: nat :: a < n && e[a] ==> Preferred(t, b, a)
  }

  ghost function EligibleCount(e: Eligibility, n: nat): nat
    requires n <= MAX_ACTIONS
  {
    if n == 0 then 0 else EligibleCount(e, n - 1) + if e[n - 1] then 1 else 0
  }

  lemma {:induction false} NoneEligible(e: Eligibility, n: nat)
    requires n <= MAX_ACTIONS
    ensures EligibleCount(e, n) == 0 <==> forall a: nat :: a < n ==> !e[a]
  {
    if n > 0 { NoneEligible(e, n - 1); }
  }

  /** The two-player reading: no eligible action can guarantee less than the best one. */
  lemma BestIsMinimax(t: Table, e: Eligibility, b: nat, a: nat) returns (s: nat)
    requires t.Valid() && IsBest(t, e, t.actionCount, b) && a < t.actionCount && e[a]
    ensures t.Scorable() && s < t.scenarioCount
    ensures forall r: nat :: r < t.scenarioCount ==> Loss(t, b, r) <= Loss(t, a, s)
  {
    hide Loss;
    ScorableIfValid(t);
    assert IsWorst(t, a, t.scenarioCount, WorstCase(t, a));
    s :| s < t.scenarioCount && Loss(t, a, s) == WorstCase(t, a);
    assert Preferred(t, b, a) && IsWorst(t, b, t.scenarioCount, WorstCase(t, b));
  }

  /** The held action survives: it is eligible and the best does not beat it by the margin. */
  ghost predicate Holds(t: Table, e: Eligibility, prev: Previous, margin: real, b: nat)
    requires t.Valid() && b < MAX_ACTIONS
  {
    ScorableIfValid(t);
    && prev.Previous? && prev.index < t.actionCount && e[prev.index]
    && WorstCase(t, b) >= WorstCase(t, prev.index) * (1.0 - margin)
  }

  /** With `b` the best action, `index` is `b` or the held action. */
  ghost predicate Chosen(t: Table, e: Eligibility, prev: Previous, margin: real, b: nat, index: nat, hold: bool)
    requires t.Valid()
  {
    && IsBest(t, e, t.actionCount, b)
    && index == (if Holds(t, e, prev, margin, b) then prev.index else b)
    && (hold <==> index != b)
  }

  /** What a call may answer. */
  ghost predicate Answers(t: Table, e: Eligibility, prev: Previous, margin: real, base: nat, r: Selection)
    requires InStorage(t, base)
  {
    if t.Valid() && (exists a: nat :: a < t.actionCount && e[a]) then
      && r.Selected? && !r.decision.fallback && r.decision.index < t.actionCount
      && r.decision.id == t.actionIds[r.decision.index]
      && (ScorableIfValid(t); r.decision.worstLoss == WorstCase(t, r.decision.index))
      && r.decision.eligibleCount == EligibleCount(e, t.actionCount)
      && exists b :: Chosen(t, e, prev, margin, b, r.decision.index, r.decision.hold)
    else if base < t.actionCount && e[base] && t.Scorable() then
      r == Selected(Decision(base, t.actionIds[base], WorstCase(t, base), 1, true, false))
    else
      r == NoEligibleAction
  }

  method SelectBaseline(t: Table, e: Eligibility, base: nat) returns (r: Selection, next: Previous)
    requires InStorage(t, base)
    ensures r == if base < t.actionCount && e[base] && t.Scorable()
              then Selected(Decision(base, t.actionIds[base], WorstCase(t, base), 1, true, false))
              else NoEligibleAction
    ensures next == if r.Selected? then Previous(r.decision.index) else NoPrevious
  {
    if base >= t.actionCount || !e[base] { return NoEligibleAction, NoPrevious; }
    var st, loss := ActionWorstCaseLoss(t, base);
    if st != Scored { return NoEligibleAction, NoPrevious; }
    return Selected(Decision(base, t.actionIds[base], loss, 1, true, false)), Previous(base);
  }

  /** The scan for the best eligible action. */
  method FindBest(t: Table, e: Eligibility) returns (count: nat, best: nat, loss: real)
    requires t.Valid()
    ensures count == EligibleCount(e, t.actionCount)
    ensures count > 0 ==> IsBest(t, e, t.actionCount, best) && t.Scorable() && loss == WorstCase(t, best)
  {
    hide Loss, WorstCase;
    ScorableIfValid(t);
    count, best, loss := 0, 0, 0.0;
    for a := 0 to t.actionCount
      invariant count == EligibleCount(e, a)
      invariant count > 0 ==> IsBest(t, e, a, best) && loss == WorstCase(t, best)
    {
      NoneEligible(e, a);
      if e[a] {
        var st, l := ActionWorstCaseLoss(t, a);
        if st == Scored {
          if count == 0 || l < loss || (l == loss && t.actionIds[a] < t.actionIds[best]) {
            best, loss := a, l;
          }
          count := count + 1;
        }
      }
    }
  }

  /** Selects the best eligible action, or keeps the previous one within the margin, or
      falls back on the baseline. */
  method SelectAction(t: Table, e: Eligibility, prev: Previous, margin: real, base: nat)
    returns (r: Selection, next: Previous)
    requires InStorage(t, base)
    ensures Answers(t, e, prev, margin, base, r)
    ensures next == if r.Selected? then Previous(r.decision.index) else NoPrevious
  {
    hide Loss, WorstCase, IsBest;
    var ts := ValidateTable(t);
    if ts != TableOk {
      r, next := SelectBaseline(t, e, base);
      return;
    }
    ScorableIfValid(t);
    NoneEligible(e, t.actionCount);
    var count, best, bestLoss := FindBest(t, e);
    if count == 0 {
      r, next := SelectBaseline(t, e, base);
      return;
    }
    BestInRange(t, e, best);
    var index, loss, hold := best, bestLoss, false;
    if prev.Previous? && prev.index < t.actionCount && e[prev.index] {
      var st, prevLoss := ActionWorstCaseLoss(t, prev.index);
      if st == Scored {
        var threshold := prevLoss * (1.0 - margin);
        if !(bestLoss < threshold) {
          index, loss, hold := prev.index, prevLoss, prev.index != best;
        }
      }
    }
    r := Selected(Decision(index, t.actionIds[index], loss, count, false, hold));
    next := Previous(index);
    assert Chosen(t, e, prev, margin, best, index, hold);
  }

  lemma BestInRange(t: Table, e: Eligibility, b: nat)
    requires t.Valid() && IsBest(t, e, t.actionCount, b)
    ensures b < t.actionCount && e[b]
  {
  }

  // -------------------------------------------------------- what selections promise

  lemma BestIsUnique(t: Table, e: Eligibility, b: nat, c: nat)
    requires t.Valid() && IsBest(t, e, t.actionCount, b) && IsBest(t, e, t.actionCount, c)
    ensures b == c
  {
    hide WorstCase;
    assert Preferred(t, b, c) && Preferred(t, c, b);
  }

  /** Of actions that can lose as much as the best, the best has the least id, and of those the first place. */
  lemma TiesGoToTheLeastId(t: Table, e: Eligibility, b: nat, a: nat)
    requires t.Valid() && t.Scorable() && IsBest(t, e, t.actionCount, b) && a < t.actionCount && e[a]
    ensures WorstCase(t, b) <= WorstCase(t, a)
    ensures WorstCase(t, b) == WorstCase(t, a) ==> t.actionIds[b] <= t.actionIds[a]
    ensures WorstCase(t, b) == WorstCase(t, a) && t.actionIds[b] == t.actionIds[a] ==> b <= a
  {
    hide WorstCase;
    assert Preferred(t, b, a);
  }

  /** The count of eligible actions is their number. */
  lemma {:induction false} EligibleCountIs(e: Eligibility, n: nat)
    requires n <= MAX_ACTIONS
    ensures EligibleCount(e, n) == |Eligibles(e, n)|
  {
    if n > 0 {
      EligibleCountIs(e, n - 1);
      assert Eligibles(e, n) == Eligibles(e, n - 1) + if e[n - 1] then {n - 1} else {};
    }
  }

  function Eligibles(e: Eligibility, n: nat): set<nat>
    requires n <= MAX_ACTIONS
  {
    set a: nat | a < n && e[a]
  }

  /** The answer to a call is determined. */
  lemma AnswerIsUnique(t: Table, e: Eligibility, prev: Previous, margin: real, base: nat, r: Selection, q: Selection)
    requires InStorage(t, base) && Answers(t, e, prev, margin, base, r) && Answers(t, e, prev, margin, base, q)
    ensures r == q
  {
    hide WorstCase, Holds;
    if t.Valid() && (exists a: nat :: a < t.actionCount && e[a]) {
      var b :| Chosen(t, e, prev, margin, b, r.decision.index, r.decision.hold);
      var c :| Chosen(t, e, prev, margin, c, q.decision.index, q.decision.hold);
      BestIsUnique(t, e, b, c);
    }
  }

  /** Whatever happens, only an eligible action is ever selected. */
  lemma SelectedIsEligible(t: Table, e: Eligibility, prev: Previous, margin: real, base: nat, r: Selection)
    requires InStorage(t, base) && Answers(t, e, prev, margin, base, r) && r.Selected?
    ensures r.decision.index < t.actionCount && e[r.decision.index]
    ensures r.decision.id == t.actionIds[r.decision.index]
  {
    hide WorstCase;
  }

  /** A held action loses at most 1/(1 - margin) times the optimum. */
  lemma HoldIsNearOptimal(t: Table, e: Eligibility, prev: Previous, margin: real, base: nat, r: Selection, a: nat)
    requires InStorage(t, base) && Answers(t, e, prev, margin, base, r) && r.Selected? && r.decision.hold
    requires a < t.actionCount && e[a]
    ensures t.Valid() && t.Scorable() && WorstCase(t, r.decision.index) * (1.0 - margin) <= WorstCase(t, a)
    ensures prev == Previous(r.decision.index)
  {
    hide WorstCase, Loss;
    assert exists c: nat :: c < t.actionCount && e[c];
    if t.Valid() {
      ScorableIfValid(t);
      var b :| Chosen(t, e, prev, margin, b, r.decision.index, r.decision.hold);
      assert Preferred(t, b, a);
    }
  }

  /** Leaving an action that is still eligible pays: the new loss beats the old by more than the margin. */
  lemma SwitchIsWorthIt(t: Table, e: Eligibility, prev: nat, margin: real, base: nat, r: Selection)
    requires t.Valid() && InStorage(t, base) && prev < t.actionCount && e[prev]
    requires Answers(t, e, Previous(prev), margin, base, r)
    ensures r.Selected? && t.Scorable()
    ensures r.decision.index != prev ==> r.decision.worstLoss < WorstCase(t, prev) * (1.0 - margin)
  {
    hide WorstCase, Loss;
    ScorableIfValid(t);
    assert exists c: nat :: c < t.actionCount && e[c];
  }

  /** Asked again with its own answer, the selector gives the same action, for any margin. */
  lemma FedBackIsStable(t: Table, e: Eligibility, prev: Previous, margin: real, base: nat, r: Selection, q: Selection)
    requires InStorage(t, base) && Answers(t, e, prev, margin, base, r) && r.Selected?
    requires Answers(t, e, Previous(r.decision.index), margin, base, q)
    ensures q == r
  {
    hide WorstCase, Loss;
    if t.Valid() && (exists a: nat :: a < t.actionCount && e[a]) {
      ScorableIfValid(t);
      var b :| Chosen(t, e, prev, margin, b, r.decision.index, r.decision.hold);
      var c :| Chosen(t, e, Previous(r.decision.index), margin, c, q.decision.index, q.decision.hold);
      BestIsUnique(t, e, b, c);
      BestInRange(t, e, b);
    }
  }

  // -------------------------------------------------------------------------- runs

  /** What the broker passes next: a failed selection leaves its memory as it was. */
  function Remembered(prev: Previous, r: Selection): Previous {
    if r.Selected? then Previous(r.decision.index) else prev
  }

  /** One selection per window: eligibilities, answers, and the memory before each. */
  ghost predicate Run(t: Table, margin: real, base: nat, es: seq<Eligibility>, rs: seq<Selection>, ps: seq<Previous>)
    requires InStorage(t, base)
  {
    && |es| == |rs| && |ps| == |rs| + 1
    && (forall k :: 0 <= k < |rs| ==> Answers(t, es[k], ps[k], margin, base, rs[k]))
    && forall k, m :: 0 <= k < |rs| && m == k + 1 ==> ps[m] == Remembered(ps[k], rs[k])
  }

  /** While eligibility does not change neither does the answer, so the selector switches
      at most once between two changes of eligibility. */
  lemma {:induction false} OneSwitchPerChange(t: Table, margin: real, base: nat, es: seq<Eligibility>, rs: seq<Selection>,
                                              ps: seq<Previous>, i: nat, j: nat)
    requires InStorage(t, base) && Run(t, margin, base, es, rs, ps)
    requires i <= j < |rs| && forall k :: i <= k <= j ==> es[k] == es[i]
    ensures rs[j] == rs[i]
    decreases j
  {
    hide Answers;
    if i < j {
      OneSwitchPerChange(t, margin, base, es, rs, ps, i, j - 1);
      assert ps[j] == Remembered(ps[j - 1], rs[j - 1]);
      if rs[j - 1].Selected? {
        FedBackIsStable(t, es[i], ps[j - 1], margin, base, rs[j - 1], rs[j]);
      } else {
        AnswerIsUnique(t, es[i], ps[j - 1], margin, base, rs[j - 1], rs[j]);
      }
    }
  }
}
