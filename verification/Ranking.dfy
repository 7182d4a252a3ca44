/** Ranking the alternatives for a capability slot: eligibility, then a stable in-place
    insertion sort by preference score and name. */
module Ranking {
  import opened Manifest
  import opened Resolver

  const ABI_MAJOR: nat := 1
  const ABI_MINOR: nat := 0

  datatype Host = AnyHost | Host(architecture: string)

  /** strcmp(a, b) < 0, character by character. */
  predicate Less(a: string, b: string) {
    if b == [] then false
    else if a == [] then true
    else a[0] < b[0] || (a[0] == b[0] && Less(a[1..], b[1..]))
  }

  lemma {:induction false} LessIsTotal(a: string, b: string)
    ensures Less(a, b) || Less(b, a) || a == b
    ensures !(Less(a, b) && Less(b, a)) && !Less(a, a)
    decreases |a|
  {
    if a != [] {
      LessIsTotal(a[1..], a[1..]);
    }
    if a != [] && b != [] {
      LessIsTotal(a[1..], b[1..]);
      assert a == [a[0]] + a[1..] && b == [b[0]] + b[1..];
    }
  }

  lemma {:induction false} LessIsTransitive(a: string, b: string, c: string)
    requires Less(a, b) && Less(b, c)
    ensures Less(a, c)
  {
    if a != [] && a[0] == b[0] && b[0] == c[0] {
      LessIsTransitive(a[1..], b[1..], c[1..]);
    }
  }

  /** What does not depend on the dependency graph. */
  predicate Matches(p: Provider, slot: string, host: Host) {
    && p.slot != "" && p.slot == slot
    && (p.architecture == "" || host.AnyHost? || p.architecture == host.architecture)
    && p.abiMajor == ABI_MAJOR && p.abiMinor <= ABI_MINOR
  }

  ghost predicate Eligible(s: Providers, slot: string, host: Host, i: nat) {
    && i < |s| && Matches(s[i], slot, host)
    && AllExist(s, [s[i].name]) && Sortable(s, [s[i].name])
  }

  /** Lower score first, then the lesser name, then the earlier position. */
  predicate Before(s: Providers, i: nat, j: nat)
    requires i < |s| && j < |s|
  {
    || s[i].score < s[j].score
    || (s[i].score == s[j].score && (Less(s[i].name, s[j].name) || (s[i].name == s[j].name && i < j)))
  }

  /** One string is less when it is a strict beginning of the other, or smaller at the first difference. */
  lemma {:induction false} LessIff(a: string, b: string)
    ensures Less(a, b) <==>
            exists n: nat :: n <= |a| && n < |b| && a[..n] == b[..n] && (n == |a| || a[n] < b[n])
    decreases |a|
  {
    if Less(a, b) {
      if a == [] || a[0] < b[0] {
        assert a[..0] == b[..0];
      } else {
        LessIff(a[1..], b[1..]);
        var n: nat :| n <= |a[1..]| && n < |b[1..]| && a[1..][..n] == b[1..][..n] && (n == |a[1..]| || a[1..][n] < b[1..][n]);
        assert a[..n + 1] == [a[0]] + a[1..][..n] && b[..n + 1] == [b[0]] + b[1..][..n];
      }
    }
    forall n: nat | n <= |a| && n < |b| && a[..n] == b[..n] && (n == |a| || a[n] < b[n])
      ensures Less(a, b)
    {
      if n > 0 {
        assert a[..n][0] == b[..n][0];
        assert a[1..][..n - 1] == a[..n][1..] && b[1..][..n - 1] == b[..n][1..];
        LessIff(a[1..], b[1..]);
      }
    }
  }

  /** In a ranking scores never fall, names of one score never fall, and places of one name rise. */
  lemma RankedByScore(s: Providers, xs: seq<nat>, a: nat, b: nat)
    requires Ranked(s, xs) && a < b < |xs|
    ensures var (p, q) := (s[xs[a]], s[xs[b]]);
            && p.score <= q.score && (p.score == q.score ==> !Less(q.name, p.name))
            && (p.score == q.score && p.name == q.name ==> xs[a] < xs[b])
  {
    LessIsTotal(s[xs[a]].name, s[xs[b]].name);
    assert Before(s, xs[a], xs[b]);
  }

  lemma BeforeIsTotal(s: Providers, i: nat, j: nat)
    requires i < |s| && j < |s|
    ensures (i != j ==> Before(s, i, j) || Before(s, j, i)) && !(Before(s, i, j) && Before(s, j, i))
  {
    LessIsTotal(s[i].name, s[j].name);
  }

  lemma BeforeIsTransitive(s: Providers, i: nat, j: nat, k: nat)
    requires i < |s| && j < |s| && k < |s| && Before(s, i, j) && Before(s, j, k)
    ensures Before(s, i, k)
  {
    if Less(s[i].name, s[j].name) && Less(s[j].name, s[k].name) {
      LessIsTransitive(s[i].name, s[j].name, s[k].name);
    }
  }

  ghost predicate Within(s: Providers, xs: seq<nat>) {
    forall k :: 0 <= k < |xs| ==> xs[k] < |s|
  }

  ghost predicate SameElements(xs: seq<nat>, ys: seq<nat>) {
    forall x :: x in xs <==> x in ys
  }

  ghost predicate Ranked(s: Providers, xs: seq<nat>) {
    Within(s, xs) && forall a, b :: 0 <= a < b < |xs| ==> Before(s, xs[a], xs[b])
  }

  /** The whole ranking: every eligible provider once, in rank order. */
  ghost predicate IsRanking(s: Providers, slot: string, host: Host, all: seq<nat>) {
    Ranked(s, all) && forall i :: i in all <==> Eligible(s, slot, host, i)
  }

  /** There is only one, so the sort's result is determined by the manifests. */
  lemma {:induction false} RankingIsUnique(s: Providers, xs: seq<nat>, ys: seq<nat>)
    requires Ranked(s, xs) && Ranked(s, ys) && forall i :: i in xs <==> i in ys
    ensures xs == ys
  {
    hide Before;
    assert forall k :: 0 <= k < |xs| ==> xs[k] in xs;
    assert forall k :: 0 <= k < |ys| ==> ys[k] in ys;
    if xs != [] && ys != [] {
      Foremost(s, xs, ys);
      SameTail(s, xs, ys);
      RankingIsUnique(s, xs[1..], ys[1..]);
      assert xs == [xs[0]] + xs[1..] && ys == [ys[0]] + ys[1..];
    }
  }

  lemma Foremost(s: Providers, xs: seq<nat>, ys: seq<nat>)
    requires Ranked(s, xs) && Ranked(s, ys) && xs != [] && ys != [] && xs[0] in ys && ys[0] in xs
    ensures xs[0] == ys[0]
  {
    hide Before;
    var a :| 0 <= a < |ys| && ys[a] == xs[0];
    var b :| 0 <= b < |xs| && xs[b] == ys[0];
    BeforeIsTotal(s, xs[0], ys[0]);
  }

  lemma SameTail(s: Providers, xs: seq<nat>, ys: seq<nat>)
    requires Ranked(s, xs) && Ranked(s, ys) && xs != [] && ys != [] && xs[0] == ys[0]
    requires forall i :: i in xs <==> i in ys
    ensures forall i :: i in xs[1..] <==> i in ys[1..]
  {
    RankedTail(s, xs);
    RankedTail(s, ys);
  }

  lemma RankedTail(s: Providers, xs: seq<nat>)
    requires Ranked(s, xs) && xs != []
    ensures Ranked(s, xs[1..]) && forall i :: i in xs[1..] <==> i in xs && i != xs[0]
  {
    hide Before;
    forall i | i in xs[1..]
      ensures i != xs[0]
    {
      BeforeIsTotal(s, xs[0], xs[0]);
    }
    assert xs == [xs[0]] + xs[1..];
  }

  // ---------------------------------------------------------------- insertion sort

  /** Where a key of larger index than all others belongs among ranked candidates. */
  ghost predicate Splits(s: Providers, pre: seq<nat>, key: nat, at: nat) {
    && Ranked(s, pre) && key < |s| && at <= |pre|
    && (at > 0 ==> Before(s, pre[at - 1], key))
    && forall k :: at <= k < |pre| ==> Before(s, key, pre[k])
  }

  lemma InsertKeepsRanks(s: Providers, pre: seq<nat>, key: nat, at: nat)
    requires Splits(s, pre, key, at)
    ensures Ranked(s, pre[..at] + [key] + pre[at..])
    ensures forall i :: i in pre[..at] + [key] + pre[at..] <==> i in pre || i == key
  {
    hide Before;
    var xs := pre[..at] + [key] + pre[at..];
    forall a, b | 0 <= a < b < |xs|
      ensures Before(s, xs[a], xs[b])
    {
      if b == at && a < at - 1 {
        BeforeIsTransitive(s, pre[a], pre[at - 1], key);
      } else if a < at && b > at {
        assert xs[a] == pre[a] && xs[b] == pre[b - 1];
      } else if a > at {
        assert xs[a] == pre[a - 1] && xs[b] == pre[b - 1];
      }
    }
    assert pre == pre[..at] + pre[at..];
  }

  predicate ShouldShift(s: Providers, cur: nat, key: nat)
    requires cur < |s| && key < |s|
  {
    s[cur].score > s[key].score || (s[cur].score == s[key].score && Less(s[key].name, s[cur].name))
  }

  /** The comparison the loop makes decides the rank between a candidate and a later one. */
  lemma ShiftDecides(s: Providers, cur: nat, key: nat)
    requires cur < key < |s|
    ensures ShouldShift(s, cur, key) <==> Before(s, key, cur)
    ensures !ShouldShift(s, cur, key) <==> Before(s, cur, key)
  {
    LessIsTotal(s[cur].name, s[key].name);
  }

  /** One pass of the outer loop: the key moves down past every candidate it ranks before. */
  method InsertOne(s: Providers, candidates: array<nat>, i: nat) returns (ghost at: nat)
    requires i < candidates.Length && candidates[i] < |s|
    requires forall k :: 0 <= k < i ==> candidates[k] < candidates[i]
    modifies candidates
    ensures at <= i && forall k :: 0 <= k < at ==> candidates[k] == old(candidates[k])
    ensures candidates[at] == old(candidates[i])
    ensures forall k :: at < k <= i ==> candidates[k] == old(candidates[k - 1])
    ensures forall k :: i < k < candidates.Length ==> candidates[k] == old(candidates[k])
    ensures at > 0 ==> old(candidates[at - 1]) < |s| && Before(s, old(candidates[at - 1]), old(candidates[i]))
    ensures forall k :: at <= k < i ==> old(candidates[k]) < |s| && Before(s, old(candidates[i]), old(candidates[k]))
  {
    hide Before, ShouldShift;
    var key := candidates[i];
    var j: int := i as int - 1;
    while j >= 0
      invariant -1 <= j < i
      invariant forall k :: 0 <= k <= j ==> candidates[k] == old(candidates[k])
      invariant forall k :: j + 1 < k <= i ==> candidates[k] == old(candidates[k - 1])
      invariant forall k :: i < k < candidates.Length ==> candidates[k] == old(candidates[k])
      invariant forall k :: j < k < i ==> Before(s, key, old(candidates[k]))
    {
      ShiftDecides(s, candidates[j], key);
      if !ShouldShift(s, candidates[j], key) { break; }
      candidates[j + 1] := candidates[j];
      j := j - 1;
    }
    candidates[j + 1] := key;
    at := j + 1;
  }

  /** What one pass makes of the candidates sorted so far. */
  lemma PassKeepsRanks(s: Providers, was: seq<nat>, now: seq<nat>, i: nat, at: nat)
    requires |was| == |now| == i + 1 && Splits(s, was[..i], was[i], at)
    requires forall k :: 0 <= k < at ==> now[k] == was[k]
    requires now[at] == was[i] && forall k :: at < k <= i ==> now[k] == was[k - 1]
    ensures Ranked(s, now) && SameElements(now, was)
  {
    hide Before;
    InsertKeepsRanks(s, was[..i], was[i], at);
    assert now == was[..i][..at] + [was[i]] + was[..i][at..];
    assert was == was[..i] + [was[i]];
  }

  lemma AscendingPrefix(xs: seq<nat>, i: nat)
    requires i < |xs| && forall a, b :: 0 <= a < b < |xs| ==> xs[a] < xs[b]
    ensures forall x :: x in xs[..i] ==> x < xs[i]
    ensures xs[..i + 1] == xs[..i] + [xs[i]]
  {
  }

  method SortCandidates(s: Providers, candidates: array<nat>, n: nat)
    requires n <= candidates.Length && Within(s, candidates[..n])
    requires forall a, b :: 0 <= a < b < n ==> candidates[a] < candidates[b]
    modifies candidates
    ensures Ranked(s, candidates[..n]) && SameElements(candidates[..n], old(candidates[..n]))
  {
    hide Before, Less;
    ghost var was := candidates[..n];
    if n == 0 { return; }
    var i := 1;
    while i < n
      invariant 1 <= i <= n && candidates[i..n] == was[i..]
      invariant Ranked(s, candidates[..i]) && SameElements(candidates[..i], was[..i])
    {
      SortRound(s, candidates, n, i, was);
      i := i + 1;
    }
    assert was[..n] == was;
  }

  method SortRound(s: Providers, candidates: array<nat>, n: nat, i: nat, ghost was: seq<nat>)
    requires i < n <= candidates.Length && |was| == n && candidates[i..n] == was[i..] && Within(s, was)
    requires forall a, b :: 0 <= a < b < n ==> was[a] < was[b]
    requires Ranked(s, candidates[..i]) && SameElements(candidates[..i], was[..i])
    modifies candidates
    ensures candidates[i + 1..n] == was[i + 1..]
    ensures Ranked(s, candidates[..i + 1]) && SameElements(candidates[..i + 1], was[..i + 1])
  {
    hide Before, Ranked;
    AscendingPrefix(was, i);
    assert candidates[i] == candidates[i..n][0] == was[i];
    ghost var before := candidates[..i + 1];
    assert before[..i] == candidates[..i] && before == before[..i] + [was[i]];
    forall k | 0 <= k < i ensures candidates[k] < candidates[i] { assert candidates[..i][k] in candidates[..i]; }
    ghost var rest := candidates[i + 1..n];
    assert rest == candidates[i..n][1..] && was[i + 1..] == was[i..][1..];
    var at := InsertOne(s, candidates, i);
    forall k | i < k < n
      ensures candidates[k] == rest[k - i - 1]
    {
    }
    assert Splits(s, before[..i], before[i], at);
    PassKeepsRanks(s, before, candidates[..i + 1], i, at);
  }

  /** The candidates: the eligible providers in position order. */
  method Candidates(s: Providers, slot: string, host: Host) returns (candidates: array<nat>, n: nat)
    ensures fresh(candidates) && candidates.Length == MAX_MANIFESTS && n <= MAX_MANIFESTS
    ensures Within(s, candidates[..n]) && forall a, b :: 0 <= a < b < n ==> candidates[a] < candidates[b]
    ensures forall x :: x in candidates[..n] <==> Eligible(s, slot, host, x)
  {
    hide AllExist, Sortable, LoadOrder;
    candidates := new nat[MAX_MANIFESTS](_ => 0);
    n := 0;
    for i := 0 to |s|
      invariant n <= i && (forall a :: 0 <= a < n ==> candidates[a] < i)
      invariant forall a, b :: 0 <= a < b < n ==> candidates[a] < candidates[b]
      invariant forall x: nat :: x in candidates[..n] <==> x < i && Eligible(s, slot, host, x)
    {
      if Matches(s[i], slot, host) {
        var st, order := Resolve(s, [s[i].name]);
        if st == Resolved {
          candidates[n] := i;
          assert candidates[..n + 1] == candidates[..n] + [i];
          n := n + 1;
        }
      }
    }
  }

  /** The indices returned are the first of the one ranking of the eligible providers. */
  method RankAlternatives(s: Providers, slot: string, host: Host, outCap: nat) returns (out: seq<nat>)
    ensures exists all :: IsRanking(s, slot, host, all) && out == if |all| <= outCap then all else all[..outCap]
  {
    hide Eligible, Ranked, Within;
    var candidates, n := Candidates(s, slot, host);
    SortCandidates(s, candidates, n);
    ghost var all := candidates[..n];
    assert IsRanking(s, slot, host, all);
    out := candidates[..if n < outCap then n else outCap];
    assert out == if |all| <= outCap then all else all[..outCap];
  }
}
