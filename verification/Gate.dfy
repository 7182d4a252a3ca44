/** The publication gate's decisions: which results commit, and how ownership moves. */
module Gate {
  import opened Machine
  import WireResult

  const MAX_PIPELINES := 8
  const PIPELINE_ID_LEN := 32
  const DIGEST_LEN := 32
  /** Struct sizes on a platform with 8-byte alignment of 64-bit members. */
  const GATE_STATE_SIZE: u32 := 664
  const RESULT_SIZE: u32 := WireResult.RESULT_SIZE
  const RESULT_SCHEMA: u32 := 1

  const NONE: u32 := 0
  const A: u32 := 1
  const B: u32 := 2

  type Id = b: Bytes | |b| == PIPELINE_ID_LEN witness seq(PIPELINE_ID_LEN, _ => 0)
  type Digest = b: Bytes | |b| == DIGEST_LEN witness seq(DIGEST_LEN, _ => 0)

  datatype Pipeline = Pipeline(id: Id, hasCommitted: u32, last: u64, digest: Digest)

  /** The abstract value of the gate's state; `pipelines` are the slots in use. */
  datatype State = State(structSize: u32, schemaVersion: u32, epoch: u64, owner: u32, pipelines: seq<Pipeline>)

  /** What the gate looks at in a submitted result. `content` is the fingerprint
      over status, payload and covariance, which no decision depends on. */
  datatype Result = Result(structSize: u32, schemaVersion: u32, pipeline: Id, window: u64,
                           broker: u32, epoch: u64, validUntil: i64, content: Digest)

  datatype Outcome =
    | Commit
    | ShadowRecorded
    | NotOwner
    | StaleEpoch
    | DuplicateWindow
    | Expired
    | Incompatible
    | NoCapacity

  // -------------------------------------------------------------- specification

  /** Slot of a pipeline: the first with that id, or one past the end. */
  function Slot(ps: seq<Pipeline>, id: Id): (k: nat)
    ensures k <= |ps|
    ensures k < |ps| ==> ps[k].id == id
    ensures forall i :: 0 <= i < k ==> ps[i].id != id
  {
    if ps == [] then 0 else if ps[0].id == id then 0 else 1 + Slot(ps[1..], id)
  }

  function Fresh(id: Id): Pipeline {
    Pipeline(id, 0, 0, seq(DIGEST_LEN, _ => 0))
  }

  predicate Compatible(r: Result) {
    r.structSize == RESULT_SIZE && r.schemaVersion == RESULT_SCHEMA
  }

  /** The state once the result's pipeline has a slot. */
  function Registered(s: State, r: Result): State {
    if Slot(s.pipelines, r.pipeline) < |s.pipelines| then s
    else s.(pipelines := s.pipelines + [Fresh(r.pipeline)])
  }

  function Decide(s: State, r: Result, now: i64): (Outcome, State) {
    if !Compatible(r) then (Incompatible, s)
    else if r.validUntil <= now then (Expired, s)
    else if Slot(s.pipelines, r.pipeline) == |s.pipelines| >= MAX_PIPELINES then (NoCapacity, s)
    else
      RegisteredHasSlot(s, r);
      DecideOwned(Registered(s, r), r)
  }

  lemma RegisteredHasSlot(s: State, r: Result)
    ensures var t := Registered(s, r); Slot(t.pipelines, r.pipeline) < |t.pipelines|
  {
    if Slot(s.pipelines, r.pipeline) == |s.pipelines| {
      SlotIs(Registered(s, r).pipelines, r.pipeline, |s.pipelines|);
    }
  }

  /** The decision once the pipeline has a slot. */
  function DecideOwned(s: State, r: Result): (Outcome, State)
    requires Slot(s.pipelines, r.pipeline) < |s.pipelines|
  {
    var k := Slot(s.pipelines, r.pipeline);
    if s.owner == NONE then (NotOwner, s)
    else if r.broker != s.owner then (if r.epoch < s.epoch then StaleEpoch else ShadowRecorded, s)
    else if r.epoch != s.epoch then (StaleEpoch, s)
    else
      var p := s.pipelines[k];
      if p.hasCommitted != 0 && r.window <= p.last then (DuplicateWindow, s)
      else (Commit, s.(pipelines := s.pipelines[k := Pipeline(p.id, 1, r.window, r.content)]))
  }

  /** The committed high-water mark of a pipeline: the reference view of the slots. */
  function High(s: State, id: Id): Option<u64> {
    var k := Slot(s.pipelines, id);
    if k < |s.pipelines| && s.pipelines[k].hasCommitted != 0 then Some(s.pipelines[k].last) else None
  }

  /** Whether a window lies above a high-water mark. */
  predicate Above(w: u64, h: Option<u64>) {
    h.Some? ==> h.value < w
  }

  lemma SlotIs(ps: seq<Pipeline>, id: Id, k: nat)
    requires k <= |ps| && (k < |ps| ==> ps[k].id == id) && forall i :: 0 <= i < k ==> ps[i].id != id
    ensures Slot(ps, id) == k
  {
  }

  /** A result commits exactly when it is compatible, unexpired, from the owner, at
      the current epoch, for a pipeline with a slot or room for one, and above the
      pipeline's mark. */
  lemma CommitIff(s: State, r: Result, now: i64)
    ensures Decide(s, r, now).0 == Commit <==>
            && Compatible(r) && now < r.validUntil
            && s.owner != NONE && r.broker == s.owner && r.epoch == s.epoch
            && (Slot(s.pipelines, r.pipeline) < |s.pipelines| || |s.pipelines| < MAX_PIPELINES)
            && Above(r.window, High(s, r.pipeline))
  {
    RegisteredSlot(s, r);
  }

  /** A result that is compatible and unexpired, and whose pipeline has a slot or finds room. */
  predicate Live(s: State, r: Result, now: i64) {
    && r.structSize == RESULT_SIZE && r.schemaVersion == RESULT_SCHEMA && now < r.validUntil
    && ((exists i :: 0 <= i < |s.pipelines| && s.pipelines[i].id == r.pipeline) || |s.pipelines| < MAX_PIPELINES)
  }

  /** Exactly when each outcome is given. */
  lemma OutcomeIff(s: State, r: Result, now: i64)
    ensures var (o, live) := (Decide(s, r, now).0, Live(s, r, now));
            var compatible := r.structSize == RESULT_SIZE && r.schemaVersion == RESULT_SCHEMA;
            && (o == Incompatible <==> !compatible)
            && (o == Expired <==> compatible && r.validUntil <= now)
            && (o == NoCapacity <==> compatible && now < r.validUntil && !live)
            && (o == NotOwner <==> live && s.owner == NONE)
            && (o == StaleEpoch <==>
                live && s.owner != NONE && r.epoch != s.epoch && (r.broker == s.owner || r.epoch < s.epoch))
            && (o == ShadowRecorded <==> live && s.owner != NONE && r.broker != s.owner && s.epoch <= r.epoch)
            && (o == DuplicateWindow <==>
                && live && s.owner != NONE && r.broker == s.owner && r.epoch == s.epoch
                && High(s, r.pipeline).Some? && r.window <= High(s, r.pipeline).value)
            && (o == Commit <==>
                && live && s.owner != NONE && r.broker == s.owner && r.epoch == s.epoch
                && (High(s, r.pipeline).Some? ==> High(s, r.pipeline).value < r.window))
  {
    RegisteredSlot(s, r);
    SlotExists(s.pipelines, r.pipeline);
  }

  lemma {:induction false} SlotExists(ps: seq<Pipeline>, id: Id)
    ensures Slot(ps, id) < |ps| <==> exists i :: 0 <= i < |ps| && ps[i].id == id
  {
    var k := Slot(ps, id);
    if k < |ps| { assert ps[k].id == id; }
  }

  lemma RegisteredSlot(s: State, r: Result)
    ensures var t := Registered(s, r);
            && Slot(t.pipelines, r.pipeline) == Slot(s.pipelines, r.pipeline) < |t.pipelines|
            && forall id: Id :: High(t, id) == High(s, id)
  {
    var t := Registered(s, r);
    var k := Slot(s.pipelines, r.pipeline);
    SlotIs(t.pipelines, r.pipeline, k);
    if k == |s.pipelines| {
      forall id: Id
        ensures High(t, id) == High(s, id)
      {
        var j := Slot(s.pipelines, id);
        if j < |s.pipelines| {
          SlotIs(t.pipelines, id, j);
        } else if id == r.pipeline {
          SlotIs(t.pipelines, id, |s.pipelines|);
        } else {
          SlotIs(t.pipelines, id, |s.pipelines| + 1);
        }
      }
    }
  }

  /** What a decision does to the reference view: a commit moves exactly its own
      pipeline's mark to its window, nothing else moves any mark, and neither epoch
      nor owner ever changes. */
  lemma DecideMarks(s: State, r: Result, now: i64)
    ensures var (o, t) := Decide(s, r, now);
            && t.epoch == s.epoch && t.owner == s.owner
            && t.structSize == s.structSize && t.schemaVersion == s.schemaVersion
            && (|s.pipelines| <= MAX_PIPELINES ==> |t.pipelines| <= MAX_PIPELINES)
            && (forall id: Id :: High(t, id) == if o == Commit && id == r.pipeline then Some(r.window) else High(s, id))
  {
    RegisteredSlot(s, r);
    hide Slot, High;
    if Decide(s, r, now).0 == Commit {
      CommitMarks(Registered(s, r), r);
    }
  }

  lemma CommitMarks(m: State, r: Result)
    requires Slot(m.pipelines, r.pipeline) < |m.pipelines| && DecideOwned(m, r).0 == Commit
    ensures var t := DecideOwned(m, r).1;
            forall id: Id :: High(t, id) == if id == r.pipeline then Some(r.window) else High(m, id)
  {
    var t := DecideOwned(m, r).1;
    forall id: Id
      ensures High(t, id) == if id == r.pipeline then Some(r.window) else High(m, id)
    {
      SlotIs(t.pipelines, id, Slot(m.pipelines, id));
    }
  }

  /** A commit leaves its window and its digest in its pipeline's slot, and every other slot as it was. */
  lemma CommitFillsSlot(s: State, r: Result, now: i64)
    requires Decide(s, r, now).0 == Commit
    ensures var (t, k) := (Decide(s, r, now).1, Slot(s.pipelines, r.pipeline));
            && k < |t.pipelines| && t.pipelines[k].id == r.pipeline && t.pipelines[k].hasCommitted == 1
            && t.pipelines[k].last == r.window && t.pipelines[k].digest == r.content
            && (forall i :: 0 <= i < |s.pipelines| && i != k ==> t.pipelines[i] == s.pipelines[i])
            && |t.pipelines| == if k < |s.pipelines| then |s.pipelines| else |s.pipelines| + 1
  {
    RegisteredSlot(s, r);
  }

  // ------------------------------------------------------------------- promotion

  function Promoted(s: State, broker: u32): State {
    s.(epoch := (s.epoch + 1) % TWO_64, owner := broker)
  }

  /** After a promotion no result stamped with an epoch from before it commits, unless the
      64-bit counter wraps: then those stamped 0 do, if nothing else stands against them. */
  lemma PromotionFencesUnlessWrapped(s: State, broker: u32, r: Result, now: i64)
    requires r.epoch <= s.epoch
    ensures var t := Promoted(s, broker);
            Decide(t, r, now).0 == Commit <==>
            && s.epoch == TWO_64 - 1 && r.epoch == 0
            && Compatible(r) && now < r.validUntil && broker != NONE && r.broker == broker
            && (Slot(s.pipelines, r.pipeline) < |s.pipelines| || |s.pipelines| < MAX_PIPELINES)
            && Above(r.window, High(s, r.pipeline))
  {
    CommitIff(Promoted(s, broker), r, now);
  }

  /** An otherwise acceptable result for a window at or below the pipeline's mark is a
      duplicate and changes nothing: windows that begin again are refused up to the mark. */
  lemma RepeatedWindowRefused(s: State, r: Result, now: i64)
    requires Compatible(r) && now < r.validUntil && s.owner != NONE && r.broker == s.owner && r.epoch == s.epoch
    requires High(s, r.pipeline).Some?
    ensures Decide(s, r, now).0 == if r.window <= High(s, r.pipeline).value then DuplicateWindow else Commit
    ensures r.window <= High(s, r.pipeline).value ==> Decide(s, r, now).1 == s
  {
  }

  datatype Readiness = Readiness(healthy: u32, configDigest: Digest, checkpointSchema: u32, lastProcessed: u64)
  datatype Requirements = Requirements(configDigest: Digest, checkpointSchema: u32, maxReplayGap: u64)

  /** The readiness test, with the 64-bit sum as the code computes it. */
  predicate ShadowPromotable(sh: Readiness, req: Requirements, highWater: u64) {
    && sh.healthy != 0
    && sh.configDigest == req.configDigest
    && sh.checkpointSchema == req.checkpointSchema
    && !((sh.lastProcessed + req.maxReplayGap) % TWO_64 < highWater)
  }

  /** The documented test, over the integers. */
  predicate Ready(sh: Readiness, req: Requirements, highWater: u64) {
    && sh.healthy != 0
    && sh.configDigest == req.configDigest
    && sh.checkpointSchema == req.checkpointSchema
    && highWater - sh.lastProcessed <= req.maxReplayGap
  }

  /** The code's test implies the documented one, and differs from it exactly when
      the sum wraps below the high-water mark. */
  lemma PromotableVersusReady(sh: Readiness, req: Requirements, highWater: u64)
    ensures ShadowPromotable(sh, req, highWater) ==> Ready(sh, req, highWater)
    ensures Ready(sh, req, highWater) && !ShadowPromotable(sh, req, highWater) <==>
            && Ready(sh, req, highWater)
            && sh.lastProcessed + req.maxReplayGap >= TWO_64
            && sh.lastProcessed + req.maxReplayGap - TWO_64 < highWater
  {
  }

  /** The smallest case in which the wrapped sum refuses a shadow that is ready. */
  lemma WrappedGapRefusesAReadyShadow(d: Digest)
    ensures var (sh, req) := (Readiness(1, d, 1, 1), Requirements(d, 1, TWO_64 - 1));
            Ready(sh, req, 1) && !ShadowPromotable(sh, req, 1)
  {
  }

  // ------------------------------------------------------------- the state in place

  class GateState {
    var structSize: u32
    var schemaVersion: u32
    var epoch: u64
    var owner: u32
    var pipelines: seq<Pipeline>

    ghost function Value(): State
      reads this
    {
      State(structSize, schemaVersion, epoch, owner, pipelines)
    }

    constructor ()
      ensures Value() == State(0, 0, 0, NONE, [])
    {
      structSize, schemaVersion, epoch, owner, pipelines := 0, 0, 0, NONE, [];
    }

    /** The first slot of a pipeline, or the array's size. */
    method FindSlot(id: Id) returns (index: nat)
      requires |pipelines| <= MAX_PIPELINES
      ensures index == if Slot(pipelines, id) < |pipelines| then Slot(pipelines, id) else MAX_PIPELINES
    {
      for i := 0 to |pipelines|
        invariant forall k :: 0 <= k < i ==> pipelines[k].id != id
      {
        if pipelines[i].id == id {
          SlotIs(pipelines, id, i);
          return i;
        }
      }
      SlotIs(pipelines, id, |pipelines|);
      return MAX_PIPELINES;
    }

    method DecidePublish(r: Result, now: i64) returns (outcome: Outcome, index: nat)
      requires |pipelines| <= MAX_PIPELINES
      modifies this
      ensures (outcome, Value()) == Decide(old(Value()), r, now)
      ensures outcome !in {Incompatible, Expired, NoCapacity} ==> index == Slot(pipelines, r.pipeline) < |pipelines|
    {
      index := 0;
      if r.structSize != RESULT_SIZE || r.schemaVersion != RESULT_SCHEMA { return Incompatible, index; }
      if r.validUntil <= now { return Expired, index; }
      ghost var before := Value();
      index := FindSlot(r.pipeline);
      if index == MAX_PIPELINES {
        if |pipelines| >= MAX_PIPELINES { return NoCapacity, index; }
        index := |pipelines|;
        pipelines := pipelines + [Pipeline(r.pipeline, 0, 0, seq(DIGEST_LEN, _ => 0))];
      }
      assert Value() == Registered(before, r);
      SlotIs(pipelines, r.pipeline, index);
      if owner == NONE { return NotOwner, index; }
      if r.broker != owner {
        if r.epoch < epoch { return StaleEpoch, index; }
        return ShadowRecorded, index;
      }
      if r.epoch != epoch { return StaleEpoch, index; }
      var p := pipelines[index];
      if p.hasCommitted != 0 && r.window <= p.last { return DuplicateWindow, index; }
      pipelines := pipelines[index := p.(hasCommitted := 1, last := r.window, digest := r.content)];
      SlotIs(pipelines, r.pipeline, index);
      return Commit, index;
    }

    method Promote(broker: u32) returns (newEpoch: u64)
      modifies this
      ensures Value() == Promoted(old(Value()), broker) && newEpoch == epoch
    {
      newEpoch := (epoch + 1) % TWO_64;
      owner := NONE;
      epoch := newEpoch;
      owner := broker;
    }

    /** The largest mark over all slots. */
    method HighWater() returns (h: u64)
      ensures h == MaxLast(pipelines)
    {
      h := 0;
      for i := 0 to |pipelines|
        invariant h == MaxLast(pipelines[..i])
      {
        assert pipelines[..i + 1][..i] == pipelines[..i];
        if pipelines[i].last > h { h := pipelines[i].last; }
      }
      assert pipelines[..|pipelines|] == pipelines;
    }
  }

  function MaxLast(ps: seq<Pipeline>): u64 {
    if ps == [] then 0
    else
      var m := MaxLast(ps[..|ps| - 1]);
      if ps[|ps| - 1].last > m then ps[|ps| - 1].last else m
  }

  /** The gate-wide high-water mark is some pipeline's, or 0 without pipelines. */
  lemma {:induction false} MaxIsSomeMark(ps: seq<Pipeline>)
    ensures ps == [] ==> MaxLast(ps) == 0
    ensures ps != [] ==> exists i :: 0 <= i < |ps| && ps[i].last == MaxLast(ps)
  {
    if ps != [] {
      var (n, front) := (|ps| - 1, ps[..|ps| - 1]);
      MaxIsSomeMark(front);
      if MaxLast(ps) == ps[n].last {
        assert ps[n].last == MaxLast(ps);
      } else if front != [] {
        var i :| 0 <= i < |front| && front[i].last == MaxLast(front);
        assert ps[i].last == MaxLast(ps);
      }
    }
  }

  /** Every pipeline's mark is at most the gate-wide high-water mark. */
  lemma {:induction false} MarksBelowMax(ps: seq<Pipeline>, i: nat)
    requires i < |ps|
    ensures ps[i].last <= MaxLast(ps)
  {
    if i < |ps| - 1 {
      MarksBelowMax(ps[..|ps| - 1], i);
    }
  }
}
