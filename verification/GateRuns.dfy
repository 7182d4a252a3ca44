/** Whole runs of the gate process: any sequence of heartbeats, publishes and
    crash-restarts, each persist succeeding or failing. */
module GateRuns {
  import opened Machine
  import opened Gate
  import opened GateRecord
  import opened GateProcess

  datatype Ack = Ack(pipeline: Id, window: u64, epoch: u64, broker: u32)
  datatype Grant = Grant(epoch: u64, broker: u32)

  /** The owner an epoch number stands for. */
  function OwnerOfEpoch(epoch: u64): u32 {
    if epoch == 0 then NONE else if epoch % 2 == 1 then A else B
  }

  /** The state a restart would recover. */
  ghost function Durable(w: World): State {
    Restarted(w).state
  }

  ghost predicate AtMost(x: Option<u64>, y: Option<u64>) {
    x.Some? ==> y.Some? && x.value <= y.value
  }

  /** `m` has gone at least as far as `d`: in epochs and on every pipeline. */
  ghost predicate Dominates(m: State, d: State) {
    m.epoch >= d.epoch && forall id: Id :: AtMost(High(d, id), High(m, id))
  }

  ghost predicate GoodState(s: State) {
    && |s.pipelines| <= MAX_PIPELINES
    && s.structSize == GATE_STATE_SIZE && s.schemaVersion == 1
    && s.owner == OwnerOfEpoch(s.epoch)
  }

  ghost predicate Sound(w: World) {
    && w.up && Restarted(w).up
    && GoodState(w.state) && GoodState(Durable(w))
    && Dominates(w.state, Durable(w))
  }

  lemma DominatesTransitive(a: State, b: State, c: State)
    requires Dominates(a, b) && Dominates(b, c)
    ensures Dominates(a, c)
  {
    forall id: Id
      ensures AtMost(High(c, id), High(a, id))
    {
      assert AtMost(High(c, id), High(b, id)) && AtMost(High(b, id), High(a, id));
    }
  }

  /** What was persisted is what a restart recovers. */
  lemma PersistedIsRecovered(w: World)
    requires GoodState(w.state)
    ensures var p := Persisted(w, true); Restarted(p).up && Durable(p) == w.state
  {
    LoadOfRecord(w.state, []);
    assert Record(w.state) + [] == Record(w.state);
  }

  /** Replacing the state by one that has gone further, persisted or not, stays sound. */
  lemma AdvanceSound(w: World, s: State, disk: bool)
    requires Sound(w) && GoodState(s) && Dominates(s, w.state)
    ensures var p := Persisted(w.(state := s), disk);
            Sound(p) && p.state == s && Durable(p) == if disk then s else Durable(w)
  {
    hide High, Load, Record;
    DominatesTransitive(s, w.state, Durable(w));
    if disk {
      PersistedIsRecovered(w.(state := s));
    }
  }

  lemma PromotedGood(s: State, broker: u32)
    requires GoodState(s) && s.epoch < TWO_64 - 1
    requires broker == if s.owner == NONE then A else Other(s.owner)
    ensures GoodState(Promoted(s, broker)) && Dominates(Promoted(s, broker), s)
  {
    forall id: Id
      ensures High(Promoted(s, broker), id) == High(s, id)
    {
    }
  }

  lemma EvaluatedSound(c: Config, w: World, now: Time, disk: bool)
    requires Sound(w) && w.state.epoch < TWO_64 - 1
    ensures var e := Evaluated(c, w, now, disk);
            && Sound(e) && Dominates(e.state, w.state) && e.state.epoch <= w.state.epoch + 1
            && Dominates(Durable(e), Durable(w))
  {
    hide High, Load, Record;
    var b := Candidate(c, w, now);
    if b.Some? {
      PromotedGood(w.state, b.value);
      AdvanceSound(w, Promoted(w.state, b.value), disk);
      DominatesTransitive(Promoted(w.state, b.value), w.state, Durable(w));
    }
  }

  lemma PublishSound(w: World, r: Result, now: Time, disk: bool)
    requires Sound(w)
    ensures var p := AfterPublish(w, r, now, disk);
            && Sound(p) && Dominates(p.state, w.state) && p.state.epoch == w.state.epoch
            && Dominates(Durable(p), Durable(w))
            && (Accepted(w, r, now, disk) ==> Durable(p) == Decide(w.state, r, now).1)
  {
    DecideMarks(w.state, r, now);
    CommitIff(w.state, r, now);
    hide High, Decide, Load, Record;
    var (o, t) := Decide(w.state, r, now);
    assert Dominates(t, w.state);
    AdvanceSound(w, t, o == Commit && disk);
    DominatesTransitive(t, w.state, Durable(w));
  }

  /** Every step keeps soundness, takes the durable state only forward, raises the
      epoch by at most one, and takes the in-memory state forward unless it restarts. */
  lemma StepSound(c: Config, w: World, e: Event)
    requires Sound(w) && w.state.epoch < TWO_64 - 1
    ensures var s := Step(c, w, e);
            && Sound(s) && s.state.epoch <= w.state.epoch + 1
            && Dominates(Durable(s), Durable(w)) && (e.Restart? || Dominates(s.state, w.state))
  {
    hide High, Load, Record, Evaluated, AfterPublish, GoodState;
    match e
    case Restart =>
    case Publish(r, now, disk) =>
      PublishSound(w, r, now, disk);
    case Heartbeat(hb, now, disk) =>
      if hb.broker == A || hb.broker == B {
        EvaluatedSound(c, Heard(w, hb, now), now, disk);
      }
  }

  // ------------------------------------------------------------------------ runs

  /** The world after a run from a fresh deployment. The bound keeps the 64-bit epoch from wrapping. */
  ghost function RunOf(c: Config, es: seq<Event>): (w: World)
    requires |es| < TWO_64 - 1
    ensures Sound(w) && w.state.epoch <= |es|
  {
    if es == [] then Deployed()
    else
      var w := RunOf(c, es[..|es| - 1]);
      StepSound(c, w, es[|es| - 1]);
      Step(c, w, es[|es| - 1])
  }

  ghost function AckOf(w: World, e: Event): seq<Ack> {
    if e.Publish? && Accepted(w, e.result, e.now, e.disk)
    then [Ack(e.result.pipeline, e.result.window, e.result.epoch, e.result.broker)] else []
  }

  /** The commits acknowledged as accepted, oldest first. */
  ghost function Acks(c: Config, es: seq<Event>): seq<Ack>
    requires |es| < TWO_64 - 1
  {
    if es == [] then []
    else Acks(c, es[..|es| - 1]) + AckOf(RunOf(c, es[..|es| - 1]), es[|es| - 1])
  }

  ghost function GrantOf(c: Config, w: World, e: Event): seq<Grant>
    requires Sane(w)
  {
    var s := Step(c, w, e).state;
    if e.Heartbeat? && s.epoch != w.state.epoch then [Grant(s.epoch, s.owner)] else []
  }

  /** Every grant of an epoch, whether or not it reached the disk. */
  ghost function Grants(c: Config, es: seq<Event>): seq<Grant>
    requires |es| < TWO_64 - 1
  {
    if es == [] then []
    else Grants(c, es[..|es| - 1]) + GrantOf(c, RunOf(c, es[..|es| - 1]), es[|es| - 1])
  }

  /** The durable state shows an acknowledged commit. */
  ghost predicate Covers(d: State, a: Ack) {
    High(d, a.pipeline).Some? && a.window <= High(d, a.pipeline).value && a.epoch <= d.epoch
  }

  lemma {:induction false} AcksCovered(c: Config, es: seq<Event>)
    requires |es| < TWO_64 - 1
    ensures forall a :: a in Acks(c, es) ==> Covers(Durable(RunOf(c, es)), a)
  {
    if es != [] {
      var (front, e) := (es[..|es| - 1], es[|es| - 1]);
      var w := RunOf(c, front);
      RunStep(c, es);
      hide *;
      AcksCovered(c, front);
      StepSound(c, w, e);
      AckIsCovered(c, w, e);
      CoversMore(Acks(c, front), AckOf(w, e), Durable(w), Durable(Step(c, w, e)));
    }
  }

  lemma CoversMore(acks: seq<Ack>, more: seq<Ack>, d0: State, d1: State)
    requires Dominates(d1, d0) && (forall a :: a in acks ==> Covers(d0, a)) && forall a :: a in more ==> Covers(d1, a)
    ensures forall a :: a in acks + more ==> Covers(d1, a)
  {
    forall a | a in acks
      ensures Covers(d1, a)
    {
      CoversStays(d0, d1, a);
    }
  }

  lemma RunStep(c: Config, es: seq<Event>)
    requires 0 < |es| < TWO_64 - 1
    ensures var (front, e) := (es[..|es| - 1], es[|es| - 1]);
            && RunOf(c, es) == Step(c, RunOf(c, front), e)
            && Acks(c, es) == Acks(c, front) + AckOf(RunOf(c, front), e)
  {
    hide Step, AckOf, Sound;
  }

  lemma CoversStays(d0: State, d1: State, a: Ack)
    requires Dominates(d1, d0) && Covers(d0, a)
    ensures Covers(d1, a)
  {
    hide High;
    assert AtMost(High(d0, a.pipeline), High(d1, a.pipeline));
  }

  lemma AckIsCovered(c: Config, w: World, e: Event)
    requires Sound(w)
    ensures forall a :: a in AckOf(w, e) ==> Covers(Durable(Step(c, w, e)), a)
  {
    if e.Publish? && Accepted(w, e.result, e.now, e.disk) {
      PublishSound(w, e.result, e.now, e.disk);
      DecideMarks(w.state, e.result, e.now);
      CommitIff(w.state, e.result, e.now);
      hide High, Durable, Decide, Sound;
    }
  }

  /** A result that commits next, persisted or not, is stamped with an epoch no
      acknowledged commit exceeds, and lies above every acknowledged window of its pipeline. */
  lemma CommitsAreFenced(c: Config, es: seq<Event>, r: Result, now: Time)
    requires |es| < TWO_64 - 1
    requires Decide(RunOf(c, es).state, r, now).0 == Commit
    ensures forall a :: a in Acks(c, es) ==> a.epoch <= r.epoch
    ensures forall a :: a in Acks(c, es) && a.pipeline == r.pipeline ==> a.window < r.window
    ensures r.broker == OwnerOfEpoch(r.epoch)
  {
    var w := RunOf(c, es);
    AcksCovered(c, es);
    CommitIff(w.state, r, now);
    hide High, Durable, Decide, RunOf, Acks;
    forall a | a in Acks(c, es)
      ensures a.epoch <= r.epoch && (a.pipeline == r.pipeline ==> a.window < r.window)
    {
      assert Covers(Durable(w), a);
      assert AtMost(High(Durable(w), a.pipeline), High(w.state, a.pipeline));
    }
  }

  /** Over every run, acknowledged commits of one pipeline have strictly increasing
      windows, all acknowledged commits have non-decreasing epochs, and each comes
      from the broker its epoch belongs to. */
  lemma {:induction false} AcksAreOrdered(c: Config, es: seq<Event>, i: nat, j: nat)
    requires |es| < TWO_64 - 1 && i < j < |Acks(c, es)|
    ensures var (a, b) := (Acks(c, es)[i], Acks(c, es)[j]);
            && a.epoch <= b.epoch
            && (a.pipeline == b.pipeline ==> a.window < b.window)
            && b.broker == OwnerOfEpoch(b.epoch)
  {
    var (front, e) := (es[..|es| - 1], es[|es| - 1]);
    var acks := Acks(c, front);
    if j < |acks| {
      AcksAreOrdered(c, front, i, j);
    } else {
      assert Acks(c, es) == acks + AckOf(RunOf(c, front), e);
      hide Acks, RunOf, Decide;
      CommitsAreFenced(c, front, e.result, e.now);
      assert acks[i] in acks;
    }
  }

  /** So no window of a pipeline is acknowledged twice. */
  lemma NoWindowAcknowledgedTwice(c: Config, es: seq<Event>, i: nat, j: nat)
    requires |es| < TWO_64 - 1 && i < |Acks(c, es)| && j < |Acks(c, es)|
    requires Acks(c, es)[i].pipeline == Acks(c, es)[j].pipeline && Acks(c, es)[i].window == Acks(c, es)[j].window
    ensures i == j
  {
    if i < j {
      AcksAreOrdered(c, es, i, j);
    } else if j < i {
      AcksAreOrdered(c, es, j, i);
    }
  }

  /** An epoch number determines who it is granted to, over all runs. Grants lost with a
      failed persist may be repeated after a restart, but never to the other broker. */
  lemma {:induction false} GrantsFollowParity(c: Config, es: seq<Event>)
    requires |es| < TWO_64 - 1
    ensures forall g :: g in Grants(c, es) ==> g.epoch > 0 && g.broker == OwnerOfEpoch(g.epoch)
  {
    if es != [] {
      var (front, e) := (es[..|es| - 1], es[|es| - 1]);
      GrantsFollowParity(c, front);
      var w := RunOf(c, front);
      StepSound(c, w, e);
      assert GoodState(Step(c, w, e).state);
    }
  }

  /** The process never refuses its own state file. */
  lemma RestartAlwaysSucceeds(c: Config, es: seq<Event>)
    requires |es| < TWO_64 - 1
    ensures Restarted(RunOf(c, es)).up && RunOf(c, es).up
  {
  }

  /** A single-broker history: the same grant twice, to the same broker, because the
      first was never persisted. */
  lemma LostGrantIsRepeated(c: Config, now: Time)
    ensures var beat := Heartbeat(HeartbeatMsg(A, Readiness(1, seq(DIGEST_LEN, _ => 0), 1, 0)), now, false);
            Grants(c, [beat, Restart, beat]) == [Grant(1, A), Grant(1, A)]
  {
    hide Load, Record;
    var beat := Heartbeat(HeartbeatMsg(A, Readiness(1, seq(DIGEST_LEN, _ => 0), 1, 0)), now, false);
    var es := [beat, Restart, beat];
    assert es[..2] == [beat, Restart] && es[..2][..1] == [beat] && es[..2][..1][..0] == [];
    assert RunOf(c, []) == Deployed();
    var w1 := RunOf(c, [beat]);
    assert [beat][..0] == [];
    assert w1.state.epoch == 1 && w1.state.owner == A && w1.file == None;
    assert Grants(c, [beat]) == [Grant(1, A)];
    var w2 := RunOf(c, [beat, Restart]);
    assert [beat, Restart][..1] == [beat];
    assert w2 == Deployed();
    assert Grants(c, [beat, Restart]) == [Grant(1, A)];
  }

  // ------------------------------------------------------- when ownership may move

  /** The last heartbeat of a broker since the process last started was event `i`. */
  ghost predicate LastHeardAt(es: seq<Event>, broker: u32, i: nat) {
    && i < |es| && es[i].Heartbeat? && es[i].hb.broker == broker
    && forall k :: i < k < |es| ==> !es[k].Restart? && !(es[k].Heartbeat? && es[k].hb.broker == broker)
  }

  /** That heartbeat is what the gate's view of the broker shows. */
  ghost predicate Shows(es: seq<Event>, broker: u32, i: nat, v: View) {
    LastHeardAt(es, broker, i) && v == View(true, es[i].hb.readiness, es[i].now)
  }

  lemma StepView(c: Config, w: World, e: Event, broker: u32)
    requires Sane(w) && w.up && (broker == A || broker == B)
    ensures var v := ViewOf(Step(c, w, e), broker);
            if e.Heartbeat? && e.hb.broker == broker then v == View(true, e.hb.readiness, e.now)
            else if e.Restart? then !v.known
            else v == ViewOf(w, broker)
  {
    hide Load, Record, Decide;
  }

  lemma StillLast(front: seq<Event>, e: Event, broker: u32, i: nat, v: View)
    requires Shows(front, broker, i, v) && !e.Restart? && !(e.Heartbeat? && e.hb.broker == broker)
    ensures Shows(front + [e], broker, i, v)
  {
    assert forall k :: 0 <= k < |front| ==> (front + [e])[k] == front[k];
  }

  lemma {:induction false} ViewTracks(c: Config, es: seq<Event>, broker: u32) returns (i: nat)
    requires |es| < TWO_64 - 1 && (broker == A || broker == B)
    requires ViewOf(RunOf(c, es), broker).known
    ensures Shows(es, broker, i, ViewOf(RunOf(c, es), broker))
  {
    hide Step, Sound, GoodState, Shows;
    var (front, e) := (es[..|es| - 1], es[|es| - 1]);
    assert es == front + [e];
    var w := RunOf(c, front);
    StepView(c, w, e, broker) by { RunSane(c, front); }
    if e.Heartbeat? && e.hb.broker == broker {
      i := |es| - 1;
      JustHeard(es, broker);
    } else {
      i := ViewTracks(c, front, broker);
      StillLast(front, e, broker, i, ViewOf(w, broker));
    }
  }

  lemma JustHeard(es: seq<Event>, broker: u32)
    requires es != [] && es[|es| - 1].Heartbeat? && es[|es| - 1].hb.broker == broker
    ensures var e := es[|es| - 1]; Shows(es, broker, |es| - 1, View(true, e.hb.readiness, e.now))
  {
  }

  lemma RunSane(c: Config, es: seq<Event>)
    requires |es| < TWO_64 - 1
    ensures Sane(RunOf(c, es)) && RunOf(c, es).up
  {
  }

  /** The heartbeat `e`, arriving after run `es`, replaces an owner. */
  ghost predicate Replaces(c: Config, es: seq<Event>, e: Event)
    requires |es| < TWO_64 - 1
  {
    && e.Heartbeat? && RunOf(c, es).state.owner != NONE
    && Step(c, RunOf(c, es), e).state.owner != RunOf(c, es).state.owner
  }

  /** The replacement was triggered by the promoted broker itself, the old owner was heard in
      this process life and then silent longer than the timeout, and the documented readiness
      conditions hold over the integers. */
  ghost predicate Justified(c: Config, es: seq<Event>, e: Event)
    requires |es| < TWO_64 - 1 && Replaces(c, es, e)
  {
    var w := RunOf(c, es);
    var s := Step(c, w, e).state;
    && e.hb.broker == s.owner == Other(w.state.owner)
    && s.epoch == w.state.epoch + 1
    && Ready(e.hb.readiness, c.requirements, MaxLast(w.state.pipelines))
    && exists i: nat :: LastHeardAt(es, w.state.owner, i) && e.now - es[i].now > c.confirmTimeout
  }

  /** With a nonnegative timeout, a promotion that replaces an owner is triggered by
      a heartbeat of the broker being promoted, comes only after the old owner was
      heard in this process life and then stayed silent longer than the timeout, and
      meets the documented readiness conditions over the integers. */
  lemma ReplacementIsJustified(c: Config, es: seq<Event>, e: Event)
    requires |es| < TWO_64 - 1 && c.confirmTimeout >= 0 && Replaces(c, es, e)
    ensures Justified(c, es, e)
  {
    hide Record, Load, RunOf;
    var w := RunOf(c, es);
    RunSane(c, es);
    ReplacementStep(c, w, e);
    var i := ViewTracks(c, es, w.state.owner);
    assert LastHeardAt(es, w.state.owner, i);
  }

  /** One step that replaces an owner, in terms of the gate's views. */
  lemma ReplacementStep(c: Config, w: World, e: Event)
    requires Sound(w) && w.state.epoch < TWO_64 - 1 && c.confirmTimeout >= 0
    requires e.Heartbeat? && w.state.owner != NONE && Step(c, w, e).state.owner != w.state.owner
    ensures var s := Step(c, w, e).state;
            && e.hb.broker == s.owner == Other(w.state.owner)
            && s.epoch == w.state.epoch + 1
            && Ready(e.hb.readiness, c.requirements, MaxLast(w.state.pipelines))
            && OwnerStale(c, w, e.now)
  {
    hide Record, Load, Restarted, Ready, ShadowPromotable;
    var h := Heard(w, e.hb, e.now);
    assert Candidate(c, h, e.now) == Some(Other(w.state.owner));
    PromotableVersusReady(e.hb.readiness, c.requirements, MaxLast(w.state.pipelines));
  }

  /** With a negative timeout it is not, whatever is required of a shadow: the owner's own
      heartbeat, proof that it is alive, replaces it by a broker heard before it. */
  lemma NegativeTimeoutDeposesALiveOwner(c: Config, now: Time)
    requires c.confirmTimeout < 0
    ensures var ready := Readiness(1, c.requirements.configDigest, c.requirements.checkpointSchema, 0);
            var (a, b) := (Heartbeat(HeartbeatMsg(A, ready), now, true), Heartbeat(HeartbeatMsg(B, ready), now, true));
            && Replaces(c, [b, a], a) && !Justified(c, [b, a], a)
            && RunOf(c, [b, a]).state.owner == A && LastHeardAt([b, a], A, 1) && a.now == now
            && Step(c, RunOf(c, [b, a]), a).state.owner == B
  {
    hide Record, Load;
    var ready := Readiness(1, c.requirements.configDigest, c.requirements.checkpointSchema, 0);
    var (a, b) := (Heartbeat(HeartbeatMsg(A, ready), now, true), Heartbeat(HeartbeatMsg(B, ready), now, true));
    assert [b, a][..1] == [b] && [b][..0] == [];
    assert RunOf(c, []) == Deployed();
    var w1 := RunOf(c, [b]);
    assert w1.state == BLANK && w1.viewB.known && !w1.viewA.known;
    var w2 := RunOf(c, [b, a]);
    assert w2.state == Promoted(BLANK, A);
    assert Candidate(c, Heard(w2, a.hb, now), now) == Some(B);
  }

  ghost predicate BySelf(c: Config, es: seq<Event>, e: Event)
    requires |es| < TWO_64 - 1 && e.Heartbeat?
  {
    e.hb.broker == Step(c, RunOf(c, es), e).state.owner
  }

  /** Every replacement in every run is justified exactly when the timeout is nonnegative;
      that alone decides whether a broker is only ever promoted by its own heartbeat. */
  lemma JustifiedExactlyForNonnegativeTimeouts(c: Config)
    ensures (forall es, e :: |es| < TWO_64 - 1 && Replaces(c, es, e) ==> Justified(c, es, e)) <==> c.confirmTimeout >= 0
    ensures (forall es, e :: |es| < TWO_64 - 1 && Replaces(c, es, e) ==> BySelf(c, es, e)) <==> c.confirmTimeout >= 0
  {
    if c.confirmTimeout >= 0 {
      forall es, e | |es| < TWO_64 - 1 && Replaces(c, es, e)
        ensures Justified(c, es, e) && BySelf(c, es, e)
      {
        ReplacementIsJustified(c, es, e);
      }
    } else {
      var ready := Readiness(1, c.requirements.configDigest, c.requirements.checkpointSchema, 0);
      var (a, b) := (Heartbeat(HeartbeatMsg(A, ready), 0, true), Heartbeat(HeartbeatMsg(B, ready), 0, true));
      NegativeTimeoutDeposesALiveOwner(c, 0);
      hide Replaces, Justified, RunOf, Step;
      assert !Justified(c, [b, a], a) && !BySelf(c, [b, a], a);
    }
  }

  /** A promotion is durable exactly when its persist succeeded; the reply to the
      heartbeat reports the new epoch either way. */
  lemma PromotionDurableIff(c: Config, es: seq<Event>, hb: HeartbeatMsg, now: Time, disk: bool)
    requires |es| < TWO_64 - 1
    requires var w := RunOf(c, es); Step(c, w, Heartbeat(hb, now, disk)).state.epoch != w.state.epoch
    ensures var s := Step(c, RunOf(c, es), Heartbeat(hb, now, disk)); Durable(s).epoch == s.state.epoch <==> disk
  {
    hide High, Record, Load;
    var w := Heard(RunOf(c, es), hb, now);
    var b := Candidate(c, w, now);
    PromotedGood(w.state, b.value);
    AdvanceSound(w, Promoted(w.state, b.value), disk);
  }
}
