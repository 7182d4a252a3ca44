/** Exactly when ownership moves, and how results are answered once it has. */
module GatePromotions {
  import opened Machine
  import opened Gate
  import opened GateRecord
  import opened GateProcess
  import opened GateRuns
  import opened GateRetries

  /** A broker heard since the process started is shown by its last heartbeat. */
  lemma {:induction false} ViewShown(c: Config, es: seq<Event>, broker: u32, i: nat)
    requires |es| < TWO_64 - 1 && (broker == A || broker == B) && LastHeardAt(es, broker, i)
    ensures ViewOf(RunOf(c, es), broker) == View(true, es[i].hb.readiness, es[i].now)
  {
    var (front, e) := (es[..|es| - 1], es[|es| - 1]);
    var w := RunOf(c, front);
    RunSane(c, front);
    StepView(c, w, e, broker);
    hide Step, Sound;
    if i < |es| - 1 {
      assert forall k :: 0 <= k < |front| ==> front[k] == es[k];
      ViewShown(c, front, broker, i);
    }
  }

  /** The broker was last heard, in this process life, by a heartbeat that fits. */
  ghost predicate LastHeardSo(es: seq<Event>, broker: u32, fits: Event -> bool) {
    exists i: nat :: LastHeardAt(es, broker, i) && fits(es[i])
  }

  lemma HeardIff(c: Config, es: seq<Event>, broker: u32, fits: Event -> bool)
    requires |es| < TWO_64 - 1 && (broker == A || broker == B)
    requires forall x: Event, y: Event ::
      x.Heartbeat? && y.Heartbeat? && x.hb.readiness == y.hb.readiness && x.now == y.now ==> fits(x) == fits(y)
    ensures var v := ViewOf(RunOf(c, es), broker);
            LastHeardSo(es, broker, fits) <==>
            v.known && fits(Heartbeat(HeartbeatMsg(broker, v.readiness), v.lastHeard, false))
  {
    hide RunOf;
    var v := ViewOf(RunOf(c, es), broker);
    if v.known {
      var i := ViewTracks(c, es, broker);
      assert fits(es[i]) == fits(Heartbeat(HeartbeatMsg(broker, v.readiness), v.lastHeard, false));
    }
    if LastHeardSo(es, broker, fits) {
      var i: nat :| LastHeardAt(es, broker, i) && fits(es[i]);
      ViewShown(c, es, broker, i);
    }
  }

  function Silent(now: Time, timeout: int): Event -> bool {
    (e: Event) => e.Heartbeat? && now - e.now > timeout
  }

  function Promotable(c: Config, highWater: u64): Event -> bool {
    (e: Event) => e.Heartbeat? && ShadowPromotable(e.hb.readiness, c.requirements, highWater)
  }

  function Healthy(): Event -> bool {
    (e: Event) => e.Heartbeat? && e.hb.readiness.healthy != 0
  }

  /** A heartbeat changes the views before it is acted on, and acting changes no view. */
  lemma HeardViews(c: Config, es: seq<Event>, e: Event)
    requires |es| + 1 < TWO_64 - 1 && e.Heartbeat? && (e.hb.broker == A || e.hb.broker == B)
    ensures var (w, h) := (RunOf(c, es + [e]), Heard(RunOf(c, es), e.hb, e.now));
            && Sane(h) && w == Evaluated(c, h, e.now, e.disk)
            && w.viewA == h.viewA && w.viewB == h.viewB && h.state == RunOf(c, es).state
  {
    RunMore(c, es, [e]);
    assert [e][..0] == [] && es + [] == es;
    hide RunOf, Record, Sound;
  }

  /** While nobody owns the epoch, a heartbeat makes A the owner exactly when A was last heard healthy. */
  lemma BootstrapIff(c: Config, es: seq<Event>, e: Event)
    requires |es| + 1 < TWO_64 - 1 && e.Heartbeat? && (e.hb.broker == A || e.hb.broker == B)
    requires RunOf(c, es).state.owner == NONE
    ensures var s := RunOf(c, es + [e]).state;
            if LastHeardSo(es + [e], A, Healthy()) then s.owner == A && s.epoch == 1 else s == RunOf(c, es).state
  {
    hide RunOf, Record, Evaluated, Sane, LastHeardSo, Heard;
    HeardViews(c, es, e);
    HeardIff(c, es + [e], A, Healthy());
    OwnerlessIsFresh(c, es);
    BootstrapStep(c, Heard(RunOf(c, es), e.hb, e.now), e.now, e.disk);
  }

  lemma BootstrapStep(c: Config, h: World, now: Time, disk: bool)
    requires Sane(h) && h.state.owner == NONE && h.state.epoch == 0
    ensures var s := Evaluated(c, h, now, disk).state;
            if h.viewA.known && h.viewA.readiness.healthy != 0 then s.owner == A && s.epoch == 1 else s == h.state
  {
    hide Record;
  }

  lemma ReplaceStep(c: Config, h: World, now: Time, disk: bool)
    requires Sane(h) && (h.state.owner == A || h.state.owner == B) && h.state.epoch < TWO_64 - 1
    ensures var (was, s) := (h.state, Evaluated(c, h, now, disk).state);
            var (v, u) := (ViewOf(h, was.owner), ViewOf(h, Other(was.owner)));
            if v.known && now - v.lastHeard > c.confirmTimeout
               && u.known && ShadowPromotable(u.readiness, c.requirements, MaxLast(was.pipelines))
            then s.owner == Other(was.owner) && s.epoch == was.epoch + 1
            else s == was
  {
    hide Record, ShadowPromotable;
  }

  lemma OwnerlessIsFresh(c: Config, es: seq<Event>)
    requires |es| < TWO_64 - 1 && RunOf(c, es).state.owner == NONE
    ensures RunOf(c, es).state.epoch == 0
  {
    hide Dominates, Durable, Restarted;
  }

  /** An owner is replaced exactly when it was last heard longer ago than the timeout, in this process
      life, and the other broker was last heard fit for promotion. */
  lemma ReplacedIff(c: Config, es: seq<Event>, e: Event)
    requires |es| + 1 < TWO_64 - 1 && e.Heartbeat? && (e.hb.broker == A || e.hb.broker == B)
    requires RunOf(c, es).state.owner != NONE
    ensures var (was, s) := (RunOf(c, es).state, RunOf(c, es + [e]).state);
            if LastHeardSo(es + [e], was.owner, Silent(e.now, c.confirmTimeout))
               && LastHeardSo(es + [e], Other(was.owner), Promotable(c, MaxLast(was.pipelines)))
            then s.owner == Other(was.owner) && s.epoch == was.epoch + 1
            else s == was
  {
    var was := RunOf(c, es).state;
    OwnerIsBroker(c, es);
    HeardViews(c, es, e);
    HeardIff(c, es + [e], was.owner, Silent(e.now, c.confirmTimeout));
    HeardIff(c, es + [e], Other(was.owner), Promotable(c, MaxLast(was.pipelines)));
    hide RunOf, Record, ShadowPromotable, Evaluated, Sane, LastHeardSo, Heard;
    ReplaceStep(c, Heard(RunOf(c, es), e.hb, e.now), e.now, e.disk);
  }

  lemma OwnerIsBroker(c: Config, es: seq<Event>)
    requires |es| < TWO_64 - 1 && RunOf(c, es).state.owner != NONE
    ensures var s := RunOf(c, es).state; (s.owner == A || s.owner == B) && 0 < s.epoch < TWO_64 - 1
  {
    hide Dominates, Durable, Restarted;
  }

  // ------------------------------------------------------------ answers after a change

  /** After any run in which someone owns the epoch: every result stamped below it is answered as stale,
      whoever sends it; one from the other broker stamped at or above it is answered OK, and moves no mark. */
  lemma StampsAreAnswered(c: Config, es: seq<Event>, r: Result, now: Time, disk: bool)
    requires |es| < TWO_64 - 1
    ensures var s := RunOf(c, es).state;
            var (o, t) := Decide(s, r, now);
            Live(s, r, now) && s.owner != NONE ==>
              && (r.epoch < s.epoch ==> AckStatusOf(o, disk) == AckStaleEpoch && SameMarks(t, s))
              && (r.broker != s.owner && s.epoch <= r.epoch ==> AckStatusOf(o, disk) == AckOk && o != Commit && SameMarks(t, s))
  {
    var s := RunOf(c, es).state;
    AnswerIff(s, r, now, disk);
    OutcomeIff(s, r, now);
    RunSane(c, es);
    DecideMarks(s, r, now);
    hide RunOf, Decide, Live, High;
  }

  ghost predicate SameMarks(t: State, s: State) {
    t.epoch == s.epoch && t.owner == s.owner && forall id: Id :: High(t, id) == High(s, id)
  }

  /** Once an owner has been replaced, and until a restart, what it stamped before is answered as stale. */
  lemma DeposedIsStale(c: Config, es: seq<Event>, e: Event, ts: seq<Event>, r: Result, now: Time, disk: bool)
    requires |es| + 1 + |ts| < TWO_64 - 1 && Replaces(c, es, e) && NoRestart(ts)
    requires r.broker == RunOf(c, es).state.owner && r.epoch <= RunOf(c, es).state.epoch
    requires Live(RunOf(c, es + [e] + ts).state, r, now)
    ensures AckStatusOf(Decide(RunOf(c, es + [e] + ts).state, r, now).0, disk) == AckStaleEpoch
  {
    RunMore(c, es, [e]);
    assert [e][..0] == [] && es + [] == es;
    ReplacementRaises(c, es, e);
    EpochGrows(c, es + [e], ts);
    OwnedAbove(c, es + [e] + ts);
    hide RunOf, Decide, Live, Replaces, Step;
    StampsAreAnswered(c, es + [e] + ts, r, now, disk);
  }

  lemma ReplacementRaises(c: Config, es: seq<Event>, e: Event)
    requires |es| < TWO_64 - 1 && Replaces(c, es, e)
    ensures Step(c, RunOf(c, es), e).state.epoch == RunOf(c, es).state.epoch + 1
  {
    OwnerIsBroker(c, es);
    RunSane(c, es);
    hide RunOf, Sane;
    RaisingStep(c, RunOf(c, es), e);
  }

  lemma RaisingStep(c: Config, w: World, e: Event)
    requires Sane(w) && w.up && (w.state.owner == A || w.state.owner == B) && w.state.epoch < TWO_64 - 1 && e.Heartbeat?
    requires Step(c, w, e).state.owner != w.state.owner
    ensures Step(c, w, e).state.epoch == w.state.epoch + 1
  {
    hide Record, ShadowPromotable;
    ReplaceStep(c, Heard(w, e.hb, e.now), e.now, e.disk);
  }

  lemma {:induction false} EpochGrows(c: Config, es: seq<Event>, ts: seq<Event>)
    requires |es| + |ts| < TWO_64 - 1 && NoRestart(ts)
    ensures RunOf(c, es).state.epoch <= RunOf(c, es + ts).state.epoch
  {
    hide *;
    if ts == [] {
      assert es + [] == es;
    } else {
      var front := ts[..|ts| - 1];
      NoRestartYet(ts);
      EpochGrows(c, es, front);
      RunMore(c, es, ts);
      StepGrows(c, RunOf(c, es + front), ts[|ts| - 1]);
    }
  }

  lemma StepGrows(c: Config, w: World, e: Event)
    requires Sane(w) && Sound(w) && w.state.epoch < TWO_64 - 1 && !e.Restart?
    ensures w.state.epoch <= Step(c, w, e).state.epoch
  {
    StepSound(c, w, e);
    hide Step, Sound, High;
  }

  lemma OwnedAbove(c: Config, es: seq<Event>)
    requires |es| < TWO_64 - 1
    ensures RunOf(c, es).state.epoch > 0 ==> RunOf(c, es).state.owner != NONE
  {
    hide Dominates, Durable, Restarted;
  }
}
