/** Commits whose persist failed: the mark has moved in memory but not on disk. When such a result
    can still commit, and when its mark becomes durable. */
module GateRetries {
  import opened Machine
  import opened Gate
  import opened GateRecord
  import opened GateProcess
  import opened GateRuns

  /** The event replaces the state file. */
  ghost predicate Saves(c: Config, w: World, e: Event) {
    match e
    case Restart => false
    case Heartbeat(hb, now, disk) => disk && (hb.broker == A || hb.broker == B) && Candidate(c, Heard(w, hb, now), now).Some?
    case Publish(r, now, disk) => Accepted(w, r, now, disk)
  }

  /** What a step leaves on disk. */
  lemma StepSaves(c: Config, w: World, e: Event)
    requires Sound(w) && w.state.epoch < TWO_64 - 1
    ensures var s := Step(c, w, e);
            if Saves(c, w, e) then Durable(s) == s.state else s.file == w.file && Durable(s) == Durable(w)
  {
    StepSound(c, w, e);
    hide Decide, Record, Load, GoodState;
    if Saves(c, w, e) {
      var s := Step(c, w, e);
      assert s == Persisted(s, true);
      PersistedIsRecovered(s);
    } else {
      SameFile(Step(c, w, e), w);
    }
  }

  lemma SameFile(s: World, w: World)
    requires s.file == w.file
    ensures Restarted(s) == Restarted(w) && Durable(s) == Durable(w)
  {
  }

  /** `e` arrives after the run `es`, commits, and cannot be persisted: the broker is told so. */
  ghost predicate Unsaved(c: Config, es: seq<Event>, e: Event)
    requires |es| < TWO_64 - 1
  {
    e.Publish? && !e.disk && Decide(RunOf(c, es).state, e.result, e.now).0 == Commit
  }

  /** Some event of `ts`, which follow `es`, replaces the state file. */
  ghost predicate SavedIn(c: Config, es: seq<Event>, ts: seq<Event>)
    requires |es| + |ts| < TWO_64 - 1
  {
    ts != []
    && var (front, e) := (ts[..|ts| - 1], ts[|ts| - 1]);
       SavedIn(c, es, front) || Saves(c, RunOf(c, es + front), e)
  }

  ghost predicate NoRestart(ts: seq<Event>) {
    forall k :: 0 <= k < |ts| ==> !ts[k].Restart?
  }

  /** The pipeline's mark has reached the window. */
  ghost predicate Reaches(s: State, id: Id, window: u64) {
    High(s, id).Some? && window <= High(s, id).value
  }

  lemma ReachesStays(s: State, t: State, id: Id, window: u64)
    requires Dominates(t, s) && Reaches(s, id, window)
    ensures Reaches(t, id, window)
  {
    hide High;
    assert AtMost(High(s, id), High(t, id));
  }

  /** One event more at the end of a run. */
  lemma RunMore(c: Config, es: seq<Event>, ts: seq<Event>)
    requires ts != [] && |es| + |ts| < TWO_64 - 1
    ensures var (front, e) := (ts[..|ts| - 1], ts[|ts| - 1]);
            var w := RunOf(c, es + front);
            && Sane(w) && Sound(w) && w.state.epoch < TWO_64 - 1 && RunOf(c, es + ts) == Step(c, w, e)
  {
    var front := ts[..|ts| - 1];
    assert (es + ts)[..|es + ts| - 1] == es + front && (es + ts)[|es + ts| - 1] == ts[|ts| - 1];
    RunSane(c, es + front);
    hide Step, Sound, Sane;
  }

  /** Right after the failed persist the mark stands in memory, and on disk it does not. */
  lemma UnsavedMark(c: Config, es: seq<Event>, e: Event)
    requires |es| + 1 < TWO_64 - 1 && Unsaved(c, es, e)
    ensures var (w, r) := (RunOf(c, es + [e]), e.result);
            && w.file == RunOf(c, es).file && Durable(w) == Durable(RunOf(c, es))
            && Reaches(w.state, r.pipeline, r.window) && !Reaches(Durable(w), r.pipeline, r.window)
  {
    var w := RunOf(c, es);
    RunMore(c, es, [e]);
    assert [e][..0] == [] && es + [] == es;
    StepSaves(c, w, e);
    DecideMarks(w.state, e.result, e.now);
    CommitIff(w.state, e.result, e.now);
    hide Decide, High, Record, Load, RunOf;
    assert AtMost(High(Durable(w), e.result.pipeline), High(w.state, e.result.pipeline));
  }

  /** Until the next restart the mark stands in memory; it becomes durable exactly when
      anything at all is persisted. */
  lemma {:induction false} MarkBecomesDurableIff(c: Config, es: seq<Event>, e: Event, ts: seq<Event>)
    requires |es| + 1 + |ts| < TWO_64 - 1 && Unsaved(c, es, e) && NoRestart(ts)
    ensures var (w, r) := (RunOf(c, es + [e] + ts), e.result);
            && Reaches(w.state, r.pipeline, r.window)
            && (Reaches(Durable(w), r.pipeline, r.window) <==> SavedIn(c, es + [e], ts))
            && (!SavedIn(c, es + [e], ts) ==> w.file == RunOf(c, es).file)
  {
    var (past, r) := (es + [e], e.result);
    hide *;
    if ts == [] {
      UnsavedMark(c, es, e);
      NothingSaved(c, past);
      assert past + [] == past;
    } else {
      var (front, last) := (ts[..|ts| - 1], ts[|ts| - 1]);
      NoRestartYet(ts);
      MarkBecomesDurableIff(c, es, e, front);
      RunMore(c, past, ts);
      SavedMore(c, past, ts);
      MarkStep(c, RunOf(c, past + front), last, r.pipeline, r.window, SavedIn(c, past, front));
    }
  }

  lemma NoRestartYet(ts: seq<Event>)
    requires ts != [] && NoRestart(ts)
    ensures NoRestart(ts[..|ts| - 1]) && !ts[|ts| - 1].Restart?
  {
  }

  lemma NothingSaved(c: Config, es: seq<Event>)
    requires |es| < TWO_64 - 1
    ensures !SavedIn(c, es, [])
  {
  }

  lemma SavedMore(c: Config, es: seq<Event>, ts: seq<Event>)
    requires ts != [] && |es| + |ts| < TWO_64 - 1
    ensures var (front, e) := (ts[..|ts| - 1], ts[|ts| - 1]);
            SavedIn(c, es, ts) <==> SavedIn(c, es, front) || Saves(c, RunOf(c, es + front), e)
  {
    hide Saves, RunOf;
  }

  /** One step other than a restart keeps the mark in memory, and a step that saves makes it durable. */
  lemma MarkStep(c: Config, w: World, e: Event, id: Id, window: u64, saved: bool)
    requires Sane(w) && Sound(w) && w.state.epoch < TWO_64 - 1 && !e.Restart?
    requires Reaches(w.state, id, window) && (Reaches(Durable(w), id, window) <==> saved)
    ensures var s := Step(c, w, e);
            && Reaches(s.state, id, window) && (Reaches(Durable(s), id, window) <==> saved || Saves(c, w, e))
            && (!Saves(c, w, e) ==> s.file == w.file)
  {
    hide *;
    StepSaves(c, w, e);
    StepSound(c, w, e);
    var s := Step(c, w, e);
    ReachesStays(w.state, s.state, id, window);
    if saved { ReachesStays(Durable(w), Durable(s), id, window); }
  }

  /** A mark that is reached refuses the window and all before it. */
  lemma ReachedIsRefused(s: State, id: Id, window: u64, r: Result, now: Time)
    requires Reaches(s, id, window) && r.pipeline == id && r.window <= window
    ensures Decide(s, r, now).0 != Commit
  {
    CommitIff(s, r, now);
    hide Decide, High;
  }

  /** So before a restart neither the result nor any other for its window or an earlier one commits. */
  lemma RetryIsRefused(c: Config, es: seq<Event>, e: Event, ts: seq<Event>, r: Result, now: Time)
    requires |es| + 1 + |ts| < TWO_64 - 1 && Unsaved(c, es, e) && NoRestart(ts)
    requires r.pipeline == e.result.pipeline && r.window <= e.result.window
    ensures Decide(RunOf(c, es + [e] + ts).state, r, now).0 != Commit
  {
    hide RunOf, Decide, SavedIn, NoRestart, Reaches, Durable;
    MarkBecomesDurableIff(c, es, e, ts);
    ReachedIsRefused(RunOf(c, es + [e] + ts).state, r.pipeline, e.result.window, r, now);
  }

  lemma RestartIs(c: Config, es: seq<Event>)
    requires |es| + 1 < TWO_64 - 1
    ensures RunOf(c, es + [Restart]) == Restarted(RunOf(c, es)) && RunOf(c, es + [Restart]).state == Durable(RunOf(c, es))
  {
    RunMore(c, es, [Restart]);
    assert [Restart][..0] == [] && es + [] == es;
  }

  /** A restart with nothing persisted since undoes it all: the process is as if it had restarted
      before the failed commit. */
  lemma RestartForgets(c: Config, es: seq<Event>, e: Event, ts: seq<Event>)
    requires |es| + 2 + |ts| < TWO_64 - 1 && Unsaved(c, es, e) && NoRestart(ts) && !SavedIn(c, es + [e], ts)
    ensures RunOf(c, es + [e] + ts + [Restart]) == RunOf(c, es + [Restart])
  {
    MarkBecomesDurableIff(c, es, e, ts);
    RestartIs(c, es + [e] + ts);
    RestartIs(c, es);
    hide RunOf, Restarted, SavedIn, Unsaved;
    SameFile(RunOf(c, es + [e] + ts), RunOf(c, es));
  }

  /** A mark that is durable survives whatever follows, restarts included, in memory and on disk. */
  lemma {:induction false} DurableMarkStays(c: Config, es: seq<Event>, ts: seq<Event>, id: Id, window: u64)
    requires |es| + |ts| < TWO_64 - 1 && Reaches(Durable(RunOf(c, es)), id, window)
    ensures var w := RunOf(c, es + ts); Reaches(Durable(w), id, window) && Reaches(w.state, id, window)
  {
    hide *;
    if ts == [] {
      assert es + [] == es;
      DurableInMemory(RunOf(c, es), id, window);
    } else {
      var front := ts[..|ts| - 1];
      DurableMarkStays(c, es, front, id, window);
      RunMore(c, es, ts);
      DurableStep(c, RunOf(c, es + front), ts[|ts| - 1], id, window);
    }
  }

  lemma DurableInMemory(w: World, id: Id, window: u64)
    requires Sound(w) && Reaches(Durable(w), id, window)
    ensures Reaches(w.state, id, window)
  {
    hide Dominates, Reaches, Durable, GoodState;
    ReachesStays(Durable(w), w.state, id, window);
  }

  lemma DurableStep(c: Config, w: World, e: Event, id: Id, window: u64)
    requires Sane(w) && Sound(w) && w.state.epoch < TWO_64 - 1 && Reaches(Durable(w), id, window)
    ensures var s := Step(c, w, e); Reaches(Durable(s), id, window) && Reaches(s.state, id, window)
  {
    hide *;
    StepSound(c, w, e);
    ReachesStays(Durable(w), Durable(Step(c, w, e)), id, window);
    DurableInMemory(Step(c, w, e), id, window);
  }

  /** After the next restart the same result commits exactly when nothing was persisted in between
      and it meets the other conditions in the state that was durable before it first came. */
  lemma RetryCommitsIff(c: Config, es: seq<Event>, e: Event, ts: seq<Event>, now: Time)
    requires |es| + 2 + |ts| < TWO_64 - 1 && Unsaved(c, es, e) && NoRestart(ts)
    ensures var (d, r) := (Durable(RunOf(c, es)), e.result);
            Decide(RunOf(c, es + [e] + ts + [Restart]).state, r, now).0 == Commit <==>
            && !SavedIn(c, es + [e], ts) && now < r.validUntil
            && d.owner != NONE && r.broker == d.owner && r.epoch == d.epoch
            && (Slot(d.pipelines, r.pipeline) < |d.pipelines| || |d.pipelines| < MAX_PIPELINES)
  {
    var (w, r, past) := (RunOf(c, es), e.result, es + [e]);
    CommitIff(w.state, r, e.now);
    CommitIff(Durable(w), r, now);
    MarkBecomesDurableIff(c, es, e, ts);
    UnsavedMark(c, es, e);
    RestartIs(c, past + ts);
    RestartIs(c, es);
    hide Decide, RunOf, Durable, SavedIn, Restarted, High, Slot;
    if SavedIn(c, past, ts) {
      ReachedIsRefused(Durable(RunOf(c, past + ts)), r.pipeline, r.window, r, now);
    } else {
      RestartForgets(c, es, e, ts);
    }
  }

  /** In general: if a result for the window or an earlier one commits at some later time, the process
      restarted before anything was persisted. */
  lemma {:induction false} CommitMeansForgotten(c: Config, es: seq<Event>, e: Event, ts: seq<Event>, r: Result, now: Time)
    returns (k: nat)
    requires |es| + 1 + |ts| < TWO_64 - 1 && Unsaved(c, es, e)
    requires r.pipeline == e.result.pipeline && r.window <= e.result.window
    requires Decide(RunOf(c, es + [e] + ts).state, r, now).0 == Commit
    ensures k < |ts| && ts[k].Restart? && NoRestart(ts[..k]) && !SavedIn(c, es + [e], ts[..k])
  {
    hide Decide, RunOf, SavedIn, NoRestart, Reaches, Durable;
    k := FirstRestart(ts);
    if k == |ts| {
      assert ts[..k] == ts;
      RetryIsRefused(c, es, e, ts, r, now);
    } else {
      var (past, rest) := (es + [e] + ts[..k], ts[k..]);
      assert past + rest == es + [e] + ts;
      if SavedIn(c, es + [e], ts[..k]) {
        MarkBecomesDurableIff(c, es, e, ts[..k]);
        DurableMarkStays(c, past, rest, r.pipeline, e.result.window);
        ReachedIsRefused(RunOf(c, past + rest).state, r.pipeline, e.result.window, r, now);
      }
    }
  }

  lemma FirstRestart(ts: seq<Event>) returns (k: nat)
    ensures k <= |ts| && NoRestart(ts[..k]) && (k < |ts| ==> ts[k].Restart?)
  {
    k := 0;
    while k < |ts| && !ts[k].Restart?
      invariant k <= |ts| && forall j :: 0 <= j < k ==> !ts[j].Restart?
    {
      k := k + 1;
    }
  }
}
