/** What every run of the journal daemon keeps: subscribers agree on every window, a
    subscriber that is not lapped misses nothing, and each sensor's admissions are ordered. */
module JournalRuns {
  import opened Machine
  import opened Admission
  import opened Journal
  import JournalFile
  import WireObservation
  import ObservationCheck

  datatype Event =
    | Submit(m: Submission)
    | Join(i: nat, broker: bool)
    | Leave(i: nat)
    | Subscribe(i: nat, from: nat)
    | Poll(i: nat)
    | Acknowledge(i: nat)

  ghost predicate Shaped(s: State) {
    |s.conns| == |s.delivered| == MAX_CONNECTIONS && |s.tracks| <= MAX_TRACKS && |s.log| < TWO_64
  }

  /** When the daemon can take the step. */
  ghost predicate Enabled(env: Env, s: State, e: Event) {
    && env.floats.Good() && Shaped(s)
    && match e
       case Submit(m) => |s.log| + 1 < TWO_64 && (HasRoom(s.tracks, CString(m.obs.sensorId)) ==> IsPending(s.conns, |s.log| + 1, m.pending))
       case Join(i, _) => i < MAX_CONNECTIONS && !s.conns[i].inUse
       case Leave(i) => i < MAX_CONNECTIONS
       case Subscribe(i, _) => i < MAX_CONNECTIONS && s.conns[i].inUse && s.conns[i].cursor == 0
       case Poll(i) => i < MAX_CONNECTIONS && HasMore(s, i)
       case Acknowledge(i) => i < MAX_CONNECTIONS
  }

  ghost function Step(env: Env, s: State, e: Event): State
    requires Enabled(env, s, e)
  {
    match e
    case Submit(m) => Submitted(env, s, m)
    case Join(i, broker) => Joined(s, i, broker)
    case Leave(i) => Left(s, i)
    case Subscribe(i, from) => Subscription(s, i, from)
    case Poll(i) => Polled(s, i)
    case Acknowledge(i) => Acknowledged(s, i)
  }

  ghost predicate Initial(s: State) {
    && s.tracks == [] && s.log == [] && |s.conns| == |s.delivered| == MAX_CONNECTIONS
    && forall i :: 0 <= i < MAX_CONNECTIONS ==> s.conns[i] == Conn(false, false, 0, 0) && s.delivered[i] == []
  }

  ghost predicate Next(env: Env, s: State, e: Event, t: State) {
    Enabled(env, s, e) && t == Step(env, s, e)
  }

  /** A run: `ss[k]` is the state before event `es[k]`. */
  ghost predicate Run(env: Env, ss: seq<State>, es: seq<Event>) {
    && |ss| == |es| + 1 && Initial(ss[0])
    && forall k, m :: 0 <= k < |es| && m == k + 1 ==> Next(env, ss[k], es[k], ss[m])
  }

  // --------------------------------------------------------------------- invariants

  /** The admitted observations of one sensor, in window order. */
  ghost function AdmittedOf(log: seq<Entry>, name: Bytes): seq<Sample> {
    if log == [] then []
    else
      var e := log[|log| - 1];
      AdmittedOf(log[..|log| - 1], name)
      + if e.reason == AdmitOk && SampleOf(e.obs).sensor == name then [SampleOf(e.obs)] else []
  }

  ghost predicate Logged(log: seq<Entry>, e: Entry) {
    1 <= e.window <= |log| && log[e.window - 1] == e
  }

  ghost predicate AllLogged(s: State) {
    forall i, k :: 0 <= i < |s.delivered| && 0 <= k < |s.delivered[i]| ==> Logged(s.log, s.delivered[i][k])
  }

  /** The track of that name, if any, summarises the sensor's admissions, which are ordered. */
  ghost predicate Described(env: Env, s: State, name: Bytes) {
    && Ordered(env.cfg, AdmittedOf(s.log, name))
    && var i := FindTrack(s.tracks, name);
       if i < |s.tracks| then Describes(s.tracks[i], AdmittedOf(s.log, name)) else AdmittedOf(s.log, name) == []
  }

  ghost predicate Fresh(s: State) {
    forall i :: 0 <= i < |s.conns| == |s.delivered| && s.conns[i].cursor == 0 ==> s.delivered[i] == []
  }

  ghost predicate Sane(env: Env, s: State) {
    && Shaped(s) && Numbered(s.log) && AllLogged(s) && Fresh(s)
    && forall name :: Described(env, s, name)
  }

  lemma SaneInitially(env: Env, s: State)
    requires Initial(s)
    ensures Sane(env, s)
  {
    forall name: Bytes
      ensures Described(env, s, name)
    {
    }
  }

  lemma LogSnoc(log: seq<Entry>, e: Entry, name: Bytes)
    ensures AdmittedOf(log + [e], name)
            == AdmittedOf(log, name) + if e.reason == AdmitOk && SampleOf(e.obs).sensor == name then [SampleOf(e.obs)] else []
  {
    assert (log + [e])[..|log|] == log;
  }

  /** Sound observations carry names short enough for a track. */
  lemma AdmissibleName(env: Env, o: Observation)
    requires env.floats.Good() && ObservationCheck.Sound(env.floats, o)
    ensures FreshTrack(CString(o.sensorId)).sensor == CString(o.sensorId)
  {
    ObservationCheck.SoundFits(env.floats, o);
  }

  /** Looking names up after a name got its track. */
  lemma SettledFind(tracks: seq<Track>, name: Bytes, other: Bytes)
    requires HasRoom(tracks, name)
    ensures FindTrack(tracks, other) < |tracks| ==> FindTrack(Settled(tracks, name), other) == FindTrack(tracks, other)
    ensures FindTrack(tracks, other) == |tracks| && FindTrack(Settled(tracks, name), other) < |Settled(tracks, name)| ==>
              FindTrack(Settled(tracks, name), other) == |tracks| && !Settled(tracks, name)[|tracks|].hasData
    ensures forall j :: 0 <= j < |tracks| ==> Settled(tracks, name)[j] == tracks[j]
  {
    var ts := Settled(tracks, name);
    if FindTrack(tracks, other) < |tracks| {
      FindTrackIs(ts, other, FindTrack(tracks, other));
    } else if FindTrack(ts, other) < |ts| {
      assert FindTrack(ts, other) >= |tracks|;
    }
  }

  lemma FindAfterUpdate(tracks: seq<Track>, i: nat, t: Track, other: Bytes)
    requires i < |tracks| && t.sensor == tracks[i].sensor
    ensures FindTrack(tracks[i := t], other) == FindTrack(tracks, other)
  {
    FindTrackIs(tracks[i := t], other, FindTrack(tracks, other));
  }

  /** The found track of the submitted name, fresh or not, summarises its admissions. */
  lemma SettledDescribes(env: Env, s: State, name: Bytes, other: Bytes)
    requires Described(env, s, other) && HasRoom(s.tracks, name)
    ensures var (ts, i) := (Settled(s.tracks, name), FindTrack(Settled(s.tracks, name), other));
            if i < |ts| then Describes(ts[i], AdmittedOf(s.log, other)) else AdmittedOf(s.log, other) == []
  {
    SettledFind(s.tracks, name, other);
    var (ts, i) := (Settled(s.tracks, name), FindTrack(Settled(s.tracks, name), other));
    if i < |ts| && FindTrack(s.tracks, other) == |s.tracks| {
      NothingYet(ts[i]);
    }
  }

  lemma SubmittedDescribes(env: Env, s: State, m: Submission, other: Bytes)
    requires env.floats.Good() && Described(env, s, other) && HasRoom(s.tracks, CString(m.obs.sensorId))
    ensures Described(env, Submitted(env, s, m), other)
  {
    hide Ordered, Describes, Verdict, Tracked, ObservationCheck.Sound, Stored;
    var name := CString(m.obs.sensorId);
    var (ts, i, reason) := (Settled(s.tracks, name), FindTrack(s.tracks, name), VerdictFor(env, s.tracks, m.obs, m.pending));
    var e := Entry(|s.log| + 1, reason, m.obs);
    SettledDescribes(env, s, name, other);
    LogSnoc(s.log, e, other);
    if reason == AdmitOk {
      AdmittedTrack(env, s, m);
      TrackedKeepsName(ts[i], SampleOf(m.obs));
      FindAfterUpdate(ts, i, Tracked(ts[i], SampleOf(m.obs)), other);
      if other == name {
        FindTrackIs(ts, name, i);
        var past := AdmittedOf(s.log, name);
        AdmittedIff(env.cfg, ts[i], past, SampleOf(m.obs), ObservationCheck.Sound(env.floats, m.obs), m.pending);
        OrderedSnoc(env.cfg, past, SampleOf(m.obs));
        AdmissionDescribes(ts[i], past, SampleOf(m.obs));
      } else {
        assert AdmittedOf(s.log + [e], other) == AdmittedOf(s.log, other);
        assert FindTrack(ts, other) != i;
      }
    } else {
      assert AdmittedOf(s.log + [e], other) == AdmittedOf(s.log, other);
    }
  }

  lemma TrackedKeepsName(t: Track, s: Sample)
    ensures Tracked(t, s).sensor == s.sensor
  {
  }

  /** An admitted observation's track carries its name. */
  lemma AdmittedTrack(env: Env, s: State, m: Submission)
    requires env.floats.Good() && HasRoom(s.tracks, CString(m.obs.sensorId))
    requires VerdictFor(env, s.tracks, m.obs, m.pending) == AdmitOk
    ensures var name := CString(m.obs.sensorId);
            Settled(s.tracks, name)[FindTrack(s.tracks, name)].sensor == name
            && FindTrack(Settled(s.tracks, name), name) == FindTrack(s.tracks, name)
  {
    var name := CString(m.obs.sensorId);
    AdmissibleName(env, m.obs);
    hide ObservationCheck.Sound, FreshTrack;
    FindTrackIs(Settled(s.tracks, name), name, FindTrack(s.tracks, name));
  }

  lemma PolledIsLogged(s: State, i: nat)
    requires Shaped(s) && Numbered(s.log) && i < MAX_CONNECTIONS && HasMore(s, i)
    ensures Logged(s.log, s.log[Shown(|s.log|, s.conns[i].cursor) - 1])
  {
    ShownIsGreatest(|s.log|, s.conns[i].cursor, s.conns[i].cursor);
  }

  lemma LoggedStays(s: State, t: State)
    requires AllLogged(s) && s.log <= t.log && t.delivered == s.delivered
    ensures AllLogged(t)
  {
  }

  lemma SaneStep(env: Env, s: State, e: Event)
    requires Sane(env, s) && Enabled(env, s, e)
    ensures Sane(env, Step(env, s, e)) && s.log <= Step(env, s, e).log
  {
    match e
    case Submit(m) => SubmitKeepsSane(env, s, m);
    case Poll(i) => PollKeepsSane(env, s, i);
    case Join(i, broker) => OnlyConns(env, s, Joined(s, i, broker), i);
    case Leave(i) => OnlyConns(env, s, Left(s, i), i);
    case Subscribe(i, from) => OnlyConns(env, s, Subscription(s, i, from), i);
    case Acknowledge(i) => OnlyConns(env, s, Acknowledged(s, i), i);
  }

  /** A step that changes one connection, and clears what it received if anything. */
  lemma OnlyConns(env: Env, s: State, t: State, i: nat)
    requires Sane(env, s) && i < |s.conns| == |t.conns| == |t.delivered|
    requires t == s.(conns := s.conns[i := t.conns[i]], delivered := t.delivered)
    requires t.delivered == s.delivered[i := []] || (t.delivered == s.delivered && (t.conns[i].cursor == 0 ==> s.conns[i].cursor == 0))
    ensures Sane(env, t)
  {
    hide Described, Logged, Numbered;
    SameTracks(env, s, t);
  }

  lemma PollKeepsSane(env: Env, s: State, i: nat)
    requires Sane(env, s) && Enabled(env, s, Poll(i))
    ensures Sane(env, Polled(s, i))
  {
    hide Described, Shown, Logged, Numbered;
    PolledIsLogged(s, i);
    SameTracks(env, s, Polled(s, i));
  }

  lemma SameTracks(env: Env, s: State, t: State)
    requires t.tracks == s.tracks && t.log == s.log
    ensures forall name :: Described(env, s, name) ==> Described(env, t, name)
  {
  }

  lemma SubmitKeepsSane(env: Env, s: State, m: Submission)
    requires Sane(env, s) && Enabled(env, s, Submit(m))
    ensures Sane(env, Submitted(env, s, m)) && s.log <= Submitted(env, s, m).log
  {
    var t := Submitted(env, s, m);
    if HasRoom(s.tracks, CString(m.obs.sensorId)) {
      forall name
        ensures Described(env, t, name)
      {
        SubmittedDescribes(env, s, m, name);
      }
      hide Described, Stored, Logged, VerdictFor, Settled, Tracked;
      LoggedStays(s, t);
    }
  }

  lemma NextOf(env: Env, ss: seq<State>, es: seq<Event>, k: nat)
    requires Run(env, ss, es) && k < |es|
    ensures Enabled(env, ss[k], es[k]) && ss[k + 1] == Step(env, ss[k], es[k])
  {
    var m := k + 1;
    assert Next(env, ss[k], es[k], ss[m]) by { hide Next; }
  }

  /** Every state of every run is sane. */
  lemma {:induction false} AlwaysSane(env: Env, ss: seq<State>, es: seq<Event>, k: nat)
    requires Run(env, ss, es) && k < |ss|
    ensures Sane(env, ss[k])
  {
    hide Sane, Enabled, Initial, Step, Next;
    if k == 0 {
      SaneInitially(env, ss[0]);
    } else {
      AlwaysSane(env, ss, es, k - 1);
      NextOf(env, ss, es, k - 1);
      SaneStep(env, ss[k - 1], es[k - 1]);
    }
  }

  /** The log only grows. */
  lemma {:induction false} LogGrows(env: Env, ss: seq<State>, es: seq<Event>, a: nat, b: nat)
    requires Run(env, ss, es) && a <= b < |ss|
    ensures ss[a].log <= ss[b].log
  {
    hide Sane, Enabled, Initial, Step, Next, Run;
    if a < b {
      RunLength(env, ss, es);
      LogGrows(env, ss, es, a, b - 1);
      AlwaysSane(env, ss, es, b - 1);
      NextOf(env, ss, es, b - 1);
      SaneStep(env, ss[b - 1], es[b - 1]);
    }
  }

  lemma RunLength(env: Env, ss: seq<State>, es: seq<Event>)
    requires Run(env, ss, es)
    ensures |ss| == |es| + 1
  {
  }

  // ------------------------------------------------------------------- main results

  /** Whatever two subscribers receive for one window, at any two times, is the same:
      the log's entry for that window. */
  lemma SubscribersAgree(env: Env, ss: seq<State>, es: seq<Event>, a: nat, b: nat, i: nat, j: nat, k: nat, l: nat)
    requires Run(env, ss, es) && a <= b < |ss| && i < MAX_CONNECTIONS && j < MAX_CONNECTIONS
    requires Shaped(ss[a]) && Shaped(ss[b]) && k < |ss[a].delivered[i]| && l < |ss[b].delivered[j]|
    requires ss[a].delivered[i][k].window == ss[b].delivered[j][l].window
    ensures ss[a].delivered[i][k] == ss[b].delivered[j][l]
    ensures Logged(ss[b].log, ss[b].delivered[j][l])
  {
    hide Run, Described;
    AlwaysSane(env, ss, es, a);
    AlwaysSane(env, ss, es, b);
    LogGrows(env, ss, es, a, b);
    assert Logged(ss[a].log, ss[a].delivered[i][k]) && Logged(ss[b].log, ss[b].delivered[j][l]);
  }

  /** From state `a` to state `b` subscriber `i` stays, and is less than the ring behind at each poll. */
  ghost predicate KeepsUp(ss: seq<State>, es: seq<Event>, i: nat, a: nat, b: nat)
    requires a <= b <= |es| && |ss| == |es| + 1
  {
    forall k :: a <= k < b ==>
      && (es[k].Join? || es[k].Subscribe? ==> es[k].i != i)
      && (es[k] == Poll(i) ==> i < |ss[k].conns| && |ss[k].log| - ss[k].conns[i].cursor < RING_CAPACITY)
  }

  /** Subscriber `i` has received the log from `start` up to its cursor. */
  ghost predicate Contiguous(s: State, i: nat, start: nat) {
    && i < |s.conns| == |s.delivered| && 1 <= start <= s.conns[i].cursor
    && if s.conns[i].cursor == start then s.delivered[i] == []
       else s.conns[i].cursor - 1 <= |s.log| && s.delivered[i] == s.log[start - 1..s.conns[i].cursor - 1]
  }

  lemma PollIsContiguous(s: State, i: nat, start: nat)
    requires Contiguous(s, i, start) && i < |s.conns| && HasMore(s, i) && |s.log| - s.conns[i].cursor < RING_CAPACITY
    ensures Contiguous(Polled(s, i), i, start)
  {
    var c := s.conns[i].cursor;
    ShownIsGreatest(|s.log|, c, c);
    hide Shown;
    assert s.log[start - 1..c] == s.log[start - 1..c - 1] + [s.log[c - 1]];
  }

  lemma SliceOfPrefix(x: seq<Entry>, y: seq<Entry>, a: nat, b: nat)
    requires a <= b <= |x| && x <= y
    ensures x[a..b] == y[a..b]
  {
  }

  lemma StepIsContiguous(env: Env, s: State, e: Event, i: nat, start: nat)
    requires Sane(env, s) && Enabled(env, s, e) && Contiguous(s, i, start)
    requires e.Join? || e.Subscribe? ==> e.i != i
    requires e == Poll(i) ==> |s.log| - s.conns[i].cursor < RING_CAPACITY
    ensures Contiguous(Step(env, s, e), i, start)
  {
    hide Described, AllLogged, Shown, Stored, VerdictFor;
    match e
    case Submit(m) =>
      if s.conns[i].cursor != start {
        SliceOfPrefix(s.log, Submitted(env, s, m).log, start - 1, s.conns[i].cursor - 1);
      }
    case Poll(j) =>
      if j == i { PollIsContiguous(s, i, start); }
    case Join(_, _) | Leave(_) | Subscribe(_, _) | Acknowledge(_) =>
  }

  /** A subscriber that is never a whole ring behind receives the log contiguously from
      where it started, with no gap and no repeat. */
  lemma {:induction false} ReceivesContiguously(env: Env, ss: seq<State>, es: seq<Event>, i: nat, from: nat, a: nat, b: nat)
    requires Run(env, ss, es) && a < b < |ss| == |es| + 1 && es[a] == Subscribe(i, from) && KeepsUp(ss, es, i, a + 1, b)
    ensures Contiguous(ss[b], i, StartOf(|ss[a].log|, from))
  {
    hide Sane, Initial, Contiguous, StartOf, Enabled, Step, Next, Run;
    NextOf(env, ss, es, b - 1);
    AlwaysSane(env, ss, es, b - 1);
    if b == a + 1 {
      StartsContiguous(env, ss[a], i, from);
    } else {
      ReceivesContiguously(env, ss, es, i, from, a, b - 1);
      StepIsContiguous(env, ss[b - 1], es[b - 1], i, StartOf(|ss[a].log|, from));
    }
  }

  lemma StartsContiguous(env: Env, s: State, i: nat, from: nat)
    requires Sane(env, s) && Enabled(env, s, Subscribe(i, from))
    ensures Contiguous(Step(env, s, Subscribe(i, from)), i, StartOf(|s.log|, from))
  {
    hide Described, AllLogged;
  }

  /** In every run, if no boot id of a sensor returns, its admitted sequence numbers strictly
      increase within a boot id over the whole log. */
  lemma AdmittedOnceInLog(env: Env, ss: seq<State>, es: seq<Event>, k: nat, v: nat, w: nat)
    requires Run(env, ss, es) && k < |ss| && v < w < |ss[k].log|
    requires var (x, y) := (ss[k].log[v], ss[k].log[w]);
             && x.reason == AdmitOk && y.reason == AdmitOk
             && SampleOf(x.obs).sensor == SampleOf(y.obs).sensor && x.obs.bootId == y.obs.bootId
             && NoBootReturns(AdmittedOf(ss[k].log, SampleOf(x.obs).sensor))
    ensures ss[k].log[v].obs.sequence < ss[k].log[w].obs.sequence
  {
    hide Run, NoBootReturns, AllLogged;
    var log := ss[k].log;
    var name := SampleOf(log[v].obs).sensor;
    AlwaysSane(env, ss, es, k);
    assert Described(env, ss[k], name);
    Position(log, name, v);
    Position(log, name, w);
    AdmittedPrefix(log[..w], name, v + 1);
    assert log[..w][..v + 1] == log[..v + 1];
    var (i, j) := (|AdmittedOf(log[..v], name)|, |AdmittedOf(log[..w], name)|);
    AtMostOnce(env.cfg, AdmittedOf(log, name), i, j);
  }

  lemma {:induction false} AdmittedPrefix(log: seq<Entry>, name: Bytes, n: nat)
    requires n <= |log|
    ensures AdmittedOf(log[..n], name) <= AdmittedOf(log, name)
  {
    if n < |log| {
      AdmittedPrefix(log[..|log| - 1], name, n);
      assert log[..|log| - 1][..n] == log[..n];
    } else {
      assert log[..n] == log;
    }
  }

  /** Where an admitted entry stands among its sensor's admissions. */
  lemma Position(log: seq<Entry>, name: Bytes, v: nat)
    requires v < |log| && log[v].reason == AdmitOk && SampleOf(log[v].obs).sensor == name
    ensures var i := |AdmittedOf(log[..v], name)|;
            && i + 1 == |AdmittedOf(log[..v + 1], name)| <= |AdmittedOf(log, name)|
            && AdmittedOf(log, name)[i] == SampleOf(log[v].obs)
  {
    assert log[..v + 1] == log[..v] + [log[v]];
    LogSnoc(log[..v], log[v], name);
    AdmittedPrefix(log, name, v + 1);
  }

  /** Only valid observations are ever admitted. */
  lemma {:induction false} AdmittedAreSound(env: Env, ss: seq<State>, es: seq<Event>, k: nat, w: nat)
    requires Run(env, ss, es) && k < |ss| && w < |ss[k].log| && ss[k].log[w].reason == AdmitOk
    ensures env.floats.Good() && ObservationCheck.Sound(env.floats, ss[k].log[w].obs)
  {
    hide ObservationCheck.Sound, Settled, Stored, Tracked, IsPending;
    if k > 0 {
      var s := ss[k - 1];
      NextOf(env, ss, es, k - 1);
      if w < |s.log| {
        LogGrows(env, ss, es, k - 1, k);
        AdmittedAreSound(env, ss, es, k - 1, w);
      }
    }
  }

  /** Every connected broker is less than `bound` windows behind. */
  ghost predicate LagsBelow(s: State, bound: nat) {
    forall i :: 0 <= i < |s.conns| && Subscribed(s.conns[i]) ==> |s.log| + 1 - s.conns[i].nextSeq < bound
  }

  /** Backpressure: an admission shows that no connected broker was as far behind as the bound,
      exactly when none was so far behind that its lag passes 32 bits. */
  lemma AdmissionBoundsLag(env: Env, s: State, m: Submission)
    requires Enabled(env, s, Submit(m)) && HasRoom(s.tracks, CString(m.obs.sensorId))
    requires VerdictFor(env, s.tracks, m.obs, m.pending) == AdmitOk
    ensures LagsBelow(s, env.cfg.maxPending) <==> LagsBelow(s, TWO_32)
  {
    assert m.pending < env.cfg.maxPending;
    hide VerdictFor;
  }

  // ---------------------------------------------------- rejected windows count too

  ghost function AfterAll(env: Env, s: State, ms: seq<Submission>): State
    requires env.floats.Good()
  {
    if ms == [] then s else Submitted(env, AfterAll(env, s, ms[..|ms| - 1]), ms[|ms| - 1])
  }

  /** Submissions from known sensors each take a window, whatever the verdict; so a cursor
      left alone for a ring's length of them, admitted or refused, is lapped. */
  lemma {:induction false} SlowCursorIsLapped(env: Env, s: State, ms: seq<Submission>)
    requires env.floats.Good()
    requires forall k :: 0 <= k < |ms| ==> Known(s.tracks, ms[k])
    ensures var t := AfterAll(env, s, ms);
            && |t.log| == |s.log| + |ms| && t.conns == s.conns && |t.tracks| == |s.tracks|
            && (forall k :: 0 <= k < |s.tracks| ==> t.tracks[k].sensor == s.tracks[k].sensor)
            && forall c: nat :: 1 <= c <= |s.log| && |ms| >= RING_CAPACITY ==> Shown(|t.log|, c) > c
  {
    hide Verdict, Tracked, Stored, ObservationCheck.Sound;
    if ms != [] {
      var (front, m) := (ms[..|ms| - 1], ms[|ms| - 1]);
      SlowCursorIsLapped(env, s, front);
      var u := AfterAll(env, s, front);
      var name := CString(m.obs.sensorId);
      assert Known(s.tracks, m);
      FindTrackIs(u.tracks, name, FindTrack(s.tracks, name));
      TrackedKeepsName(u.tracks[FindTrack(u.tracks, name)], SampleOf(m.obs));
    }
    var head := |s.log| + |ms|;
    forall c: nat | 1 <= c <= |s.log| && |ms| >= RING_CAPACITY
      ensures Shown(head, c) > c
    {
      ShownIsGreatest(head, c, c);
    }
  }

  ghost predicate Known(tracks: seq<Track>, m: Submission) {
    FindTrack(tracks, CString(m.obs.sensorId)) < |tracks|
  }

  // -------------------------------------------------------------- the segment file

  /** One whole record for each entry of a log. */
  ghost predicate Holds(log: seq<Entry>, rs: seq<JournalFile.Record>) {
    && |rs| == |log| && JournalFile.AllFit(rs)
    && forall k :: 0 <= k < |rs| ==>
         rs[k].window == log[k].window && rs[k].reason == ReasonCode(log[k].reason) && rs[k].obs == log[k].obs
  }

  /** The file is what it was, and one record for each window. */
  ghost predicate FileHolds(before: Bytes, s: State, rs: seq<JournalFile.Record>) {
    Holds(s.log, rs) && s.file == before + JournalFile.FileOf(rs)
  }

  /** Every submission that takes a window also gets its record stored whole. */
  ghost predicate StoresAll(ss: seq<State>, es: seq<Event>) {
    && |ss| == |es| + 1
    && forall k :: 0 <= k < |es| && es[k].Submit? ==> StoresWhole(ss[k], es[k].m)
  }

  ghost predicate StoresWhole(s: State, m: Submission) {
    && m.obs.CountsFit() && |s.log| + 1 < TWO_64
    && JournalFile.HEADER_LEN + |WireObservation.Image(m.obs)| <= m.room
  }

  /** Then the log stands in the file, behind what the segment held when the daemon opened it. */
  lemma {:induction false} FileIsLog(env: Env, ss: seq<State>, es: seq<Event>, k: nat) returns (rs: seq<JournalFile.Record>)
    requires Run(env, ss, es) && StoresAll(ss, es) && k < |ss|
    ensures FileHolds(ss[0].file, ss[k], rs)
  {
    hide JournalFile.FileOf, JournalFile.RecordImage, Verdict, Tracked, Settled;
    if k == 0 {
      rs := [];
      JournalFile.NoRecords();
      assert ss[0].file + [] == ss[0].file;
    } else {
      rs := FileIsLog(env, ss, es, k - 1);
      var (s, e) := (ss[k - 1], es[k - 1]);
      NextOf(env, ss, es, k - 1);
      if e.Submit? && HasRoom(s.tracks, CString(e.m.obs.sensorId)) {
        AlwaysSane(env, ss, es, k - 1);
        hide Run, Sane, VerdictFor;
        rs := StoredRecord(env, ss[0].file, s, e.m, rs);
      }
    }
  }

  lemma StoredRecord(env: Env, before: Bytes, s: State, m: Submission, rs: seq<JournalFile.Record>)
    returns (more: seq<JournalFile.Record>)
    requires env.floats.Good() && HasRoom(s.tracks, CString(m.obs.sensorId)) && FileHolds(before, s, rs) && StoresWhole(s, m)
    ensures FileHolds(before, Submitted(env, s, m), more)
  {
    hide JournalFile.FileOf, JournalFile.RecordImage, VerdictFor, Settled, Tracked;
    var reason := VerdictFor(env, s.tracks, m.obs, m.pending);
    var r := RecordFor(m, |s.log| + 1, reason);
    more := rs + [r];
    JournalFile.FileOfSnoc(rs, r);
    assert before + JournalFile.FileOf(rs) + JournalFile.RecordImage(r) == before + JournalFile.FileOf(more);
  }

  // --------------------------------------------------------- several lives of the daemon

  /** One life of the daemon process, from start to exit. */
  datatype Life = Life(ss: seq<State>, es: seq<Event>)
  {
    ghost predicate Is(env: Env) {
      |ss| == |es| + 1 && Run(env, ss, es) && StoresAll(ss, es)
    }

    ghost function Log(): seq<Entry> {
      if ss == [] then [] else ss[|ss| - 1].log
    }

    ghost function Before(): Bytes {
      if ss == [] then [] else ss[0].file
    }

    ghost function After(): Bytes {
      if ss == [] then [] else ss[|ss| - 1].file
    }
  }

  /** Lives that open one segment for append in turn, empty at first, and store all they log. */
  ghost predicate Chained(env: Env, lives: seq<Life>) {
    && (forall k :: 0 <= k < |lives| ==> lives[k].Is(env))
    && forall k :: 0 <= k < |lives| ==> lives[k].Before() == FileAfter(lives, k)
  }

  /** The segment after the first `k` lives. */
  ghost function FileAfter(lives: seq<Life>, k: nat): Bytes
    requires k <= |lives|
  {
    if k == 0 then [] else lives[k - 1].After()
  }

  /** What the first `k` lives logged, one after the other. */
  ghost function LoggedBy(lives: seq<Life>, k: nat): seq<Entry>
    requires k <= |lives|
  {
    if k == 0 then [] else LoggedBy(lives, k - 1) + lives[k - 1].Log()
  }

  lemma LifeIs(env: Env, lives: seq<Life>, k: nat)
    requires Chained(env, lives) && k < |lives|
    ensures var (ss, es) := (lives[k].ss, lives[k].es);
            && |ss| == |es| + 1 && Run(env, ss, es) && StoresAll(ss, es)
            && ss[0].file == FileAfter(lives, k) && ss[|es|].file == FileAfter(lives, k + 1)
            && LoggedBy(lives, k + 1) == LoggedBy(lives, k) + ss[|es|].log && lives[k].Log() == ss[|es|].log
  {
    hide Run, StoresAll;
    assert lives[k].Is(env);
  }

  lemma HoldsTogether(a: seq<Entry>, rs: seq<JournalFile.Record>, b: seq<Entry>, qs: seq<JournalFile.Record>)
    requires Holds(a, rs) && Holds(b, qs)
    ensures Holds(a + b, rs + qs) && JournalFile.AllFit(rs) && JournalFile.AllFit(qs)
  {
  }

  lemma HoldsNothing()
    ensures Holds([], []) && JournalFile.FileOf([]) == []
  {
  }

  lemma {:induction false} SegmentHolds(env: Env, lives: seq<Life>, k: nat) returns (rs: seq<JournalFile.Record>)
    requires Chained(env, lives) && k <= |lives|
    ensures Holds(LoggedBy(lives, k), rs) && JournalFile.AllFit(rs) && FileAfter(lives, k) == JournalFile.FileOf(rs)
  {
    hide Holds, Run, StoresAll, Chained, JournalFile.FileOf, JournalFile.AllFit;
    HoldsNothing();
    if k == 0 {
      rs := [];
      JournalFile.NoRecords();
    } else {
      var before := SegmentHolds(env, lives, k - 1);
      LifeIs(env, lives, k - 1);
      var l := lives[k - 1];
      var own := FileIsLog(env, l.ss, l.es, |l.es|);
      rs := before + own;
      HoldsTogether(LoggedBy(lives, k - 1), before, l.ss[|l.es|].log, own);
      JournalFile.FileOfConcat(before, own);
    }
  }

  lemma {:induction false} LoggedGrows(lives: seq<Life>, k: nat, n: nat)
    requires k <= n <= |lives|
    ensures LoggedBy(lives, k) <= LoggedBy(lives, n)
  {
    if k < n { LoggedGrows(lives, k, n - 1); }
  }

  /** A segment that spans several lives reads back whole as all their logs, and each life
      begins again at window 1. */
  lemma WindowsRestart(env: Env, lives: seq<Life>, k: nat, w: nat) returns (rs: seq<JournalFile.Record>)
    requires Chained(env, lives) && k < |lives| && w < |lives[k].Log()|
    ensures Holds(LoggedBy(lives, |lives|), rs) && JournalFile.AllFit(rs)
    ensures JournalFile.ReadsOf(FileAfter(lives, |lives|))
            == JournalFile.Reads(JournalFile.Entries(rs), |FileAfter(lives, |lives|)|, JournalFile.NotFound)
    ensures var place := |LoggedBy(lives, k)| + w;
            && place < |rs| && LoggedBy(lives, |lives|)[place] == lives[k].Log()[w]
            && JournalFile.Entries(rs)[place].header.window == w + 1
  {
    hide *;
    rs := SegmentHolds(env, lives, |lives|);
    JournalFile.WholeFileReads(rs);
    LifeIs(env, lives, k);
    var l := lives[k];
    AlwaysSane(env, l.ss, l.es, |l.es|);
    LogIsNumbered(env, l.ss[|l.es|], w);
    LoggedGrows(lives, k + 1, |lives|);
    HeldAt(LoggedBy(lives, |lives|), rs, |LoggedBy(lives, k)| + w);
  }

  lemma LogIsNumbered(env: Env, s: State, w: nat)
    requires Sane(env, s) && w < |s.log|
    ensures s.log[w].window == w + 1
  {
    hide Described;
  }

  lemma HeldAt(log: seq<Entry>, rs: seq<JournalFile.Record>, place: nat)
    requires Holds(log, rs) && JournalFile.AllFit(rs) && place < |log|
    ensures place < |rs| && JournalFile.Entries(rs)[place].header.window == log[place].window
  {
  }
}
