/** Sensors do not interfere: what is submitted under one name leaves every other name's track, and so its
    later verdicts, as they were. And what a name without an end does. */
module JournalTracks {
  import opened Machine
  import opened Admission
  import opened Journal
  import opened JournalRuns
  import WireObservation
  import ObservationCheck

  /** The track of a name, if it has one. */
  function TrackOf(tracks: seq<Track>, name: Bytes): Option<Track> {
    var i := FindTrack(tracks, name);
    if i < |tracks| then Some(tracks[i]) else None
  }

  predicate Terminated(o: Observation) {
    0 in o.sensorId
  }

  lemma ShortName(o: Observation)
    requires Terminated(o)
    ensures FreshTrack(CString(o.sensorId)).sensor == CString(o.sensorId)
  {
  }

  lemma SettledTrack(tracks: seq<Track>, name: Bytes, other: Bytes)
    requires HasRoom(tracks, name) && FreshTrack(name).sensor == name && other != name
    ensures TrackOf(Settled(tracks, name), other) == TrackOf(tracks, other)
  {
    SettledFind(tracks, name, other);
    if FindTrack(tracks, other) == |tracks| {
      FindTrackIs(Settled(tracks, name), other, |Settled(tracks, name)|);
    }
  }

  lemma UpdatedTrack(tracks: seq<Track>, i: nat, t: Track, other: Bytes)
    requires i < |tracks| && t.sensor == tracks[i].sensor && tracks[i].sensor != other
    ensures TrackOf(tracks[i := t], other) == TrackOf(tracks, other)
  {
    FindAfterUpdate(tracks, i, t, other);
  }

  /** A submission leaves the tracks of all other names alone. */
  lemma SubmissionLeavesOthers(env: Env, s: State, m: Submission, other: Bytes)
    requires env.floats.Good() && Terminated(m.obs) && other != CString(m.obs.sensorId)
    ensures TrackOf(Submitted(env, s, m).tracks, other) == TrackOf(s.tracks, other)
  {
    var name := CString(m.obs.sensorId);
    if HasRoom(s.tracks, name) {
      ShortName(m.obs);
      SettledTrack(s.tracks, name, other);
      var (ts, i) := (Settled(s.tracks, name), FindTrack(s.tracks, name));
      FindTrackIs(ts, name, i);
      TrackedKeepsName(ts[i], SampleOf(m.obs));
      UpdatedTrack(ts, i, Tracked(ts[i], SampleOf(m.obs)), other);
      hide TrackOf, Tracked, VerdictFor, Stored, Settled, CString;
    }
  }

  /** No event from `a` to `b` submits under this name, and all submitted names end. */
  ghost predicate OthersOnly(es: seq<Event>, a: nat, b: nat, name: Bytes)
    requires a <= b <= |es|
  {
    forall k :: a <= k < b && es[k].Submit? ==> Terminated(es[k].m.obs) && CString(es[k].m.obs.sensorId) != name
  }

  lemma {:induction false} OthersKeepTheTrack(env: Env, ss: seq<State>, es: seq<Event>, a: nat, b: nat, name: Bytes)
    requires Run(env, ss, es) && a <= b < |ss| == |es| + 1 && OthersOnly(es, a, b, name)
    ensures TrackOf(ss[b].tracks, name) == TrackOf(ss[a].tracks, name)
  {
    hide Run, TrackOf, CString;
    if a < b {
      OthersKeepTheTrack(env, ss, es, a, b - 1, name);
      NextOf(env, ss, es, b - 1);
      StepLeavesTrack(env, ss[b - 1], es[b - 1], name);
    }
  }

  lemma StepLeavesTrack(env: Env, s: State, e: Event, name: Bytes)
    requires Enabled(env, s, e) && (e.Submit? ==> Terminated(e.m.obs) && CString(e.m.obs.sensorId) != name)
    ensures TrackOf(Step(env, s, e).tracks, name) == TrackOf(s.tracks, name)
  {
    hide TrackOf, CString, Submitted, IsPending;
    if e.Submit? { SubmissionLeavesOthers(env, s, e.m, name); }
  }

  /** A verdict depends on the name's own track alone, as long as it has one or finds room. */
  lemma VerdictOfTrack(env: Env, xs: seq<Track>, ys: seq<Track>, o: Observation, pending: nat)
    requires env.floats.Good() && HasRoom(xs, CString(o.sensorId)) && HasRoom(ys, CString(o.sensorId))
    requires TrackOf(xs, CString(o.sensorId)) == TrackOf(ys, CString(o.sensorId))
    ensures VerdictFor(env, xs, o, pending) == VerdictFor(env, ys, o, pending)
  {
    hide Verdict, ObservationCheck.Sound, CString;
  }

  /** So over any run the verdict on an observation is not touched by what was submitted under other names. */
  lemma OthersDoNotMatter(env: Env, ss: seq<State>, es: seq<Event>, a: nat, b: nat, o: Observation, pending: nat)
    requires Run(env, ss, es) && a <= b < |ss| == |es| + 1 && OthersOnly(es, a, b, CString(o.sensorId))
    requires env.floats.Good() && HasRoom(ss[a].tracks, CString(o.sensorId)) && HasRoom(ss[b].tracks, CString(o.sensorId))
    ensures VerdictFor(env, ss[b].tracks, o, pending) == VerdictFor(env, ss[a].tracks, o, pending)
  {
    hide Run, TrackOf, VerdictFor, CString, HasRoom;
    OthersKeepTheTrack(env, ss, es, a, b, CString(o.sensorId));
    VerdictOfTrack(env, ss[a].tracks, ss[b].tracks, o, pending);
  }

  // ----------------------------------------------------------------- names without an end

  /** Tracks store at most 31 characters. */
  predicate ShortNames(tracks: seq<Track>) {
    forall i :: 0 <= i < |tracks| ==> |tracks[i].sensor| < WireObservation.SENSOR_ID_LEN
  }

  lemma SubmissionKeepsShort(env: Env, s: State, m: Submission)
    requires env.floats.Good() && ShortNames(s.tracks)
    ensures ShortNames(Submitted(env, s, m).tracks)
  {
    var name := CString(m.obs.sensorId);
    if HasRoom(s.tracks, name) && VerdictFor(env, s.tracks, m.obs, m.pending) == AdmitOk {
      ObservationCheck.SoundFits(env.floats, m.obs);
    }
    hide Stored, ObservationCheck.Sound, CString;
  }

  lemma {:induction false} NamesStayShort(env: Env, ss: seq<State>, es: seq<Event>, k: nat)
    requires Run(env, ss, es) && k < |ss|
    ensures ShortNames(ss[k].tracks)
  {
    hide Submitted, IsPending, ShortNames;
    if k > 0 {
      NamesStayShort(env, ss, es, k - 1);
      NextOf(env, ss, es, k - 1);
      var (s, e) := (ss[k - 1], es[k - 1]);
      if e.Submit? { SubmissionKeepsShort(env, s, e.m); }
    } else {
      NoNames();
    }
  }

  lemma NoNames()
    ensures ShortNames([])
  {
  }

  /** In every run: a submission whose name does not end is refused, and takes one more track each time,
      because no stored name ever equals it. Once all tracks are taken it changes nothing. */
  lemma EndlessNameTakesATrack(env: Env, ss: seq<State>, es: seq<Event>, k: nat)
    requires Run(env, ss, es) && k < |es| < |ss| && es[k].Submit? && !Terminated(es[k].m.obs)
    ensures var (s, t, m) := (ss[k], ss[k + 1], es[k].m);
            if |s.tracks| < MAX_TRACKS then
              |t.tracks| == |s.tracks| + 1 && |t.log| == |s.log| + 1 && t.log[|s.log|].reason == RejectValidation
            else t == s
  {
    NextOf(env, ss, es, k);
    NamesStayShort(env, ss, es, k);
    var (s, m) := (ss[k], es[k].m);
    CStringIs(m.obs.sensorId);
    WholeName(m.obs);
    EndlessIsUnsound(env, m.obs);
    hide Run, ObservationCheck.Sound, CString, Stored, IsPending;
    assert FindTrack(s.tracks, CString(m.obs.sensorId)) == |s.tracks|;
  }

  lemma WholeName(o: Observation)
    requires !Terminated(o)
    ensures |CString(o.sensorId)| == WireObservation.SENSOR_ID_LEN
  {
    CStringIs(o.sensorId);
  }

  lemma EndlessIsUnsound(env: Env, o: Observation)
    requires env.floats.Good() && !Terminated(o)
    ensures !ObservationCheck.Sound(env.floats, o)
  {
    if ObservationCheck.Sound(env.floats, o) { ObservationCheck.SoundFits(env.floats, o); }
  }

  // ------------------------------------------------------------------ what slots report

  /** A subscriber's reported window never runs ahead of what it has been handed. */
  ghost predicate NotAhead(s: State) {
    forall i :: 0 <= i < |s.conns| && s.conns[i].cursor > 0 ==> 1 <= s.conns[i].nextSeq <= s.conns[i].cursor
  }

  /** In every run a connected broker's reported window is at most its cursor, so the lag that backpressure
      sees is never less than the true one. */
  lemma {:induction false} NeverAhead(env: Env, ss: seq<State>, es: seq<Event>, k: nat)
    requires Run(env, ss, es) && k < |ss|
    ensures NotAhead(ss[k])
  {
    hide Submitted, IsPending, Shown;
    if k > 0 {
      NeverAhead(env, ss, es, k - 1);
      NextOf(env, ss, es, k - 1);
      ConnsOfStep(env, ss[k - 1], es[k - 1]);
    }
  }

  /** Right after it has subscribed or reported, it equals the cursor. */
  lemma ReportIsCurrent(env: Env, ss: seq<State>, es: seq<Event>, k: nat, i: nat)
    requires Run(env, ss, es) && k < |es| < |ss| && i < MAX_CONNECTIONS
    requires es[k] == Acknowledge(i) || (es[k].Subscribe? && es[k].i == i)
    ensures i < |ss[k + 1].conns| && ss[k + 1].conns[i].nextSeq == ss[k + 1].conns[i].cursor
  {
    NextOf(env, ss, es, k);
    hide Run, StartOf;
  }

  lemma ConnsOfStep(env: Env, s: State, e: Event)
    requires Enabled(env, s, e) && NotAhead(s)
    ensures NotAhead(Step(env, s, e))
  {
    hide Shown, IsPending, VerdictFor, Stored, Settled, Tracked;
  }
}
