/** Admission of one sensor's observations, and what runs of admissions keep. */
module Admission {
  import opened Machine

  datatype Config = Config(reorderWindow: u64, maxLateness: i64, maxPending: u32)

  /** What admission looks at; the sensor name is the C string in the observation. */
  datatype Sample = Sample(sensor: Bytes, boot: u64, sequence: u64, time: i64)

  datatype Reason = AdmitOk | RejectValidation | RejectDuplicate | RejectLate | RejectOverflow

  datatype Track = Track(sensor: Bytes, boot: u64, hasData: bool, highest: u64, watermark: i64)

  predicate NewSession(t: Track, s: Sample) {
    !t.hasData || t.boot != s.boot
  }

  function Verdict(cfg: Config, t: Track, s: Sample, valid: bool, pending: nat): Reason {
    if !valid then RejectValidation
    else if !NewSession(t, s) && s.sequence <= t.highest then
      if t.highest - s.sequence > cfg.reorderWindow then RejectLate else RejectDuplicate
    else if !NewSession(t, s) && s.time < t.watermark - cfg.maxLateness then RejectLate
    else if pending >= cfg.maxPending then RejectOverflow
    else AdmitOk
  }

  function Tracked(t: Track, s: Sample): Track {
    Track(s.sensor, s.boot, true, s.sequence, if NewSession(t, s) || s.time > t.watermark then s.time else t.watermark)
  }

  /** Decides about one observation and updates its track in place only when it is admitted. */
  method Admit(cfg: Config, tracks: array<Track>, i: nat, s: Sample, valid: bool, pending: nat) returns (reason: Reason)
    requires i < tracks.Length
    modifies tracks
    ensures reason == Verdict(cfg, old(tracks[i]), s, valid, pending)
    ensures tracks[..] == if reason == AdmitOk then old(tracks[..])[i := Tracked(old(tracks[i]), s)] else old(tracks[..])
  {
    if !valid { return RejectValidation; }
    var newSession := !tracks[i].hasData || tracks[i].boot != s.boot;
    if !newSession {
      if s.sequence <= tracks[i].highest {
        var behind := tracks[i].highest - s.sequence;
        return if behind > cfg.reorderWindow then RejectLate else RejectDuplicate;
      }
      if s.time < tracks[i].watermark - cfg.maxLateness { return RejectLate; }
    }
    if pending >= cfg.maxPending { return RejectOverflow; }
    var watermark := tracks[i].watermark;
    tracks[i] := Track(s.sensor, s.boot, true, s.sequence, watermark);
    if newSession || s.time > watermark {
      tracks[i] := tracks[i].(watermark := s.time);
    }
    return AdmitOk;
  }

  // ---------------------------------------------------- what a track says of the past

  /** The greatest sample time since the boot id last changed. */
  function SessionMax(past: seq<Sample>): i64
    requires past != []
  {
    var n := |past| - 1;
    if n == 0 || past[n - 1].boot != past[n].boot || past[n].time > SessionMax(past[..n]) then past[n].time
    else SessionMax(past[..n])
  }

  /** Position `k` belongs to the session the history ends in. */
  ghost predicate InLastSession(past: seq<Sample>, k: nat)
    requires past != []
  {
    k < |past| && forall j :: k <= j < |past| ==> past[j].boot == past[|past| - 1].boot
  }

  /** `m` is the greatest sample time of the session a history ends in. */
  ghost predicate IsSessionMax(past: seq<Sample>, m: i64)
    requires past != []
  {
    && (exists k: nat :: InLastSession(past, k) && past[k].time == m)
    && forall k: nat :: InLastSession(past, k) ==> past[k].time <= m
  }

  lemma {:induction false} SessionMaxIsMax(past: seq<Sample>)
    requires past != []
    ensures exists k: nat :: InLastSession(past, k) && past[k].time == SessionMax(past)
    ensures forall k: nat :: InLastSession(past, k) ==> past[k].time <= SessionMax(past)
  {
    var n := |past| - 1;
    if n > 0 && past[n - 1].boot == past[n].boot {
      SessionMaxIsMax(past[..n]);
      SessionLonger(past, SessionMax(past[..n]));
    } else {
      SessionNew(past);
    }
    assert IsSessionMax(past, SessionMax(past));
  }

  /** A session begins. */
  lemma SessionNew(past: seq<Sample>)
    requires past != [] && (|past| > 1 ==> past[|past| - 2].boot != past[|past| - 1].boot)
    ensures IsSessionMax(past, past[|past| - 1].time)
  {
    var n: nat := |past| - 1;
    assert InLastSession(past, n);
    if n > 0 {
      forall k: nat | k < n
        ensures !InLastSession(past, k)
      {
        assert past[n - 1].boot != past[n].boot;
      }
    }
  }

  /** A session goes on. */
  lemma SessionLonger(past: seq<Sample>, m: i64)
    requires |past| > 1 && past[|past| - 2].boot == past[|past| - 1].boot && IsSessionMax(past[..|past| - 1], m)
    ensures IsSessionMax(past, if past[|past| - 1].time > m then past[|past| - 1].time else m)
  {
    var (n, front) := (|past| - 1, past[..|past| - 1]);
    assert InLastSession(past, n);
    var k: nat :| InLastSession(front, k) && front[k].time == m;
    SessionGoesOn(past, k);
    forall j: nat | InLastSession(past, j) && j < n
      ensures past[j].time <= m
    {
      SessionGoesOn(past, j);
    }
  }

  lemma SessionGoesOn(past: seq<Sample>, k: nat)
    requires |past| > 1 && past[|past| - 2].boot == past[|past| - 1].boot && k < |past| - 1
    ensures InLastSession(past, k) <==> InLastSession(past[..|past| - 1], k)
  {
    var front := past[..|past| - 1];
    assert forall j :: k <= j < |front| ==> front[j] == past[j];
  }

  /** The track is the summary of the admissions so far. */
  ghost predicate Describes(t: Track, past: seq<Sample>) {
    && (t.hasData <==> past != [])
    && (past != [] ==> t.boot == past[|past| - 1].boot && t.highest == past[|past| - 1].sequence && t.watermark == SessionMax(past))
  }

  /** What an admission after `past` must satisfy. */
  ghost predicate MayFollow(cfg: Config, past: seq<Sample>, s: Sample) {
    past == [] || s.boot != past[|past| - 1].boot
    || (s.sequence > past[|past| - 1].sequence && s.time >= SessionMax(past) - cfg.maxLateness)
  }

  /** Exactly when each reason is given, in terms of what was admitted before. A sequence number not above the
      session's last is a duplicate within the reorder window and late beyond it. */
  lemma ReasonIff(cfg: Config, t: Track, past: seq<Sample>, s: Sample, valid: bool, pending: nat)
    requires Describes(t, past)
    ensures var r := Verdict(cfg, t, s, valid, pending);
            var same := past != [] && past[|past| - 1].boot == s.boot;
            var behind := if same then past[|past| - 1].sequence - s.sequence else -1;
            var late := same && behind < 0 && s.time < SessionMax(past) - cfg.maxLateness;
            && (r == RejectValidation <==> !valid)
            && (r == RejectDuplicate <==> valid && 0 <= behind <= cfg.reorderWindow)
            && (r == RejectLate <==> valid && (behind > cfg.reorderWindow || late))
            && (r == RejectOverflow <==> valid && behind < 0 && !late && pending >= cfg.maxPending)
            && (r == AdmitOk <==> valid && behind < 0 && !late && pending < cfg.maxPending)
  {
  }

  ghost predicate Ordered(cfg: Config, past: seq<Sample>) {
    forall k :: 0 <= k < |past| ==> MayFollow(cfg, past[..k], past[k])
  }

  lemma OrderedSnoc(cfg: Config, past: seq<Sample>, s: Sample)
    requires Ordered(cfg, past) && MayFollow(cfg, past, s)
    ensures Ordered(cfg, past + [s])
  {
    hide MayFollow;
    var q := past + [s];
    forall k | 0 <= k < |q|
      ensures MayFollow(cfg, q[..k], q[k])
    {
      assert q[..k] == if k < |past| then past[..k] else past;
    }
  }

  /** With room and a valid observation, admission is exactly the condition on the past. */
  lemma AdmittedIff(cfg: Config, t: Track, past: seq<Sample>, s: Sample, valid: bool, pending: nat)
    requires Describes(t, past)
    ensures Verdict(cfg, t, s, valid, pending) == AdmitOk <==> valid && pending < cfg.maxPending && MayFollow(cfg, past, s)
  {
  }

  lemma AdmissionDescribes(t: Track, past: seq<Sample>, s: Sample)
    requires Describes(t, past)
    ensures Describes(Tracked(t, s), past + [s])
  {
    assert (past + [s])[..|past|] == past;
  }

  // -------------------------------------------------------------------------- runs

  datatype Arrival = Arrival(sample: Sample, valid: bool, pending: nat)

  ghost function After(cfg: Config, t: Track, run: seq<Arrival>): Track {
    if run == [] then t
    else
      var (u, a) := (After(cfg, t, run[..|run| - 1]), run[|run| - 1]);
      if Verdict(cfg, u, a.sample, a.valid, a.pending) == AdmitOk then Tracked(u, a.sample) else u
  }

  ghost function Admitted(cfg: Config, t: Track, run: seq<Arrival>): seq<Sample> {
    if run == [] then []
    else
      var (u, a) := (After(cfg, t, run[..|run| - 1]), run[|run| - 1]);
      Admitted(cfg, t, run[..|run| - 1]) + if Verdict(cfg, u, a.sample, a.valid, a.pending) == AdmitOk then [a.sample] else []
  }

  /** In every run from a fresh track: each admission changes the boot id or has a larger
      sequence number and is not too late, and the track summarises the admissions. */
  lemma {:induction false} RunIsOrdered(cfg: Config, t: Track, run: seq<Arrival>)
    requires !t.hasData
    ensures Ordered(cfg, Admitted(cfg, t, run)) && Describes(After(cfg, t, run), Admitted(cfg, t, run))
  {
    hide MayFollow, Describes, Tracked, Verdict;
    if run == [] {
      NothingYet(t);
    } else {
      var (front, a) := (run[..|run| - 1], run[|run| - 1]);
      RunIsOrdered(cfg, t, front);
      var (u, past) := (After(cfg, t, front), Admitted(cfg, t, front));
      AdmittedIff(cfg, u, past, a.sample, a.valid, a.pending);
      if Verdict(cfg, u, a.sample, a.valid, a.pending) == AdmitOk {
        OrderedSnoc(cfg, past, a.sample);
        AdmissionDescribes(u, past, a.sample);
      } else {
        assert past + [] == past;
      }
    }
  }

  lemma NothingYet(t: Track)
    requires !t.hasData
    ensures Describes(t, [])
  {
  }

  /** No boot id comes back after it was replaced. */
  ghost predicate NoBootReturns(past: seq<Sample>) {
    forall i, j, k :: 0 <= i < j < k < |past| && past[i].boot == past[k].boot ==> past[j].boot == past[i].boot
  }

  /** Then within a boot id sequence numbers strictly increase: nothing is admitted twice. */
  lemma {:induction false} AtMostOnce(cfg: Config, past: seq<Sample>, i: nat, k: nat)
    requires Ordered(cfg, past) && NoBootReturns(past)
    requires i < k < |past| && past[i].boot == past[k].boot
    ensures past[i].sequence < past[k].sequence
  {
    hide SessionMax, NoBootReturns;
    assert MayFollow(cfg, past[..k], past[k]);
    if i < k - 1 {
      NoReturnAt(past, i, k - 1, k);
      AtMostOnce(cfg, past, i, k - 1);
    }
  }

  lemma NoReturnAt(past: seq<Sample>, i: nat, j: nat, k: nat)
    requires NoBootReturns(past) && i < j < k < |past| && past[i].boot == past[k].boot
    ensures past[j].boot == past[i].boot
  {
  }

  /** Between two admissions of one boot id, no other boot id was admitted. */
  ghost predicate OneSession(past: seq<Sample>, i: nat, k: nat)
    requires i <= k < |past|
  {
    forall m :: i <= m <= k ==> past[m].boot == past[k].boot
  }

  /** Within a session sequence numbers strictly increase, whatever came before it. */
  lemma {:induction false} SessionIncreases(cfg: Config, past: seq<Sample>, i: nat, k: nat)
    requires Ordered(cfg, past) && i < k < |past| && OneSession(past, i, k)
    ensures past[i].sequence < past[k].sequence
  {
    hide SessionMax;
    assert MayFollow(cfg, past[..k], past[k]);
    assert past[k - 1].boot == past[k].boot;
    if i < k - 1 {
      SessionIncreases(cfg, past, i, k - 1);
    }
  }

  /** An observation of the current session is never admitted again. */
  lemma CurrentSessionNeverAgain(cfg: Config, t: Track, past: seq<Sample>, k: nat, s: Sample, valid: bool, pending: nat)
    requires Describes(t, past) && Ordered(cfg, past) && past != [] && InLastSession(past, k)
    requires past[k].boot == s.boot && past[k].sequence == s.sequence
    ensures Verdict(cfg, t, s, valid, pending) != AdmitOk
  {
    hide Ordered, Verdict, SessionMax;
    AdmittedIff(cfg, t, past, s, valid, pending);
    if k < |past| - 1 {
      assert OneSession(past, k, |past| - 1);
      SessionIncreases(cfg, past, k, |past| - 1);
    }
  }

  /** So two admissions of the same boot id and sequence number have another boot id between them. */
  lemma TwiceMeansReturned(cfg: Config, past: seq<Sample>, i: nat, k: nat)
    requires Ordered(cfg, past) && i < k < |past| && past[i].boot == past[k].boot && past[i].sequence == past[k].sequence
    ensures !OneSession(past, i, k)
  {
    hide Ordered;
    if OneSession(past, i, k) {
      SessionIncreases(cfg, past, i, k);
      assert false;
    }
  }

  /** Exactly when an already admitted observation is admitted again, in any history: it is
      valid, there is room, and its boot id is not the current one or it runs ahead of the
      current session. */
  lemma AdmittedAgainIff(cfg: Config, t: Track, past: seq<Sample>, k: nat, s: Sample, valid: bool, pending: nat)
    requires Describes(t, past) && Ordered(cfg, past)
    requires k < |past| && past[k].boot == s.boot && past[k].sequence == s.sequence
    ensures var last := past[|past| - 1];
            && (Verdict(cfg, t, s, valid, pending) == AdmitOk <==>
                && valid && pending < cfg.maxPending
                && (s.boot != last.boot || (s.sequence > last.sequence && s.time >= SessionMax(past) - cfg.maxLateness)))
            && (Verdict(cfg, t, s, valid, pending) == AdmitOk ==> !InLastSession(past, k))
  {
    hide Ordered, Verdict, SessionMax;
    AdmittedIff(cfg, t, past, s, valid, pending);
    if InLastSession(past, k) {
      CurrentSessionNeverAgain(cfg, t, past, k, s, valid, pending);
    }
  }

  /** While no boot id has returned, that is exactly when its boot id is not the current one. */
  lemma AdmittedAgainWithoutReturns(cfg: Config, t: Track, past: seq<Sample>, k: nat, s: Sample, valid: bool, pending: nat)
    requires Describes(t, past) && Ordered(cfg, past) && NoBootReturns(past)
    requires k < |past| && past[k].boot == s.boot && past[k].sequence == s.sequence
    ensures Verdict(cfg, t, s, valid, pending) == AdmitOk <==>
            valid && pending < cfg.maxPending && s.boot != past[|past| - 1].boot
  {
    hide NoBootReturns, Ordered, Verdict, SessionMax;
    AdmittedIff(cfg, t, past, s, valid, pending);
    if s.boot == past[|past| - 1].boot && k < |past| - 1 {
      AtMostOnce(cfg, past, k, |past| - 1);
    }
  }

  /** The reorder window admits nothing: behind the last sequence number but inside the window
      is a duplicate. */
  lemma ReorderWindowNeverAdmits(cfg: Config, t: Track, a: Sample, s: Sample)
    requires !t.hasData && cfg.maxPending > 0 && s.boot == a.boot
    requires s.sequence < a.sequence <= s.sequence + cfg.reorderWindow
    ensures var run := [Arrival(a, true, 0), Arrival(s, true, 0)];
            && Admitted(cfg, t, run) == [a]
            && Verdict(cfg, After(cfg, t, run[..1]), s, true, 0) == RejectDuplicate
  {
    var (x, y) := (Arrival(a, true, 0), Arrival(s, true, 0));
    assert [x, y][..1] == [x] && [x][..0] == [];
    assert After(cfg, t, []) == t && Admitted(cfg, t, []) == [];
    assert After(cfg, t, [x]) == Tracked(t, a) && Admitted(cfg, t, [x]) == [a];
  }

  /** So without the hypothesis an observation can be admitted twice: A, B, and A again. */
  lemma ReturningBootIdReadmits(cfg: Config, t: Track, a: Sample, b: Sample)
    requires !t.hasData && a.boot != b.boot && cfg.maxPending > 0
    ensures Admitted(cfg, t, [Arrival(a, true, 0), Arrival(b, true, 0), Arrival(a, true, 0)]) == [a, b, a]
  {
    var (x, y) := (Arrival(a, true, 0), Arrival(b, true, 0));
    assert [x, y, x][..2] == [x, y] && [x, y][..1] == [x] && [x][..0] == [];
    assert After(cfg, t, []) == t && Admitted(cfg, t, []) == [];
    assert After(cfg, t, [x]) == Tracked(t, a) && Admitted(cfg, t, [x]) == [a];
    assert After(cfg, t, [x, y]) == Tracked(Tracked(t, a), b) && Admitted(cfg, t, [x, y]) == [a, b];
  }
}
