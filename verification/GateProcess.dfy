/** The gate process: handlers that are atomic under its mutex, in-memory state and
    broker views, and one durable file that is either replaced or left alone. */
module GateProcess {
  import opened Machine
  import opened Gate
  import Codec
  import Layout
  import WireResult
  import opened GateRecord

  /** Readings of a monotonic clock, in nanoseconds. */
  type Time = t: i64 | t >= 0

  datatype View = View(known: bool, readiness: Readiness, lastHeard: Time)

  datatype Config = Config(requirements: Requirements, confirmTimeout: i64)

  datatype HeartbeatMsg = HeartbeatMsg(broker: u32, readiness: Readiness)

  /** `disk` says whether the replacement of the state file succeeds. */
  datatype Event =
    | Heartbeat(hb: HeartbeatMsg, now: Time, disk: bool)
    | Publish(result: Result, now: Time, disk: bool)
    | Restart

  /** `up` is false once the process has refused to start. */
  datatype World = World(up: bool, state: State, viewA: View, viewB: View, file: Option<Bytes>)

  datatype AckStatus =
    | AckOk
    | AckPersistence
    | AckNotOwner
    | AckStaleEpoch
    | AckDuplicateWindow
    | AckExpired
    | AckIncompatible
    | AckInternal

  const BLANK: State := State(GATE_STATE_SIZE, 1, 0, NONE, [])

  function Unheard(): View {
    View(false, Readiness(0, seq(DIGEST_LEN, _ => 0), 0, 0), 0)
  }

  function Deployed(): World {
    World(true, BLANK, Unheard(), Unheard(), None)
  }

  ghost predicate Sane(w: World) {
    |w.state.pipelines| <= MAX_PIPELINES && w.state.owner <= B
  }

  function ViewOf(w: World, broker: u32): View {
    if broker == A then w.viewA else w.viewB
  }

  function Other(broker: u32): u32 {
    if broker == A then B else A
  }

  // --------------------------------------------------------------- specification

  ghost function Persisted(w: World, disk: bool): World
    requires Sane(w)
  {
    if disk then w.(file := Some(Record(w.state))) else w
  }

  /** Whether the current owner has been silent for too long. */
  predicate OwnerStale(c: Config, w: World, now: Time) {
    var v := ViewOf(w, w.state.owner);
    v.known && now - v.lastHeard > c.confirmTimeout
  }

  /** Whom an evaluation promotes, if anyone. */
  function Candidate(c: Config, w: World, now: Time): Option<u32> {
    if w.state.owner == NONE then
      if w.viewA.known && w.viewA.readiness.healthy != 0 then Some(A) else None
    else
      var other := Other(w.state.owner);
      var v := ViewOf(w, other);
      if OwnerStale(c, w, now) && v.known
         && ShadowPromotable(v.readiness, c.requirements, MaxLast(w.state.pipelines))
      then Some(other) else None
  }

  ghost function Evaluated(c: Config, w: World, now: Time, disk: bool): World
    requires Sane(w)
  {
    match Candidate(c, w, now)
    case None => w
    case Some(b) => Persisted(w.(state := Promoted(w.state, b)), disk)
  }

  function Heard(w: World, hb: HeartbeatMsg, now: Time): World {
    var v := View(true, hb.readiness, now);
    if hb.broker == A then w.(viewA := v) else if hb.broker == B then w.(viewB := v) else w
  }

  ghost function AfterHeartbeat(c: Config, w: World, hb: HeartbeatMsg, now: Time, disk: bool): World
    requires Sane(w)
  {
    if hb.broker != A && hb.broker != B then w else Evaluated(c, Heard(w, hb, now), now, disk)
  }

  ghost function AfterPublish(w: World, r: Result, now: Time, disk: bool): World
    requires Sane(w)
  {
    var (o, t) := Decide(w.state, r, now);
    DecideMarks(w.state, r, now);
    var w' := w.(state := t);
    if o == Commit then Persisted(w', disk) else w'
  }

  /** What the gate looks at in a decoded result. */
  function Seen(r: WireResult.Result, fingerprint: WireResult.Result -> Digest): Result {
    Result(r.structSize, r.schemaVersion, r.pipelineId, r.window, r.broker, r.epoch, r.validUntil, fingerprint(r))
  }

  /** A result that arrives encoded is compatible exactly when its schema is: decoding sets the
      struct size, and keeps every field a decision depends on. */
  lemma SentResultIsSeen(r: WireResult.Result, fingerprint: WireResult.Result -> Digest)
    requires r.CountsFit()
    ensures var d := Layout.Decoded(WireResult.ResultShape(), Layout.Image(WireResult.ResultShape(), r));
            && d.Some? && (Compatible(Seen(d.value, fingerprint)) <==> r.schemaVersion == RESULT_SCHEMA)
            && Seen(d.value, fingerprint) == Seen(r, fingerprint).(structSize := RESULT_SIZE, content := fingerprint(d.value))
  {
    WireResult.ResultIsLawful();
    Layout.RoundTrip(WireResult.ResultShape(), r, []);
    var image := Layout.Image(WireResult.ResultShape(), r);
    assert image + [] == image;
  }

  /** A publish is acknowledged as accepted exactly when it commits and persists. */
  predicate Accepted(w: World, r: Result, now: Time, disk: bool) {
    Decide(w.state, r, now).0 == Commit && disk
  }

  function AckStatusOf(o: Outcome, persisted: bool): AckStatus {
    match o
    case Commit => if persisted then AckOk else AckPersistence
    case ShadowRecorded => AckOk
    case NotOwner => AckNotOwner
    case StaleEpoch => AckStaleEpoch
    case DuplicateWindow => AckDuplicateWindow
    case Expired => AckExpired
    case Incompatible => AckIncompatible
    case NoCapacity => AckInternal
  }

  /** Exactly when each answer is given to a publish. */
  lemma AnswerIff(s: State, r: Result, now: Time, disk: bool)
    ensures var (a, live) := (AckStatusOf(Decide(s, r, now).0, disk), Live(s, r, now));
            var compatible := r.structSize == RESULT_SIZE && r.schemaVersion == RESULT_SCHEMA;
            var shadow := live && s.owner != NONE && r.broker != s.owner && s.epoch <= r.epoch;
            var current := live && s.owner != NONE && r.broker == s.owner && r.epoch == s.epoch;
            var above := High(s, r.pipeline).Some? ==> High(s, r.pipeline).value < r.window;
            && (a == AckOk <==> shadow || (current && above && disk))
            && (a == AckPersistence <==> current && above && !disk)
            && (a == AckDuplicateWindow <==> current && !above)
            && (a == AckStaleEpoch <==>
                live && s.owner != NONE && r.epoch != s.epoch && (r.broker == s.owner || r.epoch < s.epoch))
            && (a == AckNotOwner <==> live && s.owner == NONE)
            && (a == AckExpired <==> compatible && r.validUntil <= now)
            && (a == AckIncompatible <==> !compatible)
            && (a == AckInternal <==> compatible && now < r.validUntil && !live)
  {
    OutcomeIff(s, r, now);
    hide Decide, Live, High;
  }

  /** Loading at start-up: no file means a blank state, a bad file means no start. */
  ghost function Restarted(w: World): World {
    var blank := World(true, BLANK, Unheard(), Unheard(), w.file);
    match w.file
    case None => blank
    case Some(f) =>
      match Load(f)
      case Loaded(s) => blank.(state := s.(structSize := GATE_STATE_SIZE, schemaVersion := 1))
      case MalformedRecord => blank.(up := false)
      case BadChecksum => blank.(up := false)
  }

  ghost function Step(c: Config, w: World, e: Event): World
    requires Sane(w)
  {
    match e
    case Restart => Restarted(w)
    case Heartbeat(hb, now, disk) => if w.up then AfterHeartbeat(c, w, hb, now, disk) else w
    case Publish(r, now, disk) => if w.up then AfterPublish(w, r, now, disk) else w
  }

  // ----------------------------------------------------------------- the process

  class Process {
    const config: Config
    const state: GateState
    var viewA: View
    var viewB: View
    var file: Option<Bytes>

    ghost predicate Valid()
      reads this, state
    {
      Sane(Value())
    }

    ghost function Value(): World
      reads this, state
    {
      World(true, state.Value(), viewA, viewB, file)
    }

    constructor (config: Config)
      ensures Valid() && fresh(state) && Value() == Deployed() && this.config == config
    {
      this.config := config;
      state := new GateState();
      viewA, viewB := Unheard(), Unheard();
      file := None;
      new;
      state.structSize := GATE_STATE_SIZE;
      state.schemaVersion := 1;
    }

    /** Writes the record aside and replaces the state file with it. */
    method PersistLocked(disk: bool) returns (ok: bool)
      requires Valid()
      modifies this
      ensures Value() == Persisted(old(Value()), disk) && ok == disk
    {
      hide Record;
      var encoded := PersistState(state);
      var record := encoded.value;
      if !disk { return false; }
      file := Some(record);
      return true;
    }

    method EvaluatePromotion(now: Time, disk: bool)
      requires Valid()
      modifies this, state
      ensures Value() == Evaluated(config, old(Value()), now, disk)
    {
      hide Record;
      if state.owner == NONE {
        if viewA.known && viewA.readiness.healthy != 0 {
          var _ := state.Promote(A);
          var _ := PersistLocked(disk);
        }
        return;
      }
      var owner := state.owner;
      var ov := if owner == A then viewA else viewB;
      if !ov.known { return; }
      var age := now - ov.lastHeard;
      if age <= config.confirmTimeout { return; }
      var other := if owner == A then B else A;
      var sv := if other == A then viewA else viewB;
      if !sv.known { return; }
      var highWater := state.HighWater();
      if ShadowPromotable(sv.readiness, config.requirements, highWater) {
        var _ := state.Promote(other);
        var _ := PersistLocked(disk);
      }
    }

    /** Handles a heartbeat; the reply reports epoch, owner and high-water mark, and
        none is sent to an unknown broker. */
    method HandleHeartbeat(hb: HeartbeatMsg, now: Time, disk: bool)
      returns (replied: bool, epoch: u64, owner: u32, lastCommitted: u64)
      requires Valid()
      modifies this, state
      ensures Value() == AfterHeartbeat(config, old(Value()), hb, now, disk)
      ensures replied == (hb.broker == A || hb.broker == B)
      ensures replied ==>
                epoch == state.epoch && owner == state.owner && lastCommitted == MaxLast(state.pipelines)
    {
      hide Evaluated;
      epoch, owner, lastCommitted := 0, NONE, 0;
      if hb.broker != A && hb.broker != B { return false, epoch, owner, lastCommitted; }
      var v := View(true, hb.readiness, now);
      if hb.broker == A { viewA := v; } else { viewB := v; }
      EvaluatePromotion(now, disk);
      var h := state.HighWater();
      return true, state.epoch, state.owner, h;
    }

    method HandlePublish(r: Result, now: Time, disk: bool) returns (accepted: bool, status: AckStatus)
      requires Valid()
      modifies this, state
      ensures Valid() && Value() == AfterPublish(old(Value()), r, now, disk)
      ensures accepted == Accepted(old(Value()), r, now, disk)
      ensures status == AckStatusOf(Decide(old(state.Value()), r, now).0, disk)
    {
      hide Record, Decide;
      DecideMarks(state.Value(), r, now);
      var outcome, _ := state.DecidePublish(r, now);
      var persistedOk := true;
      if outcome == Commit {
        persistedOk := PersistLocked(disk);
      }
      accepted := outcome == Commit && persistedOk;
      status := AckStatusOf(outcome, persistedOk);
    }

    /** Handles a submitted message: nothing happens unless it decodes, and then its result
        is decided. `fingerprint` is the digest over status, payload and covariance. */
    method HandleMessage(payload: Bytes, fingerprint: WireResult.Result -> Digest, now: Time, disk: bool)
      returns (replied: bool, accepted: bool, status: AckStatus)
      requires Valid()
      modifies this, state
      ensures var d := Layout.Decoded(WireResult.ResultShape(), payload);
              && (replied <==> d.Some?)
              && Value() == (if replied then AfterPublish(old(Value()), Seen(d.value, fingerprint), now, disk) else old(Value()))
              && (replied ==> accepted == Accepted(old(Value()), Seen(d.value, fingerprint), now, disk))
              && (replied ==> status == AckStatusOf(Decide(old(state.Value()), Seen(d.value, fingerprint), now).0, disk))
      ensures Valid()
    {
      hide Record, Decide, Layout.Decoded, Seen;
      var st, r := WireResult.DecodeResult(payload);
      if st != Codec.Ok { return false, false, AckInternal; }
      accepted, status := HandlePublish(Seen(r, fingerprint), now, disk);
      replied := true;
    }

    /** Process start over an existing deployment; false means it refuses to run. */
    method Start() returns (up: bool)
      modifies this, state
      ensures up ==> Value() == Restarted(old(Value()))
      ensures up == Restarted(old(Value())).up
    {
      hide Load;
      viewA, viewB := Unheard(), Unheard();
      var s := State(0, 0, 0, NONE, []);
      if file.Some? {
        var r := LoadState(file.value);
        if !r.Loaded? { return false; }
        s := r.state;
      }
      state.epoch, state.owner, state.pipelines := s.epoch, s.owner, s.pipelines;
      state.structSize := GATE_STATE_SIZE;
      state.schemaVersion := 1;
      return true;
    }
  }
}
