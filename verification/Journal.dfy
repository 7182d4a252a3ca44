/** The journal daemon's shared state and its locked sections: one observation submitted,
    one subscriber joining, polling or leaving. */
module Journal {
  import opened Machine
  import opened Admission
  import WireObservation
  import ObservationCheck
  import JournalFile

  type Observation = WireObservation.Observation

  const MAX_TRACKS := 32
  const RING_CAPACITY := 4096
  const MAX_CONNECTIONS := 16

  /** What one window holds. */
  datatype Entry = Entry(window: nat, reason: Reason, obs: Observation)

  /** A connection slot; the cursor is the serving thread's own, 0 before it subscribes. */
  datatype Conn = Conn(inUse: bool, broker: bool, nextSeq: nat, cursor: nat)

  datatype Env = Env(cfg: Config, floats: ObservationCheck.Floats)

  /** The daemon's state as seen from outside: `log` is every window so far, of which the
      ring keeps the latest, and `delivered` what each subscriber has received. */
  datatype State = State(tracks: seq<Track>, log: seq<Entry>, conns: seq<Conn>, delivered: seq<seq<Entry>>, file: Bytes)

  function ReasonCode(r: Reason): u32 {
    match r
    case AdmitOk => 0
    case RejectValidation => 1
    case RejectDuplicate => 2
    case RejectLate => 3
    case RejectOverflow => 4
  }

  /** Reasons are told apart by their codes, and 0 is admission alone. */
  lemma ReasonCodes(r: Reason, q: Reason)
    ensures ReasonCode(r) == ReasonCode(q) <==> r == q
    ensures ReasonCode(r) == 0 <==> r == AdmitOk
    ensures ReasonCode(RejectValidation) == 1 && ReasonCode(RejectDuplicate) == 2
    ensures ReasonCode(RejectLate) == 3 && ReasonCode(RejectOverflow) == 4
  {
  }

  // ------------------------------------------------------------------------ tracks

  /** The characters before the terminator, or all of them. */
  function CString(id: Bytes): (s: Bytes)
    ensures |s| <= |id| && (0 in id ==> |s| < |id|)
  {
    if id == [] || id[0] == 0 then [] else [id[0]] + CString(id[1..])
  }

  /** It is everything before the first zero. */
  lemma {:induction false} CStringIs(id: Bytes)
    ensures CString(id) <= id && 0 !in CString(id)
    ensures |CString(id)| < |id| ==> id[|CString(id)|] == 0
  {
    if id != [] && id[0] != 0 { CStringIs(id[1..]); }
  }

  /** Two names are the same exactly when their bytes agree up to a place where both end, with no zero before it. */
  lemma SameNameIff(a: Bytes, b: Bytes)
    ensures CString(a) == CString(b) <==> exists n: nat :: EndsAt(a, n) && EndsAt(b, n) && a[..n] == b[..n]
  {
    CStringIs(a);
    CStringIs(b);
    hide CString;
    if CString(a) == CString(b) {
      assert EndsAt(a, |CString(a)|) && EndsAt(b, |CString(a)|);
    }
    forall n: nat | EndsAt(a, n) && EndsAt(b, n) && a[..n] == b[..n]
      ensures CString(a) == CString(b)
    {
      EndIsUnique(a, n, |CString(a)|);
      EndIsUnique(b, n, |CString(b)|);
    }
  }

  /** The characters of a name end before its byte `n`. */
  predicate EndsAt(id: Bytes, n: nat) {
    n <= |id| && 0 !in id[..n] && (n < |id| ==> id[n] == 0)
  }

  lemma EndIsUnique(id: Bytes, m: nat, n: nat)
    requires EndsAt(id, m) && EndsAt(id, n)
    ensures m == n
  {
    ZeroBefore(id, m, n);
    ZeroBefore(id, n, m);
  }

  lemma ZeroBefore(id: Bytes, m: nat, n: nat)
    ensures m < n <= |id| && id[m] == 0 ==> 0 in id[..n]
  {
    if m < n <= |id| && id[m] == 0 {
      assert id[..n][m] == 0;
    }
  }

  function SampleOf(o: Observation): Sample {
    Sample(CString(o.sensorId), o.bootId, o.sequence, o.sampleTime)
  }

  /** The first track of that name, or one past the end. */
  function FindTrack(tracks: seq<Track>, name: Bytes): (i: nat)
    ensures i <= |tracks|
    ensures i < |tracks| ==> tracks[i].sensor == name
    ensures forall j :: 0 <= j < i ==> tracks[j].sensor != name
  {
    if tracks == [] || tracks[0].sensor == name then 0 else 1 + FindTrack(tracks[1..], name)
  }

  lemma FindTrackIs(tracks: seq<Track>, name: Bytes, i: nat)
    requires i <= |tracks| && (i < |tracks| ==> tracks[i].sensor == name)
    requires forall j :: 0 <= j < i ==> tracks[j].sensor != name
    ensures FindTrack(tracks, name) == i
  {
  }

  /** A new track's name leaves room for the terminator. */
  function FreshTrack(name: Bytes): Track {
    var keep := WireObservation.SENSOR_ID_LEN - 1;
    Track(if |name| <= keep then name else name[..keep], 0, false, 0, 0)
  }

  predicate HasRoom(tracks: seq<Track>, name: Bytes) {
    FindTrack(tracks, name) < |tracks| || |tracks| < MAX_TRACKS
  }

  /** The tracks once the name has one. */
  function Settled(tracks: seq<Track>, name: Bytes): (ts: seq<Track>)
    requires HasRoom(tracks, name)
    ensures FindTrack(tracks, name) < |ts|
  {
    if FindTrack(tracks, name) < |tracks| then tracks else tracks + [FreshTrack(name)]
  }

  // ------------------------------------------------------------------ backpressure

  predicate Subscribed(c: Conn) {
    c.inUse && c.broker
  }

  /** How far the slowest connected broker is behind, cut to 32 bits; 0 without brokers. */
  ghost predicate IsPending(conns: seq<Conn>, next: nat, p: nat) {
    if forall i :: 0 <= i < |conns| ==> !Subscribed(conns[i]) then p == 0
    else exists i :: 0 <= i < |conns| && Slowest(conns, i) && p == (if next > conns[i].nextSeq then next - conns[i].nextSeq else 0) % TWO_32
  }

  /** Connection `at` is subscribed, and none of the first `n` is further behind. */
  ghost predicate SlowestBelow(conns: seq<Conn>, n: nat, at: nat)
    requires n <= |conns|
  {
    at < n && Subscribed(conns[at]) && forall j :: 0 <= j < n && Subscribed(conns[j]) ==> conns[at].nextSeq <= conns[j].nextSeq
  }

  ghost predicate Slowest(conns: seq<Conn>, i: nat) {
    SlowestBelow(conns, |conns|, i)
  }

  // --------------------------------------------------------------------- the steps

  /** One observation: a verdict, a window whatever the verdict, and an attempt to store it. */
  datatype Submission = Submission(obs: Observation, pending: nat, at: i64, room: nat, synced: bool)

  ghost function VerdictFor(env: Env, tracks: seq<Track>, obs: Observation, pending: nat): Reason
    requires env.floats.Good() && HasRoom(tracks, CString(obs.sensorId))
  {
    var name := CString(obs.sensorId);
    Verdict(env.cfg, Settled(tracks, name)[FindTrack(tracks, name)], SampleOf(obs), ObservationCheck.Sound(env.floats, obs), pending)
  }

  ghost function Submitted(env: Env, s: State, m: Submission): State
    requires env.floats.Good()
  {
    var name := CString(m.obs.sensorId);
    if !HasRoom(s.tracks, name) then s
    else
      var (ts, i, reason) := (Settled(s.tracks, name), FindTrack(s.tracks, name), VerdictFor(env, s.tracks, m.obs, m.pending));
      s.(tracks := if reason == AdmitOk then ts[i := Tracked(ts[i], SampleOf(m.obs))] else ts,
         log := s.log + [Entry(|s.log| + 1, reason, m.obs)],
         file := s.file + Stored(m, |s.log| + 1, reason))
  }

  /** What one append leaves in the segment file. */
  ghost function Stored(m: Submission, window: nat, reason: Reason): Bytes {
    if !m.obs.CountsFit() || window >= TWO_64 then []
    else
      var image := JournalFile.RecordImage(RecordFor(m, window, reason));
      if |image| <= m.room then image else image[..m.room]
  }

  function RecordFor(m: Submission, window: nat, reason: Reason): JournalFile.Record
    requires window < TWO_64
  {
    JournalFile.Record(window, m.at, ReasonCode(reason), m.obs)
  }

  /** A slot is taken by a connection that has said what it is. */
  function Joined(s: State, i: nat, broker: bool): State
    requires i < |s.conns| == |s.delivered|
  {
    s.(conns := s.conns[i := Conn(true, broker, 1, 0)], delivered := s.delivered[i := []])
  }

  function Left(s: State, i: nat): State
    requires i < |s.conns|
  {
    s.(conns := s.conns[i := s.conns[i].(inUse := false)])
  }

  /** The first window a subscriber asking for `from` gets: the oldest kept if that is later. */
  function StartOf(head: nat, from: nat): nat {
    var c := if from < 1 then 1 else from;
    var oldest := if head + 1 > RING_CAPACITY then head + 1 - RING_CAPACITY else 1;
    if c < oldest then oldest else c
  }

  /** It is the least window from 1 on and not below `from` that the ring still holds or has yet to hold. */
  lemma StartIsLeast(head: nat, from: nat, v: nat)
    ensures var c := StartOf(head, from); c >= from && c >= 1 && head < c + RING_CAPACITY
    ensures v >= from && v >= 1 && head < v + RING_CAPACITY ==> StartOf(head, from) <= v
  {
  }

  function Subscription(s: State, i: nat, from: nat): State
    requires i < |s.conns|
  {
    var c := StartOf(|s.log|, from);
    s.(conns := s.conns[i := s.conns[i].(nextSeq := c, cursor := c)])
  }

  /** The window a read at cursor `c` finds in the ring. */
  function Shown(head: nat, c: nat): nat
    requires 1 <= c <= head
  {
    head - (head - c) % RING_CAPACITY
  }

  predicate HasMore(s: State, i: nat)
    requires i < |s.conns|
  {
    1 <= s.conns[i].cursor <= |s.log|
  }

  function Polled(s: State, i: nat): State
    requires i < |s.conns| == |s.delivered| && HasMore(s, i)
  {
    var c := s.conns[i].cursor;
    s.(conns := s.conns[i := s.conns[i].(cursor := c + 1)],
       delivered := s.delivered[i := s.delivered[i] + [s.log[Shown(|s.log|, c) - 1]]])
  }

  function Acknowledged(s: State, i: nat): State
    requires i < |s.conns|
  {
    s.(conns := s.conns[i := s.conns[i].(nextSeq := s.conns[i].cursor)])
  }

  /** The window found is the greatest one not past the head in the cursor's residue
      class; it is the cursor's own exactly when the cursor lags less than the capacity. */
  lemma ShownIsGreatest(head: nat, c: nat, v: nat)
    requires 1 <= c <= head && v <= head && v % RING_CAPACITY == c % RING_CAPACITY
    ensures c <= Shown(head, c) <= head && Shown(head, c) % RING_CAPACITY == c % RING_CAPACITY
    ensures v <= Shown(head, c) && head - Shown(head, c) < RING_CAPACITY
    ensures Shown(head, c) == c <==> head - c < RING_CAPACITY
  {
    ShownResidue(head, c);
    var w := Shown(head, c);
    if v > w {
      SameResidue(v, w);
    }
  }

  lemma ShownResidue(head: nat, c: nat)
    requires 1 <= c <= head
    ensures Shown(head, c) % RING_CAPACITY == c % RING_CAPACITY
  {
    var (q, r) := ((head - c) / RING_CAPACITY, (head - c) % RING_CAPACITY);
    assert head - r == c + RING_CAPACITY * q;
  }

  /** Windows closer than the capacity have different slots. */
  lemma SameResidue(v: nat, w: nat)
    requires v > w && v % RING_CAPACITY == w % RING_CAPACITY
    ensures v - w >= RING_CAPACITY
  {
    assert v - w == RING_CAPACITY * (v / RING_CAPACITY - w / RING_CAPACITY);
  }

  // --------------------------------------------------------------------- the daemon

  ghost predicate Numbered(log: seq<Entry>) {
    forall k :: 0 <= k < |log| ==> log[k].window == k + 1
  }

  /** Each of the latest windows is in its slot of the ring. */
  ghost predicate RingHolds(ring: seq<Entry>, log: seq<Entry>) {
    |ring| == RING_CAPACITY
    && forall w: nat :: 1 <= w <= |log| && |log| - w < RING_CAPACITY ==> ring[w % RING_CAPACITY] == log[w - 1]
  }

  lemma RingPush(ring: seq<Entry>, log: seq<Entry>, e: Entry)
    requires RingHolds(ring, log)
    ensures RingHolds(ring[(|log| + 1) % RING_CAPACITY := e], log + [e])
  {
    var (head, next) := (|log| + 1, log + [e]);
    forall w: nat | 1 <= w <= head && head - w < RING_CAPACITY
      ensures ring[head % RING_CAPACITY := e][w % RING_CAPACITY] == next[w - 1]
    {
      if w < head && w % RING_CAPACITY == head % RING_CAPACITY {
        SameResidue(head, w);
      }
    }
  }

  lemma RingRead(ring: seq<Entry>, log: seq<Entry>, c: nat)
    requires RingHolds(ring, log) && 1 <= c <= |log|
    ensures ring[c % RING_CAPACITY] == log[Shown(|log|, c) - 1]
  {
    ShownIsGreatest(|log|, c, c);
  }

  class Daemon {
    const env: Env
    const tracks: array<Track>
    var trackCount: nat
    const ring: array<Entry>
    var ringHead: nat
    var nextWindow: nat
    var conns: seq<Conn>
    const segment: JournalFile.File

    ghost var log: seq<Entry>
    ghost var delivered: seq<seq<Entry>>

    ghost predicate Valid()
      reads this, tracks, ring, segment
    {
      && env.floats.Good()
      && tracks.Length == MAX_TRACKS && trackCount <= MAX_TRACKS
      && ringHead == |log| && nextWindow == |log| + 1 <= TWO_64
      && RingHolds(ring[..], log) && Numbered(log)
      && |conns| == |delivered| == MAX_CONNECTIONS
    }

    ghost function Value(): State
      reads this, tracks, segment
      requires trackCount <= tracks.Length
    {
      State(tracks[..trackCount], log, conns, delivered, segment.data)
    }

    constructor (env: Env, segment: JournalFile.File, blank: Entry)
      requires env.floats.Good()
      ensures Valid() && this.env == env && this.segment == segment && fresh(tracks) && fresh(ring)
      ensures Value() == State([], [], seq(MAX_CONNECTIONS, _ => Conn(false, false, 0, 0)), seq(MAX_CONNECTIONS, _ => []), segment.data)
    {
      this.env, this.segment := env, segment;
      tracks := new Track[MAX_TRACKS](_ => Track([], 0, false, 0, 0));
      trackCount := 0;
      ring := new Entry[RING_CAPACITY](_ => blank);
      ringHead, nextWindow := 0, 1;
      conns := seq(MAX_CONNECTIONS, _ => Conn(false, false, 0, 0));
      log, delivered := [], seq(MAX_CONNECTIONS, _ => []);
    }

    method FindOrCreateTrack(name: Bytes) returns (found: bool, i: nat)
      requires Valid()
      modifies tracks, this`trackCount
      ensures Valid()
      ensures found <==> HasRoom(old(tracks[..trackCount]), name)
      ensures tracks[..trackCount] == if found then Settled(old(tracks[..trackCount]), name) else old(tracks[..trackCount])
      ensures found ==> i == FindTrack(old(tracks[..trackCount]), name) < trackCount
    {
      ghost var was := tracks[..trackCount];
      i := 0;
      while i < trackCount
        invariant i <= trackCount
        invariant forall j :: 0 <= j < i ==> tracks[j].sensor != name
      {
        if tracks[i].sensor == name {
          FindTrackIs(was, name, i);
          return true, i;
        }
        i := i + 1;
      }
      FindTrackIs(was, name, i);
      if trackCount >= MAX_TRACKS { return false, i; }
      tracks[trackCount] := FreshTrack(name);
      trackCount := trackCount + 1;
      assert tracks[..trackCount] == was + [FreshTrack(name)];
      return true, i;
    }

    method ComputePendingDepth() returns (depth: nat)
      requires Valid()
      ensures IsPending(conns, nextWindow, depth)
    {
      var slowest := nextWindow;
      var any := false;
      ghost var at := 0;
      for i := 0 to MAX_CONNECTIONS
        invariant any || forall j :: 0 <= j < i ==> !Subscribed(conns[j])
        invariant any ==> at < i && SlowestBelow(conns, i, at) && conns[at].nextSeq == slowest
      {
        if conns[i].inUse && conns[i].broker {
          if !any || conns[i].nextSeq < slowest { slowest, at := conns[i].nextSeq, i; }
          any := true;
        }
      }
      if !any { return 0; }
      assert Slowest(conns, at);
      return (if nextWindow > slowest then nextWindow - slowest else 0) % TWO_32;
    }

    /** The locked section for one observation. */
    method AdmitLocked(obs: Observation, at: i64, room: nat, synced: bool) returns (reason: Reason, window: nat, ghost m: Submission)
      requires Valid() && nextWindow < TWO_64
      modifies this`trackCount, this`ringHead, this`nextWindow, this`log, tracks, ring, segment`data
      ensures Valid()
      ensures m == Submission(obs, m.pending, at, room, synced)
      ensures HasRoom(old(tracks[..trackCount]), CString(obs.sensorId)) ==> IsPending(old(conns), old(nextWindow), m.pending)
      ensures Value() == Submitted(env, old(Value()), m)
      ensures HasRoom(old(tracks[..trackCount]), CString(obs.sensorId)) ==>
                reason == VerdictFor(env, old(tracks[..trackCount]), obs, m.pending) && window == old(nextWindow) == |log|
      ensures !HasRoom(old(tracks[..trackCount]), CString(obs.sensorId)) ==> reason == RejectOverflow && window == 0
    {
      hide RingHolds, IsPending, VerdictFor, Tracked, Stored, ObservationCheck.Sound;
      var found, pending;
      found, pending, reason := Decide(obs);
      var submission := Submission(obs, pending, at, room, synced);
      m := submission;
      if !found { return RejectOverflow, 0, m; }
      window := nextWindow;
      Publish(Entry(window, reason, obs));
      Store(submission, window, reason);
    }

    /** Finds the track and decides. */
    method Decide(obs: Observation) returns (found: bool, pending: nat, reason: Reason)
      requires Valid()
      modifies tracks, this`trackCount
      ensures Valid() && (found ==> IsPending(conns, nextWindow, pending))
      ensures found == HasRoom(old(tracks[..trackCount]), CString(obs.sensorId))
      ensures !found ==> tracks[..trackCount] == old(tracks[..trackCount])
      ensures found ==>
                var name := CString(obs.sensorId);
                var (ts, i) := (Settled(old(tracks[..trackCount]), name), FindTrack(old(tracks[..trackCount]), name));
                && reason == VerdictFor(env, old(tracks[..trackCount]), obs, pending)
                && tracks[..trackCount] == if reason == AdmitOk then ts[i := Tracked(ts[i], SampleOf(obs))] else ts
    {
      hide RingHolds, Verdict, Tracked, FreshTrack, ObservationCheck.Sound;
      var i;
      found, i := FindOrCreateTrack(CString(obs.sensorId));
      if !found { return false, 0, RejectOverflow; }
      pending := ComputePendingDepth();
      var first, issues := ObservationCheck.Validate(env.floats, obs);
      ghost var ts := tracks[..trackCount];
      reason := Admit(env.cfg, tracks, i, SampleOf(obs), first == ObservationCheck.Valid, pending);
      assert tracks[..trackCount] == if reason == AdmitOk then ts[i := Tracked(ts[i], SampleOf(obs))] else ts;
    }

    /** Appends the window's record; the result is not looked at. */
    method Store(m: Submission, window: nat, reason: Reason)
      requires Valid() && window < TWO_64
      modifies segment`data
      ensures Valid() && segment.data == old(segment.data) + Stored(m, window, reason)
    {
      hide RingHolds, JournalFile.RecordImage;
      var st := JournalFile.AppendRecord(segment, RecordFor(m, window, reason), m.room, m.synced);
    }

    /** Takes the next window number and puts the entry into its ring slot. */
    method Publish(e: Entry)
      requires Valid() && nextWindow < TWO_64 && e.window == nextWindow
      modifies this`ringHead, this`nextWindow, this`log, ring
      ensures Valid() && log == old(log) + [e]
    {
      RingPush(ring[..], log, e);
      ring[nextWindow % RING_CAPACITY] := e;
      ringHead := nextWindow;
      nextWindow := nextWindow + 1;
      log := log + [e];
    }

    method Join(i: nat, broker: bool)
      requires Valid() && i < MAX_CONNECTIONS && !conns[i].inUse
      modifies this`conns, this`delivered
      ensures Valid() && Value() == Joined(old(Value()), i, broker)
    {
      conns := conns[i := Conn(true, broker, 1, 0)];
      delivered := delivered[i := []];
    }

    method Leave(i: nat)
      requires Valid() && i < MAX_CONNECTIONS
      modifies this`conns
      ensures Valid() && Value() == Left(old(Value()), i)
    {
      conns := conns[i := conns[i].(inUse := false)];
    }

    /** The locked section that answers a replay request. */
    method Subscribe(i: nat, from: nat)
      requires Valid() && i < MAX_CONNECTIONS && conns[i].inUse && conns[i].cursor == 0
      modifies this`conns
      ensures Valid() && Value() == Subscription(old(Value()), i, from)
    {
      var cursor := from;
      if cursor < 1 { cursor := 1; }
      var oldest := if ringHead + 1 > RING_CAPACITY then ringHead + 1 - RING_CAPACITY else 1;
      if cursor < oldest { cursor := oldest; }
      conns := conns[i := conns[i].(nextSeq := cursor, cursor := cursor)];
    }

    /** The locked section of the delivery loop: copies the entry at the cursor out of the ring. */
    method Poll(i: nat) returns (more: bool, e: Entry)
      requires Valid() && i < MAX_CONNECTIONS
      modifies this`conns, this`delivered
      ensures Valid() && more == HasMore(old(Value()), i)
      ensures more ==> Value() == Polled(old(Value()), i) && delivered[i] == old(delivered[i]) + [e]
      ensures !more ==> Value() == old(Value())
    {
      hide RingHolds;
      var cursor := conns[i].cursor;
      more := cursor >= 1 && cursor <= ringHead;
      e := Blank();
      if more {
        RingRead(ring[..], log, cursor);
        RingSize(ring[..], log);
        e := ring[cursor % RING_CAPACITY];
        conns := conns[i := conns[i].(cursor := cursor + 1)];
        delivered := delivered[i := delivered[i] + [e]];
      }
    }

    /** The locked section after a delivery. */
    method Acknowledge(i: nat)
      requires Valid() && i < MAX_CONNECTIONS
      modifies this`conns
      ensures Valid() && Value() == Acknowledged(old(Value()), i)
    {
      conns := conns[i := conns[i].(nextSeq := conns[i].cursor)];
    }
  }

  lemma RingSize(ring: seq<Entry>, log: seq<Entry>)
    requires RingHolds(ring, log)
    ensures |ring| == RING_CAPACITY
  {
  }

  function Blank(): Entry {
    Entry(0, AdmitOk, WireObservation.Blank())
  }
}
