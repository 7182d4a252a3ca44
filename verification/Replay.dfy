/** Replaying a segment file offline, and why that computes what the live broker computed. */
module Replay {
  import opened Machine
  import opened Estimator
  import opened JournalFile
  import KalmanFilter
  import ObservationCheck
  import WireObservation
  import Admission
  import Journal
  import JournalRuns
  import Broker

  /** The estimate after a list of records read back. */
  function Replayed(f: ObservationCheck.Floats, p: Params, es: seq<Entry>): Broker.Estimate {
    if es == [] then Broker.NotReady
    else
      var (est, e) := (Replayed(f, p, es[..|es| - 1]), es[|es| - 1]);
      if e.header.reason == 0 then Broker.Fed(f, p, est, e.obs) else est
  }

  /** The observations of the records that say their window was admitted. */
  function AdmittedObservations(es: seq<Entry>): seq<Broker.Observation> {
    if es == [] then []
    else AdmittedObservations(es[..|es| - 1]) + if es[|es| - 1].header.reason == 0 then [es[|es| - 1].obs] else []
  }

  /** Replaying uses those and no others. */
  lemma {:induction false} OnlyAdmittedCount(f: ObservationCheck.Floats, p: Params, es: seq<Entry>)
    ensures Replayed(f, p, es) == Broker.FedAll(f, p, AdmittedObservations(es))
  {
    hide Broker.Fed;
    if es != [] {
      var (front, e) := (es[..|es| - 1], es[|es| - 1]);
      OnlyAdmittedCount(f, p, front);
      var used := AdmittedObservations(front);
      assert (used + [e.obs])[..|used|] == used && used + [] == used;
    }
  }

  function AdmittedCount(es: seq<Entry>): (n: nat)
    ensures n <= |es|
  {
    if es == [] then 0 else AdmittedCount(es[..|es| - 1]) + if es[|es| - 1].header.reason == 0 then 1 else 0
  }

  datatype Summary = Summary(total: nat, admitted: nat, rejected: nat, finalWindow: nat)

  ghost function SummaryOf(es: seq<Entry>): Summary {
    Summary(|es|, AdmittedCount(es), |es| - AdmittedCount(es), if es == [] then 0 else es[|es| - 1].header.window)
  }

  /** The places of the records that say their window was admitted. */
  function AdmittedPlaces(es: seq<Entry>): set<int> {
    set k | 0 <= k < |es| && es[k].header.reason == 0
  }

  /** The records read, those that say admitted, the others, and the window of the last. */
  lemma {:induction false} SummaryCounts(es: seq<Entry>)
    ensures var s := SummaryOf(es);
            && s.total == |es| && s.admitted + s.rejected == s.total
            && s.admitted == |AdmittedPlaces(es)|
            && (es != [] ==> s.finalWindow == es[|es| - 1].header.window)
  {
    if es != [] {
      var (n, front) := (|es| - 1, es[..|es| - 1]);
      SummaryCounts(front);
      assert AdmittedPlaces(es) == AdmittedPlaces(front) + if es[n].header.reason == 0 then {n} else {};
    }
  }

  lemma Snoc(f: ObservationCheck.Floats, p: Params, es: seq<Entry>, e: Entry)
    ensures Replayed(f, p, es + [e]) == if e.header.reason == 0 then Broker.Fed(f, p, Replayed(f, p, es), e.obs) else Replayed(f, p, es)
    ensures var (s, n) := (SummaryOf(es), if e.header.reason == 0 then 1 else 0);
            SummaryOf(es + [e]) == Summary(s.total + 1, s.admitted + n, s.rejected + 1 - n, e.header.window)
  {
    assert (es + [e])[..|es|] == es;
  }

  ghost function Estimated(kf: KalmanFilter.KalmanState, ready: bool): Broker.Estimate
    requires kf.Valid()
    reads kf, kf.mean, kf.covariance
  {
    if ready then Broker.Ready(kf.Value()) else Broker.NotReady
  }

  lemma NotYetReady(kf: KalmanFilter.KalmanState)
    requires kf.Valid()
    ensures Estimated(kf, false) == Broker.NotReady
  {
  }

  /** One record fed to the filter, unless it was rejected or is no position. */
  method Feed(f: ObservationCheck.Floats, p: Params, kf: KalmanFilter.KalmanState, ready: bool, o: Broker.Observation)
    returns (nowReady: bool)
    requires kf.Valid()
    modifies kf, kf.mean, kf.covariance
    ensures kf.Valid() && Estimated(kf, nowReady) == Broker.Fed(f, p, old(Estimated(kf, ready)), o)
  {
    hide Initial, Updated;
    nowReady := ready;
    if o.shape != ObservationCheck.SHAPE_POSITION_2D { return; }
    var (z, r) := (Broker.Position(f, o), Broker.Noise(f, o));
    if !ready {
      kf.Init(p, z.a, z.b, o.sampleTime);
      nowReady := true;
    } else {
      var st := kf.UpdatePosition(p, o.sampleTime, z.a, z.b, r);
    }
  }

  /** Reads one record and takes it into account. */
  method ReplayOne(file: File, f: ObservationCheck.Floats, p: Params, kf: KalmanFilter.KalmanState, ready0: bool, s0: Summary,
                   e0: Entry, ghost done: seq<Entry>)
    returns (more: bool, ready: bool, s: Summary, e: Entry)
    requires file.Valid() && kf.Valid() && s0 == SummaryOf(done) && Estimated(kf, ready0) == Replayed(f, p, done)
    modifies file`pos, kf, kf.mean, kf.covariance
    ensures file.Valid() && kf.Valid()
    ensures var scan := ScanOf(old(file.data[file.pos..]));
            && (more <==> scan.Found?)
            && (more ==> file.pos == old(file.pos) + scan.len
                         && s == SummaryOf(done + [scan.entry]) && Estimated(kf, ready) == Replayed(f, p, done + [scan.entry]))
            && (!more ==> s == s0 && Estimated(kf, ready) == Replayed(f, p, done))
  {
    hide ScanOf, Replayed, Broker.Fed, SummaryOf, Estimated;
    ready, s := ready0, s0;
    var st;
    st, e := ReadRecord(file, e0);
    more := st == Success;
    if !more { return; }
    Snoc(f, p, done, e);
    if e.header.reason != 0 {
      s := Summary(s.total + 1, s.admitted, s.rejected + 1, e.header.window);
      return;
    }
    s := Summary(s.total + 1, s.admitted + 1, s.rejected, e.header.window);
    ready := Feed(f, p, kf, ready, e.obs);
  }

  /** The reading loop: to the end or to the first bad record. */
  method ReplayAll(file: File, f: ObservationCheck.Floats, p: Params, kf: KalmanFilter.KalmanState, scratch: Entry)
    returns (summary: Summary, ready: bool)
    requires file.Valid() && kf.Valid()
    modifies file`pos, kf, kf.mean, kf.covariance
    ensures kf.Valid()
    ensures var es := ReadsOf(old(file.data[file.pos..])).entries;
            summary == SummaryOf(es) && Estimated(kf, ready) == Replayed(f, p, es)
  {
    hide ReadsOf, ScanOf, Replayed, SummaryOf, Estimated;
    ready := false;
    summary := Summary(0, 0, 0, 0);
    ghost var all := ReadsOf(file.data[file.pos..]).entries;
    ghost var done: seq<Entry> := [];
    NothingRead(f, p);
    NotYetReady(kf);
    assert [] + all == all;
    var more, e := true, scratch;
    while more
      invariant file.Valid() && kf.Valid()
      invariant all == done + if more then ReadsOf(file.data[file.pos..]).entries else []
      invariant summary == SummaryOf(done) && Estimated(kf, ready) == Replayed(f, p, done)
      decreases more, |file.data| - file.pos
    {
      ghost var (start, was) := (file.pos, ScanOf(file.data[file.pos..]));
      OneMore(all, done, file.data, start);
      more, ready, summary, e := ReplayOne(file, f, p, kf, ready, summary, e, done);
      if more { done := done + [was.entry]; }
    }
    assert done + [] == done;
  }

  /** Replays a file, and reports what it read. */
  method ReplayFile(file: File, f: ObservationCheck.Floats, p: Params, scratch: Entry)
    returns (summary: Summary, kf: KalmanFilter.KalmanState, ready: bool)
    requires file.Valid()
    modifies file`pos
    ensures kf.Valid() && fresh(kf)
    ensures var es := ReadsOf(old(file.data[file.pos..])).entries;
            summary == SummaryOf(es) && Estimated(kf, ready) == Replayed(f, p, es)
  {
    hide ReadsOf, Replayed, SummaryOf, Estimated;
    kf := new KalmanFilter.KalmanState();
    summary, ready := ReplayAll(file, f, p, kf, scratch);
  }

  /** How one read divides what is left to read. */
  lemma OneMore(all: seq<Entry>, done: seq<Entry>, data: Bytes, pos: nat)
    requires pos <= |data| && all == done + ReadsOf(data[pos..]).entries
    ensures var s := ScanOf(data[pos..]);
            && (s.Found? ==> pos + s.len <= |data| && all == done + [s.entry] + ReadsOf(data[pos + s.len..]).entries)
            && (!s.Found? ==> all == done)
  {
    hide ScanOf;
    var (rest, s) := (data[pos..], ScanOf(data[pos..]));
    if s.Found? {
      assert rest[s.len..] == data[pos + s.len..];
    }
  }

  lemma NothingRead(f: ObservationCheck.Floats, p: Params)
    ensures Replayed(f, p, []) == Broker.NotReady && SummaryOf([]) == Summary(0, 0, 0, 0)
  {
  }

  // ------------------------------------------------------------ live equals replay

  /** What the broker's reader decodes of a window sent to it. */
  function Sent(e: Journal.Entry): Broker.Window
    requires e.obs.CountsFit()
  {
    Broker.Window(e.window, WireObservation.Normal(e.obs), e.reason == Admission.AdmitOk)
  }

  ghost predicate AllSendable(es: seq<Journal.Entry>) {
    forall k :: 0 <= k < |es| ==> es[k].obs.CountsFit()
  }

  function SentAll(es: seq<Journal.Entry>): (ws: seq<Broker.Window>)
    requires AllSendable(es)
    ensures |ws| == |es| && forall k :: 0 <= k < |es| ==> ws[k] == Sent(es[k])
  {
    seq(|es|, k requires 0 <= k < |es| => Sent(es[k]))
  }

  /** Records that store these windows. */
  ghost predicate Stores(es: seq<Journal.Entry>, rs: seq<Record>) {
    |es| == |rs| && AllFit(rs)
    && forall k :: 0 <= k < |rs| ==> rs[k].obs == es[k].obs && rs[k].reason == Journal.ReasonCode(es[k].reason)
  }

  ghost predicate AdmittedConfigured(names: seq<Bytes>, es: seq<Journal.Entry>) {
    forall k :: 0 <= k < |es| && es[k].reason == Admission.AdmitOk ==> Broker.Configured(names, es[k].obs)
  }

  lemma {:induction false} FoldsAgree(f: ObservationCheck.Floats, p: Params, names: seq<Bytes>, es: seq<Journal.Entry>, rs: seq<Record>)
    requires Stores(es, rs) && AllSendable(es) && AdmittedConfigured(names, es)
    ensures Broker.Live(f, p, names, SentAll(es)) == Replayed(f, p, Entries(rs))
  {
    hide Broker.Fed, WireObservation.Normal, Broker.Live, Replayed, Broker.Configured, HeaderFor;
    if es == [] {
      assert SentAll(es) == [] && Entries(rs) == [];
      NothingRead(f, p);
      NothingLive(f, p, names);
    } else {
      var n := |es| - 1;
      ReasonStored(rs[n], es[n].reason);
      FoldsAgree(f, p, names, es[..n], rs[..n]);
      assert SentAll(es) == SentAll(es[..n]) + [Sent(es[n])];
      assert Entries(rs) == Entries(rs[..n]) + [EntryFor(rs[n])];
      NormalKeepsName(names, es[n].obs);
      FoldStep(f, p, names, SentAll(es[..n]), Entries(rs[..n]), Sent(es[n]), EntryFor(rs[n]));
    }
  }

  lemma FoldStep(f: ObservationCheck.Floats, p: Params, names: seq<Bytes>, ws: seq<Broker.Window>, es: seq<Entry>,
                 w: Broker.Window, e: Entry)
    requires Broker.Live(f, p, names, ws) == Replayed(f, p, es)
    requires w.obs == e.obs && (w.admitted <==> e.header.reason == 0) && (w.admitted ==> Broker.Configured(names, w.obs))
    ensures Broker.Live(f, p, names, ws + [w]) == Replayed(f, p, es + [e])
  {
    hide Broker.Fed, Broker.Live, Replayed, Broker.Configured;
    Broker.LiveSnoc(f, p, names, ws, w);
    Snoc(f, p, es, e);
  }

  lemma ReasonStored(r: Record, reason: Admission.Reason)
    requires r.obs.CountsFit() && r.reason == Journal.ReasonCode(reason)
    ensures EntryFor(r).header.reason == 0 <==> reason == Admission.AdmitOk
  {
  }

  lemma NothingLive(f: ObservationCheck.Floats, p: Params, names: seq<Bytes>)
    ensures Broker.Live(f, p, names, []) == Broker.NotReady
  {
  }

  lemma NormalKeepsName(names: seq<Bytes>, o: Broker.Observation)
    requires o.CountsFit()
    ensures Broker.Configured(names, WireObservation.Normal(o)) == Broker.Configured(names, o)
  {
  }

  /** With the policy off: a broker that subscribed from window 1, was never lapped, lost
      nothing in its queue and knows every admitted sensor has, after its first `w` windows,
      the estimate that replaying the first `w` records of this life of the journal gives,
      provided every append succeeded. */
  lemma LiveIsReplay(env: Journal.Env, ss: seq<Journal.State>, es: seq<JournalRuns.Event>, i: nat, from: nat, a: nat, b: nat,
                     w: nat, p: Params, names: seq<Bytes>) returns (rs: seq<Record>)
    requires JournalRuns.Run(env, ss, es) && JournalRuns.StoresAll(ss, es) && a < b < |ss|
    requires es[a] == JournalRuns.Subscribe(i, from) && Journal.StartOf(|ss[a].log|, from) == 1
    requires JournalRuns.KeepsUp(ss, es, i, a + 1, b)
    requires i < |ss[b].delivered| && w <= |ss[b].delivered[i]| && AdmittedConfigured(names, ss[b].delivered[i])
    ensures JournalRuns.FileHolds(ss[0].file, ss[b], rs) && w <= |rs| && Boundary(rs, w) <= |ss[b].file| - |ss[0].file|
    ensures AllSendable(ss[b].delivered[i][..w])
    ensures Broker.Live(env.floats, p, names, SentAll(ss[b].delivered[i][..w]))
            == Replayed(env.floats, p, ReadsOf(ss[b].file[|ss[0].file|..][..Boundary(rs, w)]).entries)
  {
    JournalRuns.RunLength(env, ss, es);
    hide *;
    rs := JournalRuns.FileIsLog(env, ss, es, b);
    JournalRuns.ReceivesContiguously(env, ss, es, i, from, a, b);
    OwnPart(ss[0].file, ss[b], rs);
    var (log, got) := (ss[b].log, ss[b].delivered[i]);
    FirstReceived(ss[b], i, names, w);
    FirstStored(log, rs, w);
    FoldsAgree(env.floats, p, names, got[..w], rs[..w]);
    BoundaryFits(rs, w);
    CutFileReads(rs, Boundary(rs, w), w);
  }

  /** The part of the segment that this life of the journal wrote. */
  lemma OwnPart(before: Bytes, s: Journal.State, rs: seq<Record>)
    requires JournalRuns.FileHolds(before, s, rs)
    ensures AllFit(rs) && |before| <= |s.file| && s.file[|before|..] == FileOf(rs) && JournalRuns.Holds(s.log, rs)
    ensures |rs| == |s.log|
  {
    hide FileOf, AllFit;
    assert (before + FileOf(rs))[|before|..] == FileOf(rs);
  }

  lemma FirstReceived(s: Journal.State, i: nat, names: seq<Bytes>, w: nat)
    requires JournalRuns.Contiguous(s, i, 1) && i < |s.delivered| && w <= |s.delivered[i]|
    requires AdmittedConfigured(names, s.delivered[i])
    ensures w <= |s.log| && s.delivered[i][..w] == s.log[..w] && AdmittedConfigured(names, s.delivered[i][..w])
  {
    hide Broker.Configured;
    assert s.delivered[i] <= s.log;
  }

  lemma FirstStored(log: seq<Journal.Entry>, rs: seq<Record>, w: nat)
    requires JournalRuns.Holds(log, rs) && w <= |log|
    ensures w <= |rs| && Stores(log[..w], rs[..w]) && AllSendable(log[..w])
  {
  }

  lemma BoundaryFits(rs: seq<Record>, w: nat)
    requires AllFit(rs) && w <= |rs|
    ensures Boundary(rs, w) <= |FileOf(rs)|
    ensures w < |rs| ==> Boundary(rs, w) < Boundary(rs, w + 1)
  {
    hide RecordImage, FileOf;
    FilePrefix(rs, w);
    if w < |rs| {
      assert rs[..w + 1] == rs[..w] + [rs[w]];
      FileOfSnoc(rs[..w], rs[w]);
    }
  }

  lemma {:induction false} FilePrefix(rs: seq<Record>, w: nat)
    requires AllFit(rs) && w <= |rs|
    ensures |FileOf(rs[..w])| <= |FileOf(rs)|
    decreases |rs| - w
  {
    hide RecordImage, FileOf;
    if w < |rs| {
      FilePrefix(rs, w + 1);
      assert rs[..w + 1] == rs[..w] + [rs[w]];
      FileOfSnoc(rs[..w], rs[w]);
    } else {
      assert rs[..w] == rs;
    }
  }
}
