/** A window travels to a broker as two messages, its observation and its decision. How the broker's
    reader thread pairs them again, and what a lost message does. */
module WindowStream {
  import opened Machine
  import Admission
  import Journal
  import JournalFile
  import JournalRuns
  import WireObservation
  import Estimator
  import opened Broker
  import Replay

  /** What the reader makes of one message. A decoder that fails leaves something in its output. */
  datatype Packet =
    | Data(obs: Observation)
    | GarbledData(left: Observation)
    | Decision(number: nat, admitted: bool)
    | GarbledDecision
    | Other

  /** The observation waiting for its decision, if there is one, after a message, and what the message queues. */
  function Handled(pending: Option<Observation>, p: Packet): (Option<Observation>, seq<Window>) {
    match p
    case Data(o) => (Some(o), [])
    case GarbledData(left) => (if pending.Some? then Some(left) else None, [])
    case Decision(n, admitted) => (None, if pending.Some? then [Window(n, pending.value, admitted)] else [])
    case GarbledDecision => (None, [])
    case Other => (pending, [])
  }

  function Read(pending: Option<Observation>, ps: seq<Packet>): (Option<Observation>, seq<Window>) {
    if ps == [] then (pending, [])
    else
      var (before, ws) := Read(pending, ps[..|ps| - 1]);
      var (after, more) := Handled(before, ps[|ps| - 1]);
      (after, ws + more)
  }

  /** The windows queued from the start of a connection. */
  function Queued(ps: seq<Packet>): seq<Window> {
    Read(None, ps).1
  }

  /** The reader thread of a broker. */
  class Reader {
    const broker: Process
    var pending: Observation
    var have: bool

    ghost function Value(): Option<Observation>
      reads this
    {
      if have then Some(pending) else None
    }

    constructor (broker: Process, blank: Observation)
      ensures Value() == None && this.broker == broker
    {
      this.broker := broker;
      pending, have := blank, false;
    }

    /** Handles one message; a window is offered to the queue when its decision comes. */
    method Handle(p: Packet)
      requires broker.Accounted()
      modifies this`pending, this`have, broker`received, broker`lost, broker.queue`tail, broker.queue.slots
      ensures broker.Accounted()
      ensures (Value(), broker.received) == var (after, more) := Handled(old(Value()), p); (after, old(broker.received) + more)
    {
      assert broker.received + [] == broker.received;
      match p
      case Data(o) =>
        pending, have := o, true;
      case GarbledData(left) =>
        pending := left;
      case Decision(n, admitted) =>
        if have {
          broker.Receive(Window(n, pending, admitted));
          have := false;
        }
      case GarbledDecision =>
        have := false;
      case Other =>
    }
  }

  lemma {:induction false} ReadConcat(pending: Option<Observation>, a: seq<Packet>, b: seq<Packet>)
    ensures var (between, ws) := Read(pending, a);
            Read(pending, a + b) == (Read(between, b).0, ws + Read(between, b).1)
  {
    hide Handled;
    var (between, ws) := Read(pending, a);
    if b == [] {
      assert a + b == a && ws + [] == ws;
    } else {
      var (front, p) := (b[..|b| - 1], b[|b| - 1]);
      ReadConcat(pending, a, front);
      assert (a + b)[..|a + b| - 1] == a + front && (a + b)[|a + b| - 1] == p;
      var (before, more) := Read(between, front);
      assert ws + (more + Handled(before, p).1) == ws + more + Handled(before, p).1;
    }
  }

  // ------------------------------------------------------------- the messages of a log

  function DataOf(e: Journal.Entry): Packet
    requires e.obs.CountsFit()
  {
    Data(WireObservation.Normal(e.obs))
  }

  function DecisionOf(e: Journal.Entry): Packet {
    Decision(e.window, e.reason == Admission.AdmitOk)
  }

  /** Two messages for each entry: first the observation, then the decision. */
  function PacketsOf(es: seq<Journal.Entry>): (ps: seq<Packet>)
    requires Replay.AllSendable(es)
    ensures |ps| == 2 * |es|
  {
    if es == [] then [] else PacketsOf(es[..|es| - 1]) + [DataOf(es[|es| - 1]), DecisionOf(es[|es| - 1])]
  }

  lemma ReadOne(pending: Option<Observation>, p: Packet)
    ensures Read(pending, [p]) == Handled(pending, p)
  {
    assert [p][..0] == [] && Read(pending, []) == (pending, []);
    assert [] + Handled(pending, p).1 == Handled(pending, p).1;
  }

  lemma ReadTwo(pending: Option<Observation>, p: Packet, q: Packet)
    ensures var (between, ws) := Handled(pending, p);
            Read(pending, [p, q]) == (Handled(between, q).0, ws + Handled(between, q).1)
  {
    hide Handled;
    ReadOne(pending, p);
    ReadOne(Handled(pending, p).0, q);
    ReadConcat(pending, [p], [q]);
    assert [p] + [q] == [p, q];
  }

  /** A decision that follows its observation queues the window, whatever was waiting before. */
  lemma ReadEntry(pending: Option<Observation>, e: Journal.Entry)
    requires e.obs.CountsFit()
    ensures Read(pending, [DataOf(e), DecisionOf(e)]) == (None, [Replay.Sent(e)])
  {
    hide WireObservation.Normal;
    ReadTwo(pending, DataOf(e), DecisionOf(e));
    assert [] + [Replay.Sent(e)] == [Replay.Sent(e)];
  }

  /** Complete pairs queue each observation with its own decision. */
  lemma {:induction false} AllPaired(pending: Option<Observation>, es: seq<Journal.Entry>)
    requires Replay.AllSendable(es)
    ensures Read(pending, PacketsOf(es)).1 == Replay.SentAll(es)
    ensures es != [] || pending.None? ==> Read(pending, PacketsOf(es)).0 == None
  {
    hide Handled, DataOf, DecisionOf, Read, Replay.Sent;
    if es == [] {
      ReadNothing(pending);
    } else {
      var (front, e) := (es[..|es| - 1], es[|es| - 1]);
      AllPaired(pending, front);
      ReadConcat(pending, PacketsOf(front), [DataOf(e), DecisionOf(e)]);
      ReadEntry(Read(pending, PacketsOf(front)).0, e);
      assert Replay.SentAll(es) == Replay.SentAll(front) + [Replay.Sent(e)];
    }
  }

  lemma ReadNothing(pending: Option<Observation>)
    ensures Read(pending, []) == (pending, [])
  {
  }

  /** Whatever initial part of the messages arrives, the queue is offered exactly the windows whose
      decisions arrived, each observation with its own decision. */
  lemma {:induction false} InitialPartIsPaired(es: seq<Journal.Entry>, k: nat)
    requires Replay.AllSendable(es) && k <= 2 * |es|
    ensures Queued(PacketsOf(es)[..k]) == Replay.SentAll(es)[..k / 2]
  {
    hide Handled, DataOf, DecisionOf, Read, Replay.Sent;
    var (n, ps) := (k / 2, PacketsOf(es));
    PacketsPrefix(es, n);
    AllPaired(None, es[..n]);
    SentPrefix(es, n);
    if k == 2 * n {
      assert ps[..k] == PacketsOf(es[..n]);
    } else {
      DataAt(es, n);
      assert ps[..k] == PacketsOf(es[..n]) + [DataOf(es[n])];
      ReadConcat(None, PacketsOf(es[..n]), [DataOf(es[n])]);
      DataQueuesNothing(Read(None, PacketsOf(es[..n])).0, es[n]);
    }
  }

  lemma DataQueuesNothing(pending: Option<Observation>, e: Journal.Entry)
    requires e.obs.CountsFit()
    ensures Read(pending, [DataOf(e)]).1 == []
  {
    hide WireObservation.Normal;
    ReadOne(pending, DataOf(e));
  }

  lemma SentPrefix(es: seq<Journal.Entry>, n: nat)
    requires Replay.AllSendable(es) && n <= |es|
    ensures Replay.AllSendable(es[..n]) && Replay.SentAll(es[..n]) == Replay.SentAll(es)[..n]
  {
    hide Replay.Sent;
  }

  lemma {:induction false} PacketsPrefix(es: seq<Journal.Entry>, n: nat)
    requires Replay.AllSendable(es) && n <= |es|
    ensures PacketsOf(es)[..2 * n] == PacketsOf(es[..n])
  {
    hide DataOf, DecisionOf;
    if n < |es| {
      var front := es[..|es| - 1];
      PacketsPrefix(front, n);
      assert front[..n] == es[..n];
    } else {
      assert es[..n] == es;
    }
  }

  lemma {:induction false} DataAt(es: seq<Journal.Entry>, n: nat)
    requires Replay.AllSendable(es) && n < |es|
    ensures PacketsOf(es)[2 * n] == DataOf(es[n]) && PacketsOf(es)[2 * n + 1] == DecisionOf(es[n])
  {
    hide DataOf, DecisionOf;
    if n < |es| - 1 {
      DataAt(es[..|es| - 1], n);
    }
  }

  // ------------------------------------------------------------------ lost messages

  lemma Split(pending: Option<Observation>, a: seq<Journal.Entry>, middle: seq<Packet>, b: seq<Journal.Entry>)
    requires Replay.AllSendable(a) && Replay.AllSendable(b)
    ensures var (after, ws) := Read(Read(pending, PacketsOf(a)).0, middle);
            Read(pending, PacketsOf(a) + middle + PacketsOf(b)).1 == Replay.SentAll(a) + ws + Replay.SentAll(b)
  {
    hide Read;
    AllPaired(pending, a);
    ReadConcat(pending, PacketsOf(a), middle);
    ReadConcat(pending, PacketsOf(a) + middle, PacketsOf(b));
    AllPaired(Read(pending, PacketsOf(a) + middle).0, b);
  }

  /** One lost message, whichever it is, loses its window and disturbs no other. */
  lemma OneLossSkipsOneWindow(a: seq<Journal.Entry>, e: Journal.Entry, b: seq<Journal.Entry>)
    requires Replay.AllSendable(a) && e.obs.CountsFit() && Replay.AllSendable(b)
    ensures Queued(PacketsOf(a) + [DataOf(e)] + PacketsOf(b)) == Replay.SentAll(a) + Replay.SentAll(b)
    ensures Queued(PacketsOf(a) + [DecisionOf(e)] + PacketsOf(b)) == Replay.SentAll(a) + Replay.SentAll(b)
  {
    AllPaired(None, a);
    Split(None, a, [DataOf(e)], b);
    Split(None, a, [DecisionOf(e)], b);
    ReadOne(None, DecisionOf(e));
    DataQueuesNothing(None, e);
    hide Read, Replay.SentAll, DataOf, Handled;
    assert Replay.SentAll(a) + [] == Replay.SentAll(a);
    assert Handled(None, DecisionOf(e)) == (None, []) by { NoDecisionAlone(e); }
  }

  lemma NoDecisionAlone(e: Journal.Entry)
    ensures Handled(None, DecisionOf(e)) == (None, [])
  {
  }

  /** Two lost in a row, a decision and the observation after it, queue one window's observation under
      the next one's decision. */
  lemma TwoLossesMispair(a: seq<Journal.Entry>, e: Journal.Entry, f: Journal.Entry, b: seq<Journal.Entry>)
    requires Replay.AllSendable(a) && e.obs.CountsFit() && Replay.AllSendable(b)
    ensures Queued(PacketsOf(a) + [DataOf(e), DecisionOf(f)] + PacketsOf(b))
            == Replay.SentAll(a) + [Window(f.window, WireObservation.Normal(e.obs), f.reason == Admission.AdmitOk)] + Replay.SentAll(b)
  {
    var w := Window(f.window, WireObservation.Normal(e.obs), f.reason == Admission.AdmitOk);
    AllPaired(None, a);
    Split(None, a, [DataOf(e), DecisionOf(f)], b);
    ReadTwo(None, DataOf(e), DecisionOf(f));
    hide WireObservation.Normal, Read, Replay.SentAll;
    assert [] + [w] == [w];
  }

  // ----------------------------------------------------------- any losses whatever

  /** The first `k` messages without those that were lost. */
  function KeptOf(ps: seq<Packet>, kept: seq<bool>, k: nat): seq<Packet>
    requires k <= |ps| == |kept|
  {
    if k == 0 then [] else KeptOf(ps, kept, k - 1) + if kept[k - 1] then [ps[k - 1]] else []
  }

  /** Observation `d` is the last message kept before decision `j`. */
  ghost predicate Meets(kept: seq<bool>, d: nat, j: nat) {
    && d <= j && 2 * j + 1 < |kept| && kept[2 * d] && kept[2 * j + 1]
    && forall i :: 2 * d < i < 2 * j + 1 ==> !kept[i]
  }

  /** Observation `d` is the last message kept among the first `k`. */
  ghost predicate Waits(kept: seq<bool>, k: nat, d: nat)
    requires k <= |kept|
  {
    2 * d < k && kept[2 * d] && forall i :: 2 * d < i < k ==> !kept[i]
  }

  /** Observation `d` under decision `j`. */
  function Mixed(es: seq<Journal.Entry>, d: nat, j: nat): Window
    requires Replay.AllSendable(es) && d < |es| && j < |es|
  {
    Window(es[j].window, WireObservation.Normal(es[d].obs), es[j].reason == Admission.AdmitOk)
  }

  ghost predicate IsMet(es: seq<Journal.Entry>, kept: seq<bool>, k: nat, w: Window)
    requires Replay.AllSendable(es) && |kept| == 2 * |es|
  {
    exists d: nat, j: nat :: Meets(kept, d, j) && 2 * j + 1 < k && w == Mixed(es, d, j)
  }

  /** What the reader holds and has queued after the first `k` messages, lost ones left out. */
  ghost predicate Tells(es: seq<Journal.Entry>, kept: seq<bool>, k: nat, r: (Option<Observation>, seq<Window>))
    requires Replay.AllSendable(es) && k <= |kept| == 2 * |es|
  {
    && (r.0.Some? <==> exists d: nat :: Waits(kept, k, d))
    && (forall d: nat :: Waits(kept, k, d) ==> r.0 == Some(WireObservation.Normal(es[d].obs)))
    && forall w :: w in r.1 <==> IsMet(es, kept, k, w)
  }

  lemma {:induction false} ReadTells(es: seq<Journal.Entry>, kept: seq<bool>, k: nat)
    requires Replay.AllSendable(es) && k <= |kept| == 2 * |es|
    ensures Tells(es, kept, k, Read(None, KeptOf(PacketsOf(es), kept, k)))
  {
    hide Tells, Read, Handled, PacketsOf;
    if k == 0 {
      ReadNothing(None);
      TellsNothing(es, kept);
    } else {
      var ps := PacketsOf(es);
      ReadTells(es, kept, k - 1);
      var front := KeptOf(ps, kept, k - 1);
      var (pending, ws) := Read(None, front);
      if kept[k - 1] {
        ReadConcat(None, front, [ps[k - 1]]);
        ReadOne(pending, ps[k - 1]);
        DataAt(es, (k - 1) / 2);
        if k % 2 == 1 {
          TellsData(es, kept, k - 1, k, (pending, ws));
        } else {
          TellsDecision(es, kept, k - 1, k, (pending, ws));
        }
      } else {
        assert front + [] == front;
        TellsLost(es, kept, k - 1, k, (pending, ws));
      }
    }
  }

  lemma TellsNothing(es: seq<Journal.Entry>, kept: seq<bool>)
    requires Replay.AllSendable(es) && |kept| == 2 * |es|
    ensures Tells(es, kept, 0, (None, []))
  {
  }

  lemma TellsLost(es: seq<Journal.Entry>, kept: seq<bool>, m: nat, k: nat, r: (Option<Observation>, seq<Window>))
    requires Replay.AllSendable(es) && m + 1 == k <= |kept| == 2 * |es| && !kept[m]
    requires Tells(es, kept, m, r)
    ensures Tells(es, kept, k, r)
  {
    hide Mixed, WireObservation.Normal;
    assert forall d: nat :: Waits(kept, k, d) <==> Waits(kept, m, d);
    assert forall w :: IsMet(es, kept, k, w) <==> IsMet(es, kept, m, w);
  }

  /** An observation arrives: it waits, whatever waited before. */
  lemma TellsData(es: seq<Journal.Entry>, kept: seq<bool>, m: nat, k: nat, r: (Option<Observation>, seq<Window>))
    requires Replay.AllSendable(es) && m + 1 == k <= |kept| == 2 * |es| && kept[m] && k % 2 == 1
    requires Tells(es, kept, m, r)
    ensures var (after, more) := Handled(r.0, DataOf(es[m / 2])); Tells(es, kept, k, (after, r.1 + more))
  {
    hide Mixed, WireObservation.Normal;
    var d: nat := m / 2;
    assert r.1 + [] == r.1 && 2 * d == m;
    assert Waits(kept, k, d);
    assert forall c: nat :: Waits(kept, k, c) ==> c == d;
    assert forall w :: IsMet(es, kept, k, w) <==> IsMet(es, kept, m, w);
  }

  /** A decision arrives: it takes the observation that waits, if one does. */
  lemma TellsDecision(es: seq<Journal.Entry>, kept: seq<bool>, m: nat, k: nat, r: (Option<Observation>, seq<Window>))
    requires Replay.AllSendable(es) && m + 1 == k <= |kept| == 2 * |es| && kept[m] && k % 2 == 0
    requires Tells(es, kept, m, r)
    ensures var (after, more) := Handled(r.0, DecisionOf(es[m / 2])); Tells(es, kept, k, (after, r.1 + more))
  {
    hide WireObservation.Normal;
    var j: nat := m / 2;
    assert 2 * j + 1 == m;
    var more := Handled(r.0, DecisionOf(es[j])).1;
    assert forall d: nat :: !Waits(kept, k, d);
    assert forall d: nat :: Meets(kept, d, j) <==> Waits(kept, m, d);
    forall w
      ensures w in r.1 + more <==> IsMet(es, kept, k, w)
    {
      if w in more {
        var d: nat :| Waits(kept, m, d);
        assert Meets(kept, d, j) && w == Mixed(es, d, j);
      }
      if IsMet(es, kept, k, w) && !IsMet(es, kept, m, w) {
        var d: nat, i: nat :| Meets(kept, d, i) && 2 * i + 1 < k && w == Mixed(es, d, i);
        assert i == j;
      }
    }
  }

  /** Whatever is lost, a window is queued for each decision whose last kept message before it is an
      observation, and holds that observation. */
  lemma QueuedIff(es: seq<Journal.Entry>, kept: seq<bool>, w: Window)
    requires Replay.AllSendable(es) && |kept| == 2 * |es|
    ensures w in Queued(KeptOf(PacketsOf(es), kept, |kept|)) <==>
            exists d: nat, j: nat :: Meets(kept, d, j) && w == Mixed(es, d, j)
  {
    hide Read, PacketsOf, Mixed;
    ReadTells(es, kept, |kept|);
    assert IsMet(es, kept, |kept|, w) <==> exists d: nat, j: nat :: Meets(kept, d, j) && w == Mixed(es, d, j);
  }

  ghost predicate DistinctWindows(es: seq<Journal.Entry>) {
    forall i, j :: 0 <= i < j < |es| ==> es[i].window != es[j].window
  }

  /** Every window queued holds its own observation exactly when no decision meets another window's
      observation, unless the two observations are the same. */
  lemma PairedRightIff(es: seq<Journal.Entry>, kept: seq<bool>)
    requires Replay.AllSendable(es) && |kept| == 2 * |es| && DistinctWindows(es)
    ensures (forall w :: w in Queued(KeptOf(PacketsOf(es), kept, |kept|)) ==> w in Replay.SentAll(es)) <==>
            (forall d: nat, j: nat :: Meets(kept, d, j) ==> WireObservation.Normal(es[d].obs) == WireObservation.Normal(es[j].obs))
  {
    hide WireObservation.Normal, PacketsOf, Read, KeptOf;
    var q := Queued(KeptOf(PacketsOf(es), kept, |kept|));
    forall w
      ensures w in q <==> exists d: nat, j: nat :: Meets(kept, d, j) && w == Mixed(es, d, j)
    {
      QueuedIff(es, kept, w);
    }
    forall d: nat, j: nat | Meets(kept, d, j)
      ensures Mixed(es, d, j) in Replay.SentAll(es) <==> WireObservation.Normal(es[d].obs) == WireObservation.Normal(es[j].obs)
    {
      MixedIsSent(es, d, j);
    }
    hide Mixed, Meets, Replay.SentAll, Queued;
    if forall w :: w in q ==> w in Replay.SentAll(es) {
      forall d: nat, j: nat | Meets(kept, d, j)
        ensures Mixed(es, d, j) in Replay.SentAll(es)
      {
        assert Mixed(es, d, j) in q;
      }
    }
  }

  lemma MixedIsSent(es: seq<Journal.Entry>, d: nat, j: nat)
    requires Replay.AllSendable(es) && DistinctWindows(es) && d < |es| && j < |es|
    ensures Mixed(es, d, j) in Replay.SentAll(es) <==> WireObservation.Normal(es[d].obs) == WireObservation.Normal(es[j].obs)
  {
    hide WireObservation.Normal;
    assert Replay.SentAll(es)[j] == Replay.Sent(es[j]);
    if Mixed(es, d, j) in Replay.SentAll(es) {
      var i :| 0 <= i < |es| && Replay.SentAll(es)[i] == Mixed(es, d, j);
      assert es[i].window == es[j].window;
    }
  }

  // ------------------------------------------------------------ what the broker computes

  /** A broker that gets any initial part of the messages for what its journal delivered has the
      estimate that replaying as many records of this life of the journal gives. */
  lemma StreamIsReplay(env: Journal.Env, ss: seq<Journal.State>, es: seq<JournalRuns.Event>, i: nat, from: nat, a: nat, b: nat,
                       k: nat, p: Estimator.Params, names: seq<Bytes>) returns (rs: seq<JournalFile.Record>)
    requires JournalRuns.Run(env, ss, es) && JournalRuns.StoresAll(ss, es) && a < b < |ss|
    requires es[a] == JournalRuns.Subscribe(i, from) && Journal.StartOf(|ss[a].log|, from) == 1
    requires JournalRuns.KeepsUp(ss, es, i, a + 1, b)
    requires i < |ss[b].delivered| && k <= 2 * |ss[b].delivered[i]| && Replay.AdmittedConfigured(names, ss[b].delivered[i])
    ensures JournalRuns.FileHolds(ss[0].file, ss[b], rs) && k / 2 <= |rs|
    ensures JournalFile.Boundary(rs, k / 2) <= |ss[b].file| - |ss[0].file|
    ensures Replay.AllSendable(ss[b].delivered[i])
    ensures Live(env.floats, p, names, Queued(PacketsOf(ss[b].delivered[i])[..k]))
            == Replay.Replayed(env.floats, p,
                               JournalFile.ReadsOf(ss[b].file[|ss[0].file|..][..JournalFile.Boundary(rs, k / 2)]).entries)
  {
    hide *;
    var got := ss[b].delivered[i];
    rs := Replay.LiveIsReplay(env, ss, es, i, from, a, b, |got|, p, names);
    WholeIs(got);
    rs := Replay.LiveIsReplay(env, ss, es, i, from, a, b, k / 2, p, names);
    InitialPartIsPaired(got, k);
    SentPrefix(got, k / 2);
  }

  lemma WholeIs(got: seq<Journal.Entry>)
    ensures got[..|got|] == got
  {
  }
}
