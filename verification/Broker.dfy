/** The broker's side of the stream, with the policy switched off: a bounded circular queue
    between the reader thread and the loop that feeds the estimator. */
module Broker {
  import opened Machine
  import opened Estimator
  import Matrix
  import KalmanFilter
  import ObservationCheck
  import WireObservation
  import Journal

  type Observation = WireObservation.Observation

  const QUEUE_CAP := 512

  /** One window as the reader thread decodes it. */
  datatype Window = Window(number: nat, obs: Observation, admitted: bool)

  // -------------------------------------------------------------- what is computed

  datatype Estimate = NotReady | Ready(kf: Kf)

  /** How numbers are read. Admission lets only finite ones through. */
  function Number(f: ObservationCheck.Floats, bits: u64): real {
    match f.num(bits)
    case Finite(r) => r
    case NotFinite => 0.0
  }

  function Position(f: ObservationCheck.Floats, o: Observation): V2 {
    V2(Number(f, o.payload[0]), Number(f, o.payload[1]))
  }

  function Noise(f: ObservationCheck.Floats, o: Observation): M2 {
    M2(Number(f, o.covariance[0]), Number(f, o.covariance[1]), Number(f, o.covariance[2]), Number(f, o.covariance[3]))
  }

  /** One observation fed to the estimator: the first initialises it, later ones update it
      and may fail after predicting. */
  function Fed(f: ObservationCheck.Floats, p: Params, est: Estimate, o: Observation): Estimate {
    if o.shape != ObservationCheck.SHAPE_POSITION_2D then est
    else
      match est
      case NotReady => Ready(Initial(p, Position(f, o).a, Position(f, o).b, o.sampleTime))
      case Ready(kf) => Ready(Updated(kf, p, o.sampleTime, Position(f, o), Noise(f, o)).0)
  }

  /** The first position fixes the estimate: there, at rest, at its sample time. */
  lemma FirstPosition(f: ObservationCheck.Floats, p: Params, o: Observation)
    requires f.Good() && ObservationCheck.Sound(f, o) && o.shape == ObservationCheck.SHAPE_POSITION_2D
    ensures f.num(o.payload[0]).Finite? && f.num(o.payload[1]).Finite?
    ensures var e := Fed(f, p, NotReady, o);
            && e.Ready? && e.kf.initialized && e.kf.time == o.sampleTime
            && e.kf.mean == Matrix.V4(f.num(o.payload[0]).r, f.num(o.payload[1]).r, 0.0, 0.0)
  {
    SoundNumbersAreFinite(f, o);
    hide ObservationCheck.Sound;
  }

  /** A later one is a measurement of those coordinates, with the observation's own covariance, row by row. */
  lemma LaterPosition(f: ObservationCheck.Floats, p: Params, kf: Kf, o: Observation)
    requires f.Good() && ObservationCheck.Sound(f, o) && o.shape == ObservationCheck.SHAPE_POSITION_2D
    ensures f.num(o.payload[0]).Finite? && f.num(o.payload[1]).Finite?
    ensures forall i :: 0 <= i < 4 ==> f.num(o.covariance[i]).Finite?
    ensures var r := M2(f.num(o.covariance[0]).r, f.num(o.covariance[1]).r, f.num(o.covariance[2]).r, f.num(o.covariance[3]).r);
            Fed(f, p, Ready(kf), o)
            == Ready(Updated(kf, p, o.sampleTime, V2(f.num(o.payload[0]).r, f.num(o.payload[1]).r), r).0)
  {
    SoundNumbersAreFinite(f, o);
    hide ObservationCheck.Sound, Updated;
  }

  /** A valid position observation has finite numbers wherever the estimator reads them. */
  lemma SoundNumbersAreFinite(f: ObservationCheck.Floats, o: Observation)
    requires f.Good() && ObservationCheck.Sound(f, o) && o.shape == ObservationCheck.SHAPE_POSITION_2D
    ensures o.payloadCount == 2 && f.num(o.payload[0]).Finite? && f.num(o.payload[1]).Finite?
    ensures o.covCount == 4 && forall i :: 0 <= i < 4 ==> f.num(o.covariance[i]).Finite?
  {
    assert !ObservationCheck.Has(f, o, ObservationCheck.PayloadCountOutOfRange);
    assert !ObservationCheck.Has(f, o, ObservationCheck.NonFinitePayload);
    assert !ObservationCheck.Has(f, o, ObservationCheck.CovarianceCountOutOfRange);
    assert !ObservationCheck.Has(f, o, ObservationCheck.NonFiniteCovariance);
    assert forall i :: 0 <= i < 2 ==> o.payload[..2][i] == o.payload[i];
    assert forall i :: 0 <= i < 4 ==> ObservationCheck.Matrix(o)[i] == o.covariance[i];
  }

  predicate Configured(names: seq<Bytes>, o: Observation) {
    exists i :: 0 <= i < |names| && names[i] == Journal.CString(o.sensorId)
  }

  /** The estimate after a stream of windows. */
  function Live(f: ObservationCheck.Floats, p: Params, names: seq<Bytes>, ws: seq<Window>): Estimate {
    if ws == [] then NotReady
    else
      var (est, w) := (Live(f, p, names, ws[..|ws| - 1]), ws[|ws| - 1]);
      if w.admitted && Configured(names, w.obs) then Fed(f, p, est, w.obs) else est
  }

  /** The estimate after some observations alone. */
  function FedAll(f: ObservationCheck.Floats, p: Params, os: seq<Observation>): Estimate {
    if os == [] then NotReady else Fed(f, p, FedAll(f, p, os[..|os| - 1]), os[|os| - 1])
  }

  /** The observations of the admitted windows of configured sensors. */
  function Used(names: seq<Bytes>, ws: seq<Window>): seq<Observation> {
    if ws == [] then []
    else
      var w := ws[|ws| - 1];
      Used(names, ws[..|ws| - 1]) + if w.admitted && Configured(names, w.obs) then [w.obs] else []
  }

  /** Only those count: refused windows and sensors that are not configured leave no trace. */
  lemma {:induction false} OnlyUsedCount(f: ObservationCheck.Floats, p: Params, names: seq<Bytes>, ws: seq<Window>)
    ensures Live(f, p, names, ws) == FedAll(f, p, Used(names, ws))
  {
    hide Fed, Configured;
    if ws != [] {
      var (front, w) := (ws[..|ws| - 1], ws[|ws| - 1]);
      OnlyUsedCount(f, p, names, front);
      var used := Used(names, front);
      assert (used + [w.obs])[..|used|] == used && used + [] == used;
    }
  }

  lemma LiveSnoc(f: ObservationCheck.Floats, p: Params, names: seq<Bytes>, ws: seq<Window>, w: Window)
    ensures Live(f, p, names, ws + [w]) ==
            if w.admitted && Configured(names, w.obs) then Fed(f, p, Live(f, p, names, ws), w.obs) else Live(f, p, names, ws)
  {
    assert (ws + [w])[..|ws|] == ws;
  }

  // ------------------------------------------------------------------- the process

  /** The bounded circular queue. */
  class Queue {
    const slots: array<Window>
    var head: nat
    var tail: nat

    ghost predicate Valid()
      reads this
    {
      slots.Length == QUEUE_CAP && head < QUEUE_CAP && tail < QUEUE_CAP
    }

    ghost function Contents(): (c: seq<Window>)
      requires Valid()
      reads this, slots
      ensures |c| < QUEUE_CAP
    {
      Between(slots[..], head, tail)
    }

    constructor (blank: Window)
      ensures Valid() && Contents() == [] && fresh(slots)
    {
      slots := new Window[QUEUE_CAP](_ => blank);
      head, tail := 0, 0;
    }

    /** Adds a window unless the queue is full. */
    method Enqueue(w: Window) returns (taken: bool)
      requires Valid()
      modifies this`tail, slots
      ensures Valid() && (taken <==> |old(Contents())| < QUEUE_CAP - 1)
      ensures Contents() == if taken then old(Contents()) + [w] else old(Contents())
    {
      hide Between;
      var next := (tail + 1) % QUEUE_CAP;
      BetweenPush(slots[..], head, tail, w);
      if next == head { return false; }
      slots[tail] := w;
      tail := next;
      return true;
    }

    /** Takes everything queued, in order. */
    method TakeBatch(batch: array<Window>) returns (n: nat)
      requires Valid() && batch.Length == QUEUE_CAP && batch != slots
      modifies this`head, batch
      ensures Valid() && n <= QUEUE_CAP && batch[..n] == old(Contents()) && Contents() == []
    {
      hide Between;
      n := 0;
      assert batch[..0] == [];
      while head != tail && n < QUEUE_CAP
        invariant Valid() && n <= QUEUE_CAP && slots[..] == old(slots[..]) && tail == old(tail)
        invariant n + |Between(slots[..], head, tail)| == |old(Contents())|
        invariant batch[..n] + Between(slots[..], head, tail) == old(Contents())
        decreases QUEUE_CAP - n
      {
        BetweenPop(slots[..], head, tail);
        MoveOne(batch[..n], slots[head], Between(slots[..], (head + 1) % QUEUE_CAP, tail));
        batch[n] := slots[head];
        assert batch[..n + 1] == batch[..n] + [slots[head]];
        head := (head + 1) % QUEUE_CAP;
        n := n + 1;
      }
      BetweenEmpty(slots[..], tail);
      assert n < QUEUE_CAP;
    }
  }

  /** What lies between two positions of a circular buffer. */
  function Between(q: seq<Window>, head: nat, tail: nat): (c: seq<Window>)
    requires head < |q| && tail < |q|
    ensures |c| < |q|
  {
    if head <= tail then q[head..tail] else q[head..] + q[..tail]
  }

  lemma BetweenPush(q: seq<Window>, head: nat, tail: nat, w: Window)
    requires |q| == QUEUE_CAP && head < |q| && tail < |q|
    ensures var next := (tail + 1) % QUEUE_CAP;
            && (next != head ==> Between(q[tail := w], head, next) == Between(q, head, tail) + [w])
            && (next != head <==> |Between(q, head, tail)| < QUEUE_CAP - 1)
  {
  }

  lemma BetweenPop(q: seq<Window>, head: nat, tail: nat)
    requires |q| == QUEUE_CAP && head < |q| && tail < |q| && head != tail
    ensures Between(q, head, tail) == [q[head]] + Between(q, (head + 1) % QUEUE_CAP, tail)
  {
    var next := if head + 1 == QUEUE_CAP then 0 else head + 1;
    assert (head + 1) % QUEUE_CAP == next;
    if head < tail {
      assert q[head..tail] == [q[head]] + q[next..tail];
    } else if next == 0 {
      assert q[head..] == [q[head]];
    } else {
      assert q[head..] == [q[head]] + q[next..];
      assert [q[head]] + (q[next..] + q[..tail]) == ([q[head]] + q[next..]) + q[..tail];
    }
  }

  lemma BetweenEmpty(q: seq<Window>, at: nat)
    requires at < |q|
    ensures Between(q, at, at) == []
  {
  }

  lemma MoveOne(a: seq<Window>, w: Window, b: seq<Window>)
    ensures (a + [w]) + b == a + ([w] + b)
  {
  }

  // ------------------------------------------------------------------- the process

  class Process {
    const floats: ObservationCheck.Floats
    const params: Params
    const names: seq<Bytes>
    const queue: Queue
    const kf: KalmanFilter.KalmanState
    var kfReady: bool
    var lastProcessed: nat

    /** Every window offered by the reader, those fed to the estimator, and whether one was lost. */
    ghost var received: seq<Window>
    ghost var applied: seq<Window>
    ghost var lost: bool

    ghost function Value(): Estimate
      requires kf.Valid()
      reads this, kf, kf.mean, kf.covariance
    {
      if kfReady then Ready(kf.Value()) else NotReady
    }

    /** The estimate is that of the windows applied. */
    ghost predicate Computed()
      reads this, kf, kf.mean, kf.covariance
    {
      && kf.Valid() && Value() == Live(floats, params, names, applied)
      && lastProcessed == if applied == [] then 0 else applied[|applied| - 1].number
    }

    /** Nothing lost: what was received is what was applied and what is still queued. */
    ghost predicate Accounted()
      reads this, queue, queue.slots
    {
      queue.Valid() && (!lost ==> received == applied + queue.Contents())
    }

    constructor (floats: ObservationCheck.Floats, params: Params, names: seq<Bytes>, blank: Window)
      ensures Computed() && Accounted() && this.floats == floats && this.params == params && this.names == names
      ensures received == [] && applied == [] && !lost
      ensures fresh(queue) && fresh(queue.slots) && fresh(kf) && fresh(kf.mean) && fresh(kf.covariance)
    {
      this.floats, this.params, this.names := floats, params, names;
      queue := new Queue(blank);
      kf := new KalmanFilter.KalmanState();
      lastProcessed, kfReady := 0, false;
      received, applied, lost := [], [], false;
    }

    /** The reader thread's locked section: a window is dropped when the queue is full. */
    method Receive(w: Window)
      requires Accounted()
      modifies this`received, this`lost, queue`tail, queue.slots
      ensures Accounted() && received == old(received) + [w]
      ensures lost <==> old(lost) || |old(queue.Contents())| == QUEUE_CAP - 1
    {
      hide Between;
      ghost var was := queue.Contents();
      var taken := queue.Enqueue(w);
      received := received + [w];
      if !taken { lost := true; }
      assert received == old(received) + [w] && (applied + was) + [w] == applied + (was + [w]);
    }

    method SensorIsConfigured(o: Observation) returns (found: bool)
      ensures found <==> Configured(names, o)
    {
      var name := Journal.CString(o.sensorId);
      for i := 0 to |names|
        invariant forall k :: 0 <= k < i ==> names[k] != name
      {
        if names[i] == name { return true; }
      }
      return false;
    }

    /** The apply step for one window. */
    method Apply(w: Window)
      requires Computed()
      modifies this`kfReady, this`lastProcessed, this`applied, kf, kf.mean, kf.covariance
      ensures Computed() && applied == old(applied) + [w]
    {
      hide Live, Initial, Updated;
      LiveSnoc(floats, params, names, applied, w);
      var configured := SensorIsConfigured(w.obs);
      if w.admitted && configured && w.obs.shape == ObservationCheck.SHAPE_POSITION_2D {
        var (z, r) := (Position(floats, w.obs), Noise(floats, w.obs));
        if !kfReady {
          kf.Init(params, z.a, z.b, w.obs.sampleTime);
          kfReady := true;
        } else {
          var st := kf.UpdatePosition(params, w.obs.sampleTime, z.a, z.b, r);
        }
      }
      lastProcessed := w.number;
      applied := applied + [w];
    }

    /** Applies a batch in order. */
    method ApplyAll(batch: array<Window>, n: nat)
      requires n <= batch.Length && Computed()
      modifies this`kfReady, this`lastProcessed, this`applied, kf, kf.mean, kf.covariance
      ensures Computed() && applied == old(applied) + batch[..n]
    {
      hide Computed;
      ghost var was := applied;
      var i := 0;
      while i < n
        invariant i <= n && Computed() && applied == was + batch[..i]
      {
        assert batch[..i + 1] == batch[..i] + [batch[i]];
        Apply(batch[i]);
        i := i + 1;
      }
    }

    /** One turn of the main loop: everything queued is applied in order, so with nothing
        lost the estimate is that of everything received. */
    method Turn(batch: array<Window>)
      requires Computed() && Accounted() && batch.Length == QUEUE_CAP && batch != queue.slots
      modifies this`kfReady, this`lastProcessed, this`applied, queue`head, batch, kf, kf.mean, kf.covariance
      ensures Computed() && Accounted() && queue.Contents() == []
      ensures applied == old(applied) + old(queue.Contents())
      ensures !lost ==> Value() == Live(floats, params, names, received)
    {
      hide Live, Between, KalmanFilter.KalmanState.Value;
      var n := queue.TakeBatch(batch);
      ApplyAll(batch, n);
      assert applied + [] == applied;
    }
  }
}
