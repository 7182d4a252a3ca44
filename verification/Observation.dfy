/** Validation of one observation: every issue is reported once, in a fixed order, and the
    first decides the status. */
module ObservationCheck {
  import opened Reals
  import opened Machine
  import opened WireObservation
  import Covariance

  const EPSILON := 0.000000001

  datatype Double = Finite(r: real) | NotFinite

  /** How 64-bit patterns are read as numbers, and the square root. */
  datatype Floats = Floats(num: u64 -> Double, sqrt: real -> real) {
    ghost predicate Good() {
      forall s: real :: s > 0.0 ==> sqrt(s) > 0.0 && sqrt(s) * sqrt(s) == s
    }
  }

  datatype Category = Valid | InvalidArgument | Unsupported | Timing | Dimension | NonFinite | BadCovariance

  /** In the order in which they are looked for. */
  datatype Issue =
    | StructSizeMismatch | SensorIdEmpty | UnsupportedFrameOrUnits | TimeUncertaintyNegative
    | PayloadCountOutOfRange | NonFinitePayload
    | CovarianceCountOutOfRange | NonFiniteCovariance | CovarianceNotSymmetric | CovarianceNotPsd
  {
    function Category(): Category {
      match this
      case StructSizeMismatch | SensorIdEmpty => InvalidArgument
      case UnsupportedFrameOrUnits => Unsupported
      case TimeUncertaintyNegative => Timing
      case PayloadCountOutOfRange => Dimension
      case NonFinitePayload | NonFiniteCovariance => NonFinite
      case CovarianceCountOutOfRange | CovarianceNotSymmetric | CovarianceNotPsd => BadCovariance
    }

    function Place(): nat {
      match this
      case StructSizeMismatch => 0
      case SensorIdEmpty => 1
      case UnsupportedFrameOrUnits => 2
      case TimeUncertaintyNegative => 3
      case PayloadCountOutOfRange => 4
      case NonFinitePayload => 5
      case CovarianceCountOutOfRange => 6
      case NonFiniteCovariance => 7
      case CovarianceNotSymmetric => 8
      case CovarianceNotPsd => 9
    }
  }

  /** The status each issue gives when it is the first. */
  lemma CategoryIff(issue: Issue)
    ensures var c := issue.Category();
            && (c == InvalidArgument <==> issue == StructSizeMismatch || issue == SensorIdEmpty)
            && (c == Unsupported <==> issue == UnsupportedFrameOrUnits)
            && (c == Timing <==> issue == TimeUncertaintyNegative)
            && (c == Dimension <==> issue == PayloadCountOutOfRange)
            && (c == NonFinite <==> issue == NonFinitePayload || issue == NonFiniteCovariance)
            && (c == BadCovariance <==>
                issue == CovarianceCountOutOfRange || issue == CovarianceNotSymmetric || issue == CovarianceNotPsd)
  {
  }

  const SHAPE_POSITION_2D: u32 := 2

  function ShapeDimension(shape: u32): (d: nat)
    ensures d <= 4
  {
    match shape
    case 1 => 1
    case 2 => 2
    case 3 => 4
    case 4 => 1
    case _ => 0
  }

  predicate PayloadCounted(o: Observation) {
    ShapeDimension(o.shape) != 0 && o.payloadCount == ShapeDimension(o.shape)
  }

  predicate CovarianceCounted(o: Observation) {
    ShapeDimension(o.shape) != 0 && o.covCount == ShapeDimension(o.shape) * ShapeDimension(o.shape)
  }

  predicate AllFinite(f: Floats, xs: seq<u64>) {
    forall i :: 0 <= i < |xs| ==> f.num(xs[i]).Finite?
  }

  function Numbers(f: Floats, xs: seq<u64>): (r: seq<real>)
    requires AllFinite(f, xs)
    ensures |r| == |xs|
  {
    seq(|xs|, i requires 0 <= i < |xs| => f.num(xs[i]).r)
  }

  function Matrix(o: Observation): (m: seq<u64>)
    requires CovarianceCounted(o)
    ensures |m| == o.covCount <= 16
  {
    o.covariance[..o.covCount]
  }

  function Problem(f: Floats, o: Observation): Covariance.Problem
    requires CovarianceCounted(o) && AllFinite(f, Matrix(o))
  {
    Covariance.Problem(Numbers(f, Matrix(o)), ShapeDimension(o.shape), EPSILON, f.sqrt)
  }

  /** Equal up to the relative tolerance of the symmetry check. */
  predicate Close(a: real, b: real) {
    Abs(a - b) <= EPSILON * (1.0 + Abs(a) + Abs(b))
  }

  ghost predicate NearlySymmetric(p: Covariance.Problem)
    requires |p.cov| == p.dim * p.dim
  {
    forall i: nat, j: nat :: i < p.dim && j < p.dim ==> Close(Covariance.Entry(p, i, j), Covariance.Entry(p, j, i))
  }

  /** What each issue means. */
  ghost predicate Has(f: Floats, o: Observation, issue: Issue)
    requires f.Good()
  {
    match issue
    case StructSizeMismatch => o.structSize != OBSERVATION_SIZE
    case SensorIdEmpty => o.sensorId[0] == 0 || 0 !in o.sensorId
    case UnsupportedFrameOrUnits => o.frame == 0 || o.units == 0
    case TimeUncertaintyNegative => f.num(o.timeUncertainty).NotFinite? || f.num(o.timeUncertainty).r < 0.0
    case PayloadCountOutOfRange => !PayloadCounted(o)
    case NonFinitePayload => PayloadCounted(o) && !AllFinite(f, o.payload[..o.payloadCount])
    case CovarianceCountOutOfRange => !CovarianceCounted(o)
    case NonFiniteCovariance => CovarianceCounted(o) && !AllFinite(f, Matrix(o))
    case CovarianceNotSymmetric => CovarianceCounted(o) && AllFinite(f, Matrix(o)) && !NearlySymmetric(Problem(f, o))
    case CovarianceNotPsd =>
      && CovarianceCounted(o) && AllFinite(f, Matrix(o)) && NearlySymmetric(Problem(f, o))
      && !Covariance.Accepted(Problem(f, o))
  }

  ghost predicate Sound(f: Floats, o: Observation)
    requires f.Good()
  {
    forall issue :: !Has(f, o, issue)
  }

  /** Exactly the issues the observation has among the first `n` looked for, in order. */
  ghost predicate Reported(f: Floats, o: Observation, issues: seq<Issue>, n: nat)
    requires f.Good()
  {
    && (forall issue :: issue in issues <==> Has(f, o, issue) && issue.Place() < n)
    && forall i, j :: 0 <= i < j < |issues| ==> issues[i].Place() < issues[j].Place()
  }

  method IsTerminated(id: Bytes) returns (terminated: bool)
    ensures terminated <==> 0 in id
  {
    for i := 0 to |id|
      invariant 0 !in id[..i]
    {
      if id[i] == 0 { return true; }
      assert id[..i + 1] == id[..i] + [id[i]];
    }
    assert id[..|id|] == id;
    return false;
  }

  method Finites(f: Floats, xs: seq<u64>) returns (all: bool)
    ensures all <==> AllFinite(f, xs)
  {
    for i := 0 to |xs|
      invariant forall k :: 0 <= k < i ==> f.num(xs[k]).Finite?
    {
      if f.num(xs[i]).NotFinite? { return false; }
    }
    return true;
  }

  method Symmetry(p: Covariance.Problem) returns (symmetric: bool)
    requires |p.cov| == p.dim * p.dim
    ensures symmetric <==> NearlySymmetric(p)
  {
    hide Close;
    for i := 0 to p.dim
      invariant forall r: nat, c: nat :: r < i && c < p.dim ==> Close(Covariance.Entry(p, r, c), Covariance.Entry(p, c, r))
    {
      for j := 0 to p.dim
        invariant forall c: nat :: c < j ==> Close(Covariance.Entry(p, i, c), Covariance.Entry(p, c, i))
      {
        if !Close(Covariance.Entry(p, i, j), Covariance.Entry(p, j, i)) { return false; }
      }
    }
    return true;
  }

  /** Reporting the next issue looked for, if the observation has it. */
  lemma Note(f: Floats, o: Observation, issues: seq<Issue>, n: nat, issue: Issue)
    requires f.Good() && Reported(f, o, issues, n) && issue.Place() == n
    ensures Reported(f, o, if Has(f, o, issue) then issues + [issue] else issues, n + 1)
  {
    hide Has;
    assert forall other: Issue :: other.Place() == n ==> other == issue;
    assert forall i :: 0 <= i < |issues| ==> issues[i] in issues;
  }

  /** Identity, units and timing. */
  method CheckDescription(f: Floats, o: Observation) returns (issues: seq<Issue>)
    requires f.Good()
    ensures Reported(f, o, issues, 4)
  {
    hide Reported;
    issues := [];
    NothingReported(f, o);
    Note(f, o, issues, 0, StructSizeMismatch);
    if o.structSize != OBSERVATION_SIZE { issues := issues + [StructSizeMismatch]; }
    Note(f, o, issues, 1, SensorIdEmpty);
    var terminated := IsTerminated(o.sensorId);
    if o.sensorId[0] == 0 || !terminated { issues := issues + [SensorIdEmpty]; }
    Note(f, o, issues, 2, UnsupportedFrameOrUnits);
    if o.frame == 0 || o.units == 0 { issues := issues + [UnsupportedFrameOrUnits]; }
    Note(f, o, issues, 3, TimeUncertaintyNegative);
    var t := f.num(o.timeUncertainty);
    if t.NotFinite? || t.r < 0.0 { issues := issues + [TimeUncertaintyNegative]; }
  }

  lemma NothingReported(f: Floats, o: Observation)
    requires f.Good()
    ensures Reported(f, o, [], 0)
  {
  }

  method CheckPayload(f: Floats, o: Observation, before: seq<Issue>) returns (issues: seq<Issue>)
    requires f.Good() && Reported(f, o, before, 4)
    ensures Reported(f, o, issues, 6)
  {
    hide Reported, AllFinite;
    issues := before;
    Note(f, o, issues, 4, PayloadCountOutOfRange);
    if ShapeDimension(o.shape) == 0 || o.payloadCount != ShapeDimension(o.shape) || o.payloadCount > MAX_PAYLOAD {
      issues := issues + [PayloadCountOutOfRange];
      Note(f, o, issues, 5, NonFinitePayload);
    } else {
      Note(f, o, issues, 5, NonFinitePayload);
      var all := Finites(f, o.payload[..o.payloadCount]);
      if !all { issues := issues + [NonFinitePayload]; }
    }
  }

  method CheckCovariance(f: Floats, o: Observation, before: seq<Issue>) returns (issues: seq<Issue>)
    requires f.Good() && Reported(f, o, before, 6)
    ensures Reported(f, o, issues, 10)
  {
    hide Reported, AllFinite, NearlySymmetric, Covariance.Accepted, Numbers;
    issues := before;
    var expected := ShapeDimension(o.shape) * ShapeDimension(o.shape);
    Note(f, o, issues, 6, CovarianceCountOutOfRange);
    if ShapeDimension(o.shape) == 0 || o.covCount != expected || o.covCount > MAX_COV {
      issues := issues + [CovarianceCountOutOfRange];
      Note(f, o, issues, 7, NonFiniteCovariance);
      Note(f, o, issues, 8, CovarianceNotSymmetric);
      Note(f, o, issues, 9, CovarianceNotPsd);
      return;
    }
    Note(f, o, issues, 7, NonFiniteCovariance);
    var all := Finites(f, o.covariance[..o.covCount]);
    if !all {
      issues := issues + [NonFiniteCovariance];
      Note(f, o, issues, 8, CovarianceNotSymmetric);
      Note(f, o, issues, 9, CovarianceNotPsd);
      return;
    }
    Note(f, o, issues, 8, CovarianceNotSymmetric);
    var symmetric := Symmetry(Problem(f, o));
    if !symmetric {
      issues := issues + [CovarianceNotSymmetric];
      Note(f, o, issues, 9, CovarianceNotPsd);
      return;
    }
    Note(f, o, issues, 9, CovarianceNotPsd);
    var psd := Covariance.CovarianceIsPsd(Problem(f, o));
    if !psd { issues := issues + [CovarianceNotPsd]; }
  }

  /** Reports exactly the issues there are, and answers with the category of the first. */
  method Validate(f: Floats, o: Observation) returns (first: Category, issues: seq<Issue>)
    requires f.Good()
    ensures Reported(f, o, issues, 10)
    ensures first == if issues == [] then Valid else issues[0].Category()
    ensures first == Valid <==> Sound(f, o)
  {
    hide Has;
    issues := CheckDescription(f, o);
    issues := CheckPayload(f, o, issues);
    issues := CheckCovariance(f, o, issues);
    first := if issues == [] then Valid else issues[0].Category();
    assert issues != [] ==> issues[0] in issues;
    assert forall issue: Issue :: issue.Place() < 10;
  }

  /** A covariance that is finite, symmetric and positive semi-definite is never the reason for a refusal. */
  lemma TrueCovarianceIsNeverRefused(f: Floats, o: Observation, issue: Issue)
    requires f.Good() && CovarianceCounted(o) && AllFinite(f, Matrix(o)) && Covariance.Psd(Problem(f, o))
    requires issue.Category() == BadCovariance || issue == NonFiniteCovariance
    ensures !Has(f, o, issue)
  {
    var p := Problem(f, o);
    assert p.Valid();
    Covariance.PsdIsAccepted(p);
    hide Covariance.Accepted, Covariance.Psd, Problem, Numbers, AllFinite;
    assert Covariance.Symmetric(p);
    forall i: nat, j: nat | i < p.dim && j < p.dim
      ensures Close(Covariance.Entry(p, i, j), Covariance.Entry(p, j, i))
    {
    }
  }

  /** An admissible observation names its sensor with a terminated string and fits the codec. */
  lemma SoundFits(f: Floats, o: Observation)
    requires f.Good() && Sound(f, o)
    ensures o.CountsFit() && 0 in o.sensorId && o.sensorId[0] != 0 && o.structSize == OBSERVATION_SIZE
  {
    assert !Has(f, o, StructSizeMismatch) && !Has(f, o, SensorIdEmpty);
    assert !Has(f, o, PayloadCountOutOfRange) && !Has(f, o, CovarianceCountOutOfRange);
  }
}
